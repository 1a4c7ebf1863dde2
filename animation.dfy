/** The animation lifecycle of `src/animation/animation.ts`: an animation
    drives one mobject of the arena from progress 0 to progress 1, splitting
    the progress among the submobjects by a lag ratio. */
module Animations {
  import opened Wrappers
  import MathFunctions
  import RateFunctions
  import Mobjects
  import ArrayUtil

  /** `DEFAULT_ANIMATION_RUN_TIME` and `DEFAULT_ANIMATION_LAG_RATIO` of
      `src/constants.ts`. */
  const DEFAULT_ANIMATION_RUN_TIME: real := 1.0
  const DEFAULT_ANIMATION_LAG_RATIO: real := 0.0

  /** The message of the exception a read through `undefined` raises. */
  const UNDEFINED_READ: string := "Cannot read properties of undefined"

  // ---------------------------------------------------------------------
  // Progress arithmetic

  /** `getSubAlpha(alpha, i, n)`: submobject i starts `lagRatio` of a unit
      after submobject i - 1, the whole run is stretched to length
      (n - 1) lagRatio + 1, and the result is clipped to [0, 1]. */
  function SubAlpha(lagRatio: real, alpha: real, i: int, n: int): (r: real)
    ensures 0.0 <= r <= 1.0
  {
    var fullLength := (n - 1) as real * lagRatio + 1.0;
    var value := alpha * fullLength;
    var lower := i as real * lagRatio;
    MathFunctions.Clip(value - lower, 0.0, 1.0)
  }

  /** Without lag every submobject follows the overall progress. */
  lemma SubAlphaWithoutLag(alpha: real, i: int, n: int)
    requires 0.0 <= alpha <= 1.0
    ensures SubAlpha(0.0, alpha, i, n) == alpha
  {
  }

  /** With a non-negative lag every submobject is at 0 at the start and at 1
      at the end. */
  lemma SubAlphaEndpoints(lagRatio: real, i: int, n: int)
    requires lagRatio >= 0.0 && 0 <= i < n
    ensures SubAlpha(lagRatio, 0.0, i, n) == 0.0
    ensures SubAlpha(lagRatio, 1.0, i, n) == 1.0
  {
    MathFunctions.MulNonNegative(i as real, lagRatio);
    MathFunctions.MulNonNegative((n - 1 - i) as real, lagRatio);
    assert ((n - 1) as real * lagRatio + 1.0) - i as real * lagRatio == (n - 1 - i) as real * lagRatio + 1.0;
  }

  /** With a non-negative lag a later submobject is never ahead of an
      earlier one. */
  lemma SubAlphaNonIncreasing(lagRatio: real, alpha: real, i: int, j: int, n: int)
    requires lagRatio >= 0.0 && i <= j
    ensures SubAlpha(lagRatio, alpha, j, n) <= SubAlpha(lagRatio, alpha, i, n)
  {
    MathFunctions.MulNonNegative((j - i) as real, lagRatio);
    assert j as real * lagRatio == i as real * lagRatio + (j - i) as real * lagRatio;
  }

  /** The progress `interpolate(alpha)` hands on: alpha clipped to [0, 1],
      then eased. */
  function EasedProgress(rateFunc: RateFunctions.RateFunc, alpha: real): (r: real)
    ensures alpha <= 0.0 ==> r == rateFunc(0.0)
    ensures alpha >= 1.0 ==> r == rateFunc(1.0)
    ensures 0.0 <= alpha <= 1.0 ==> r == rateFunc(alpha)
  {
    rateFunc(MathFunctions.Clip(alpha, 0.0, 1.0))
  }

  // ---------------------------------------------------------------------
  // Families

  /** `getAllFamiliesZipped()` as written: the family with points of each
      animated mobject, one list per mobject and not zipped. */
  function FamiliesWithPoints(nodes: seq<Mobjects.Node>, mobs: seq<Mobjects.Id>): (r: Option<seq<seq<Mobjects.Id>>>)
    requires Mobjects.Linked(nodes) && Mobjects.AllIn(nodes, mobs)
    ensures r.Some? <==> forall k :: 0 <= k < |mobs| ==> Mobjects.GetFamily(nodes, mobs[k]).Some?
    ensures r.Some? ==> |r.value| == |mobs|
    ensures r.Some? ==> forall k :: 0 <= k < |mobs| ==> r.value[k] == Mobjects.FamilyWithPoints(nodes, mobs[k]).value
  {
    if mobs == [] then Some([])
    else
      var head := Mobjects.FamilyWithPoints(nodes, mobs[0]);
      var rest := FamiliesWithPoints(nodes, mobs[1..]);
      if head.None? || rest.None? then
        assert rest.None? ==> exists k :: 0 <= k < |mobs| - 1 && Mobjects.GetFamily(nodes, mobs[1..][k]).None?;
        None
      else Some([head.value] + rest.value)
  }

  /** The length of the shortest list. */
  function Shortest(lists: seq<seq<Mobjects.Id>>): (m: nat)
    ensures forall j :: 0 <= j < |lists| ==> m <= |lists[j]|
    ensures lists != [] ==> exists j :: 0 <= j < |lists| && m == |lists[j]|
  {
    if lists == [] then 0
    else if |lists| == 1 then |lists[0]|
    else
      var rest := Shortest(lists[1..]);
      assert forall j :: 1 <= j < |lists| ==> lists[1..][j - 1] == lists[j];
      if |lists[0]| <= rest then |lists[0]| else rest
  }

  /** Python's `zip(*lists)`: tuple k holds the k-th entry of every list, and
      there are as many tuples as the shortest list has entries. */
  function Zip(lists: seq<seq<Mobjects.Id>>): (r: seq<seq<Mobjects.Id>>)
    ensures |r| == Shortest(lists)
    ensures forall k :: 0 <= k < |r| ==> |r[k]| == |lists| && forall j :: 0 <= j < |lists| ==> r[k][j] == lists[j][k]
  {
    var m := Shortest(lists);
    seq(m, k requires 0 <= k < m => seq(|lists|, j requires 0 <= j < |lists| => lists[j][k]))
  }

  /** `getAllFamiliesZipped()` as intended: the families with points zipped,
      so that each tuple pairs a submobject with its counterparts. */
  function ZippedFamilies(nodes: seq<Mobjects.Node>, mobs: seq<Mobjects.Id>): (r: Option<seq<seq<Mobjects.Id>>>)
    requires Mobjects.Linked(nodes) && Mobjects.AllIn(nodes, mobs)
    ensures r.Some? <==> FamiliesWithPoints(nodes, mobs).Some?
    ensures r.Some? ==> forall j :: 0 <= j < |mobs| ==> |r.value| <= |Mobjects.FamilyWithPoints(nodes, mobs[j]).value|
    ensures r.Some? && mobs != [] ==> exists j :: 0 <= j < |mobs| && |r.value| == |Mobjects.FamilyWithPoints(nodes, mobs[j]).value|
    ensures r.Some? ==> forall k :: 0 <= k < |r.value| ==>
              |r.value[k]| == |mobs| &&
              forall j :: 0 <= j < |mobs| ==> r.value[k][j] == Mobjects.FamilyWithPoints(nodes, mobs[j]).value[k]
  {
    var families := FamiliesWithPoints(nodes, mobs);
    if families.None? then None else Some(Zip(families.value))
  }

  /** Two complete families zip. */
  lemma ZippedPair(nodes: seq<Mobjects.Node>, a: Mobjects.Id, b: Mobjects.Id)
    requires Mobjects.Linked(nodes) && a < |nodes| && b < |nodes|
    requires Mobjects.GetFamily(nodes, a).Some? && Mobjects.GetFamily(nodes, b).Some?
    ensures ZippedFamilies(nodes, [a, b]).Some?
  {
    var mobs := [a, b];
    assert forall k :: 0 <= k < |mobs| ==> Mobjects.GetFamily(nodes, mobs[k]).Some?;
  }

  /** What `begin()` leaves in the arena: the mobjects that were there,
      with the target's whole family suspended when asked to and nothing else
      changed, followed by a deep copy of the target whose family zips with
      the target's. */
  ghost predicate Begun(before: seq<Mobjects.Node>, after: seq<Mobjects.Node>, mobject: Mobjects.Id, copy: Mobjects.Id, suspend: bool)
  {
    Mobjects.Linked(before) && Mobjects.Linked(after) && mobject < |before| <= copy < |after| &&
    Mobjects.GetFamily(before, mobject).Some? &&
    after[..|before|] == (if suspend then Mobjects.Edited(before, Mobjects.GetFamily(before, mobject).value, Mobjects.SetSuspended(true))
                          else before) &&
    Mobjects.IsCopy(after, copy, before, mobject, |before|, |before|) &&
    ZippedFamilies(after, [mobject, copy]).Some?
  }

  /** Copying, then suspending the target's family or not, is `Begun`. */
  lemma BegunHolds(original: seq<Mobjects.Node>, copied: seq<Mobjects.Node>, after: seq<Mobjects.Node>,
                   mobject: Mobjects.Id, copy: Mobjects.Id, suspend: bool)
    requires Mobjects.Linked(original) && Mobjects.Linked(copied) && |original| <= |copied| && copied[..|original|] == original
    requires mobject < |original| <= copy < |copied|
    requires Mobjects.GetFamily(original, mobject).Some? && Mobjects.GetFamily(copied, copy).Some?
    requires Mobjects.GetFamily(copied, mobject) == Mobjects.GetFamily(original, mobject)
    requires Mobjects.IsCopy(copied, copy, original, mobject, |original|, |original|)
    requires after == if suspend then Mobjects.Edited(copied, Mobjects.GetFamily(copied, mobject).value, Mobjects.SetSuspended(true))
                      else copied
    ensures Begun(original, after, mobject, copy, suspend)
  {
    if suspend {
      Mobjects.EditBesideCopy(original, copied, mobject, copy, Mobjects.SetSuspended(true));
    }
    ZippedPair(after, mobject, copy);
  }

  /** A lone mobject with points and its copy: as written, each hook call
      gets a one-element list, so a hook reading its second entry (the
      starting copy) reads past the end; zipped, the one call gets the pair. */
  lemma FamiliesNotZipped(p: Mobjects.Node, q: Mobjects.Node)
    requires p.submobjects == [] && q.submobjects == [] && |p.points| > 0 && |q.points| > 0
    ensures FamiliesWithPoints([p, q], [0, 1]) == Some([[0], [1]])
    ensures ZippedFamilies([p, q], [0, 1]) == Some([[0, 1]])
  {
    var nodes := [p, q];
    assert Mobjects.Linked(nodes);
    LeafFamilies(nodes, 0, 1);
    ZipSingletons(0, 1);
  }

  /** Two leaves with points have themselves as their families with points. */
  lemma LeafFamilies(nodes: seq<Mobjects.Node>, a: Mobjects.Id, b: Mobjects.Id)
    requires Mobjects.Linked(nodes) && a < |nodes| && b < |nodes|
    requires nodes[a].submobjects == [] && nodes[b].submobjects == []
    requires |nodes[a].points| > 0 && |nodes[b].points| > 0
    ensures FamiliesWithPoints(nodes, [a, b]) == Some([[a], [b]])
  {
    Mobjects.LeafFamily(nodes, a);
    Mobjects.LeafFamily(nodes, b);
    var f := FamiliesWithPoints(nodes, [a, b]);
    assert f.Some? && |f.value| == 2 && f.value[0] == [a] && f.value[1] == [b];
    assert f.value == [[a], [b]];
  }

  lemma ZipSingletons(a: Mobjects.Id, b: Mobjects.Id)
    ensures Zip([[a], [b]]) == [[a, b]]
  {
    var z := Zip([[a], [b]]);
    assert |z| == 1 && |z[0]| == 2 && z[0][0] == a && z[0][1] == b;
    assert z[0] == [a, b];
  }

  /** One call of the `interpolateSubMobject` hook. */
  datatype HookCall = HookCall(mobs: seq<Mobjects.Id>, subAlpha: real)

  /** The hook calls of `interpolateMobject(alpha)`: tuple i with its
      sub-alpha. */
  function HookCalls(tuples: seq<seq<Mobjects.Id>>, alpha: real, lagRatio: real): (r: seq<HookCall>)
    ensures |r| == |tuples|
    ensures forall i :: 0 <= i < |r| ==> r[i].mobs == tuples[i] && 0.0 <= r[i].subAlpha <= 1.0
  {
    seq(|tuples|, i requires 0 <= i < |tuples| => HookCall(tuples[i], SubAlpha(lagRatio, alpha, i, |tuples|)))
  }

  /** With a non-negative lag, progress 0 and 1 reach every submobject as 0
      and 1. */
  lemma HookCallsEndpoints(tuples: seq<seq<Mobjects.Id>>, lagRatio: real)
    requires lagRatio >= 0.0
    ensures forall i :: 0 <= i < |tuples| ==> HookCalls(tuples, 0.0, lagRatio)[i].subAlpha == 0.0
    ensures forall i :: 0 <= i < |tuples| ==> HookCalls(tuples, 1.0, lagRatio)[i].subAlpha == 1.0
  {
    forall i | 0 <= i < |tuples|
      ensures HookCalls(tuples, 0.0, lagRatio)[i].subAlpha == 0.0 && HookCalls(tuples, 1.0, lagRatio)[i].subAlpha == 1.0
    {
      SubAlphaEndpoints(lagRatio, i, |tuples|);
    }
  }

  /** Every listed mobject that is defined exists in the arena. */
  predicate DefinedWithin(nodes: seq<Mobjects.Node>, mobs: seq<Option<Mobjects.Id>>)
  {
    forall k :: 0 <= k < |mobs| && mobs[k].Some? ==> mobs[k].value < |nodes|
  }

  /** The updater calls of `update(dt)` on each listed mobject in turn. The
      first `undefined` entry, or the first cyclic family, throws. */
  function UpdatesOf(nodes: seq<Mobjects.Node>, mobs: seq<Option<Mobjects.Id>>, dt: real): (r: Result<seq<Mobjects.Call>>)
    requires Mobjects.Linked(nodes) && DefinedWithin(nodes, mobs)
    ensures r.Err? <==> exists k :: 0 <= k < |mobs| && (mobs[k].None? || Mobjects.Update(nodes, mobs[k].value, dt, true).None?)
    ensures r.Ok? ==> forall k :: 0 <= k < |mobs| ==> |Mobjects.Update(nodes, mobs[k].value, dt, true).value| <= |r.value|
  {
    if mobs == [] then Ok([])
    else
      var init := mobs[..|mobs| - 1];
      var last := mobs[|mobs| - 1];
      assert forall k :: 0 <= k < |init| ==> init[k] == mobs[k];
      var before := UpdatesOf(nodes, init, dt);
      if before.Err? then before
      else if last.None? then Err(UNDEFINED_READ)
      else
        var calls := Mobjects.Update(nodes, last.value, dt, true);
        if calls.None? then Err(Mobjects.STACK_OVERFLOW) else Ok(before.value + calls.value)
  }

  /** One more mobject: its updates follow those of the prefix, unless
      the prefix or the mobject throws. */
  lemma UpdatesOfStep(nodes: seq<Mobjects.Node>, mobs: seq<Option<Mobjects.Id>>, i: nat, dt: real)
    requires Mobjects.Linked(nodes) && DefinedWithin(nodes, mobs) && i < |mobs|
    ensures DefinedWithin(nodes, mobs[..i]) && DefinedWithin(nodes, mobs[..i + 1])
    ensures var before := UpdatesOf(nodes, mobs[..i], dt);
            UpdatesOf(nodes, mobs[..i + 1], dt) ==
              if before.Err? then before
              else if mobs[i].None? then Err(UNDEFINED_READ)
              else if Mobjects.Update(nodes, mobs[i].value, dt, true).None? then Err(Mobjects.STACK_OVERFLOW)
              else Ok(before.value + Mobjects.Update(nodes, mobs[i].value, dt, true).value)
  {
    assert mobs[..i + 1][..i] == mobs[..i];
  }

  /** Once a prefix has thrown, the rest of the list is not reached. */
  lemma {:induction false} UpdatesOfStopsAtError(nodes: seq<Mobjects.Node>, mobs: seq<Option<Mobjects.Id>>, j: nat, dt: real)
    requires Mobjects.Linked(nodes) && DefinedWithin(nodes, mobs) && j <= |mobs|
    requires UpdatesOf(nodes, mobs[..j], dt).Err?
    ensures UpdatesOf(nodes, mobs, dt) == UpdatesOf(nodes, mobs[..j], dt)
    decreases |mobs|
  {
    if j == |mobs| {
      assert mobs[..j] == mobs;
    } else {
      var init := mobs[..|mobs| - 1];
      assert init[..j] == mobs[..j];
      UpdatesOfStopsAtError(nodes, init, j, dt);
    }
  }

  // ---------------------------------------------------------------------
  // The animation object

  class Animation {
    var mobject: Mobjects.Id
    var runTime: real
    var rateFunc: RateFunctions.RateFunc
    var lagRatio: real
    var suspendMobjectUpdating: bool
    var remover: bool
    /** `undefined` until `begin`. */
    var startingMobject: Option<Mobjects.Id>
    /** The calls of the `interpolateSubMobject` hook so far; the base hook
        changes nothing. */
    ghost var hooks: seq<HookCall>

    /** The mobjects this animation refers to exist in the arena. */
    ghost predicate Within(arena: Mobjects.Arena)
      reads this, arena
    {
      arena.Valid() && mobject < |arena.nodes| &&
      (startingMobject.Some? ==> startingMobject.value < |arena.nodes|)
    }

    constructor (mobject: Mobjects.Id,
                 runTime: real := DEFAULT_ANIMATION_RUN_TIME,
                 rateFunc: RateFunctions.RateFunc := RateFunctions.Smooth,
                 lagRatio: real := DEFAULT_ANIMATION_LAG_RATIO)
      ensures this.mobject == mobject && this.runTime == runTime
      ensures this.rateFunc == rateFunc && this.lagRatio == lagRatio
      ensures !suspendMobjectUpdating && !remover && startingMobject.None? && hooks == []
    {
      this.mobject := mobject;
      this.runTime := runTime;
      this.rateFunc := rateFunc;
      this.lagRatio := lagRatio;
      suspendMobjectUpdating := false;
      remover := false;
      startingMobject := None;
      hooks := [];
    }

    /** `getAllMobjects()`: the target and its starting copy. */
    function AllMobjects(): (r: seq<Option<Mobjects.Id>>)
      reads this
      ensures r == [Some(mobject), startingMobject]
    {
      [Some(mobject), startingMobject]
    }

    /** `getAllMobjectsToUpdate()`: the target is left out exactly when its
        updating is suspended during the animation. */
    function AllMobjectsToUpdate(): (r: seq<Option<Mobjects.Id>>)
      reads this
      ensures forall x :: x in r <==> x in AllMobjects() && (x != Some(mobject) || !suspendMobjectUpdating)
      ensures Some(mobject) in r <==> !suspendMobjectUpdating
    {
      if suspendMobjectUpdating then
        (if startingMobject != Some(mobject) then [startingMobject] else [])
      else AllMobjects()
    }

    /** `updateMobjects(dt)`: `update(dt)` on each mobject to update, in
        order, returning the updater calls; before `begin` the starting
        mobject is `undefined` and updating it throws. */
    method UpdateMobjects(arena: Mobjects.Arena, dt: real) returns (r: Result<seq<Mobjects.Call>>)
      requires Within(arena)
      ensures DefinedWithin(arena.nodes, AllMobjectsToUpdate())
      ensures r == UpdatesOf(arena.nodes, AllMobjectsToUpdate(), dt)
    {
      var mobs := AllMobjectsToUpdate();
      var nodes := arena.nodes;
      var calls: seq<Mobjects.Call> := [];
      var i := 0;
      while i < |mobs|
        invariant 0 <= i <= |mobs|
        invariant UpdatesOf(nodes, mobs[..i], dt) == Ok(calls)
      {
        UpdatesOfStep(nodes, mobs, i, dt);
        var mob := mobs[i];
        if mob.None? {
          UpdatesOfStopsAtError(nodes, mobs, i + 1, dt);
          return Err(UNDEFINED_READ);
        }
        var c := Mobjects.Update(nodes, mob.value, dt, true);
        if c.None? {
          UpdatesOfStopsAtError(nodes, mobs, i + 1, dt);
          return Err(Mobjects.STACK_OVERFLOW);
        }
        calls := calls + c.value;
        i := i + 1;
      }
      assert mobs[..i] == mobs;
      r := Ok(calls);
    }

    /** `interpolateMobject(alpha)`: one hook call per zipped family tuple,
        each with its sub-alpha. Before `begin` the starting mobject is
        `undefined` and reading its family throws. */
    method InterpolateMobject(arena: Mobjects.Arena, alpha: real) returns (o: Outcome)
      requires Within(arena)
      modifies this`hooks
      ensures o.Fail? <==> startingMobject.None? || ZippedFamilies(arena.nodes, [mobject, startingMobject.value]).None?
      ensures o.Fail? ==> hooks == old(hooks)
      ensures o.Pass? ==> hooks == old(hooks) + HookCalls(ZippedFamilies(arena.nodes, [mobject, startingMobject.value]).value, alpha, lagRatio)
    {
      if startingMobject.None? {
        return Fail(UNDEFINED_READ);
      }
      var families := ZippedFamilies(arena.nodes, [mobject, startingMobject.value]);
      if families.None? {
        return Fail(Mobjects.STACK_OVERFLOW);
      }
      InterpolateSubMobjects(families.value, alpha);
      o := Pass;
    }

    /** The loop of `interpolateMobject(alpha)`: the hook on each tuple in
        order, with its sub-alpha. */
    method InterpolateSubMobjects(tuples: seq<seq<Mobjects.Id>>, alpha: real)
      modifies this`hooks
      ensures hooks == old(hooks) + HookCalls(tuples, alpha, lagRatio)
    {
      ghost var calls := HookCalls(tuples, alpha, lagRatio);
      var i := 0;
      while i < |tuples|
        invariant 0 <= i <= |tuples|
        invariant hooks == old(hooks) + calls[..i]
      {
        hooks := hooks + [HookCall(tuples[i], SubAlpha(lagRatio, alpha, i, |tuples|))];
        assert calls[..i + 1] == calls[..i] + [calls[i]];
        i := i + 1;
      }
      assert calls[..i] == calls;
    }

    /** `interpolate(alpha)`: clip, ease, then interpolate the mobject. */
    method Interpolate(arena: Mobjects.Arena, alpha: real) returns (o: Outcome)
      requires Within(arena)
      modifies this`hooks
      ensures o.Fail? <==> startingMobject.None? || ZippedFamilies(arena.nodes, [mobject, startingMobject.value]).None?
      ensures o.Fail? ==> hooks == old(hooks)
      ensures o.Pass? ==> hooks == old(hooks) + HookCalls(ZippedFamilies(arena.nodes, [mobject, startingMobject.value]).value, EasedProgress(rateFunc, alpha), lagRatio)
    {
      o := InterpolateMobject(arena, rateFunc(MathFunctions.Clip(alpha, 0.0, 1.0)));
    }

    /** `createStartingMobject()`: a deep copy of the target, appended to
        the arena; none when the target's family is cyclic. */
    method CreateStartingMobject(arena: Mobjects.Arena) returns (r: Option<Mobjects.Id>)
      requires Within(arena)
      modifies arena
      ensures Within(arena) && |arena.nodes| >= old(|arena.nodes|) && arena.nodes[..old(|arena.nodes|)] == old(arena.nodes)
      ensures r.None? <==> Mobjects.GetFamily(old(arena.nodes), mobject).None?
      ensures r.Some? ==> old(|arena.nodes|) <= r.value < |arena.nodes|
      ensures r.Some? ==> Mobjects.IsCopy(arena.nodes, r.value, old(arena.nodes), mobject, old(|arena.nodes|), old(|arena.nodes|))
      ensures r.Some? ==> Mobjects.GetFamily(arena.nodes, r.value).Some? &&
                          Mobjects.GetFamily(arena.nodes, mobject) == Mobjects.GetFamily(old(arena.nodes), mobject)
    {
      ghost var original := arena.nodes;
      r := arena.Copy(mobject);
      if r.Some? {
        Mobjects.GetFamilyPrefix(original, arena.nodes, mobject);
      }
    }

    /** The part of `begin()` before `interpolate(0)`: snapshot a copy of
        the target as the starting mobject, then suspend the updating of
        the target's whole family if asked to. */
    method Snapshot(arena: Mobjects.Arena) returns (o: Outcome)
      requires Within(arena)
      modifies this`startingMobject, arena
      ensures Within(arena) && |arena.nodes| >= old(|arena.nodes|)
      ensures o.Fail? <==> Mobjects.GetFamily(old(arena.nodes), mobject).None?
      ensures o.Fail? ==> arena.nodes[..old(|arena.nodes|)] == old(arena.nodes)
      ensures o.Pass? ==> startingMobject.Some? &&
                          Begun(old(arena.nodes), arena.nodes, mobject, startingMobject.value, suspendMobjectUpdating)
      ensures o.Pass? && suspendMobjectUpdating ==> Mobjects.Update(arena.nodes, mobject, 0.0, true) == Some([])
    {
      ghost var original := arena.nodes;
      var copy := CreateStartingMobject(arena);
      if copy.None? {
        return Fail(Mobjects.STACK_OVERFLOW);
      }
      ghost var copied := arena.nodes;
      if suspendMobjectUpdating {
        var s := arena.SuspendUpdating(mobject, true);
      }
      BegunHolds(original, copied, arena.nodes, mobject, copy.value, suspendMobjectUpdating);
      startingMobject := copy;
      o := Pass;
    }

    /** `begin()`: the snapshot, then `interpolate(0)`. Only a cyclic family
        makes it throw. */
    method Begin(arena: Mobjects.Arena) returns (o: Outcome)
      requires Within(arena)
      modifies this`startingMobject, this`hooks, arena
      ensures Within(arena) && |arena.nodes| >= old(|arena.nodes|)
      ensures o.Fail? <==> Mobjects.GetFamily(old(arena.nodes), mobject).None?
      ensures o.Fail? ==> arena.nodes[..old(|arena.nodes|)] == old(arena.nodes) && hooks == old(hooks)
      ensures o.Pass? ==> startingMobject.Some? &&
                          Begun(old(arena.nodes), arena.nodes, mobject, startingMobject.value, suspendMobjectUpdating)
      ensures o.Pass? && suspendMobjectUpdating ==> Mobjects.Update(arena.nodes, mobject, 0.0, true) == Some([])
      ensures o.Pass? ==> hooks == old(hooks) + HookCalls(ZippedFamilies(arena.nodes, [mobject, startingMobject.value]).value,
                                                          rateFunc(0.0), lagRatio)
    {
      o := Snapshot(arena);
      if o.Fail? {
        return;
      }
      o := Interpolate(arena, 0.0);
    }

    /** `finish()`: interpolate at 1, then resume the updating of the
        target's whole family if it was suspended. */
    method Finish(arena: Mobjects.Arena) returns (o: Outcome)
      requires Within(arena)
      modifies this`hooks, arena
      ensures Within(arena) && |arena.nodes| == old(|arena.nodes|)
      ensures o.Fail? <==> startingMobject.None? || ZippedFamilies(old(arena.nodes), [mobject, startingMobject.value]).None?
      ensures o.Fail? ==> arena.nodes == old(arena.nodes) && hooks == old(hooks)
      ensures o.Pass? ==> var tuples := ZippedFamilies(old(arena.nodes), [mobject, startingMobject.value]);
                          tuples.Some? && hooks == old(hooks) + HookCalls(tuples.value, rateFunc(1.0), lagRatio)
      ensures o.Pass? && !suspendMobjectUpdating ==> arena.nodes == old(arena.nodes)
      ensures o.Pass? && suspendMobjectUpdating ==>
                arena.nodes == Mobjects.Edited(old(arena.nodes), Mobjects.GetFamily(old(arena.nodes), mobject).value, Mobjects.SetSuspended(false))
    {
      o := Interpolate(arena, 1.0);
      if o.Fail? {
        return;
      }
      if suspendMobjectUpdating {
        o := arena.ResumeUpdating(mobject, true);
      }
    }
  }
}
