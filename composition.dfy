/** Animation composition of `src/animation/composition.ts`: a group plays
    its children over staggered time windows, a succession plays them one
    after another with one active child at a time.

    The children are animations of any kind, whose own behaviour lies
    outside this module; the group only decides when to call them and with
    what progress. A child is therefore seen through its identity, its run
    time and its target, and the calls the group makes on the children are
    recorded in order. */
module Compositions {
  import opened Wrappers
  import MathFunctions
  import Interpolation
  import RateFunctions
  import ArrayUtil
  import Colors
  import Mobjects
  import Animations

  /** `DEFAULT_ANIMATION_LAGGED_START_LAG_RATIO` of `src/constants.ts`. */
  const DEFAULT_ANIMATION_LAGGED_START_LAG_RATIO: real := 0.05

  const EMPTY_SUCCESSION: string := "Animations list cannot be empty"

  /** A child animation as its group sees it. */
  datatype Child = Child(id: nat, runTime: real, mobject: Mobjects.Id)

  /** One entry of `animationsTiming`: the child and its time window. */
  datatype Timing = Timing(child: Child, start: real, end: real)

  /** A method of the animation interface. */
  datatype Hook =
    | Began
    | Finished
    | CleanedUp
    | Updated(dt: real)
    | Interpolated(alpha: real)

  /** A call the group makes on a child. */
  datatype ChildCall = Call(id: nat, hook: Hook)

  // ---------------------------------------------------------------------
  // Timing windows

  /** The windows of `getAnimationsWithTimings()` when the first child
      starts at `from`: each child ends its own run time after its start, and
      the next one starts `lagRatio` of the way through the window. */
  function Timings(children: seq<Child>, lagRatio: real, from: real): (r: seq<Timing>)
    ensures |r| == |children|
    decreases |children|
  {
    if children == [] then []
    else
      var end := from + children[0].runTime;
      [Timing(children[0], from, end)] + Timings(children[1..], lagRatio, Interpolation.Interpolate(from, end, lagRatio))
  }

  /** The windows follow the children in order, the first starts at `from`
      and each lasts its child's run time. */
  lemma {:induction false} TimingsWindows(children: seq<Child>, lagRatio: real, from: real, i: nat)
    requires i < |children|
    ensures var r := Timings(children, lagRatio, from);
            r[i].child == children[i] && r[i].end == r[i].start + children[i].runTime &&
            (i == 0 ==> r[i].start == from)
    decreases i
  {
    if i > 0 {
      var end := from + children[0].runTime;
      TimingsWindows(children[1..], lagRatio, Interpolation.Interpolate(from, end, lagRatio), i - 1);
    }
  }

  /** The first window, then the rest from the lagged start. */
  lemma TimingsCons(children: seq<Child>, lagRatio: real, from: real)
    requires children != []
    ensures var end := from + children[0].runTime;
            Timings(children, lagRatio, from) ==
              [Timing(children[0], from, end)] + Timings(children[1..], lagRatio, Interpolation.Interpolate(from, end, lagRatio))
  {
  }

  /** Each start lies `lagRatio` of the previous window after the previous
      start. */
  lemma {:induction false} TimingsStep(children: seq<Child>, lagRatio: real, from: real, i: nat)
    requires i + 1 < |children|
    ensures var r := Timings(children, lagRatio, from);
            r[i + 1].start == r[i].start + lagRatio * (r[i].end - r[i].start)
    decreases i
  {
    var end := from + children[0].runTime;
    var next := Interpolation.Interpolate(from, end, lagRatio);
    TimingsCons(children, lagRatio, from);
    if i == 0 {
      Interpolation.InterpolateAffine(from, end, lagRatio);
    } else {
      var j := i - 1;
      TimingsStep(children[1..], lagRatio, next, j);
      assert j + 1 == i;
    }
  }

  /** Without lag every child starts at once. */
  lemma {:induction false} TimingsWithoutLag(children: seq<Child>, from: real, i: nat)
    requires i < |children|
    ensures Timings(children, 0.0, from)[i].start == from
  {
    if i > 0 {
      var j := i - 1;
      TimingsWithoutLag(children, from, j);
      TimingsStep(children, 0.0, from, j);
      assert j + 1 == i;
    }
  }

  /** With lag ratio 1 each child starts when the previous one ends. */
  lemma TimingsBackToBack(children: seq<Child>, from: real, i: nat)
    requires i + 1 < |children|
    ensures Timings(children, 1.0, from)[i + 1].start == Timings(children, 1.0, from)[i].end
  {
    TimingsStep(children, 1.0, from, i);
  }

  /** A start lagged by a non-negative share of a window that starts no
      earlier than `from` starts no earlier than `from` either. */
  lemma StartAfterLag(from: real, start: real, end: real, lagRatio: real, next: real)
    requires from <= start <= end && lagRatio >= 0.0
    requires next == start + lagRatio * (end - start)
    ensures from <= next
  {
    MathFunctions.MulNonNegative(lagRatio, end - start);
  }

  /** With non-negative run times and lag no window starts before `from`
      or ends before it starts. */
  lemma {:induction false} TimingsOrdered(children: seq<Child>, lagRatio: real, from: real, i: nat)
    requires i < |children| && lagRatio >= 0.0
    requires forall k :: 0 <= k < |children| ==> children[k].runTime >= 0.0
    ensures from <= Timings(children, lagRatio, from)[i].start <= Timings(children, lagRatio, from)[i].end
  {
    var r := Timings(children, lagRatio, from);
    TimingsWindows(children, lagRatio, from, i);
    assert children[i].runTime >= 0.0;
    if i > 0 {
      var j := i - 1;
      TimingsOrdered(children, lagRatio, from, j);
      TimingsStep(children, lagRatio, from, j);
      assert j + 1 == i;
      StartAfterLag(from, r[j].start, r[j].end, lagRatio, r[i].start);
    }
  }

  /** `getAnimationsWithTimings()`: the loop that accumulates `currentTime`. */
  method GetAnimationsWithTimings(children: seq<Child>, lagRatio: real) returns (r: seq<Timing>)
    ensures r == Timings(children, lagRatio, 0.0)
  {
    r := [];
    var currentTime := 0.0;
    var i := 0;
    while i < |children|
      invariant 0 <= i <= |children|
      invariant r + Timings(children[i..], lagRatio, currentTime) == Timings(children, lagRatio, 0.0)
    {
      var startTime := currentTime;
      var endTime := startTime + children[i].runTime;
      var next := Interpolation.Interpolate(startTime, endTime, lagRatio);
      TimingsCons(children[i..], lagRatio, currentTime);
      assert children[i..][1..] == children[i + 1..];
      ghost var rest := Timings(children[i + 1..], lagRatio, next);
      assert Timings(children[i..], lagRatio, currentTime) == [Timing(children[i], startTime, endTime)] + rest;
      assert r + ([Timing(children[i], startTime, endTime)] + rest) == (r + [Timing(children[i], startTime, endTime)]) + rest;
      r := r + [Timing(children[i], startTime, endTime)];
      currentTime := next;
      i := i + 1;
    }
    assert children[i..] == [];
  }

  /** The end times of the windows. */
  function Ends(timings: seq<Timing>): (r: seq<real>)
    ensures |r| == |timings| && forall i :: 0 <= i < |r| ==> r[i] == timings[i].end
  {
    seq(|timings|, i requires 0 <= i < |timings| => timings[i].end)
  }

  /** `Math.max(...values)`: `None` stands for the `-Infinity` of an empty
      list. */
  function SpreadMax(values: seq<real>): (r: Option<real>)
    ensures r.None? <==> values == []
    ensures r.Some? ==> r.value in values && forall k :: 0 <= k < |values| ==> values[k] <= r.value
  {
    if values == [] then None
    else
      var rest := SpreadMax(values[1..]);
      assert forall k :: 1 <= k < |values| ==> values[1..][k - 1] == values[k];
      if rest.None? || rest.value <= values[0] then Some(values[0]) else rest
  }

  // ---------------------------------------------------------------------
  // Progress of the children

  /** The progress a group gives one child at group time `time`: how far
      through its window, clipped to [0, 1]; 0 for an empty window. */
  function ChildAlpha(t: Timing, time: real): (r: real)
    ensures 0.0 <= r <= 1.0
    ensures t.end - t.start == 0.0 ==> r == 0.0
  {
    var animTime := t.end - t.start;
    if animTime == 0.0 then 0.0 else MathFunctions.Clip((time - t.start) / animTime, 0.0, 1.0)
  }

  /** Within a proper window the progress rises from 0 at its start to 1 at
      its end, linearly in between. */
  lemma ChildAlphaWindow(t: Timing, time: real)
    requires t.start < t.end
    ensures time <= t.start ==> ChildAlpha(t, time) == 0.0
    ensures time >= t.end ==> ChildAlpha(t, time) == 1.0
    ensures t.start <= time <= t.end ==> ChildAlpha(t, time) == (time - t.start) / (t.end - t.start)
  {
    MathFunctions.RatioBounds(time - t.start, t.end - t.start);
  }

  /** The group time at progress alpha: alpha times the latest end. Without
      children the latest end is `-Infinity`, but then no child reads the
      time, so any value will do. */
  function GroupTime(alpha: real, maxEndTime: Option<real>): (time: real)
    ensures maxEndTime.Some? ==> time == alpha * maxEndTime.value
  {
    if maxEndTime.Some? then alpha * maxEndTime.value else 0.0
  }

  /** The calls of the group's `interpolate(alpha)`: every child, in window
      order, at group time alpha times the latest end. */
  function GroupCalls(timings: seq<Timing>, time: real): (r: seq<ChildCall>)
    ensures |r| == |timings|
    ensures forall i :: 0 <= i < |r| ==> r[i] == Call(timings[i].child.id, Interpolated(ChildAlpha(timings[i], time)))
  {
    seq(|timings|, i requires 0 <= i < |timings| => Call(timings[i].child.id, Interpolated(ChildAlpha(timings[i], time))))
  }

  /** At group progress 0 every child is at its start and at progress 1 every
      child with a proper window is finished. */
  lemma GroupCallsEndpoints(children: seq<Child>, lagRatio: real, i: nat)
    requires lagRatio >= 0.0 && i < |children|
    requires forall k :: 0 <= k < |children| ==> children[k].runTime >= 0.0
    ensures var timings := Timings(children, lagRatio, 0.0);
            var maxEnd := SpreadMax(Ends(timings)).value;
            GroupCalls(timings, 0.0 * maxEnd)[i].hook == Interpolated(0.0) &&
            (children[i].runTime > 0.0 ==> GroupCalls(timings, 1.0 * maxEnd)[i].hook == Interpolated(1.0))
  {
    var timings := Timings(children, lagRatio, 0.0);
    var maxEnd := SpreadMax(Ends(timings)).value;
    var t := timings[i];
    TimingsOrdered(children, lagRatio, 0.0, i);
    TimingsWindows(children, lagRatio, 0.0, i);
    assert 0.0 * maxEnd == 0.0 && 1.0 * maxEnd == maxEnd;
    if children[i].runTime > 0.0 {
      assert Ends(timings)[i] <= maxEnd;
      ChildAlphaWindow(t, 0.0);
      ChildAlphaWindow(t, maxEnd);
    }
    assert GroupCalls(timings, 0.0)[i].hook == Interpolated(ChildAlpha(t, 0.0));
    assert GroupCalls(timings, maxEnd)[i].hook == Interpolated(ChildAlpha(t, maxEnd));
  }

  /** The same call made on every child, in list order. */
  function EachChild(children: seq<Child>, hook: Hook): (r: seq<ChildCall>)
    ensures |r| == |children| && forall i :: 0 <= i < |r| ==> r[i] == Call(children[i].id, hook)
  {
    seq(|children|, i requires 0 <= i < |children| => Call(children[i].id, hook))
  }

  /** What a child call does: returns, or throws with a message. The
      children's own behaviour lies outside this module, so the outcome of
      each call is a parameter of the methods that make them. */
  type ChildOutcomes = ChildCall -> Outcome

  /** The exception a run of calls ends with: the first call that throws,
      or none. */
  function FirstFail(cs: seq<ChildCall>, outcome: ChildOutcomes): (o: Outcome)
    ensures o.Pass? <==> forall i :: 0 <= i < |cs| ==> outcome(cs[i]).Pass?
    ensures o.Fail? ==> exists i :: 0 <= i < |cs| && outcome(cs[i]) == o
  {
    if cs == [] then Pass
    else if outcome(cs[0]).Fail? then outcome(cs[0])
    else
      var o := FirstFail(cs[1..], outcome);
      assert forall i :: 1 <= i < |cs| ==> cs[i] == cs[1..][i - 1];
      o
  }

  /** The calls a loop over cs actually makes: it stops at the first call
      that throws, which is itself made. */
  function UpToFail(cs: seq<ChildCall>, outcome: ChildOutcomes): (r: seq<ChildCall>)
    ensures |r| <= |cs| && r == cs[..|r|]
    ensures forall i :: 0 <= i < |r| - 1 ==> outcome(r[i]).Pass?
    ensures FirstFail(cs, outcome).Pass? ==> r == cs
    ensures FirstFail(cs, outcome).Fail? ==> |r| > 0 && outcome(r[|r| - 1]) == FirstFail(cs, outcome)
  {
    if cs == [] then []
    else if outcome(cs[0]).Fail? then [cs[0]]
    else [cs[0]] + UpToFail(cs[1..], outcome)
  }

  /** When the calls before position i return and the call at i throws, the
      loop makes exactly the calls up to i and ends with that exception. */
  lemma {:induction false} StopsAt(cs: seq<ChildCall>, outcome: ChildOutcomes, i: nat)
    requires i < |cs| && outcome(cs[i]).Fail?
    requires forall k :: 0 <= k < i ==> outcome(cs[k]).Pass?
    ensures UpToFail(cs, outcome) == cs[..i + 1]
    ensures FirstFail(cs, outcome) == outcome(cs[i])
  {
    if i > 0 {
      assert forall k :: 0 <= k < i - 1 ==> cs[1..][k] == cs[k + 1];
      StopsAt(cs[1..], outcome, i - 1);
      assert cs[..i + 1] == [cs[0]] + cs[1..][..i];
    }
  }

  /** The `.mobject` of each child. */
  function Targets(children: seq<Child>): (r: seq<Mobjects.Id>)
    ensures |r| == |children| && forall i :: 0 <= i < |r| ==> r[i] == children[i].mobject
  {
    seq(|children|, i requires 0 <= i < |children| => children[i].mobject)
  }

  // ---------------------------------------------------------------------
  // The group

  class AnimationGroup {
    var children: seq<Child>
    /** The group mobject. */
    var mobject: Mobjects.Id
    /** `None` is the `-Infinity` an empty group ends up with. */
    var runTime: Option<real>
    var rateFunc: RateFunctions.RateFunc
    var lagRatio: real
    var animationsTiming: seq<Timing>
    var maxEndTime: Option<real>
    /** The calls made on the children so far. */
    ghost var calls: seq<ChildCall>

    /** `new AnimationGroup(animations, { runTime, rateFunc, lagRatio, group })`:
        without a group, a fresh `Group` whose children are the targets with
        duplicates removed (the last occurrence kept); then `initRunTime`. */
    constructor (arena: Mobjects.Arena, children: seq<Child>,
                 runTime: real := 0.0,
                 rateFunc: RateFunctions.RateFunc := RateFunctions.Linear,
                 lagRatio: real := Animations.DEFAULT_ANIMATION_LAG_RATIO,
                 group: Option<Mobjects.Id> := None)
      requires arena.Valid() && Mobjects.AllIn(arena.nodes, Targets(children))
      requires group.Some? ==> group.value < |arena.nodes|
      modifies arena
      ensures arena.Valid() && mobject < |arena.nodes|
      ensures this.children == children && this.rateFunc == rateFunc && this.lagRatio == lagRatio
      ensures group.Some? ==> mobject == group.value && arena.nodes == old(arena.nodes)
      ensures group.None? ==> mobject == old(|arena.nodes|)
      ensures group.None? ==>
                arena.nodes == old(arena.nodes) + [Mobjects.Node(Colors.WHITE, ArrayUtil.KeepLast(Targets(children)), [], false, [], None)]
      ensures group.None? ==> ArrayUtil.NoDuplicates(arena.nodes[mobject].submobjects)
      ensures group.None? ==> forall x :: x in arena.nodes[mobject].submobjects <==> x in Targets(children)
      ensures animationsTiming == Timings(children, lagRatio, 0.0)
      ensures maxEndTime == SpreadMax(Ends(animationsTiming))
      ensures this.runTime == if runTime == 0.0 then maxEndTime else Some(runTime)
      ensures calls == []
    {
      var target: Mobjects.Id;
      if group.Some? {
        target := group.value;
      } else {
        target := NewGroup(arena, children);
      }
      this.children := children;
      mobject := target;
      this.runTime := Some(runTime);
      this.rateFunc := rateFunc;
      this.lagRatio := lagRatio;
      animationsTiming := [];
      maxEndTime := None;
      calls := [];
      new;
      InitRunTime();
    }

    /** `new Group(targets)` with the targets' duplicates removed, the last
        occurrence kept. */
    static method NewGroup(arena: Mobjects.Arena, children: seq<Child>) returns (target: Mobjects.Id)
      requires arena.Valid() && Mobjects.AllIn(arena.nodes, Targets(children))
      modifies arena
      ensures arena.Valid() && target == old(|arena.nodes|)
      ensures arena.nodes == old(arena.nodes) + [Mobjects.Node(Colors.WHITE, ArrayUtil.KeepLast(Targets(children)), [], false, [], None)]
      ensures ArrayUtil.NoDuplicates(arena.nodes[target].submobjects)
      ensures forall x :: x in arena.nodes[target].submobjects <==> x in Targets(children)
    {
      target := arena.NewMobject(Colors.WHITE);
      var targets := new Mobjects.Id[|children|](i requires 0 <= i < |children| => children[i].mobject);
      assert targets[..] == Targets(children);
      var unique := ArrayUtil.WithoutRedundancies(targets);
      ArrayUtil.KeepLastElements(Targets(children));
      ArrayUtil.KeepLastNoDuplicates(Targets(children));
      Mobjects.AllInMembers(old(arena.nodes), Targets(children));
      Mobjects.AllInMembers(arena.nodes, unique);
      assert target !in unique;
      var o := arena.Add(target, unique);
      assert Mobjects.FrontMerge([], unique) == unique;
    }

    /** `initRunTime()`: recompute the windows and the latest end; a zero run
        time becomes the latest end. */
    method InitRunTime()
      modifies this`animationsTiming, this`maxEndTime, this`runTime
      ensures animationsTiming == Timings(children, lagRatio, 0.0)
      ensures maxEndTime == SpreadMax(Ends(animationsTiming))
      ensures runTime == if old(runTime) == Some(0.0) then maxEndTime else old(runTime)
    {
      animationsTiming := GetAnimationsWithTimings(children, lagRatio);
      maxEndTime := SpreadMax(Ends(animationsTiming));
      if runTime == Some(0.0) {
        runTime := maxEndTime;
      }
    }

    /** `getAllMobjects()`: the children of the group mobject. */
    function AllMobjects(arena: Mobjects.Arena): (r: seq<Mobjects.Id>)
      reads this, arena
      requires mobject < |arena.nodes|
      ensures arena.Valid() ==> Mobjects.AllIn(arena.nodes, r)
    {
      arena.nodes[mobject].submobjects
    }

    /** `begin()`, `finish()`, `cleanUpFromScene(scene)` and
        `updateMobjects(dt)`: the same call on every child, in list order,
        until a child throws; that exception ends the loop and propagates. */
    method Visit(hook: Hook, outcome: ChildOutcomes) returns (o: Outcome)
      modifies this`calls
      ensures calls == old(calls) + UpToFail(EachChild(children, hook), outcome)
      ensures o == FirstFail(EachChild(children, hook), outcome)
    {
      ghost var cs := EachChild(children, hook);
      var i := 0;
      while i < |children|
        invariant 0 <= i <= |children|
        invariant calls == old(calls) + cs[..i]
        invariant forall k :: 0 <= k < i ==> outcome(cs[k]).Pass?
      {
        var call := Call(children[i].id, hook);
        assert call == cs[i];
        calls := calls + [call];
        assert cs[..i + 1] == cs[..i] + [call];
        o := outcome(call);
        if o.Fail? {
          StopsAt(cs, outcome, i);
          return;
        }
        i := i + 1;
      }
      assert cs[..i] == cs;
      o := Pass;
    }

    method Begin(outcome: ChildOutcomes) returns (o: Outcome)
      modifies this`calls
      ensures calls == old(calls) + UpToFail(EachChild(children, Began), outcome)
      ensures o == FirstFail(EachChild(children, Began), outcome)
    {
      o := Visit(Began, outcome);
    }

    method Finish(outcome: ChildOutcomes) returns (o: Outcome)
      modifies this`calls
      ensures calls == old(calls) + UpToFail(EachChild(children, Finished), outcome)
      ensures o == FirstFail(EachChild(children, Finished), outcome)
    {
      o := Visit(Finished, outcome);
    }

    method CleanUpFromScene(outcome: ChildOutcomes) returns (o: Outcome)
      modifies this`calls
      ensures calls == old(calls) + UpToFail(EachChild(children, CleanedUp), outcome)
      ensures o == FirstFail(EachChild(children, CleanedUp), outcome)
    {
      o := Visit(CleanedUp, outcome);
    }

    method UpdateMobjects(dt: real, outcome: ChildOutcomes) returns (o: Outcome)
      modifies this`calls
      ensures calls == old(calls) + UpToFail(EachChild(children, Updated(dt)), outcome)
      ensures o == FirstFail(EachChild(children, Updated(dt)), outcome)
    {
      o := Visit(Updated(dt), outcome);
    }

    /** `interpolate(alpha)`: each child gets its progress through its window
        at group time alpha times the latest end, until a child throws. The
        group's own rate function is not applied. */
    method Interpolate(alpha: real, outcome: ChildOutcomes) returns (o: Outcome)
      modifies this`calls
      ensures calls == old(calls) + UpToFail(GroupCalls(animationsTiming, GroupTime(alpha, maxEndTime)), outcome)
      ensures o == FirstFail(GroupCalls(animationsTiming, GroupTime(alpha, maxEndTime)), outcome)
    {
      var time := GroupTime(alpha, maxEndTime);
      ghost var expected := GroupCalls(animationsTiming, time);
      var i := 0;
      while i < |animationsTiming|
        invariant 0 <= i <= |animationsTiming|
        invariant calls == old(calls) + expected[..i]
        invariant forall k :: 0 <= k < i ==> outcome(expected[k]).Pass?
      {
        var t := animationsTiming[i];
        var animTime := t.end - t.start;
        var subAlpha := 0.0;
        if animTime != 0.0 {
          subAlpha := MathFunctions.Clip((time - t.start) / animTime, 0.0, 1.0);
        }
        assert subAlpha == ChildAlpha(t, time);
        var call := Call(t.child.id, Interpolated(subAlpha));
        assert call == expected[i];
        calls := calls + [call];
        assert expected[..i + 1] == expected[..i] + [call];
        o := outcome(call);
        if o.Fail? {
          StopsAt(expected, outcome, i);
          return;
        }
        i := i + 1;
      }
      assert expected[..i] == expected;
      o := Pass;
    }
  }

  /** `new LaggedStart(animations, ...)`: a group whose lag ratio defaults to
      `DEFAULT_ANIMATION_LAGGED_START_LAG_RATIO`. */
  method LaggedStart(arena: Mobjects.Arena, children: seq<Child>,
                     runTime: real := 0.0,
                     rateFunc: RateFunctions.RateFunc := RateFunctions.Linear,
                     lagRatio: real := DEFAULT_ANIMATION_LAGGED_START_LAG_RATIO,
                     group: Option<Mobjects.Id> := None) returns (g: AnimationGroup)
    requires arena.Valid() && Mobjects.AllIn(arena.nodes, Targets(children))
    requires group.Some? ==> group.value < |arena.nodes|
    modifies arena
    ensures fresh(g) && arena.Valid() && g.children == children && g.lagRatio == lagRatio
    ensures g.animationsTiming == Timings(children, lagRatio, 0.0)
  {
    g := new AnimationGroup(arena, children, runTime, rateFunc, lagRatio, group);
  }

  // ---------------------------------------------------------------------
  // The succession

  /** The child a succession plays at progress alpha: `integerInterpolate(0,
      n, alpha)`'s index, always a valid position, namely the floor of
      n alpha inside (0, 1). */
  function ActiveIndex(n: nat, alpha: real): (k: nat)
    requires n >= 1
    ensures k < n
    ensures alpha <= 0.0 ==> k == 0
    ensures alpha >= 1.0 ==> k == n - 1
    ensures 0.0 < alpha < 1.0 ==> k as real <= n as real * alpha < k as real + 1.0
  {
    var (index, residue) := Interpolation.IntegerInterpolate(0, n, alpha);
    index
  }

  /** The calls one `interpolate(alpha)` of a succession makes: a change of
      child finishes the active one and begins the new one, then the
      playing child is interpolated. */
  function SwitchCalls(active: nat, next: nat, subAlpha: real): (r: seq<ChildCall>)
    ensures active == next ==> r == [Call(next, Interpolated(subAlpha))]
    ensures active != next ==> r == [Call(active, Finished), Call(next, Began), Call(next, Interpolated(subAlpha))]
  {
    (if active != next then [Call(active, Finished), Call(next, Began)] else []) + [Call(next, Interpolated(subAlpha))]
  }

  /** The three ways a switch of the active child can end: its finish
      throws, its begin throws, or it reaches the interpolation, whose
      outcome is the result. */
  lemma SwitchRun(active: nat, next: nat, subAlpha: real, outcome: ChildOutcomes)
    ensures var switch := SwitchCalls(active, next, subAlpha);
            var finish := Call(active, Finished);
            var begin := Call(next, Began);
            var interpolate := Call(next, Interpolated(subAlpha));
            if active != next && outcome(finish).Fail? then
              UpToFail(switch, outcome) == [finish] && FirstFail(switch, outcome) == outcome(finish)
            else if active != next && outcome(begin).Fail? then
              UpToFail(switch, outcome) == [finish, begin] && FirstFail(switch, outcome) == outcome(begin)
            else
              UpToFail(switch, outcome) == (if active != next then [finish, begin] else []) + [interpolate] &&
              FirstFail(switch, outcome) == outcome(interpolate)
  {
    var switch := SwitchCalls(active, next, subAlpha);
    var finish := Call(active, Finished);
    var begin := Call(next, Began);
    if active != next {
      if outcome(finish).Fail? {
        StopsAt(switch, outcome, 0);
      } else if outcome(begin).Fail? {
        StopsAt(switch, outcome, 1);
      } else if outcome(switch[2]).Fail? {
        StopsAt(switch, outcome, 2);
      }
    } else if outcome(switch[0]).Fail? {
      StopsAt(switch, outcome, 0);
    }
  }

  class Succession {
    var group: AnimationGroup
    /** `activeAnimation`: `undefined` until `begin`. */
    var active: Option<nat>

    ghost predicate Valid()
      reads this, group
    {
      |group.children| > 0
    }

    constructor (arena: Mobjects.Arena, children: seq<Child>,
                 runTime: real, rateFunc: RateFunctions.RateFunc, lagRatio: real,
                 group: Option<Mobjects.Id>)
      requires arena.Valid() && Mobjects.AllIn(arena.nodes, Targets(children))
      requires group.Some? ==> group.value < |arena.nodes|
      modifies arena
      ensures arena.Valid() && fresh(this.group) && this.group.children == children
      ensures this.group.lagRatio == lagRatio && this.group.calls == [] && active.None?
      ensures group.Some? ==> this.group.mobject == group.value && arena.nodes == old(arena.nodes)
      ensures group.None? ==> this.group.mobject == old(|arena.nodes|) && arena.nodes == old(arena.nodes) + [Mobjects.Node(Colors.WHITE, ArrayUtil.KeepLast(Targets(children)), [], false, [], None)]
      ensures this.group.animationsTiming == Timings(children, lagRatio, 0.0)
      ensures this.group.maxEndTime == SpreadMax(Ends(this.group.animationsTiming))
      ensures this.group.runTime == if runTime == 0.0 then this.group.maxEndTime else Some(runTime)
    {
      this.group := new AnimationGroup(arena, children, runTime, rateFunc, lagRatio, group);
      active := None;
    }

    /** `new Succession(animations, ...)`: the lag ratio defaults to 1; the
        group is built first, and only then is an empty list refused. */
    static method Create(arena: Mobjects.Arena, children: seq<Child>,
                         runTime: real := 0.0,
                         rateFunc: RateFunctions.RateFunc := RateFunctions.Linear,
                         lagRatio: real := 1.0,
                         group: Option<Mobjects.Id> := None) returns (r: Result<Succession>)
      requires arena.Valid() && Mobjects.AllIn(arena.nodes, Targets(children))
      requires group.Some? ==> group.value < |arena.nodes|
      modifies arena
      ensures arena.Valid()
      ensures group.Some? ==> arena.nodes == old(arena.nodes)
      ensures group.None? ==> arena.nodes == old(arena.nodes) + [Mobjects.Node(Colors.WHITE, ArrayUtil.KeepLast(Targets(children)), [], false, [], None)]
      ensures r.Err? <==> children == []
      ensures r.Ok? ==> fresh(r.value) && fresh(r.value.group) && r.value.Valid() && r.value.active.None?
      ensures r.Ok? ==> r.value.group.children == children && r.value.group.lagRatio == lagRatio
      ensures r.Ok? ==> r.value.group.mobject == if group.Some? then group.value else old(|arena.nodes|)
    {
      var s := new Succession(arena, children, runTime, rateFunc, lagRatio, group);
      if children == [] {
        return Err(EMPTY_SUCCESSION);
      }
      r := Ok(s);
    }

    /** `begin()`: recompute the windows, then make the first child active
        and begin it; an exception from that child propagates, with the
        windows recomputed and the child already active. */
    method Begin(outcome: ChildOutcomes) returns (o: Outcome)
      requires Valid()
      modifies this`active, group`animationsTiming, group`maxEndTime, group`runTime, group`calls
      ensures Valid() && active == Some(group.children[0].id)
      ensures group.calls == old(group.calls) + [Call(group.children[0].id, Began)]
      ensures o == outcome(Call(group.children[0].id, Began))
      ensures group.animationsTiming == Timings(group.children, group.lagRatio, 0.0)
      ensures group.maxEndTime == SpreadMax(Ends(group.animationsTiming))
      ensures group.runTime == if old(group.runTime) == Some(0.0) then group.maxEndTime else old(group.runTime)
    {
      group.InitRunTime();
      active := Some(group.children[0].id);
      var call := Call(active.value, Began);
      group.calls := group.calls + [call];
      o := outcome(call);
    }

    /** `finish()`: finishes the active child, whose exception propagates;
        before `begin` there is none and the call throws. */
    method Finish(outcome: ChildOutcomes) returns (o: Outcome)
      modifies group`calls
      ensures active.None? ==> o == Fail(Animations.UNDEFINED_READ) && group.calls == old(group.calls)
      ensures active.Some? ==> group.calls == old(group.calls) + [Call(active.value, Finished)] &&
                               o == outcome(Call(active.value, Finished))
    {
      if active.None? {
        return Fail(Animations.UNDEFINED_READ);
      }
      var call := Call(active.value, Finished);
      group.calls := group.calls + [call];
      o := outcome(call);
    }

    /** `interpolate(alpha)`: the child at `integerInterpolate(0, n, alpha)`
        becomes the active one (finishing the old one and beginning the new
        one when they differ) and is interpolated with the residue. The
        first child call that throws ends it: a failed finish leaves the old
        child active, a failed begin leaves the new one active. */
    method Interpolate(alpha: real, outcome: ChildOutcomes) returns (o: Outcome)
      requires Valid()
      modifies this`active, group`calls
      ensures Valid()
      ensures old(active).None? ==> o == Fail(Animations.UNDEFINED_READ) && group.calls == old(group.calls) && active == old(active)
      ensures old(active).Some? ==>
                var k := ActiveIndex(|group.children|, alpha);
                var next := group.children[k].id;
                var switch := SwitchCalls(old(active).value, next, Interpolation.IntegerInterpolate(0, |group.children|, alpha).1);
                group.calls == old(group.calls) + UpToFail(switch, outcome) &&
                o == FirstFail(switch, outcome) &&
                active == (if next != old(active).value && outcome(switch[0]).Fail? then old(active) else Some(next))
    {
      var (index, subAlpha) := Interpolation.IntegerInterpolate(0, |group.children|, alpha);
      var anim := group.children[index].id;
      if active.None? {
        return Fail(Animations.UNDEFINED_READ);
      }
      SwitchRun(active.value, anim, subAlpha, outcome);
      if Some(anim) != active {
        group.calls := group.calls + [Call(active.value, Finished)];
        o := outcome(Call(active.value, Finished));
        if o.Fail? {
          return;
        }
        active := Some(anim);
        group.calls := group.calls + [Call(anim, Began)];
        o := outcome(Call(anim, Began));
        if o.Fail? {
          return;
        }
      }
      group.calls := group.calls + [Call(anim, Interpolated(subAlpha))];
      o := outcome(Call(anim, Interpolated(subAlpha)));
    }
  }
}
