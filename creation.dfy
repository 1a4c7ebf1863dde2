/** The creation animations of `src/animation/creation.ts`: `ShowCreation`
    traces a path from its start, `Uncreate` plays it backwards and removes
    the mobject, and `DrawBorderThenFill` (with its `Write` factory) first
    draws an outline and then fills it in.

    Each animation class holds the state of the base animation it extends
    and overrides its per-submobject hook. */
module Creation {
  import opened Wrappers
  import MathFunctions
  import Interpolation
  import RateFunctions
  import Colors
  import Mobjects
  import VectorizedMobjects
  import Animations

  // ---------------------------------------------------------------------
  // ShowCreation and Uncreate

  /** `ShowCreation.getBounds(alpha)`: the part of the path from its start up
      to proportion alpha. */
  function GetBounds(alpha: real): (r: (real, real))
    ensures r.0 == 0.0 && r.1 - r.0 == alpha
    ensures 0.0 <= alpha <= 1.0 ==> 0.0 <= r.0 <= r.1 <= 1.0
  {
    (0.0, alpha)
  }

  /** At full progress the bounds cover the whole path: the shown part is
      the source path itself. */
  lemma GetBoundsWhole(points: VectorizedMobjects.Points, alpha: real)
    requires alpha >= 1.0
    ensures VectorizedMobjects.PartialPath(points, GetBounds(alpha).0, GetBounds(alpha).1) == points
  {
  }

  /** The tuples of a `ShowPartial` run: each pairs a submobject with its
      counterpart in the starting copy. */
  predicate Pairs(nodes: seq<Mobjects.Node>, tuples: seq<seq<Mobjects.Id>>)
  {
    forall i :: 0 <= i < |tuples| ==> |tuples[i]| == 2 && tuples[i][0] < |nodes| && tuples[i][1] < |nodes|
  }

  /** The arena after the first k hook calls of a `ShowPartial` run: call i
      replaces the points of tuple i's submobject by `trace(i, points)` of
      its counterpart's points as they stand at that moment. */
  function Traces(nodes: seq<Mobjects.Node>, tuples: seq<seq<Mobjects.Id>>, trace: (nat, VectorizedMobjects.Points) -> VectorizedMobjects.Points, k: nat): (r: seq<Mobjects.Node>)
    requires Pairs(nodes, tuples) && k <= |tuples|
    ensures |r| == |nodes|
    ensures forall j :: 0 <= j < |nodes| ==> r[j].(points := nodes[j].points) == nodes[j]
  {
    if k == 0 then nodes
    else
      var prev := Traces(nodes, tuples, trace, k - 1);
      var t := tuples[k - 1];
      VectorizedMobjects.WithPoints(prev, t[0], trace(k - 1, prev[t[1]].points))
  }

  /** `ShowCreation`'s call i at progress alpha: the part [0, sub-alpha i]
      of the path. */
  function Tracer(alpha: real, lagRatio: real, n: nat): (nat, VectorizedMobjects.Points) -> VectorizedMobjects.Points
  {
    (i: nat, points: VectorizedMobjects.Points) =>
      VectorizedMobjects.PartialPath(points, GetBounds(Animations.SubAlpha(lagRatio, alpha, i, n)).0,
                                     GetBounds(Animations.SubAlpha(lagRatio, alpha, i, n)).1)
  }

  /** The arena after the first k hook calls of `interpolateMobject(alpha)`. */
  function Partials(nodes: seq<Mobjects.Node>, tuples: seq<seq<Mobjects.Id>>, alpha: real, lagRatio: real, k: nat): (r: seq<Mobjects.Node>)
    requires Pairs(nodes, tuples) && k <= |tuples|
    ensures |r| == |nodes|
  {
    Traces(nodes, tuples, Tracer(alpha, lagRatio, |tuples|), k)
  }

  /** Both mobjects of tuple i are VMobjects, the only mobjects that have
      `pointwiseBecomePartial`, `getPoints` and `getCubicBezierTuples`. */
  predicate VectorPair(nodes: seq<Mobjects.Node>, tuples: seq<seq<Mobjects.Id>>, i: nat)
    requires Pairs(nodes, tuples) && i < |tuples|
  {
    Mobjects.IsVectorized(nodes[tuples[i][0]]) && Mobjects.IsVectorized(nodes[tuples[i][1]])
  }

  /** The first tuple at or after `from` with a member that is not a
      VMobject (the call on it throws), or |tuples| when there is none. */
  function FirstPlain(nodes: seq<Mobjects.Node>, tuples: seq<seq<Mobjects.Id>>, from: nat): (k: nat)
    requires Pairs(nodes, tuples) && from <= |tuples|
    ensures from <= k <= |tuples|
    ensures forall i :: from <= i < k ==> VectorPair(nodes, tuples, i)
    ensures k < |tuples| ==> !VectorPair(nodes, tuples, k)
    decreases |tuples| - from
  {
    if from == |tuples| || !VectorPair(nodes, tuples, from) then from
    else FirstPlain(nodes, tuples, from + 1)
  }

  /** Before the first plain tuple, tuple i is a pair of VMobjects exactly
      when i is not that tuple. */
  lemma FirstPlainAt(nodes: seq<Mobjects.Node>, tuples: seq<seq<Mobjects.Id>>, i: nat)
    requires Pairs(nodes, tuples) && i < |tuples| && i <= FirstPlain(nodes, tuples, 0)
    ensures VectorPair(nodes, tuples, i) <==> i < FirstPlain(nodes, tuples, 0)
  {
  }

  /** The submobjects are distinct and none is a starting counterpart. */
  predicate Separate(tuples: seq<seq<Mobjects.Id>>)
    requires forall i :: 0 <= i < |tuples| ==> |tuples[i]| == 2
  {
    (forall i, j :: 0 <= i < j < |tuples| ==> tuples[i][0] != tuples[j][0]) &&
    (forall i, j :: 0 <= i < |tuples| && 0 <= j < |tuples| ==> tuples[i][0] != tuples[j][1])
  }

  /** Call k applied to the arena after the first k calls. */
  lemma PartialsStep(nodes: seq<Mobjects.Node>, tuples: seq<seq<Mobjects.Id>>, alpha: real, lagRatio: real, k: nat)
    requires Pairs(nodes, tuples) && k < |tuples|
    ensures var prev := Partials(nodes, tuples, alpha, lagRatio, k);
            Partials(nodes, tuples, alpha, lagRatio, k + 1) ==
            VectorizedMobjects.WithPoints(prev, tuples[k][0],
              VectorizedMobjects.PartialPath(prev[tuples[k][1]].points, 0.0, Animations.SubAlpha(lagRatio, alpha, k, |tuples|)))
  {
    var tr := Tracer(alpha, lagRatio, |tuples|);
    var prev := Traces(nodes, tuples, tr, k);
    var source := prev[tuples[k][1]].points;
    var next := k + 1;
    assert Traces(nodes, tuples, tr, next) == VectorizedMobjects.WithPoints(prev, tuples[k][0], tr(k, source));
    assert tr(k, source) == VectorizedMobjects.PartialPath(source, 0.0, Animations.SubAlpha(lagRatio, alpha, k, |tuples|));
  }

  /** A mobject that is no submobject of the first k tuples is unchanged
      by the first k calls. */
  lemma {:induction false} TracesUntouched(nodes: seq<Mobjects.Node>, tuples: seq<seq<Mobjects.Id>>, trace: (nat, VectorizedMobjects.Points) -> VectorizedMobjects.Points, k: nat, j: Mobjects.Id)
    requires Pairs(nodes, tuples) && k <= |tuples| && j < |nodes|
    requires forall i :: 0 <= i < k ==> tuples[i][0] != j
    ensures Traces(nodes, tuples, trace, k)[j] == nodes[j]
  {
    if k > 0 {
      TracesUntouched(nodes, tuples, trace, k - 1, j);
    }
  }

  /** With separate tuples each call sees its counterpart untouched: after k
      calls submobject i < k holds the trace of its counterpart's original
      path. */
  lemma {:induction false} TracesSeparate(nodes: seq<Mobjects.Node>, tuples: seq<seq<Mobjects.Id>>, trace: (nat, VectorizedMobjects.Points) -> VectorizedMobjects.Points, k: nat, i: nat)
    requires Pairs(nodes, tuples) && Separate(tuples) && i < k <= |tuples|
    ensures Traces(nodes, tuples, trace, k)[tuples[i][0]].points == trace(i, nodes[tuples[i][1]].points)
  {
    var n := k - 1;
    if i == n {
      TracesUntouched(nodes, tuples, trace, n, tuples[i][1]);
    } else {
      TracesSeparate(nodes, tuples, trace, n, i);
      assert tuples[i][0] != tuples[n][0];
    }
    assert n + 1 == k;
  }

  /** After all of `ShowCreation`'s calls at progress alpha, submobject i
      holds the part [0, sub-alpha i] of its counterpart's original path. */
  lemma PartialsSeparate(nodes: seq<Mobjects.Node>, tuples: seq<seq<Mobjects.Id>>, alpha: real, lagRatio: real, i: nat)
    requires Pairs(nodes, tuples) && Separate(tuples) && i < |tuples|
    ensures Partials(nodes, tuples, alpha, lagRatio, |tuples|)[tuples[i][0]].points ==
            VectorizedMobjects.PartialPath(nodes[tuples[i][1]].points, 0.0, Animations.SubAlpha(lagRatio, alpha, i, |tuples|))
  {
    var tr := Tracer(alpha, lagRatio, |tuples|);
    var source := nodes[tuples[i][1]].points;
    TracesSeparate(nodes, tuples, tr, |tuples|, i);
    assert Partials(nodes, tuples, alpha, lagRatio, |tuples|) == Traces(nodes, tuples, tr, |tuples|);
    assert tr(i, source) == VectorizedMobjects.PartialPath(source, 0.0, Animations.SubAlpha(lagRatio, alpha, i, |tuples|));
  }

  /** At the end of a `ShowCreation` (progress 1, non-negative lag) every
      submobject shows its counterpart's whole original path. */
  lemma ShowCreationEnds(nodes: seq<Mobjects.Node>, tuples: seq<seq<Mobjects.Id>>, lagRatio: real, i: nat)
    requires Pairs(nodes, tuples) && Separate(tuples) && lagRatio >= 0.0 && i < |tuples|
    ensures Partials(nodes, tuples, 1.0, lagRatio, |tuples|)[tuples[i][0]].points == nodes[tuples[i][1]].points
  {
    PartialsSeparate(nodes, tuples, 1.0, lagRatio, i);
    Animations.SubAlphaEndpoints(lagRatio, i, |tuples|);
  }

  /** The zipped families of two mobjects are pairs of arena mobjects. */
  lemma ZippedPairs(nodes: seq<Mobjects.Node>, a: Mobjects.Id, b: Mobjects.Id)
    requires Mobjects.Linked(nodes) && a < |nodes| && b < |nodes|
    requires Animations.ZippedFamilies(nodes, [a, b]).Some?
    ensures Pairs(nodes, Animations.ZippedFamilies(nodes, [a, b]).value)
  {
    var tuples := Animations.ZippedFamilies(nodes, [a, b]).value;
    forall i | 0 <= i < |tuples| ensures |tuples[i]| == 2 && tuples[i][0] < |nodes| && tuples[i][1] < |nodes| {
      var fa := Mobjects.FamilyWithPoints(nodes, a).value;
      var fb := Mobjects.FamilyWithPoints(nodes, b).value;
      assert tuples[i][0] == fa[i] && tuples[i][1] == fb[i];
    }
  }

  class ShowCreation {
    /** The base animation state. */
    var anim: Animations.Animation

    /** `new ShowCreation(mobject, runTime, rateFunc, lagRatio)`. */
    constructor (mobject: Mobjects.Id,
                 runTime: real := Animations.DEFAULT_ANIMATION_RUN_TIME,
                 rateFunc: RateFunctions.RateFunc := RateFunctions.Smooth,
                 lagRatio: real := Animations.DEFAULT_ANIMATION_LAG_RATIO)
      ensures fresh(anim) && anim.mobject == mobject && anim.runTime == runTime
      ensures anim.rateFunc == rateFunc && anim.lagRatio == lagRatio
      ensures !anim.remover && !anim.suspendMobjectUpdating && anim.startingMobject.None?
    {
      anim := new Animations.Animation(mobject, runTime, rateFunc, lagRatio);
    }

    /** `new Uncreate(mobject, runTime, rateFunc, lagRatio)`: a remover
        whose rate function is the given one played backwards. */
    constructor Uncreate(mobject: Mobjects.Id,
                         runTime: real := Animations.DEFAULT_ANIMATION_RUN_TIME,
                         rateFunc: RateFunctions.RateFunc := RateFunctions.Smooth,
                         lagRatio: real := Animations.DEFAULT_ANIMATION_LAG_RATIO)
      ensures fresh(anim) && anim.mobject == mobject && anim.runTime == runTime && anim.lagRatio == lagRatio
      ensures forall t :: anim.rateFunc(t) == rateFunc(1.0 - t)
      ensures anim.remover && !anim.suspendMobjectUpdating && anim.startingMobject.None?
    {
      var a := new Animations.Animation(mobject, runTime, RateFunctions.InvertRateFunc(rateFunc), lagRatio);
      a.remover := true;
      anim := a;
    }

    /** `interpolateSubMobject(mobs, alpha)` of `ShowPartial`: the
        submobject becomes the part of its starting counterpart's path
        within the bounds. Only a VMobject has `pointwiseBecomePartial`, and
        it reads its source with `getPoints` or `getCubicBezierTuples`,
        which only a VMobject has: with a plain mobject on either side the
        call throws before anything changes. */
    method InterpolateSubMobject(arena: Mobjects.Arena, mobs: seq<Mobjects.Id>, alpha: real) returns (o: Outcome)
      requires arena.Valid() && |mobs| == 2 && Mobjects.AllIn(arena.nodes, mobs)
      modifies arena
      ensures arena.Valid()
      ensures o.Fail? <==> !Mobjects.IsVectorized(old(arena.nodes[mobs[0]])) || !Mobjects.IsVectorized(old(arena.nodes[mobs[1]]))
      ensures o.Fail? ==> arena.nodes == old(arena.nodes)
      ensures o.Pass? ==> arena.nodes == VectorizedMobjects.WithPoints(old(arena.nodes), mobs[0],
                VectorizedMobjects.PartialPath(old(arena.nodes[mobs[1]].points), 0.0, alpha))
    {
      var subMob := mobs[0];
      var startSubMob := mobs[1];
      if !Mobjects.IsVectorized(arena.nodes[subMob]) || !Mobjects.IsVectorized(arena.nodes[startSubMob]) {
        return Fail(Mobjects.NOT_A_FUNCTION);
      }
      var bounds := GetBounds(alpha);
      VectorizedMobjects.PointwiseBecomePartial(arena, subMob, startSubMob, bounds.0, bounds.1);
      o := Pass;
    }

    /** `interpolateMobject(alpha)` with this hook: the families are read
        once, then each pair is traced to its sub-alpha in order, until a
        call on a pair with a plain mobject throws. */
    method InterpolateMobject(arena: Mobjects.Arena, alpha: real) returns (o: Outcome)
      requires anim.Within(arena)
      modifies arena
      ensures arena.Valid() && anim.Within(arena)
      ensures anim.startingMobject.None? ||
              Animations.ZippedFamilies(old(arena.nodes), [anim.mobject, anim.startingMobject.value]).None? ==>
                o.Fail? && arena.nodes == old(arena.nodes)
      ensures anim.startingMobject.Some? &&
              Animations.ZippedFamilies(old(arena.nodes), [anim.mobject, anim.startingMobject.value]).Some? ==>
                var tuples := Animations.ZippedFamilies(old(arena.nodes), [anim.mobject, anim.startingMobject.value]).value;
                Pairs(old(arena.nodes), tuples) &&
                (o.Fail? <==> FirstPlain(old(arena.nodes), tuples, 0) < |tuples|) &&
                arena.nodes == Partials(old(arena.nodes), tuples, alpha, anim.lagRatio, FirstPlain(old(arena.nodes), tuples, 0))
    {
      if anim.startingMobject.None? {
        return Fail(Animations.UNDEFINED_READ);
      }
      var families := Animations.ZippedFamilies(arena.nodes, [anim.mobject, anim.startingMobject.value]);
      if families.None? {
        return Fail(Mobjects.STACK_OVERFLOW);
      }
      var tuples := families.value;
      ZippedPairs(arena.nodes, anim.mobject, anim.startingMobject.value);
      o := InterpolateSubMobjects(arena, tuples, alpha, anim.lagRatio);
    }

    /** The loop of `interpolateMobject(alpha)`: the hook on each tuple in
        order, with its sub-alpha; the first call that throws ends it. */
    method InterpolateSubMobjects(arena: Mobjects.Arena, tuples: seq<seq<Mobjects.Id>>, alpha: real, lagRatio: real) returns (o: Outcome)
      requires arena.Valid() && Pairs(arena.nodes, tuples)
      modifies arena
      ensures arena.Valid() && |arena.nodes| == old(|arena.nodes|)
      ensures o.Fail? <==> FirstPlain(old(arena.nodes), tuples, 0) < |tuples|
      ensures arena.nodes == Partials(old(arena.nodes), tuples, alpha, lagRatio, FirstPlain(old(arena.nodes), tuples, 0))
    {
      ghost var start := arena.nodes;
      ghost var stop := FirstPlain(start, tuples, 0);
      var i := 0;
      o := Pass;
      while i < |tuples|
        invariant 0 <= i <= stop && arena.Valid() && |arena.nodes| == |start| && o.Pass?
        invariant arena.nodes == Partials(start, tuples, alpha, lagRatio, i)
      {
        FirstPlainAt(start, tuples, i);
        o := TraceTuple(arena, start, tuples, alpha, lagRatio, i);
        if o.Fail? {
          return;
        }
        i := i + 1;
      }
    }

    /** Call i of the loop: the hook on tuple i with its sub-alpha. */
    method TraceTuple(arena: Mobjects.Arena, ghost start: seq<Mobjects.Node>, tuples: seq<seq<Mobjects.Id>>, alpha: real, lagRatio: real, i: nat)
      returns (o: Outcome)
      requires arena.Valid() && Pairs(start, tuples) && i < |tuples| && |arena.nodes| == |start|
      requires arena.nodes == Partials(start, tuples, alpha, lagRatio, i)
      modifies arena
      ensures arena.Valid()
      ensures o.Fail? <==> !VectorPair(start, tuples, i)
      ensures o.Fail? ==> arena.nodes == old(arena.nodes)
      ensures o.Pass? ==> arena.nodes == Partials(start, tuples, alpha, lagRatio, i + 1)
    {
      var mobs := tuples[i];
      var subAlpha := Animations.SubAlpha(lagRatio, alpha, i, |tuples|);
      ghost var prev := arena.nodes;
      PartialsStep(start, tuples, alpha, lagRatio, i);
      assert |mobs| == 2 && mobs[0] < |prev| && mobs[1] < |prev|;
      assert prev[mobs[0]].style == start[mobs[0]].style && prev[mobs[1]].style == start[mobs[1]].style;
      ghost var next := VectorizedMobjects.WithPoints(prev, mobs[0], VectorizedMobjects.PartialPath(prev[mobs[1]].points, 0.0, subAlpha));
      assert next == Partials(start, tuples, alpha, lagRatio, i + 1);
      assert Mobjects.AllIn(prev, mobs);
      o := InterpolateSubMobject(arena, mobs, subAlpha);
    }

    /** `interpolate(alpha)`: clip, ease, then trace. */
    method Interpolate(arena: Mobjects.Arena, alpha: real) returns (o: Outcome)
      requires anim.Within(arena)
      modifies arena
      ensures arena.Valid() && anim.Within(arena)
      ensures anim.startingMobject.None? ||
              Animations.ZippedFamilies(old(arena.nodes), [anim.mobject, anim.startingMobject.value]).None? ==>
                o.Fail? && arena.nodes == old(arena.nodes)
      ensures anim.startingMobject.Some? &&
              Animations.ZippedFamilies(old(arena.nodes), [anim.mobject, anim.startingMobject.value]).Some? ==>
                var tuples := Animations.ZippedFamilies(old(arena.nodes), [anim.mobject, anim.startingMobject.value]).value;
                Pairs(old(arena.nodes), tuples) &&
                (o.Fail? <==> FirstPlain(old(arena.nodes), tuples, 0) < |tuples|) &&
                arena.nodes == Partials(old(arena.nodes), tuples, Animations.EasedProgress(anim.rateFunc, alpha), anim.lagRatio,
                                        FirstPlain(old(arena.nodes), tuples, 0))
    {
      o := InterpolateMobject(arena, anim.rateFunc(MathFunctions.Clip(alpha, 0.0, 1.0)));
    }
  }

  /** An `Uncreate` eases progress alpha to the given curve at 1 - alpha:
      it starts where the curve ends and ends where it starts. */
  lemma UncreateEasing(rateFunc: RateFunctions.RateFunc, alpha: real)
    requires 0.0 <= alpha <= 1.0
    ensures Animations.EasedProgress(RateFunctions.InvertRateFunc(rateFunc), alpha) == rateFunc(1.0 - alpha)
  {
  }

  // ---------------------------------------------------------------------
  // DrawBorderThenFill and Write

  /** The default run time of `DrawBorderThenFill`: twice the default. */
  const DRAW_BORDER_THEN_FILL_RUN_TIME: real := Animations.DEFAULT_ANIMATION_RUN_TIME * 2.0

  /** The default stroke width of the outline. */
  const DEFAULT_OUTLINE_STROKE_WIDTH: real := 2.0

  /** What a method call that is not defined among the mobject operations
      here leaves behind: `setColor` (which reaches `super.setColor`) and
      `Mobject.interpolate`. */
  datatype ForeignCall =
    | SetColor(submob: Mobjects.Id, outline: Mobjects.Id)
    | Blend(submob: Mobjects.Id, outline: Mobjects.Id, start: Mobjects.Id, alpha: real)

  /** Every phase flag is 0 (drawing the border) or 1 (filling). */
  ghost predicate PhaseFlags(flags: map<Mobjects.Id, int>)
  {
    forall x :: x in flags ==> flags[x] == 0 || flags[x] == 1
  }

  /** `after` has the keys of `before`, and each flag either stays or moves
      from 0 to 1. */
  ghost predicate Advanced(before: map<Mobjects.Id, int>, after: map<Mobjects.Id, int>)
  {
    before.Keys == after.Keys &&
    forall x :: x in before ==> after[x] == before[x] || (before[x] == 0 && after[x] == 1)
  }

  /** Advancing twice is advancing once: a flag, once 1, stays 1, so it
      moves at most once over any run of calls. */
  lemma AdvancedTransitive(a: map<Mobjects.Id, int>, b: map<Mobjects.Id, int>, c: map<Mobjects.Id, int>)
    requires PhaseFlags(a) && Advanced(a, b) && Advanced(b, c)
    ensures Advanced(a, c)
    ensures forall x :: x in a && a[x] == 1 ==> c[x] == 1
  {
  }

  /** Two node lists with the same child links have the same families. */
  lemma SameFamilies(a: seq<Mobjects.Node>, b: seq<Mobjects.Node>, id: Mobjects.Id)
    requires Mobjects.Linked(a) && Mobjects.SameLinks(a, b) && id < |a|
    ensures Mobjects.Linked(b) && Mobjects.GetFamily(b, id) == Mobjects.GetFamily(a, id)
  {
    Mobjects.FamilySameLinks(a, b, id, |a|);
  }

  /** One family-wide style call of the restyle: the vectorized family
      of the submobject gets the outline's colours (and width) of the given
      kind, read from the outline as it stands. */
  function OutlinePaint(nodes: seq<Mobjects.Node>, submob: Mobjects.Id, outline: Mobjects.Id, paint: VectorizedMobjects.Paint): (r: seq<Mobjects.Node>)
    requires Mobjects.Linked(nodes) && submob < |nodes| && outline < |nodes| && Mobjects.IsVectorized(nodes[outline])
    requires Mobjects.GetFamily(nodes, submob).Some?
    ensures Mobjects.SameLinks(nodes, r) && Mobjects.Linked(r) && Mobjects.IsVectorized(r[outline])
    ensures Mobjects.GetFamily(r, submob) == Mobjects.GetFamily(nodes, submob)
    ensures r[submob].points == nodes[submob].points
  {
    var s := nodes[outline].style.value;
    var colors := match paint
      case FillPaint => VectorizedMobjects.GetFillColors(s)
      case StrokePaint => VectorizedMobjects.GetStrokeColors(s, false)
      case BackgroundPaint => VectorizedMobjects.GetStrokeColors(s, true);
    var width := match paint
      case FillPaint => None
      case StrokePaint => Some(s.strokeWidth)
      case BackgroundPaint => Some(s.backgroundStrokeWidth);
    var r := VectorizedMobjects.PaintedNodes(nodes, Mobjects.VectorizedFamily(nodes, submob).value, paint, colors, width);
    SameFamilies(nodes, r, submob);
    r
  }

  /** One family-wide style call of the restyle, on the arena: `setFill`,
      or `setStroke` without or with `background`, given the outline's
      colours (and width) of that kind. */
  method PaintLikeOutline(arena: Mobjects.Arena, submob: Mobjects.Id, outline: Mobjects.Id, paint: VectorizedMobjects.Paint)
    requires arena.Valid() && submob < |arena.nodes| && outline < |arena.nodes|
    requires Mobjects.IsVectorized(arena.nodes[submob]) && Mobjects.IsVectorized(arena.nodes[outline])
    requires Mobjects.GetFamily(arena.nodes, submob).Some?
    modifies arena
    ensures arena.Valid() && arena.nodes == OutlinePaint(old(arena.nodes), submob, outline, paint)
  {
    var s := arena.nodes[outline].style.value;
    var o;
    match paint {
      case FillPaint =>
        var fill := VectorizedMobjects.GetFillColors(s);
        assert VectorizedMobjects.ColorList(None, fill) == fill;
        o := VectorizedMobjects.SetFill(arena, submob, None, fill, true);
      case StrokePaint =>
        var colors := VectorizedMobjects.GetStrokeColors(s, false);
        assert VectorizedMobjects.ColorList(None, colors) == colors;
        o := VectorizedMobjects.SetStroke(arena, submob, None, colors, Some(s.strokeWidth), false, true);
      case BackgroundPaint =>
        var colors := VectorizedMobjects.GetStrokeColors(s, true);
        assert VectorizedMobjects.ColorList(None, colors) == colors;
        o := VectorizedMobjects.SetStroke(arena, submob, None, colors, Some(s.backgroundStrokeWidth), true, true);
    }
  }

  /** The arena after the restyle of the phase switch: the submobject
      takes the outline's points, then (family-wide) its fill colours, its
      stroke colours and width, and its background stroke colours and
      width. */
  function Restyled(nodes: seq<Mobjects.Node>, submob: Mobjects.Id, outline: Mobjects.Id): (r: seq<Mobjects.Node>)
    requires Mobjects.Linked(nodes) && submob < |nodes| && outline < |nodes|
    requires Mobjects.IsVectorized(nodes[outline])
    requires Mobjects.GetFamily(nodes, submob).Some?
    ensures Mobjects.SameLinks(nodes, r)
  {
    var n1 := VectorizedMobjects.WithPoints(nodes, submob, nodes[outline].points);
    SameFamilies(nodes, n1, submob);
    var n2 := OutlinePaint(n1, submob, outline, VectorizedMobjects.FillPaint);
    var n3 := OutlinePaint(n2, submob, outline, VectorizedMobjects.StrokePaint);
    OutlinePaint(n3, submob, outline, VectorizedMobjects.BackgroundPaint)
  }

  /** The `submobToIndex` map of a fresh `DrawBorderThenFill`: every
      submobject of the family at phase 0. */
  method ZeroFlags(ids: seq<Mobjects.Id>) returns (flags: map<Mobjects.Id, int>)
    ensures forall x :: x in flags <==> x in ids
    ensures forall x :: x in flags ==> flags[x] == 0
  {
    flags := map[];
    var i := 0;
    while i < |ids|
      invariant 0 <= i <= |ids|
      invariant forall x :: x in flags <==> x in ids[..i]
      invariant forall x :: x in flags ==> flags[x] == 0
    {
      var next := i + 1;
      flags := flags[ids[i] := 0];
      assert ids[..next] == ids[..i] + [ids[i]];
      i := next;
    }
    assert ids[..i] == ids;
  }

  /** After the restyle the submobject's path is the outline's, and no
      child link changes. */
  lemma RestyledPoints(nodes: seq<Mobjects.Node>, submob: Mobjects.Id, outline: Mobjects.Id)
    requires Mobjects.Linked(nodes) && submob < |nodes| && outline < |nodes|
    requires Mobjects.IsVectorized(nodes[submob]) && Mobjects.IsVectorized(nodes[outline])
    requires Mobjects.GetFamily(nodes, submob).Some?
    ensures Restyled(nodes, submob, outline)[submob].points == nodes[outline].points
    ensures Mobjects.GetFamily(Restyled(nodes, submob, outline), submob) == Mobjects.GetFamily(nodes, submob)
  {
    SameFamilies(nodes, Restyled(nodes, submob, outline), submob);
  }

  /** Where the submobject's path differs from the outline's, the restyle
      moves it onto the outline's path; the switch as written, which keeps
      every path (`MatchOutlineAsWritten`), never gets there. */
  lemma RestyleMovesPath(nodes: seq<Mobjects.Node>, submob: Mobjects.Id, outline: Mobjects.Id)
    requires Mobjects.Linked(nodes) && submob < |nodes| && outline < |nodes|
    requires Mobjects.IsVectorized(nodes[submob]) && Mobjects.IsVectorized(nodes[outline])
    requires Mobjects.GetFamily(nodes, submob).Some?
    requires nodes[submob].points != nodes[outline].points
    ensures Restyled(nodes, submob, outline)[submob].points != nodes[submob].points
  {
    RestyledPoints(nodes, submob, outline);
  }

  /** The constructor's loop as written: each member of the vectorized
      family is keyed by `submob.hashCode()`, which no mobject class
      defines. The family always holds the mobject itself, so every
      construction throws (a plain mobject has no `getVectorizedFamily`,
      and a cyclic family overflows the stack, first). */
  function SubmobToIndexAsWritten(nodes: seq<Mobjects.Node>, vmobject: Mobjects.Id): (r: Result<map<Mobjects.Id, int>>)
    requires Mobjects.Linked(nodes) && vmobject < |nodes|
    ensures r.Err?
    ensures Mobjects.IsVectorized(nodes[vmobject]) && Mobjects.GetFamily(nodes, vmobject).Some? ==> r.msg == Mobjects.NOT_A_FUNCTION
  {
    if !Mobjects.IsVectorized(nodes[vmobject]) then Err(Mobjects.NOT_A_FUNCTION)
    else
      var family := Mobjects.VectorizedFamily(nodes, vmobject);
      if family.None? then Err(Mobjects.STACK_OVERFLOW)
      else
        assert vmobject in Mobjects.GetFamily(nodes, vmobject).value;
        if |family.value| == 0 then Ok(map[]) else Err(Mobjects.NOT_A_FUNCTION)
  }

  /** The restyle of the phase switch as written: `outline.getColor()` and
      `submob.setColor(...)` exist only on a `VMobject`, and `setColor`
      throws once its repaint is done (`VectorizedMobjects.SetColorAsWritten`),
      so the points copy, the style copies and the flag update never run.
      `painted` stands for the value the repaint writes: the source passes
      the options object `{ color }` where a colour is expected. */
  method MatchOutlineAsWritten(arena: Mobjects.Arena, submob: Mobjects.Id, outline: Mobjects.Id, painted: Colors.Color) returns (o: Outcome)
    requires arena.Valid() && submob < |arena.nodes| && outline < |arena.nodes|
    modifies arena
    ensures arena.Valid() && o.Fail?
    ensures Mobjects.SameLinks(old(arena.nodes), arena.nodes)
    ensures forall i :: 0 <= i < |arena.nodes| ==> arena.nodes[i].points == old(arena.nodes[i].points)
  {
    if !Mobjects.IsVectorized(arena.nodes[outline]) || !Mobjects.IsVectorized(arena.nodes[submob]) {
      return Fail(Mobjects.NOT_A_FUNCTION);
    }
    o := VectorizedMobjects.SetColorAsWritten(arena, submob, painted, true);
  }

  class DrawBorderThenFill {
    /** The base animation state. */
    var anim: Animations.Animation
    var vmobject: Mobjects.Id
    var strokeWidth: real
    var strokeColor: Option<Colors.Color>
    /** The phase flag of each submobject, keyed by the mobject itself. */
    var submobToIndex: map<Mobjects.Id, int>
    /** `undefined` until `begin`. */
    var outline: Option<Mobjects.Id>
    ghost var foreign: seq<ForeignCall>

    constructor Init(anim: Animations.Animation, vmobject: Mobjects.Id, strokeWidth: real,
                     strokeColor: Option<Colors.Color>, flags: map<Mobjects.Id, int>)
      ensures this.anim == anim && this.vmobject == vmobject && this.strokeWidth == strokeWidth
      ensures this.strokeColor == strokeColor && submobToIndex == flags && outline.None? && foreign == []
    {
      this.anim := anim;
      this.vmobject := vmobject;
      this.strokeWidth := strokeWidth;
      this.strokeColor := strokeColor;
      submobToIndex := flags;
      outline := None;
      foreign := [];
    }

    /** `new DrawBorderThenFill(vmobject, ...)`: every vectorized family
        member starts in phase 0; `getVectorizedFamily` exists only on a
        `VMobject`, and a cyclic family overflows the stack. The flags are
        keyed by the mobject itself (see Findings). */
    static method Create(arena: Mobjects.Arena, vmobject: Mobjects.Id,
                         runTime: real := DRAW_BORDER_THEN_FILL_RUN_TIME,
                         rateFunc: RateFunctions.RateFunc := RateFunctions.Smooth,
                         lagRatio: real := Animations.DEFAULT_ANIMATION_LAG_RATIO,
                         strokeWidth: real := DEFAULT_OUTLINE_STROKE_WIDTH,
                         strokeColor: Option<Colors.Color> := None) returns (r: Result<DrawBorderThenFill>)
      requires arena.Valid() && vmobject < |arena.nodes|
      ensures r.Err? <==> !Mobjects.IsVectorized(arena.nodes[vmobject]) || Mobjects.GetFamily(arena.nodes, vmobject).None?
      ensures r.Ok? ==> fresh(r.value) && fresh(r.value.anim)
      ensures r.Ok? ==> var d := r.value;
                d.vmobject == vmobject && d.anim.mobject == vmobject && d.anim.runTime == runTime &&
                d.anim.rateFunc == rateFunc && d.anim.lagRatio == lagRatio &&
                d.strokeWidth == strokeWidth && d.strokeColor == strokeColor && d.outline.None? &&
                PhaseFlags(d.submobToIndex) &&
                forall x :: x in d.submobToIndex <==> x in Mobjects.VectorizedFamily(arena.nodes, vmobject).value
      ensures r.Ok? ==> forall x :: x in r.value.submobToIndex ==> r.value.submobToIndex[x] == 0
    {
      if !Mobjects.IsVectorized(arena.nodes[vmobject]) {
        return Err(Mobjects.NOT_A_FUNCTION);
      }
      var family := Mobjects.VectorizedFamily(arena.nodes, vmobject);
      if family.None? {
        return Err(Mobjects.STACK_OVERFLOW);
      }
      var flags := ZeroFlags(family.value);
      var a := new Animations.Animation(vmobject, runTime, rateFunc, lagRatio);
      var d := new DrawBorderThenFill.Init(a, vmobject, strokeWidth, strokeColor, flags);
      r := Ok(d);
    }

    /** The restyle of the phase switch. `setColor` runs first; it is
        recorded, not modelled. On a mobject that is not a `VMobject` the
        style methods do not exist, and a cyclic family overflows the stack
        in `setColor`'s family-wide `setFill`, before anything changes. */
    method MatchOutline(arena: Mobjects.Arena, submob: Mobjects.Id, outline: Mobjects.Id) returns (o: Outcome)
      requires arena.Valid() && submob < |arena.nodes| && outline < |arena.nodes|
      modifies arena, this`foreign
      ensures arena.Valid()
      ensures o.Fail? <==> !Mobjects.IsVectorized(old(arena.nodes[submob])) || !Mobjects.IsVectorized(old(arena.nodes[outline])) ||
                           old(Mobjects.GetFamily(arena.nodes, submob)).None?
      ensures o.Fail? ==> arena.nodes == old(arena.nodes) && foreign == old(foreign)
      ensures o.Pass? ==> arena.nodes == Restyled(old(arena.nodes), submob, outline)
      ensures o.Pass? ==> foreign == old(foreign) + [SetColor(submob, outline)]
    {
      if !Mobjects.IsVectorized(arena.nodes[submob]) || !Mobjects.IsVectorized(arena.nodes[outline]) {
        return Fail(Mobjects.NOT_A_FUNCTION);
      }
      if Mobjects.GetFamily(arena.nodes, submob).None? {
        return Fail(Mobjects.STACK_OVERFLOW);
      }
      ghost var n0 := arena.nodes;
      foreign := foreign + [SetColor(submob, outline)];
      VectorizedMobjects.SetPoints(arena, submob, arena.nodes[outline].points);
      ghost var n1 := arena.nodes;
      SameFamilies(n0, n1, submob);
      PaintLikeOutline(arena, submob, outline, VectorizedMobjects.FillPaint);
      PaintLikeOutline(arena, submob, outline, VectorizedMobjects.StrokePaint);
      PaintLikeOutline(arena, submob, outline, VectorizedMobjects.BackgroundPaint);
      o := Pass;
    }

    /** `interpolateSubMobject([submob, start, outline], alpha)`: the first
        half draws the outline ([0, sub-alpha] of its path), the second half
        blends from the outline to the start. The first call of the second
        half for a submobject in phase 0 restyles it as the outline and
        moves its flag to 1. Drawing needs `pointwiseBecomePartial` on the
        submobject and `getPoints` or `getCubicBezierTuples` on the outline,
        which only a `VMobject` has. */
    method InterpolateSubMobject(arena: Mobjects.Arena, mobs: seq<Mobjects.Id>, alpha: real) returns (o: Outcome)
      requires arena.Valid() && |mobs| == 3 && Mobjects.AllIn(arena.nodes, mobs)
      modifies arena, this`submobToIndex, this`foreign
      ensures arena.Valid()
      ensures var (index, subAlpha) := Interpolation.IntegerInterpolate(0, 2, alpha);
              var switching := index == 1 && mobs[0] in old(submobToIndex) && old(submobToIndex)[mobs[0]] == 0;
              var plain := !Mobjects.IsVectorized(old(arena.nodes[mobs[0]])) || !Mobjects.IsVectorized(old(arena.nodes[mobs[2]]));
              (o.Fail? <==> (index == 0 && plain) ||
                            (switching && (plain || old(Mobjects.GetFamily(arena.nodes, mobs[0])).None?))) &&
              (o.Fail? ==> arena.nodes == old(arena.nodes) && submobToIndex == old(submobToIndex)) &&
              (o.Pass? ==> submobToIndex == if switching then old(submobToIndex)[mobs[0] := 1] else old(submobToIndex)) &&
              (o.Pass? && index == 0 ==>
                 arena.nodes == VectorizedMobjects.WithPoints(old(arena.nodes), mobs[0],
                   VectorizedMobjects.PartialPath(old(arena.nodes[mobs[2]].points), 0.0, subAlpha))) &&
              (o.Pass? && index != 0 && switching ==> arena.nodes == Restyled(old(arena.nodes), mobs[0], mobs[2])) &&
              (o.Pass? && index != 0 && !switching ==> arena.nodes == old(arena.nodes))
      ensures o.Pass? ==> Advanced(old(submobToIndex), submobToIndex)
    {
      var submob := mobs[0];
      var start := mobs[1];
      var outline := mobs[2];
      var (index, subAlpha) := Interpolation.IntegerInterpolate(0, 2, alpha);
      if index == 0 {
        if !Mobjects.IsVectorized(arena.nodes[submob]) || !Mobjects.IsVectorized(arena.nodes[outline]) {
          return Fail(Mobjects.NOT_A_FUNCTION);
        }
        VectorizedMobjects.PointwiseBecomePartial(arena, submob, outline, 0.0, subAlpha);
        return Pass;
      }
      if index == 1 && submob in submobToIndex && submobToIndex[submob] == 0 {
        o := MatchOutline(arena, submob, outline);
        if o.Fail? {
          return;
        }
        submobToIndex := submobToIndex[submob := 1];
      }
      foreign := foreign + [Blend(submob, outline, start, subAlpha)];
      o := Pass;
    }
  }


  /** The default run time `Write.create` picks: 1 below 15 family members
      with points, 2 from 15 on; an explicit run time wins. */
  function WriteRunTime(runTime: Option<real>, length: nat): (r: real)
    ensures runTime.Some? ==> r == runTime.value
    ensures runTime.None? && length < 15 ==> r == 1.0
    ensures runTime.None? && length >= 15 ==> r == 2.0
  {
    if runTime.Some? then runTime.value else if length < 15 then 1.0 else 2.0
  }

  /** The default lag ratio `Write.create` picks: min(4 / length, 0.2), where
      4 / 0 is `Infinity`; an explicit lag ratio wins. */
  function WriteLagRatio(lagRatio: Option<real>, length: nat): (r: real)
    ensures lagRatio.Some? ==> r == lagRatio.value
    ensures lagRatio.None? ==> 0.0 < r <= 0.2
  {
    if lagRatio.Some? then lagRatio.value
    else if length == 0 then 0.2
    else if 4.0 / length as real < 0.2 then 4.0 / length as real else 0.2
  }

  /** The default lag ratio is 0.2 up to 20 members with points and
      4 / length beyond, so the whole lagged run stays within
      (length - 1) 4 / length + 1 < 5 unit runs. */
  lemma WriteLagRatioDefault(length: nat)
    ensures length <= 20 ==> WriteLagRatio(None, length) == 0.2
    ensures length > 20 ==> WriteLagRatio(None, length) == 4.0 / length as real
    ensures 0.0 < WriteLagRatio(None, length) <= 0.2
    ensures forall lag :: WriteLagRatio(Some(lag), length) == lag
  {
    if 0 < length {
      var l := length as real;
      if length <= 20 {
        assert 4.0 / l >= 0.2 by {
          assert l * 0.2 <= 4.0;
        }
      } else {
        assert 4.0 / l < 0.2 by {
          assert l * 0.2 > 4.0;
        }
      }
    }
  }

  /** `Write.create(vmobject, rateFunc, runTime, lagRatio, strokeWidth,
      strokeColor)`: the defaults depend on the size of the family with
      points; the rate function defaults to `linear`. */
  method Write(arena: Mobjects.Arena, vmobject: Mobjects.Id,
               rateFunc: RateFunctions.RateFunc := RateFunctions.Linear,
               runTime: Option<real> := None,
               lagRatio: Option<real> := None,
               strokeWidth: real := DEFAULT_OUTLINE_STROKE_WIDTH,
               strokeColor: Option<Colors.Color> := None) returns (r: Result<DrawBorderThenFill>)
    requires arena.Valid() && vmobject < |arena.nodes|
    ensures r.Err? <==> !Mobjects.IsVectorized(arena.nodes[vmobject]) || Mobjects.GetFamily(arena.nodes, vmobject).None?
    ensures r.Ok? ==>
              var length := |Mobjects.FamilyWithPoints(arena.nodes, vmobject).value|;
              fresh(r.value) && r.value.vmobject == vmobject &&
              r.value.anim.runTime == WriteRunTime(runTime, length) &&
              r.value.anim.lagRatio == WriteLagRatio(lagRatio, length) &&
              r.value.anim.rateFunc == rateFunc && r.value.strokeWidth == strokeWidth && r.value.strokeColor == strokeColor
  {
    var family := Mobjects.FamilyWithPoints(arena.nodes, vmobject);
    if family.None? {
      return Err(Mobjects.STACK_OVERFLOW);
    }
    var length := |family.value|;
    r := DrawBorderThenFill.Create(arena, vmobject, rateFunc := rateFunc, runTime := WriteRunTime(runTime, length),
                                   lagRatio := WriteLagRatio(lagRatio, length), strokeWidth := strokeWidth, strokeColor := strokeColor);
  }
}
