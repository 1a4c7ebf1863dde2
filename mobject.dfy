/** The mobject tree of `src/mobject/types/mobject.ts`.

    Mobjects are objects with identity that may be shared between several
    parents. The model keeps every mobject of a program in one arena, a
    sequence of nodes, and names a mobject by its index. Child lists hold
    indices, so sharing and identity comparisons (`includes`, `new Set`) are
    comparisons of indices. The fields a `VMobject` adds (colour lists and
    stroke widths) live in the same node, so that one arena holds both kinds. */
module Mobjects {
  import opened Wrappers
  import Vectors
  import Colors
  import ArrayUtil

  /** A mobject: its index in the arena. */
  type Id = nat

  /** An updater closure, known only by its identity. */
  datatype Updater = Updater(tag: nat)

  /** The style fields of a `VMobject`; `None` stands for `undefined`. */
  datatype Style = Style(
    fillColors: Option<seq<Colors.Color>>,
    strokeColors: Option<seq<Colors.Color>>,
    backgroundStrokeColors: Option<seq<Colors.Color>>,
    strokeWidth: real,
    backgroundStrokeWidth: real)

  /** The fields of one mobject. `style` is `Some` exactly for a `VMobject`. */
  datatype Node = Node(
    color: Colors.Color,
    submobjects: seq<Id>,
    updaters: seq<Updater>,
    updatingSuspended: bool,
    points: seq<Vectors.Vector3>,
    style: Option<Style>)

  /** `DEFAULT_STROKE_WIDTH` of `src/constants.ts`. */
  const DEFAULT_STROKE_WIDTH: real := 4.0

  /** The message of the exception a cyclic child graph produces. */
  const STACK_OVERFLOW: string := "Maximum call stack size exceeded"

  /** The message of the exception a call of a method the mobject's class
      does not define raises. */
  const NOT_A_FUNCTION: string := "is not a function"

  predicate IsVectorized(n: Node)
  {
    n.style.Some?
  }

  /** Every id of the list names a mobject of the arena. */
  predicate AllIn(nodes: seq<Node>, ids: seq<Id>)
  {
    forall k :: 0 <= k < |ids| ==> ids[k] < |nodes|
  }

  /** `AllIn` stated by membership. */
  lemma AllInMembers(nodes: seq<Node>, ids: seq<Id>)
    ensures AllIn(nodes, ids) <==> forall x :: x in ids ==> x < |nodes|
  {
    if AllIn(nodes, ids) {
      forall x | x in ids ensures x < |nodes| {
        var k :| 0 <= k < |ids| && ids[k] == x;
      }
    } else {
      var k :| 0 <= k < |ids| && ids[k] >= |nodes|;
      assert ids[k] in ids;
    }
  }

  /** Every child link names a mobject of the arena. */
  predicate Linked(nodes: seq<Node>)
  {
    forall i :: 0 <= i < |nodes| ==> AllIn(nodes, nodes[i].submobjects)
  }

  /** Replacing a node by one with the same children keeps the links valid. */
  lemma EditKeepsLinked(nodes: seq<Node>, id: Id, n: Node)
    requires Linked(nodes) && id < |nodes|
    requires n.submobjects == nodes[id].submobjects
    ensures Linked(nodes[id := n])
  {
    var m := nodes[id := n];
    forall i | 0 <= i < |m| ensures AllIn(m, m[i].submobjects) {
      assert m[i].submobjects == nodes[i].submobjects;
    }
  }

  // ---------------------------------------------------------------------
  // Family traversal

  /** `getFamily()` with a recursion budget: self, then the family of each
      child in order, with later duplicates dropped (`Array.from(new Set(..))`).
      The source recurses without bound, so on a cyclic child graph it
      overflows the stack; the budget makes that `None`. */
  function FamilyWithin(nodes: seq<Node>, id: Id, fuel: nat): (r: Option<seq<Id>>)
    requires Linked(nodes) && id < |nodes|
    ensures r.Some? ==> |r.value| >= 1 && r.value[0] == id
    ensures r.Some? ==> AllIn(nodes, r.value) && ArrayUtil.NoDuplicates(r.value)
    decreases fuel, 0
  {
    if fuel == 0 then None
    else
      var below := FamiliesWithin(nodes, nodes[id].submobjects, fuel - 1);
      if below.None? then None
      else
        var all := [id] + below.value;
        ArrayUtil.FirstOccurrencesProperties(all);
        AllInMembers(nodes, below.value);
        AllInMembers(nodes, ArrayUtil.FirstOccurrences(all));
        Some(ArrayUtil.FirstOccurrences(all))
  }

  /** The families of the listed mobjects, concatenated. */
  function FamiliesWithin(nodes: seq<Node>, ids: seq<Id>, fuel: nat): (r: Option<seq<Id>>)
    requires Linked(nodes) && AllIn(nodes, ids)
    ensures r.Some? ==> AllIn(nodes, r.value)
    decreases fuel, |ids|
  {
    if ids == [] then Some([])
    else
      var head := FamilyWithin(nodes, ids[0], fuel);
      var rest := FamiliesWithin(nodes, ids[1..], fuel);
      if head.None? || rest.None? then None else Some(head.value + rest.value)
  }

  /** `getFamily()`: the budget is the number of mobjects, which no path of
      an acyclic child graph exceeds. */
  function GetFamily(nodes: seq<Node>, id: Id): (r: Option<seq<Id>>)
    requires Linked(nodes) && id < |nodes|
    ensures r.Some? ==> |r.value| >= 1 && r.value[0] == id
    ensures r.Some? ==> AllIn(nodes, r.value) && ArrayUtil.NoDuplicates(r.value)
  {
    FamilyWithin(nodes, id, |nodes|)
  }

  /** More budget does not change a family that was already complete. */
  lemma {:induction false} FamilyFuelMonotone(nodes: seq<Node>, id: Id, fuel: nat, more: nat)
    requires Linked(nodes) && id < |nodes| && fuel <= more
    requires FamilyWithin(nodes, id, fuel).Some?
    ensures FamilyWithin(nodes, id, more) == FamilyWithin(nodes, id, fuel)
    decreases fuel, 0
  {
    FamiliesFuelMonotone(nodes, nodes[id].submobjects, fuel - 1, more - 1);
  }

  lemma {:induction false} FamiliesFuelMonotone(nodes: seq<Node>, ids: seq<Id>, fuel: nat, more: nat)
    requires Linked(nodes) && AllIn(nodes, ids) && fuel <= more
    requires FamiliesWithin(nodes, ids, fuel).Some?
    ensures FamiliesWithin(nodes, ids, more) == FamiliesWithin(nodes, ids, fuel)
    decreases fuel, |ids|
  {
    if ids != [] {
      FamilyFuelMonotone(nodes, ids[0], fuel, more);
      FamiliesFuelMonotone(nodes, ids[1..], fuel, more);
    }
  }

  /** Each listed mobject's family is part of the concatenation. */
  lemma {:induction false} MemberFamilyIncluded(nodes: seq<Node>, ids: seq<Id>, fuel: nat, c: Id)
    requires Linked(nodes) && AllIn(nodes, ids) && c in ids
    requires FamiliesWithin(nodes, ids, fuel).Some?
    ensures FamilyWithin(nodes, c, fuel).Some?
    ensures forall x :: x in FamilyWithin(nodes, c, fuel).value ==> x in FamiliesWithin(nodes, ids, fuel).value
    decreases |ids|
  {
    if ids[0] != c {
      MemberFamilyIncluded(nodes, ids[1..], fuel, c);
    }
  }

  /** The family of a child lies inside the family of its parent, so a family
      contains every descendant. */
  lemma ChildFamilyIncluded(nodes: seq<Node>, id: Id, c: Id)
    requires Linked(nodes) && id < |nodes| && c in nodes[id].submobjects
    requires GetFamily(nodes, id).Some?
    ensures c < |nodes| && GetFamily(nodes, c).Some?
    ensures forall x :: x in GetFamily(nodes, c).value ==> x in GetFamily(nodes, id).value
  {
    var n := |nodes|;
    var below := FamiliesWithin(nodes, nodes[id].submobjects, n - 1);
    MemberFamilyIncluded(nodes, nodes[id].submobjects, n - 1, c);
    FamilyFuelMonotone(nodes, c, n - 1, n);
    var all := [id] + below.value;
    ArrayUtil.FirstOccurrencesProperties(all);
    forall x | x in GetFamily(nodes, c).value ensures x in GetFamily(nodes, id).value {
      assert x in below.value;
      assert x in all;
    }
  }

  /** The members of a family are the mobject itself and the members of its
      children's families. */
  lemma FamilyMembers(nodes: seq<Node>, id: Id, x: Id)
    requires Linked(nodes) && id < |nodes| && GetFamily(nodes, id).Some?
    requires x in GetFamily(nodes, id).value && x != id
    ensures exists c :: c in nodes[id].submobjects && c < |nodes| && GetFamily(nodes, c).Some? && x in GetFamily(nodes, c).value
  {
    var n := |nodes|;
    var below := FamiliesWithin(nodes, nodes[id].submobjects, n - 1);
    var all := [id] + below.value;
    ArrayUtil.FirstOccurrencesProperties(all);
    assert x in below.value;
    var c := FamiliesMemberSource(nodes, nodes[id].submobjects, n - 1, x);
    FamilyFuelMonotone(nodes, c, n - 1, n);
  }

  lemma {:induction false} FamiliesMemberSource(nodes: seq<Node>, ids: seq<Id>, fuel: nat, x: Id) returns (c: Id)
    requires Linked(nodes) && AllIn(nodes, ids)
    requires FamiliesWithin(nodes, ids, fuel).Some? && x in FamiliesWithin(nodes, ids, fuel).value
    ensures c in ids && c < |nodes| && FamilyWithin(nodes, c, fuel).Some? && x in FamilyWithin(nodes, c, fuel).value
    decreases |ids|
  {
    if x in FamilyWithin(nodes, ids[0], fuel).value {
      c := ids[0];
    } else {
      c := FamiliesMemberSource(nodes, ids[1..], fuel, x);
    }
  }

  /** The mobjects below `bound` only have children below `bound`. */
  predicate ClosedBelow(nodes: seq<Node>, bound: nat)
  {
    bound <= |nodes| && forall i :: 0 <= i < bound ==> forall c :: c in nodes[i].submobjects ==> c < bound
  }

  /** A family never leaves a part of the arena that links only into itself,
      so the mobjects appended to an arena belong to no earlier family. */
  lemma {:induction false} FamilyBelow(nodes: seq<Node>, id: Id, fuel: nat, bound: nat)
    requires Linked(nodes) && id < bound && ClosedBelow(nodes, bound)
    requires FamilyWithin(nodes, id, fuel).Some?
    ensures forall x :: x in FamilyWithin(nodes, id, fuel).value ==> x < bound
    decreases fuel, 0
  {
    var below := FamiliesWithin(nodes, nodes[id].submobjects, fuel - 1);
    FamiliesBelow(nodes, nodes[id].submobjects, fuel - 1, bound);
    ArrayUtil.FirstOccurrencesProperties([id] + below.value);
  }

  lemma {:induction false} FamiliesBelow(nodes: seq<Node>, ids: seq<Id>, fuel: nat, bound: nat)
    requires Linked(nodes) && AllIn(nodes, ids) && ClosedBelow(nodes, bound)
    requires forall c :: c in ids ==> c < bound
    requires FamiliesWithin(nodes, ids, fuel).Some?
    ensures forall x :: x in FamiliesWithin(nodes, ids, fuel).value ==> x < bound
    decreases fuel, |ids|
  {
    if ids != [] {
      assert ids[0] in ids;
      assert forall c :: c in ids[1..] ==> c in ids;
      FamilyBelow(nodes, ids[0], fuel, bound);
      FamiliesBelow(nodes, ids[1..], fuel, bound);
    }
  }

  /** `getFamilyWithPoints()`: the family members that hold points. */
  function FamilyWithPoints(nodes: seq<Node>, id: Id): (r: Option<seq<Id>>)
    requires Linked(nodes) && id < |nodes|
    ensures r.Some? <==> GetFamily(nodes, id).Some?
    ensures r.Some? ==> AllIn(nodes, r.value) && ArrayUtil.NoDuplicates(r.value)
    ensures r.Some? ==> forall x :: x in r.value <==> x in GetFamily(nodes, id).value && |nodes[x].points| > 0
  {
    var fam := GetFamily(nodes, id);
    if fam.None? then None
    else
      var keep := (x: Id) => x < |nodes| && |nodes[x].points| > 0;
      ArrayUtil.FilterNoDuplicates(fam.value, keep);
      AllInMembers(nodes, ArrayUtil.Filter(fam.value, keep));
      Some(ArrayUtil.Filter(fam.value, keep))
  }

  /** A mobject without children is its own family; with points, its own
      family with points. */
  lemma LeafFamily(nodes: seq<Node>, id: Id)
    requires Linked(nodes) && id < |nodes| && nodes[id].submobjects == []
    ensures GetFamily(nodes, id) == Some([id])
    ensures |nodes[id].points| > 0 ==> FamilyWithPoints(nodes, id) == Some([id])
  {
    var none: seq<Id> := [];
    assert FamiliesWithin(nodes, nodes[id].submobjects, |nodes| - 1) == Some(none);
    assert [id] + none == [id];
    assert ArrayUtil.FirstOccurrences(none) == none;
    assert ArrayUtil.FirstOccurrences([id]) == [id];
    assert FamilyWithin(nodes, id, |nodes|) == Some([id]);
  }

  /** `getVectorizedFamily()`: the family members that are `VMobject`s. */
  function VectorizedFamily(nodes: seq<Node>, id: Id): (r: Option<seq<Id>>)
    requires Linked(nodes) && id < |nodes|
    ensures r.Some? <==> GetFamily(nodes, id).Some?
    ensures r.Some? ==> AllIn(nodes, r.value) && ArrayUtil.NoDuplicates(r.value)
    ensures r.Some? ==> forall x :: x in r.value <==> x in GetFamily(nodes, id).value && IsVectorized(nodes[x])
  {
    var fam := GetFamily(nodes, id);
    if fam.None? then None
    else
      var keep := (x: Id) => x < |nodes| && IsVectorized(nodes[x]);
      ArrayUtil.FilterNoDuplicates(fam.value, keep);
      AllInMembers(nodes, ArrayUtil.Filter(fam.value, keep));
      Some(ArrayUtil.Filter(fam.value, keep))
  }

  // ---------------------------------------------------------------------
  // Critical points

  /** The points of the listed mobjects, concatenated (`flatMap`). */
  function AllPoints(nodes: seq<Node>, ids: seq<Id>): seq<Vectors.Vector3>
    requires AllIn(nodes, ids)
  {
    if ids == [] then [] else nodes[ids[0]].points + AllPoints(nodes, ids[1..])
  }

  /** The points at positions congruent to `n` modulo 4, in order. */
  function EveryNth(points: seq<Vectors.Vector3>, n: nat, from: nat): seq<Vectors.Vector3>
    decreases |points| - from
  {
    if from >= |points| then []
    else (if from % 4 == n then [points[from]] else []) + EveryNth(points, n, from + 1)
  }

  /** `VMobject.getAnchors()`: a lone point is its own anchor; otherwise the
      start anchors followed by the end anchors. */
  function Anchors(points: seq<Vectors.Vector3>): seq<Vectors.Vector3>
  {
    if |points| == 1 then points else EveryNth(points, 0, 0) + EveryNth(points, 3, 0)
  }

  /** The anchors of the listed mobjects, concatenated. */
  function AllAnchors(nodes: seq<Node>, ids: seq<Id>): seq<Vectors.Vector3>
    requires AllIn(nodes, ids)
  {
    if ids == [] then [] else Anchors(nodes[ids[0]].points) + AllAnchors(nodes, ids[1..])
  }

  /** `getPointsDefiningBoundary()`: every point of the family for a plain
      `Mobject`; the anchors of the vectorized family for a `VMobject`, whose
      override this is. */
  function BoundaryPoints(nodes: seq<Node>, id: Id): (r: Option<seq<Vectors.Vector3>>)
    requires Linked(nodes) && id < |nodes|
    ensures r.Some? <==> GetFamily(nodes, id).Some?
  {
    if IsVectorized(nodes[id]) then
      var fam := VectorizedFamily(nodes, id);
      if fam.None? then None else Some(AllAnchors(nodes, fam.value))
    else
      var fam := FamilyWithPoints(nodes, id);
      if fam.None? then None else Some(AllPoints(nodes, fam.value))
  }

  /** `Math.min(...values)` of a non-empty list. */
  function Smallest(values: seq<real>): (m: real)
    requires |values| > 0
    ensures m in values && forall v :: v in values ==> m <= v
  {
    if |values| == 1 then values[0]
    else
      var rest := Smallest(values[1..]);
      assert forall v :: v in values ==> v == values[0] || v in values[1..];
      if values[0] <= rest then values[0] else rest
  }

  /** `Math.max(...values)` of a non-empty list. */
  function Largest(values: seq<real>): (m: real)
    requires |values| > 0
    ensures m in values && forall v :: v in values ==> v <= m
  {
    if |values| == 1 then values[0]
    else
      var rest := Largest(values[1..]);
      assert forall v :: v in values ==> v == values[0] || v in values[1..];
      if values[0] >= rest then values[0] else rest
  }

  function Sign(x: real): int
  {
    if x < 0.0 then -1 else if x == 0.0 then 0 else 1
  }

  /** Coordinate `dim` of every point. */
  function Coords(points: seq<Vectors.Vector3>, dim: int): (r: seq<real>)
    requires 0 <= dim < 3
    ensures |r| == |points|
  {
    seq(|points|, k requires 0 <= k < |points| => Vectors.Coord(points[k], dim))
  }

  /** `getExtremumAlongDim(points, dim, key)`: the minimum for a negative key,
      the maximum for a positive one and their midpoint for 0. */
  function Extremum(points: seq<Vectors.Vector3>, dim: int, key: int): real
    requires 0 <= dim < 3 && |points| > 0
  {
    var values := Coords(points, dim);
    if key < 0 then Smallest(values)
    else if key == 0 then (Smallest(values) + Largest(values)) / 2.0
    else Largest(values)
  }

  /** `getCriticalPoint(direction)`: the origin when there are no boundary
      points, otherwise the extremum along each axis chosen by the sign of
      that coordinate of `direction`. */
  function CriticalPoint(nodes: seq<Node>, id: Id, direction: Vectors.Vector3): (r: Option<Vectors.Vector3>)
    requires Linked(nodes) && id < |nodes|
    ensures r.Some? <==> GetFamily(nodes, id).Some?
    ensures r.Some? && BoundaryPoints(nodes, id).value == [] ==> r.value == Vectors.ORIGIN
  {
    var pts := BoundaryPoints(nodes, id);
    if pts.None? then None
    else if |pts.value| == 0 then Some(Vectors.ORIGIN)
    else
      Some(Vectors.Vector3(
             Extremum(pts.value, 0, Sign(direction.x)),
             Extremum(pts.value, 1, Sign(direction.y)),
             Extremum(pts.value, 2, Sign(direction.z))))
  }

  /** The least and the greatest coordinate are attained and bound all others. */
  lemma CoordRange(points: seq<Vectors.Vector3>, dim: int) returns (lo: nat, hi: nat)
    requires 0 <= dim < 3 && |points| > 0
    ensures lo < |points| && hi < |points|
    ensures Vectors.Coord(points[lo], dim) == Smallest(Coords(points, dim))
    ensures Vectors.Coord(points[hi], dim) == Largest(Coords(points, dim))
    ensures forall k :: 0 <= k < |points| ==>
              Vectors.Coord(points[lo], dim) <= Vectors.Coord(points[k], dim) <= Vectors.Coord(points[hi], dim)
  {
    var values := Coords(points, dim);
    var least := Smallest(values);
    var greatest := Largest(values);
    lo :| 0 <= lo < |values| && values[lo] == least;
    hi :| 0 <= hi < |values| && values[hi] == greatest;
    forall k | 0 <= k < |points| ensures least <= Vectors.Coord(points[k], dim) <= greatest {
      assert values[k] in values;
    }
  }

  /** The extremum is the least coordinate for a negative key, the greatest
      for a positive one, and the midpoint of the least and the greatest for 0. */
  lemma ExtremumBounds(points: seq<Vectors.Vector3>, dim: int, key: int) returns (lo: nat, hi: nat)
    requires 0 <= dim < 3 && |points| > 0
    ensures lo < |points| && hi < |points|
    ensures forall k :: 0 <= k < |points| ==>
              Vectors.Coord(points[lo], dim) <= Vectors.Coord(points[k], dim) <= Vectors.Coord(points[hi], dim)
    ensures key < 0 ==> Extremum(points, dim, key) == Vectors.Coord(points[lo], dim)
    ensures key > 0 ==> Extremum(points, dim, key) == Vectors.Coord(points[hi], dim)
    ensures key == 0 ==> Extremum(points, dim, key) == (Vectors.Coord(points[lo], dim) + Vectors.Coord(points[hi], dim)) / 2.0
  {
    lo, hi := CoordRange(points, dim);
  }

  /** Each coordinate of the critical point is the extremum of the boundary
      points along that axis, chosen by the sign of the direction there. */
  lemma CriticalPointAxes(nodes: seq<Node>, id: Id, direction: Vectors.Vector3)
    requires Linked(nodes) && id < |nodes|
    requires BoundaryPoints(nodes, id).Some? && |BoundaryPoints(nodes, id).value| > 0
    ensures forall dim :: 0 <= dim < 3 ==>
              Vectors.Coord(CriticalPoint(nodes, id, direction).value, dim) ==
              Extremum(BoundaryPoints(nodes, id).value, dim, Sign(Vectors.Coord(direction, dim)))
  {
  }

  // ---------------------------------------------------------------------
  // Updaters

  /** One invocation `updater(mob, dt)`. Updaters are closures the model does
      not see into: an update is the sequence of invocations it makes. */
  datatype Call = Call(mob: Id, updater: Updater, dt: real)

  function OwnCalls(nodes: seq<Node>, id: Id, dt: real): (r: seq<Call>)
    requires id < |nodes|
    ensures |r| == |nodes[id].updaters|
    ensures forall k :: 0 <= k < |r| ==> r[k] == Call(id, nodes[id].updaters[k], dt)
  {
    seq(|nodes[id].updaters|, k requires 0 <= k < |nodes[id].updaters| => Call(id, nodes[id].updaters[k], dt))
  }

  /** `update(dt, recursive)`: nothing when suspended; otherwise the mobject's
      own updaters in list order, then (when recursive) each child's update. */
  function UpdateWithin(nodes: seq<Node>, id: Id, dt: real, recursive: bool, fuel: nat): Option<seq<Call>>
    requires Linked(nodes) && id < |nodes|
    decreases fuel, 0
  {
    if nodes[id].updatingSuspended then Some([])
    else if !recursive then Some(OwnCalls(nodes, id, dt))
    else if fuel == 0 then None
    else
      var below := ChildrenUpdateWithin(nodes, nodes[id].submobjects, dt, fuel - 1);
      if below.None? then None else Some(OwnCalls(nodes, id, dt) + below.value)
  }

  function ChildrenUpdateWithin(nodes: seq<Node>, ids: seq<Id>, dt: real, fuel: nat): Option<seq<Call>>
    requires Linked(nodes) && AllIn(nodes, ids)
    decreases fuel, |ids|
  {
    if ids == [] then Some([])
    else
      var head := UpdateWithin(nodes, ids[0], dt, true, fuel);
      var rest := ChildrenUpdateWithin(nodes, ids[1..], dt, fuel);
      if head.None? || rest.None? then None else Some(head.value + rest.value)
  }

  function Update(nodes: seq<Node>, id: Id, dt: real, recursive: bool): (r: Option<seq<Call>>)
    requires Linked(nodes) && id < |nodes|
    ensures r.None? ==> recursive && !nodes[id].updatingSuspended
    ensures GetFamily(nodes, id).Some? ==> r.Some?
  {
    if GetFamily(nodes, id).Some? then
      UpdateCompletes(nodes, id, dt, recursive, |nodes|);
      UpdateWithin(nodes, id, dt, recursive, |nodes|)
    else
      UpdateWithin(nodes, id, dt, recursive, |nodes|)
  }

  /** The arena after the first k of `us` are appended to the mobject's
      updaters. */
  function WithAdded(nodes: seq<Node>, id: Id, us: seq<Updater>, k: nat): (r: seq<Node>)
    requires Linked(nodes) && id < |nodes| && k <= |us|
    ensures Linked(r) && |r| == |nodes|
    ensures r[id].updaters == nodes[id].updaters + us[..k]
    ensures forall i :: 0 <= i < |nodes| && i != id ==> r[i] == nodes[i]
  {
    EditKeepsLinked(nodes, id, nodes[id].(updaters := nodes[id].updaters + us[..k]));
    nodes[id := nodes[id].(updaters := nodes[id].updaters + us[..k])]
  }

  /** The invocations of `matchUpdaters`' loop: after each addition, one
      `update(0)` of the mobject; `None` once an update overflows. */
  function AddedCalls(nodes: seq<Node>, id: Id, us: seq<Updater>, k: nat): Option<seq<Call>>
    requires Linked(nodes) && id < |nodes| && k <= |us|
  {
    if k == 0 then Some([])
    else
      var before := AddedCalls(nodes, id, us, k - 1);
      var step := Update(WithAdded(nodes, id, us, k), id, 0.0, true);
      if before.None? || step.None? then None else Some(before.value + step.value)
  }

  /** Two arenas with the same child links. */
  predicate SameLinks(a: seq<Node>, b: seq<Node>)
  {
    |a| == |b| && forall i :: 0 <= i < |a| ==> a[i].submobjects == b[i].submobjects
  }

  /** Families depend on the child links alone. */
  lemma {:induction false} FamilySameLinks(a: seq<Node>, b: seq<Node>, id: Id, fuel: nat)
    requires Linked(a) && SameLinks(a, b) && id < |a|
    ensures Linked(b) && FamilyWithin(a, id, fuel) == FamilyWithin(b, id, fuel)
    decreases fuel, 0
  {
    LinkedSameLinks(a, b);
    if fuel > 0 {
      FamiliesSameLinks(a, b, a[id].submobjects, fuel - 1);
    }
  }

  lemma {:induction false} FamiliesSameLinks(a: seq<Node>, b: seq<Node>, ids: seq<Id>, fuel: nat)
    requires Linked(a) && SameLinks(a, b) && AllIn(a, ids)
    ensures Linked(b) && FamiliesWithin(a, ids, fuel) == FamiliesWithin(b, ids, fuel)
    decreases fuel, |ids|
  {
    LinkedSameLinks(a, b);
    if ids != [] {
      FamilySameLinks(a, b, ids[0], fuel);
      FamiliesSameLinks(a, b, ids[1..], fuel);
    }
  }

  lemma LinkedSameLinks(a: seq<Node>, b: seq<Node>)
    requires Linked(a) && SameLinks(a, b)
    ensures Linked(b)
  {
    forall i | 0 <= i < |b| ensures AllIn(b, b[i].submobjects) {
      assert b[i].submobjects == a[i].submobjects;
    }
  }

  /** An update only overflows where the family traversal does: with a
      finite family every update completes. */
  lemma {:induction false} UpdateCompletes(nodes: seq<Node>, id: Id, dt: real, recursive: bool, fuel: nat)
    requires Linked(nodes) && id < |nodes| && FamilyWithin(nodes, id, fuel).Some?
    ensures UpdateWithin(nodes, id, dt, recursive, fuel).Some?
    decreases fuel, 0
  {
    if !nodes[id].updatingSuspended && recursive {
      ChildrenUpdatesComplete(nodes, nodes[id].submobjects, dt, fuel - 1);
    }
  }

  lemma {:induction false} ChildrenUpdatesComplete(nodes: seq<Node>, ids: seq<Id>, dt: real, fuel: nat)
    requires Linked(nodes) && AllIn(nodes, ids) && FamiliesWithin(nodes, ids, fuel).Some?
    ensures ChildrenUpdateWithin(nodes, ids, dt, fuel).Some?
    decreases fuel, |ids|
  {
    if ids != [] {
      UpdateCompletes(nodes, ids[0], dt, true, fuel);
      ChildrenUpdatesComplete(nodes, ids[1..], dt, fuel);
    }
  }

  /** A suspended mobject runs nothing; otherwise its own updaters run first,
      in list order, and a non-recursive update runs nothing else. */
  lemma UpdateOrder(nodes: seq<Node>, id: Id, dt: real, recursive: bool)
    requires Linked(nodes) && id < |nodes|
    ensures nodes[id].updatingSuspended ==> Update(nodes, id, dt, recursive) == Some([])
    ensures !nodes[id].updatingSuspended && !recursive ==> Update(nodes, id, dt, recursive) == Some(OwnCalls(nodes, id, dt))
    ensures var r := Update(nodes, id, dt, recursive);
            !nodes[id].updatingSuspended && r.Some? ==>
              |r.value| >= |nodes[id].updaters| &&
              forall k :: 0 <= k < |nodes[id].updaters| ==> r.value[k] == Call(id, nodes[id].updaters[k], dt)
  {
  }

  /** The index at which `splice(index, 0, item)` inserts: a negative index
      counts from the end, and both ends saturate. */
  function SpliceIndex(len: nat, index: int): (p: nat)
    ensures p <= len
  {
    if index < 0 then (if len + index < 0 then 0 else len + index)
    else if index > len then len else index
  }

  /** `addUpdater(updater, index)`: appended without an index, otherwise
      spliced in at `SpliceIndex`. */
  function AddedUpdater(updaters: seq<Updater>, u: Updater, index: Option<int>): (r: seq<Updater>)
    ensures |r| == |updaters| + 1
    ensures index.None? ==> r == updaters + [u]
    ensures index.Some? ==>
              var p := SpliceIndex(|updaters|, index.value);
              r[p] == u && r[..p] == updaters[..p] && r[p + 1..] == updaters[p..]
  {
    if index.None? then updaters + [u]
    else
      var p := SpliceIndex(|updaters|, index.value);
      updaters[..p] + [u] + updaters[p..]
  }

  /** The test `removeUpdater` filters by. */
  function Other(u: Updater): Updater -> bool
  {
    v => v != u
  }

  /** `removeUpdater(u)`: every occurrence of u goes, the rest keep their order. */
  function RemovedUpdater(updaters: seq<Updater>, u: Updater): (r: seq<Updater>)
    ensures u !in r
    ensures forall v :: v != u ==> (v in r <==> v in updaters)
  {
    ArrayUtil.Filter(updaters, Other(u))
  }

  /** Removing an updater that was not there before undoes adding it. */
  lemma RemoveUndoesAdd(updaters: seq<Updater>, u: Updater, index: Option<int>)
    requires u !in updaters
    ensures RemovedUpdater(AddedUpdater(updaters, u, index), u) == updaters
  {
    var p := if index.None? then |updaters| else SpliceIndex(|updaters|, index.value);
    var a, b := updaters[..p], updaters[p..];
    assert updaters == a + b;
    assert AddedUpdater(updaters, u, index) == a + ([u] + b);
    RemoveAbsent(a, b, u);
  }

  lemma RemoveAbsent(a: seq<Updater>, b: seq<Updater>, u: Updater)
    requires u !in a + b
    ensures ArrayUtil.Filter(a + ([u] + b), Other(u)) == a + b
  {
    var keep := Other(u);
    calc {
      ArrayUtil.Filter(a + ([u] + b), keep);
      { ArrayUtil.FilterConcat(a, [u] + b, keep); }
      ArrayUtil.Filter(a, keep) + ArrayUtil.Filter([u] + b, keep);
      { ArrayUtil.FilterConcat([u], b, keep); }
      ArrayUtil.Filter(a, keep) + (ArrayUtil.Filter([u], keep) + ArrayUtil.Filter(b, keep));
      { DropOnly(u); KeepOthers(a, u); KeepOthers(b, u); }
      a + ([] + b);
      { assert [] + b == b; }
      a + b;
    }
  }

  lemma DropOnly(u: Updater)
    ensures ArrayUtil.Filter([u], Other(u)) == []
  {
    assert !Other(u)(u);
    assert [u][1..] == [];
  }

  lemma KeepOthers(a: seq<Updater>, u: Updater)
    requires u !in a
    ensures ArrayUtil.Filter(a, Other(u)) == a
  {
    forall x | x in a ensures Other(u)(x) {
    }
    ArrayUtil.FilterKeepAll(a, Other(u));
  }

  // ---------------------------------------------------------------------
  // Child lists

  /** The test that keeps the children not among `mobjects`. */
  function NotAmong(mobjects: seq<Id>): Id -> bool
  {
    x => x !in mobjects
  }

  /** The children that are not among `mobjects`, in order. */
  function Without(children: seq<Id>, mobjects: seq<Id>): (r: seq<Id>)
    ensures forall x :: x in r <==> x in children && x !in mobjects
  {
    ArrayUtil.Filter(children, NotAmong(mobjects))
  }

  /** `addToFront`'s new child list. */
  function FrontMerge(children: seq<Id>, mobjects: seq<Id>): seq<Id>
  {
    mobjects + Without(children, mobjects)
  }

  /** `addToBack`'s new child list. */
  function BackMerge(children: seq<Id>, mobjects: seq<Id>): seq<Id>
  {
    Without(children, mobjects) + mobjects
  }

  /** Adding keeps every old child and gains the new ones; a child added again
      is moved, not duplicated. */
  lemma MergeMoves(children: seq<Id>, mobjects: seq<Id>)
    requires ArrayUtil.NoDuplicates(children) && ArrayUtil.NoDuplicates(mobjects)
    ensures forall x :: x in FrontMerge(children, mobjects) <==> x in children || x in mobjects
    ensures forall x :: x in BackMerge(children, mobjects) <==> x in children || x in mobjects
    ensures ArrayUtil.NoDuplicates(FrontMerge(children, mobjects))
    ensures ArrayUtil.NoDuplicates(BackMerge(children, mobjects))
  {
    var rest := Without(children, mobjects);
    ArrayUtil.FilterNoDuplicates(children, NotAmong(mobjects));
    var f := mobjects + rest;
    forall i, j | 0 <= i < j < |f| ensures f[i] != f[j] {
      if j >= |mobjects| {
        assert f[j] == rest[j - |mobjects|] && f[j] in rest;
        if i >= |mobjects| {
          assert f[i] == rest[i - |mobjects|];
        } else {
          assert f[i] in mobjects;
        }
      }
    }
    var b := rest + mobjects;
    forall i, j | 0 <= i < j < |b| ensures b[i] != b[j] {
      if i < |rest| {
        assert b[i] == rest[i] && b[i] in rest;
        if j < |rest| {
          assert b[j] == rest[j];
        } else {
          assert b[j] == mobjects[j - |rest|] && b[j] in mobjects;
        }
      } else {
        assert b[i] == mobjects[i - |rest|] && b[j] == mobjects[j - |rest|];
      }
    }
  }

  /** The scenario of re-adding a child: with children [a, b], adding [a]
      leaves [a, b] and adding [b] gives [b, a]. */
  lemma ReAddExample(a: Id, b: Id)
    requires a != b
    ensures FrontMerge([a, b], [a]) == [a, b]
    ensures FrontMerge([a, b], [b]) == [b, a]
    ensures BackMerge([a, b], [a]) == [b, a]
  {
    assert Without([a, b], [a]) == [b] by {
      assert ArrayUtil.Filter([b], NotAmong([a])) == [b];
    }
    assert Without([a, b], [b]) == [a] by {
      assert ArrayUtil.Filter([b], NotAmong([b])) == [];
    }
  }

  /** `remove` keeps the other children in their order: removing from a
      concatenation removes from each part, and removing nothing present is
      the identity. */
  lemma RemoveKeepsOrder(a: seq<Id>, b: seq<Id>, mobjects: seq<Id>)
    ensures Without(a + b, mobjects) == Without(a, mobjects) + Without(b, mobjects)
    ensures (forall x :: x in a ==> x !in mobjects) ==> Without(a, mobjects) == a
  {
    ArrayUtil.FilterConcat(a, b, NotAmong(mobjects));
    if forall x :: x in a ==> x !in mobjects {
      ArrayUtil.FilterKeepAll(a, NotAmong(mobjects));
    }
  }

  // ---------------------------------------------------------------------
  // Edits applied to a whole family

  /** What a family-wide operation does to each member. */
  datatype Edit =
    | MovePoints(f: Vectors.Vector3 -> Vectors.Vector3, pivot: Vectors.Vector3)
    | SetSuspended(flag: bool)
    | DropUpdaters

  /** `applyOverPoints`' per-point map: `func(pt.subtract(p)).add(p)`. */
  function MovedPoints(points: seq<Vectors.Vector3>, f: Vectors.Vector3 -> Vectors.Vector3, pivot: Vectors.Vector3): (r: seq<Vectors.Vector3>)
    ensures |r| == |points|
    ensures forall k :: 0 <= k < |r| ==> r[k] == Vectors.Plus(f(Vectors.Minus(points[k], pivot)), pivot)
  {
    seq(|points|, k requires 0 <= k < |points| => Vectors.Plus(f(Vectors.Minus(points[k], pivot)), pivot))
  }

  function Apply(e: Edit, n: Node): (r: Node)
    ensures r.submobjects == n.submobjects
  {
    match e
    case MovePoints(f, pivot) => n.(points := MovedPoints(n.points, f, pivot))
    case SetSuspended(flag) => n.(updatingSuspended := flag)
    case DropUpdaters => n.(updaters := [])
  }

  /** The arena after applying `e` to the listed members and to nothing else. */
  function Edited(nodes: seq<Node>, members: seq<Id>, e: Edit): (r: seq<Node>)
    ensures |r| == |nodes|
  {
    seq(|nodes|, i requires 0 <= i < |nodes| => if i in members then Apply(e, nodes[i]) else nodes[i])
  }

  /** An edit changes no child link. */
  lemma EditedSameLinks(nodes: seq<Node>, members: seq<Id>, e: Edit)
    ensures SameLinks(nodes, Edited(nodes, members, e))
  {
  }

  /** Editing an arena edits each of its prefixes alike. */
  lemma EditedPrefix(start: seq<Node>, nodes: seq<Node>, members: seq<Id>, e: Edit)
    requires |start| <= |nodes| && nodes[..|start|] == start
    ensures Edited(nodes, members, e)[..|start|] == Edited(start, members, e)
  {
    forall i | 0 <= i < |start| ensures Edited(nodes, members, e)[i] == Edited(start, members, e)[i] {
      assert nodes[i] == start[i];
    }
  }

  lemma EditedLinked(nodes: seq<Node>, members: seq<Id>, e: Edit)
    requires Linked(nodes)
    ensures Linked(Edited(nodes, members, e))
  {
    var m := Edited(nodes, members, e);
    forall i | 0 <= i < |m| ensures AllIn(m, m[i].submobjects) {
      assert m[i].submobjects == nodes[i].submobjects;
    }
  }

  /** The maps `shift` and `scaleUniformly` apply about the pivot. */
  function ShiftBy(delta: Vectors.Vector3): Vectors.Vector3 -> Vectors.Vector3
  {
    p => Vectors.Plus(p, delta)
  }

  function ScaleBy(factor: real): Vectors.Vector3 -> Vectors.Vector3
  {
    p => Vectors.Scale(p, factor)
  }

  /** The map `scale` applies about the pivot: `pt.multiply(factor)`, axis by axis. */
  function ScaleAlong(factor: Vectors.Vector3): Vectors.Vector3 -> Vectors.Vector3
  {
    (p: Vectors.Vector3) => Vectors.Vector3(p.x * factor.x, p.y * factor.y, p.z * factor.z)
  }

  /** Scaling by a vector with one factor on every axis is `scaleUniformly`. */
  lemma ScaleAlongUniform(points: seq<Vectors.Vector3>, k: real, pivot: Vectors.Vector3)
    ensures MovedPoints(points, ScaleAlong(Vectors.FromValue(k)), pivot) == MovedPoints(points, ScaleBy(k), pivot)
  {
    var l, r := MovedPoints(points, ScaleAlong(Vectors.FromValue(k)), pivot), MovedPoints(points, ScaleBy(k), pivot);
    forall i | 0 <= i < |points| ensures l[i] == r[i] {
      var d := Vectors.Minus(points[i], pivot);
      assert ScaleAlong(Vectors.FromValue(k))(d) == ScaleBy(k)(d);
    }
  }

  /** Shifting about any pivot adds the shift: (p - a) + d + a = p + d. */
  lemma ShiftIgnoresPivot(points: seq<Vectors.Vector3>, delta: Vectors.Vector3, pivot: Vectors.Vector3)
    ensures MovedPoints(points, ShiftBy(delta), pivot) ==
            seq(|points|, k requires 0 <= k < |points| => Vectors.Plus(points[k], delta))
  {
  }

  /** Scaling about a pivot keeps the pivot fixed and scales every offset
      from it by the factor. */
  lemma ScaleAboutPivot(points: seq<Vectors.Vector3>, factor: real, pivot: Vectors.Vector3)
    ensures var r := MovedPoints(points, ScaleBy(factor), pivot);
            forall k :: 0 <= k < |points| ==>
              Vectors.Minus(r[k], pivot) == Vectors.Scale(Vectors.Minus(points[k], pivot), factor)
    ensures MovedPoints([pivot], ScaleBy(factor), pivot) == [pivot]
  {
  }

  /** Every point of every listed member moved by `delta`. */
  function Translated(nodes: seq<Node>, members: seq<Id>, delta: Vectors.Vector3): (r: seq<Node>)
    ensures |r| == |nodes|
    ensures forall i :: 0 <= i < |nodes| ==> r[i].submobjects == nodes[i].submobjects
  {
    seq(|nodes|, i requires 0 <= i < |nodes| =>
      if i in members
      then nodes[i].(points := seq(|nodes[i].points|, k requires 0 <= k < |nodes[i].points| => Vectors.Plus(nodes[i].points[k], delta)))
      else nodes[i])
  }

  /** Moving points by a shift about any pivot is translating them. */
  lemma ShiftIsTranslation(nodes: seq<Node>, members: seq<Id>, delta: Vectors.Vector3, pivot: Vectors.Vector3)
    ensures Edited(nodes, members, MovePoints(ShiftBy(delta), pivot)) == Translated(nodes, members, delta)
  {
    var f := ShiftBy(delta);
    var l, r := Edited(nodes, members, MovePoints(f, pivot)), Translated(nodes, members, delta);
    forall i | 0 <= i < |nodes| ensures l[i] == r[i] {
      if i in members {
        ShiftIgnoresPivot(nodes[i].points, delta, pivot);
      }
    }
  }

  /** `after` differs from `before` only in the points of the listed members,
      whose offsets from `pivot` are scaled by `factor`. */
  ghost predicate ScaledAbout(before: seq<Node>, after: seq<Node>, members: seq<Id>, factor: real, pivot: Vectors.Vector3)
  {
    |after| == |before| &&
    forall i :: 0 <= i < |before| ==>
      after[i] == before[i].(points := after[i].points) &&
      |after[i].points| == |before[i].points| &&
      (i !in members ==> after[i].points == before[i].points) &&
      (i in members ==> forall k :: 0 <= k < |before[i].points| ==>
         Vectors.Minus(after[i].points[k], pivot) == Vectors.Scale(Vectors.Minus(before[i].points[k], pivot), factor))
  }

  lemma ScaleKeepsPivot(nodes: seq<Node>, members: seq<Id>, factor: real, pivot: Vectors.Vector3)
    ensures ScaledAbout(nodes, Edited(nodes, members, MovePoints(ScaleBy(factor), pivot)), members, factor, pivot)
  {
    var after := Edited(nodes, members, MovePoints(ScaleBy(factor), pivot));
    forall i | 0 <= i < |nodes| && i in members
      ensures forall k :: 0 <= k < |nodes[i].points| ==>
                Vectors.Minus(after[i].points[k], pivot) == Vectors.Scale(Vectors.Minus(nodes[i].points[k], pivot), factor)
    {
      ScaleAboutPivot(nodes[i].points, factor, pivot);
    }
  }

  /** What the copy of a node keeps: colour, suspension flag, points and style.
      Its updater list starts empty (the copy is a fresh `Mobject` whose
      updaters are not copied) and its children are copies of the children. */
  predicate CopyOf(n: Node, src: Node)
  {
    n.color == src.color && n.updaters == [] && n.updatingSuspended == src.updatingSuspended &&
    n.points == src.points && n.style == src.style && |n.submobjects| == |src.submobjects|
  }

  /** Mobject c of `after` is a deep copy of mobject id of `before` made of
      mobjects at `base` or beyond: it keeps what `CopyOf` keeps, and child k
      of c is such a copy of child k of id, within the depth `fuel` (the
      budget `FamilyWithin` needs for the original). */
  predicate IsCopy(after: seq<Node>, c: Id, before: seq<Node>, id: Id, base: nat, fuel: nat)
    decreases fuel
  {
    fuel > 0 && base <= c < |after| && id < |before| && CopyOf(after[c], before[id]) &&
    forall k :: 0 <= k < |after[c].submobjects| ==>
      IsCopy(after, after[c].submobjects[k], before, before[id].submobjects[k], base, fuel - 1)
  }

  /** Each of the first |cs| mobjects of ids has its copy in cs. */
  predicate Copies(after: seq<Node>, cs: seq<Id>, before: seq<Node>, ids: seq<Id>, base: nat, fuel: nat)
  {
    |cs| <= |ids| && forall j :: 0 <= j < |cs| ==> IsCopy(after, cs[j], before, ids[j], base, fuel)
  }

  /** One more child copied: the copies made so far survive the
      appended mobjects, and the new one joins them. */
  lemma CopyStep(start: seq<Node>, mid: seq<Node>, after: seq<Node>, kids: seq<Id>, ids: seq<Id>, c: Id, fuel: nat)
    requires Linked(start) && |start| <= |mid| && mid[..|start|] == start
    requires |mid| <= |after| && after[..|mid|] == mid
    requires Copies(mid, kids, start, ids, |start|, fuel) && |kids| < |ids| && ids[|kids|] < |start|
    requires IsCopy(after, c, mid, ids[|kids|], |mid|, fuel)
    ensures Copies(after, kids + [c], start, ids, |start|, fuel)
    ensures |start| <= |after| && after[..|start|] == start
  {
    assert after[..|start|] == mid[..|start|];
    IsCopyRebase(after, c, mid, start, ids[|kids|], fuel);
    CopiesExtended(mid, after, kids, start, ids, |start|, fuel);
  }

  /** Arena prefixes compose. */
  lemma PrefixChain(start: seq<Node>, mid: seq<Node>, after: seq<Node>)
    requires |start| <= |mid| && mid[..|start|] == start
    requires |mid| <= |after| && after[..|mid|] == mid
    ensures after[..|start|] == start
  {
    assert after[..|start|] == mid[..|start|];
  }

  /** Appending mobjects changes no complete family of the arena. */
  lemma GetFamilyPrefix(start: seq<Node>, nodes: seq<Node>, id: Id)
    requires Linked(start) && Linked(nodes) && |start| <= |nodes| && nodes[..|start|] == start && id < |start|
    requires GetFamily(start, id).Some?
    ensures GetFamily(nodes, id) == GetFamily(start, id)
  {
    FamilyPrefix(start, nodes, id, |nodes|);
    FamilyFuelMonotone(start, id, |start|, |nodes|);
  }

  /** A copy only reads the mobjects from `base` on, so edits below `base`
      leave it a copy. */
  lemma {:induction false} IsCopyFrame(after: seq<Node>, changed: seq<Node>, c: Id, before: seq<Node>, id: Id, base: nat, fuel: nat)
    requires IsCopy(after, c, before, id, base, fuel)
    requires |changed| == |after| && forall i :: base <= i < |after| ==> changed[i] == after[i]
    ensures IsCopy(changed, c, before, id, base, fuel)
    decreases fuel
  {
    assert changed[c] == after[c];
    forall k | 0 <= k < |after[c].submobjects|
      ensures IsCopy(changed, after[c].submobjects[k], before, before[id].submobjects[k], base, fuel - 1)
    {
      IsCopyFrame(after, changed, after[c].submobjects[k], before, before[id].submobjects[k], base, fuel - 1);
    }
  }

  /** Editing the family of an original after copying it: the edit stays
      below the copy, which remains a complete copy. */
  lemma EditBesideCopy(original: seq<Node>, copied: seq<Node>, id: Id, c: Id, e: Edit)
    requires Linked(original) && Linked(copied) && |original| <= |copied| && copied[..|original|] == original
    requires id < |original| && GetFamily(original, id).Some?
    requires IsCopy(copied, c, original, id, |original|, |original|) && GetFamily(copied, c).Some?
    ensures GetFamily(copied, id) == GetFamily(original, id)
    ensures var after := Edited(copied, GetFamily(original, id).value, e);
            Linked(after) &&
            after[..|original|] == Edited(original, GetFamily(original, id).value, e) &&
            IsCopy(after, c, original, id, |original|, |original|) &&
            GetFamily(after, id).Some? && GetFamily(after, c).Some?
  {
    var before := |original|;
    GetFamilyPrefix(original, copied, id);
    var family := GetFamily(original, id).value;
    var after := Edited(copied, family, e);
    assert ClosedBelow(copied, before) by {
      forall i | 0 <= i < before ensures forall x :: x in copied[i].submobjects ==> x < before {
        assert copied[i] == copied[..before][i];
        AllInMembers(original, copied[i].submobjects);
      }
    }
    FamilyBelow(copied, id, |copied|, before);
    EditedPrefix(original, copied, family, e);
    IsCopyFrame(copied, after, c, original, id, before, before);
    EditedSameLinks(copied, family, e);
    FamilySameLinks(copied, after, id, |copied|);
    FamilySameLinks(copied, after, c, |copied|);
  }

  /** Appending mobjects keeps copies copies. */
  lemma CopiesExtended(after: seq<Node>, more: seq<Node>, cs: seq<Id>, before: seq<Node>, ids: seq<Id>, base: nat, fuel: nat)
    requires Copies(after, cs, before, ids, base, fuel)
    requires |after| <= |more| && more[..|after|] == after
    ensures Copies(more, cs, before, ids, base, fuel)
  {
    forall j | 0 <= j < |cs| ensures IsCopy(more, cs[j], before, ids[j], base, fuel) {
      IsCopyExtended(after, more, cs[j], before, ids[j], base, fuel);
    }
  }

  /** Appending mobjects keeps a copy a copy. */
  lemma {:induction false} IsCopyExtended(after: seq<Node>, more: seq<Node>, c: Id, before: seq<Node>, id: Id, base: nat, fuel: nat)
    requires IsCopy(after, c, before, id, base, fuel)
    requires |after| <= |more| && more[..|after|] == after
    ensures IsCopy(more, c, before, id, base, fuel)
    decreases fuel
  {
    assert more[c] == after[c];
    forall k | 0 <= k < |more[c].submobjects|
      ensures IsCopy(more, more[c].submobjects[k], before, before[id].submobjects[k], base, fuel - 1)
    {
      IsCopyExtended(after, more, after[c].submobjects[k], before, before[id].submobjects[k], base, fuel - 1);
    }
  }

  /** A copy of the grown arena `mid` made beyond it is a copy of any
      linked prefix `start` holding the original, made beyond `start`. */
  lemma {:induction false} IsCopyRebase(after: seq<Node>, c: Id, mid: seq<Node>, start: seq<Node>, id: Id, fuel: nat)
    requires IsCopy(after, c, mid, id, |mid|, fuel)
    requires Linked(start) && |start| <= |mid| && mid[..|start|] == start && id < |start|
    ensures IsCopy(after, c, start, id, |start|, fuel)
    decreases fuel
  {
    assert mid[id] == start[id];
    forall k | 0 <= k < |after[c].submobjects|
      ensures IsCopy(after, after[c].submobjects[k], start, start[id].submobjects[k], |start|, fuel - 1)
    {
      assert start[id].submobjects[k] < |start|;
      IsCopyRebase(after, after[c].submobjects[k], mid, start, start[id].submobjects[k], fuel - 1);
    }
  }

  /** A copy has a family within the same depth, all of it new: the copy
      shares no mobject with the arena it was made from. */
  lemma {:induction false} CopyFamily(after: seq<Node>, c: Id, before: seq<Node>, id: Id, base: nat, fuel: nat)
    requires Linked(after) && IsCopy(after, c, before, id, base, fuel)
    ensures FamilyWithin(after, c, fuel).Some?
    ensures forall x :: x in FamilyWithin(after, c, fuel).value ==> base <= x
    decreases fuel, 0
  {
    CopiesFamilies(after, after[c].submobjects, before, before[id].submobjects, base, fuel - 1);
    var below := FamiliesWithin(after, after[c].submobjects, fuel - 1);
    ArrayUtil.FirstOccurrencesProperties([c] + below.value);
  }

  lemma {:induction false} CopiesFamilies(after: seq<Node>, cs: seq<Id>, before: seq<Node>, ids: seq<Id>, base: nat, fuel: nat)
    requires Linked(after) && AllIn(after, cs) && |cs| == |ids|
    requires forall k :: 0 <= k < |cs| ==> IsCopy(after, cs[k], before, ids[k], base, fuel)
    ensures FamiliesWithin(after, cs, fuel).Some?
    ensures forall x :: x in FamiliesWithin(after, cs, fuel).value ==> base <= x
    decreases fuel, |cs|
  {
    if cs != [] {
      CopyFamily(after, cs[0], before, ids[0], base, fuel);
      assert forall k :: 0 <= k < |cs[1..]| ==> cs[1..][k] == cs[k + 1] && ids[1..][k] == ids[k + 1];
      CopiesFamilies(after, cs[1..], before, ids[1..], base, fuel);
    }
  }

  /** A linked prefix of an arena has the same families in both. */
  lemma {:induction false} FamilyPrefix(start: seq<Node>, nodes: seq<Node>, id: Id, fuel: nat)
    requires Linked(start) && Linked(nodes) && |start| <= |nodes| && nodes[..|start|] == start && id < |start|
    ensures FamilyWithin(nodes, id, fuel) == FamilyWithin(start, id, fuel)
    decreases fuel, 0
  {
    assert nodes[id] == start[id];
    if fuel > 0 {
      FamiliesPrefix(start, nodes, start[id].submobjects, fuel - 1);
    }
  }

  lemma {:induction false} FamiliesPrefix(start: seq<Node>, nodes: seq<Node>, ids: seq<Id>, fuel: nat)
    requires Linked(start) && Linked(nodes) && |start| <= |nodes| && nodes[..|start|] == start && AllIn(start, ids)
    ensures AllIn(nodes, ids) && FamiliesWithin(nodes, ids, fuel) == FamiliesWithin(start, ids, fuel)
    decreases fuel, |ids|
  {
    if ids != [] {
      FamilyPrefix(start, nodes, ids[0], fuel);
      FamiliesPrefix(start, nodes, ids[1..], fuel);
    }
  }

  /** The families of the first k mobjects of ids are complete. */
  predicate FamiliesUpTo(nodes: seq<Node>, ids: seq<Id>, k: nat, fuel: nat)
    requires Linked(nodes) && AllIn(nodes, ids)
  {
    k <= |ids| && forall j :: 0 <= j < k ==> FamilyWithin(nodes, ids[j], fuel).Some?
  }

  /** A family is complete exactly when each child's is, one level down. */
  lemma FamilyFromChildren(nodes: seq<Node>, id: Id, fuel: nat)
    requires Linked(nodes) && id < |nodes| && fuel > 0
    ensures FamilyWithin(nodes, id, fuel).Some? <==>
            FamiliesUpTo(nodes, nodes[id].submobjects, |nodes[id].submobjects|, fuel - 1)
  {
    FamiliesSome(nodes, nodes[id].submobjects, fuel - 1);
  }

  /** Checking the next child's family: a complete one extends the
      prefix, an incomplete one spoils the whole list. */
  lemma FamiliesUpToStep(nodes: seq<Node>, ids: seq<Id>, k: nat, fuel: nat)
    requires Linked(nodes) && AllIn(nodes, ids)
    requires FamiliesUpTo(nodes, ids, k, fuel) && k < |ids|
    ensures FamilyWithin(nodes, ids[k], fuel).Some? ==> FamiliesUpTo(nodes, ids, k + 1, fuel)
    ensures FamilyWithin(nodes, ids[k], fuel).None? ==> !FamiliesUpTo(nodes, ids, |ids|, fuel)
  {
  }

  /** A node whose children are copies of id's children, appended with
      what `CopyOf` keeps of id, is a copy of id. */
  lemma AppendedCopy(last: seq<Node>, kids: seq<Id>, start: seq<Node>, id: Id, fuel: nat)
    requires id < |start| <= |last| && fuel > 0 && |kids| == |start[id].submobjects|
    requires Linked(last) && last[..|start|] == start
    requires Copies(last, kids, start, start[id].submobjects, |start|, fuel - 1)
    ensures var src := start[id];
            var nodes := last + [Node(src.color, kids, [], src.updatingSuspended, src.points, src.style)];
            Linked(nodes) && nodes[..|start|] == start && IsCopy(nodes, |last|, start, id, |start|, fuel)
  {
    var src := start[id];
    var n := Node(src.color, kids, [], src.updatingSuspended, src.points, src.style);
    var nodes := last + [n];
    assert nodes[..|last|] == last;
    assert nodes[..|start|] == last[..|start|];
    CopiesExtended(last, nodes, kids, start, src.submobjects, |start|, fuel - 1);
    AppendLinked(last, n);
  }

  /** Appending a node whose children are in the arena keeps it linked. */
  lemma AppendLinked(last: seq<Node>, n: Node)
    requires Linked(last) && AllIn(last, n.submobjects)
    ensures Linked(last + [n])
  {
    var nodes := last + [n];
    forall i | 0 <= i < |nodes| ensures AllIn(nodes, nodes[i].submobjects) {
      if i < |last| {
        assert nodes[i] == last[i];
      }
    }
  }

  /** The families of a list are complete exactly when each one is. */
  lemma {:induction false} FamiliesSome(nodes: seq<Node>, ids: seq<Id>, fuel: nat)
    requires Linked(nodes) && AllIn(nodes, ids)
    ensures FamiliesWithin(nodes, ids, fuel).Some? <==> forall k :: 0 <= k < |ids| ==> FamilyWithin(nodes, ids[k], fuel).Some?
    decreases |ids|
  {
    if ids != [] {
      FamiliesSome(nodes, ids[1..], fuel);
      assert forall k :: 0 < k < |ids| ==> ids[k] == ids[1..][k - 1];
    }
  }

  /** All mobjects of a program. */
  class Arena {
    var nodes: seq<Node>

    ghost predicate Valid()
      reads this
    {
      Linked(nodes)
    }

    constructor ()
      ensures Valid() && nodes == []
    {
      nodes := [];
    }

    /** `new Mobject(color)`: no children, no updaters, not suspended and no
        points (`resetPoints`; the colour and point hooks do nothing). */
    method NewMobject(color: Colors.Color) returns (id: Id)
      requires Valid()
      modifies this
      ensures Valid() && id == old(|nodes|)
      ensures nodes == old(nodes) + [Node(color, [], [], false, [], None)]
    {
      nodes := nodes + [Node(color, [], [], false, [], None)];
      id := |nodes| - 1;
      assert forall i :: 0 <= i < |old(nodes)| ==> nodes[i] == old(nodes)[i];
    }

    /** `new VMobject(color)`: `initColors` sets the fill and stroke lists to
        [color] and leaves the background list unset; the stroke widths are
        the field defaults. */
    method NewVMobject(color: Colors.Color) returns (id: Id)
      requires Valid()
      modifies this
      ensures Valid() && id == old(|nodes|)
      ensures nodes == old(nodes) + [Node(color, [], [], false, [], Some(Style(Some([color]), Some([color]), None, DEFAULT_STROKE_WIDTH, 0.0)))]
    {
      nodes := nodes + [Node(color, [], [], false, [], Some(Style(Some([color]), Some([color]), None, DEFAULT_STROKE_WIDTH, 0.0)))];
      id := |nodes| - 1;
      assert forall i :: 0 <= i < |old(nodes)| ==> nodes[i] == old(nodes)[i];
    }

    /** `addToFront(mobjects)` (and `add`): throws when the list contains the
        mobject itself; otherwise the children become `mobjects` followed by
        the old children not among them. */
    method AddToFront(id: Id, mobjects: seq<Id>) returns (o: Outcome)
      requires Valid() && id < |nodes| && AllIn(nodes, mobjects)
      modifies this
      ensures Valid()
      ensures o.Fail? <==> id in mobjects
      ensures o.Fail? ==> nodes == old(nodes)
      ensures o.Pass? ==> nodes == old(nodes)[id := old(nodes)[id].(submobjects := FrontMerge(old(nodes)[id].submobjects, mobjects))]
    {
      if id in mobjects {
        return Fail("Mobject can't contain itself");
      }
      var n := nodes[id].(submobjects := FrontMerge(nodes[id].submobjects, mobjects));
      AllInMembers(nodes, mobjects);
      AllInMembers(nodes, nodes[id].submobjects);
      AllInMembers(nodes, n.submobjects);
      SetNode(id, n);
      o := Pass;
    }

    /** `add(mobjects)`: the same as `addToFront`. */
    method Add(id: Id, mobjects: seq<Id>) returns (o: Outcome)
      requires Valid() && id < |nodes| && AllIn(nodes, mobjects)
      modifies this
      ensures Valid()
      ensures o.Fail? <==> id in mobjects
      ensures o.Fail? ==> nodes == old(nodes)
      ensures o.Pass? ==> nodes == old(nodes)[id := old(nodes)[id].(submobjects := FrontMerge(old(nodes)[id].submobjects, mobjects))]
    {
      o := AddToFront(id, mobjects);
    }

    /** `addToBack(mobjects)`: the same check; the old children not among
        `mobjects` come first. */
    method AddToBack(id: Id, mobjects: seq<Id>) returns (o: Outcome)
      requires Valid() && id < |nodes| && AllIn(nodes, mobjects)
      modifies this
      ensures Valid()
      ensures o.Fail? <==> id in mobjects
      ensures o.Fail? ==> nodes == old(nodes)
      ensures o.Pass? ==> nodes == old(nodes)[id := old(nodes)[id].(submobjects := BackMerge(old(nodes)[id].submobjects, mobjects))]
    {
      if id in mobjects {
        return Fail("Mobject can't contain itself");
      }
      var n := nodes[id].(submobjects := BackMerge(nodes[id].submobjects, mobjects));
      AllInMembers(nodes, mobjects);
      AllInMembers(nodes, nodes[id].submobjects);
      AllInMembers(nodes, n.submobjects);
      SetNode(id, n);
      o := Pass;
    }

    /** `remove(mobjects)`: drops exactly the listed children. */
    method Remove(id: Id, mobjects: seq<Id>)
      requires Valid() && id < |nodes|
      modifies this
      ensures Valid()
      ensures nodes == old(nodes)[id := old(nodes)[id].(submobjects := Without(old(nodes)[id].submobjects, mobjects))]
    {
      var n := nodes[id].(submobjects := Without(nodes[id].submobjects, mobjects));
      AllInMembers(nodes, nodes[id].submobjects);
      AllInMembers(nodes, n.submobjects);
      SetNode(id, n);
    }

    method SetNode(id: Id, n: Node)
      requires Valid() && id < |nodes| && AllIn(nodes, n.submobjects)
      modifies this
      ensures Valid() && nodes == old(nodes)[id := n]
    {
      nodes := nodes[id := n];
      forall i | 0 <= i < |nodes| ensures AllIn(nodes, nodes[i].submobjects) {
        if i != id {
          assert nodes[i] == old(nodes)[i];
        }
      }
    }

    /** Applies `e` to each listed member once, in list order. */
    method ApplyToMembers(members: seq<Id>, e: Edit)
      requires Valid() && AllIn(nodes, members) && ArrayUtil.NoDuplicates(members)
      modifies this
      ensures Valid() && nodes == Edited(old(nodes), members, e)
    {
      ghost var start := nodes;
      var k := 0;
      while k < |members|
        invariant 0 <= k <= |members| && |nodes| == |start|
        invariant nodes == Edited(start, members[..k], e)
      {
        var m := members[k];
        assert m !in members[..k];
        nodes := nodes[m := Apply(e, nodes[m])];
        assert forall x :: x in members[..k + 1] <==> x in members[..k] || x == m;
        k := k + 1;
      }
      assert members[..k] == members;
      EditedLinked(start, members, e);
    }

    /** The pivot `applyOverPoints` resolves: the given point, or else the
        critical point along `aboutEdge`. */
    function Pivot(id: Id, aboutPoint: Option<Vectors.Vector3>, aboutEdge: Vectors.Vector3): Option<Vectors.Vector3>
      reads this
      requires Valid() && id < |nodes|
    {
      if aboutPoint.Some? then aboutPoint else CriticalPoint(nodes, id, aboutEdge)
    }

    /** `applyOverPoints(func, aboutPoint, aboutEdge)`: every point of every
        family member with points becomes `func(p - pivot) + pivot`; nothing
        else changes. */
    method ApplyOverPoints(id: Id, f: Vectors.Vector3 -> Vectors.Vector3, aboutPoint: Option<Vectors.Vector3>, aboutEdge: Vectors.Vector3) returns (o: Outcome)
      requires Valid() && id < |nodes|
      modifies this
      ensures Valid()
      ensures o.Pass? <==> GetFamily(old(nodes), id).Some?
      ensures o.Fail? ==> nodes == old(nodes)
      ensures o.Pass? ==>
                nodes == Edited(old(nodes), FamilyWithPoints(old(nodes), id).value,
                                MovePoints(f, old(Pivot(id, aboutPoint, aboutEdge)).value))
    {
      var fam := FamilyWithPoints(nodes, id);
      if fam.None? {
        return Fail(STACK_OVERFLOW);
      }
      var pivot := Pivot(id, aboutPoint, aboutEdge);
      ApplyToMembers(fam.value, MovePoints(f, pivot.value));
      o := Pass;
    }

    /** `shift(delta)`: every point of every family member with points moves
        by `delta` (the pivot cancels out); nothing else changes. */
    method Shift(id: Id, delta: Vectors.Vector3) returns (o: Outcome)
      requires Valid() && id < |nodes|
      modifies this
      ensures Valid()
      ensures o.Pass? <==> GetFamily(old(nodes), id).Some?
      ensures o.Fail? ==> nodes == old(nodes)
      ensures o.Pass? ==> nodes == Translated(old(nodes), FamilyWithPoints(old(nodes), id).value, delta)
    {
      ghost var before := nodes;
      ghost var pivot := Pivot(id, None, Vectors.ORIGIN);
      o := ApplyOverPoints(id, ShiftBy(delta), None, Vectors.ORIGIN);
      if o.Pass? {
        ShiftIsTranslation(before, FamilyWithPoints(before, id).value, delta, pivot.value);
      }
    }

    /** `scaleUniformly(factor, aboutPoint, aboutEdge)`: every offset from the
        pivot of a point of the family is multiplied by `factor`, and the
        pivot itself stays where it is. */
    method ScaleUniformly(id: Id, factor: real, aboutPoint: Option<Vectors.Vector3>, aboutEdge: Vectors.Vector3) returns (o: Outcome)
      requires Valid() && id < |nodes|
      modifies this
      ensures Valid()
      ensures o.Pass? <==> GetFamily(old(nodes), id).Some?
      ensures o.Fail? ==> nodes == old(nodes)
      ensures o.Pass? ==>
                var pivot := old(Pivot(id, aboutPoint, aboutEdge)).value;
                nodes == Edited(old(nodes), FamilyWithPoints(old(nodes), id).value, MovePoints(ScaleBy(factor), pivot)) &&
                ScaledAbout(old(nodes), nodes, FamilyWithPoints(old(nodes), id).value, factor, pivot)
    {
      ghost var before := nodes;
      ghost var pivot := Pivot(id, aboutPoint, aboutEdge);
      o := ApplyOverPoints(id, ScaleBy(factor), aboutPoint, aboutEdge);
      if o.Pass? {
        ScaleKeepsPivot(before, FamilyWithPoints(before, id).value, factor, pivot.value);
      }
    }

    /** `scale(factor, aboutPoint, aboutEdge)`: every offset from the pivot
        of a point of the family is multiplied by `factor` axis by axis. */
    method Scale(id: Id, factor: Vectors.Vector3, aboutPoint: Option<Vectors.Vector3>, aboutEdge: Vectors.Vector3) returns (o: Outcome)
      requires Valid() && id < |nodes|
      modifies this
      ensures Valid()
      ensures o.Pass? <==> GetFamily(old(nodes), id).Some?
      ensures o.Fail? ==> nodes == old(nodes)
      ensures o.Pass? ==>
                nodes == Edited(old(nodes), FamilyWithPoints(old(nodes), id).value,
                                MovePoints(ScaleAlong(factor), old(Pivot(id, aboutPoint, aboutEdge)).value))
    {
      o := ApplyOverPoints(id, ScaleAlong(factor), aboutPoint, aboutEdge);
    }

    /** `applyFunction(func)`: `applyOverPoints` with the origin as pivot. */
    method ApplyFunction(id: Id, f: Vectors.Vector3 -> Vectors.Vector3) returns (o: Outcome)
      requires Valid() && id < |nodes|
      modifies this
      ensures Valid()
      ensures o.Pass? <==> GetFamily(old(nodes), id).Some?
      ensures o.Fail? ==> nodes == old(nodes)
      ensures o.Pass? ==> nodes == Edited(old(nodes), FamilyWithPoints(old(nodes), id).value, MovePoints(f, Vectors.ORIGIN))
    {
      o := ApplyOverPoints(id, f, Some(Vectors.ORIGIN), Vectors.ORIGIN);
    }

    /** The members a recursive or non-recursive flag change reaches. */
    function Reach(id: Id, recursive: bool): Option<seq<Id>>
      reads this
      requires Valid() && id < |nodes|
    {
      if recursive then GetFamily(nodes, id) else Some([id])
    }

    /** `suspendUpdating(recursive)` / `resumeUpdating(recursive)`: sets
        `updatingSuspended` on the mobject and, when recursive, on every
        descendant, and changes nothing else. */
    method SetUpdating(id: Id, suspended: bool, recursive: bool) returns (o: Outcome)
      requires Valid() && id < |nodes|
      modifies this
      ensures Valid()
      ensures o.Pass? <==> old(Reach(id, recursive)).Some?
      ensures o.Fail? ==> nodes == old(nodes)
      ensures o.Pass? ==> nodes == Edited(old(nodes), old(Reach(id, recursive)).value, SetSuspended(suspended))
    {
      var reach := Reach(id, recursive);
      if reach.None? {
        return Fail(STACK_OVERFLOW);
      }
      ApplyToMembers(reach.value, SetSuspended(suspended));
      o := Pass;
    }

    method SuspendUpdating(id: Id, recursive: bool) returns (o: Outcome)
      requires Valid() && id < |nodes|
      modifies this
      ensures Valid() && |nodes| == old(|nodes|)
      ensures o.Pass? <==> old(Reach(id, recursive)).Some?
      ensures o.Pass? ==> forall x :: x in old(Reach(id, recursive)).value ==> nodes[x].updatingSuspended
      ensures o.Pass? ==> forall i :: 0 <= i < |nodes| && i !in old(Reach(id, recursive)).value ==> nodes[i] == old(nodes[i])
      ensures o.Pass? ==> Update(nodes, id, 0.0, true) == Some([])
      ensures o.Fail? ==> nodes == old(nodes)
      ensures o.Pass? ==> nodes == Edited(old(nodes), old(Reach(id, recursive)).value, SetSuspended(true))
    {
      o := SetUpdating(id, true, recursive);
    }

    method ResumeUpdating(id: Id, recursive: bool) returns (o: Outcome)
      requires Valid() && id < |nodes|
      modifies this
      ensures Valid() && |nodes| == old(|nodes|)
      ensures o.Pass? <==> old(Reach(id, recursive)).Some?
      ensures o.Pass? ==> forall x :: x in old(Reach(id, recursive)).value ==> !nodes[x].updatingSuspended
      ensures o.Pass? ==> forall i :: 0 <= i < |nodes| && i !in old(Reach(id, recursive)).value ==> nodes[i] == old(nodes[i])
      ensures o.Fail? ==> nodes == old(nodes)
      ensures o.Pass? ==> nodes == Edited(old(nodes), old(Reach(id, recursive)).value, SetSuspended(false))
    {
      o := SetUpdating(id, false, recursive);
    }

    /** `clearUpdaters(recursive)`: empties the updater list of the mobject
        and, when recursive, of every descendant. */
    method ClearUpdaters(id: Id, recursive: bool) returns (o: Outcome)
      requires Valid() && id < |nodes|
      modifies this
      ensures Valid() && |nodes| == old(|nodes|)
      ensures o.Pass? <==> old(Reach(id, recursive)).Some?
      ensures o.Fail? ==> nodes == old(nodes)
      ensures o.Pass? ==> nodes == Edited(old(nodes), old(Reach(id, recursive)).value, DropUpdaters)
    {
      var reach := Reach(id, recursive);
      if reach.None? {
        return Fail(STACK_OVERFLOW);
      }
      ApplyToMembers(reach.value, DropUpdaters);
      o := Pass;
    }

    /** `addUpdater(updater, index, callUpdater)`: inserts the updater and,
        when `callUpdater`, runs `update(0)`, whose invocations are returned. */
    method AddUpdater(id: Id, u: Updater, index: Option<int>, callUpdater: bool) returns (calls: Option<seq<Call>>)
      requires Valid() && id < |nodes|
      modifies this
      ensures Valid()
      ensures nodes == old(nodes)[id := old(nodes)[id].(updaters := AddedUpdater(old(nodes)[id].updaters, u, index))]
      ensures !callUpdater ==> calls == Some([])
      ensures callUpdater ==> calls == Update(nodes, id, 0.0, true)
      ensures GetFamily(old(nodes), id).Some? ==> GetFamily(nodes, id) == GetFamily(old(nodes), id) && calls.Some?
    {
      ghost var before := nodes;
      SetNode(id, nodes[id].(updaters := AddedUpdater(nodes[id].updaters, u, index)));
      FamilySameLinks(before, nodes, id, |nodes|);
      if GetFamily(nodes, id).Some? {
        UpdateCompletes(nodes, id, 0.0, true, |nodes|);
      }
      if callUpdater {
        calls := Update(nodes, id, 0.0, true);
      } else {
        calls := Some([]);
      }
    }

    /** `matchUpdaters(mob)`: clears the updaters of the whole family, then
        adds `mob`'s updaters (as they stand after the clearing) one by one,
        each addition running an update; the invocations are returned. */
    method MatchUpdaters(id: Id, mob: Id) returns (o: Outcome, calls: seq<Call>)
      requires Valid() && id < |nodes| && mob < |nodes|
      modifies this
      ensures Valid()
      ensures o.Pass? <==> old(GetFamily(nodes, id)).Some?
      ensures o.Fail? ==> nodes == old(nodes)
      ensures o.Pass? ==>
                var cleared := Edited(old(nodes), old(GetFamily(nodes, id)).value, DropUpdaters);
                nodes == cleared[id := cleared[id].(updaters := cleared[mob].updaters)]
      ensures o.Fail? ==> calls == []
      ensures o.Pass? ==>
                var cleared := Edited(old(nodes), old(GetFamily(nodes, id)).value, DropUpdaters);
                Linked(cleared) && Some(calls) == AddedCalls(cleared, id, cleared[mob].updaters, |cleared[mob].updaters|)
    {
      calls := [];
      ghost var before := nodes;
      o := ClearUpdaters(id, true);
      if o.Fail? {
        return;
      }
      ghost var cleared := nodes;
      FamilySameLinks(before, cleared, id, |nodes|);
      assert nodes[id].updaters == [];
      assert nodes == cleared[id := cleared[id].(updaters := [])];
      var source := nodes[mob].updaters;
      calls := AddUpdaters(id, source);
      assert [] + source == source;
    }

    /** The loop of `matchUpdaters`: each updater of the list is added to
        the mobject in turn, and run once on its family as it is added. */
    method AddUpdaters(id: Id, us: seq<Updater>) returns (calls: seq<Call>)
      requires Valid() && id < |nodes| && GetFamily(nodes, id).Some?
      modifies this
      ensures Valid() && |nodes| == old(|nodes|) && SameLinks(old(nodes), nodes)
      ensures nodes == old(nodes)[id := old(nodes)[id].(updaters := old(nodes)[id].updaters + us)]
      ensures Some(calls) == AddedCalls(old(nodes), id, us, |us|)
    {
      calls := [];
      ghost var start := nodes;
      var k := 0;
      assert us[..0] == [];
      assert start[id].updaters + [] == start[id].updaters;
      while k < |us|
        invariant Valid() && 0 <= k <= |us| && |nodes| == |start| && SameLinks(start, nodes)
        invariant nodes == start[id := start[id].(updaters := start[id].updaters + us[..k])]
        invariant GetFamily(nodes, id).Some?
        invariant Some(calls) == AddedCalls(start, id, us, k)
      {
        var c := AddUpdater(id, us[k], None, true);
        calls := calls + c.value;
        assert us[..k + 1] == us[..k] + [us[k]];
        assert (start[id].updaters + us[..k]) + [us[k]] == start[id].updaters + us[..k + 1];
        assert nodes == WithAdded(start, id, us, k + 1);
        k := k + 1;
      }
      assert us[..k] == us;
    }

    /** `removeUpdater(updater)`. */
    method RemoveUpdater(id: Id, u: Updater)
      requires Valid() && id < |nodes|
      modifies this
      ensures Valid()
      ensures nodes == old(nodes)[id := old(nodes)[id].(updaters := RemovedUpdater(old(nodes)[id].updaters, u))]
    {
      SetNode(id, nodes[id].(updaters := RemovedUpdater(nodes[id].updaters, u)));
    }

    /** `copy()` with a recursion budget: a fresh mobject per node of the
        subtree, appended to the arena, so that the copy shares nothing with
        the original; the existing mobjects are untouched. */
    method CopyWithin(id: Id, fuel: nat) returns (r: Option<Id>)
      requires Valid() && id < |nodes|
      modifies this
      ensures Valid() && |nodes| >= old(|nodes|) && nodes[..old(|nodes|)] == old(nodes)
      ensures r.None? <==> FamilyWithin(old(nodes), id, fuel).None?
      ensures r.Some? ==> old(|nodes|) <= r.value < |nodes| && CopyOf(nodes[r.value], old(nodes[id]))
      ensures r.Some? ==> IsCopy(nodes, r.value, old(nodes), id, old(|nodes|), fuel)
      decreases fuel, 0
    {
      if fuel == 0 {
        return None;
      }
      ghost var start := nodes;
      var src := nodes[id];
      FamilyFromChildren(start, id, fuel);
      var kids := CopyChildren(src.submobjects, fuel - 1);
      if kids.None? {
        return None;
      }
      ghost var last := nodes;
      var n := Node(src.color, kids.value, [], src.updatingSuspended, src.points, src.style);
      AppendedCopy(last, kids.value, start, id, fuel);
      nodes := nodes + [n];
      r := Some(|nodes| - 1);
    }

    /** The submobjects' copies, in order; none when one of their
        families is cyclic. */
    method CopyChildren(ids: seq<Id>, fuel: nat) returns (r: Option<seq<Id>>)
      requires Valid() && AllIn(nodes, ids)
      modifies this
      ensures Valid() && |nodes| >= old(|nodes|) && nodes[..old(|nodes|)] == old(nodes)
      ensures r.None? <==> !FamiliesUpTo(old(nodes), ids, |ids|, fuel)
      ensures r.Some? ==> |r.value| == |ids| && Copies(nodes, r.value, old(nodes), ids, old(|nodes|), fuel)
      decreases fuel, 1
    {
      ghost var start := nodes;
      var kids: seq<Id> := [];
      var k := 0;
      while k < |ids|
        invariant 0 <= k <= |ids| && |kids| == k
        invariant Valid() && |nodes| >= |start| && nodes[..|start|] == start
        invariant Copies(nodes, kids, start, ids, |start|, fuel)
        invariant FamiliesUpTo(start, ids, k, fuel)
      {
        var child := ids[k];
        ghost var mid := nodes;
        var c := CopyWithin(child, fuel);
        FamilyPrefix(start, mid, child, fuel);
        FamiliesUpToStep(start, ids, k, fuel);
        if c.None? {
          PrefixChain(start, mid, nodes);
          return None;
        }
        CopyStep(start, mid, nodes, kids, ids, c.value, fuel);
        kids := kids + [c.value];
        k := k + 1;
      }
      r := Some(kids);
    }

    /** `copy()`: a cyclic family overflows the stack. */
    method Copy(id: Id) returns (r: Option<Id>)
      requires Valid() && id < |nodes|
      modifies this
      ensures Valid() && |nodes| >= old(|nodes|) && nodes[..old(|nodes|)] == old(nodes)
      ensures r.None? <==> GetFamily(old(nodes), id).None?
      ensures r.Some? ==> old(|nodes|) <= r.value < |nodes| && CopyOf(nodes[r.value], old(nodes[id]))
      ensures r.Some? ==> IsCopy(nodes, r.value, old(nodes), id, old(|nodes|), old(|nodes|))
      ensures r.Some? ==> GetFamily(nodes, r.value).Some? &&
                          forall x :: x in GetFamily(nodes, r.value).value ==> old(|nodes|) <= x
    {
      r := CopyWithin(id, |nodes|);
      if r.Some? {
        CopyFamily(nodes, r.value, old(nodes), id, old(|nodes|), old(|nodes|));
        FamilyFuelMonotone(nodes, r.value, old(|nodes|), |nodes|);
      }
    }
  }
}
