/** The mobject list of `src/scene/scene.ts`.

    A scene keeps an ordered list of the mobjects it draws. Adding a mobject
    first takes it, and everything in its family, out of the list: a listed
    mobject that is to be removed is dropped, and a listed mobject whose
    family merely contains something to be removed is replaced, in place,
    by its own children, restructured the same way. */
module Scenes {
  import opened Wrappers
  import ArrayUtil
  import Mobjects
  import Animations
  import Compositions

  type Id = Mobjects.Id

  /** Two partial results in sequence: the first failure wins. */
  function Joined(a: Option<seq<Id>>, b: Option<seq<Id>>): (r: Option<seq<Id>>)
    ensures r.Some? <==> a.Some? && b.Some?
  {
    if a.None? || b.None? then None else Some(a.value + b.value)
  }

  /** The members of a family that are to be removed (`intersect`). */
  function Intersect(family: seq<Id>, remove: set<Id>): (r: set<Id>)
    ensures forall m :: m in r <==> m in family && m in remove
  {
    set m | m in family && m in remove
  }

  // ---------------------------------------------------------------------
  // getRestructuredMobjectList

  /** What `addSafeMobjectsFromList` pushes for one mobject of the list:
      nothing when it is to be removed, the mobject itself when its family
      avoids the removal set, and otherwise its children restructured
      against the part of the removal set inside its family. `getFamily`
      overflowing the stack is `None`; so is running out of `fuel`, the
      recursion budget, which one unit per mobject of the arena never
      exhausts (`SafeMobjectsComplete`). */
  function SafeOne(nodes: seq<Mobjects.Node>, mob: Id, remove: set<Id>, fuel: nat): Option<seq<Id>>
    requires Mobjects.Linked(nodes) && mob < |nodes|
    decreases fuel, 0
  {
    if mob in remove then Some([])
    else
      var family := Mobjects.GetFamily(nodes, mob);
      if family.None? then None
      else
        var intersect := Intersect(family.value, remove);
        if intersect == {} then Some([mob])
        else if fuel == 0 then None
        else SafeMobjects(nodes, nodes[mob].submobjects, intersect, fuel - 1)
  }

  /** What `addSafeMobjectsFromList(list, remove)` pushes, in order. */
  function SafeMobjects(nodes: seq<Mobjects.Node>, list: seq<Id>, remove: set<Id>, fuel: nat): Option<seq<Id>>
    requires Mobjects.Linked(nodes) && Mobjects.AllIn(nodes, list)
    decreases fuel, |list|
  {
    if list == [] then Some([])
    else Joined(SafeOne(nodes, list[0], remove, fuel), SafeMobjects(nodes, list[1..], remove, fuel))
  }

  /** The budget of one unit per mobject is enough: where the family of a
      mobject is complete within `fuel`, so is its restructuring. */
  lemma {:induction false} SafeOneWithinFuel(nodes: seq<Mobjects.Node>, mob: Id, remove: set<Id>, fuel: nat)
    requires Mobjects.Linked(nodes) && mob < |nodes| && fuel <= |nodes|
    requires Mobjects.FamilyWithin(nodes, mob, fuel).Some?
    ensures SafeOne(nodes, mob, remove, fuel).Some?
    decreases fuel, 0
  {
    if mob !in remove {
      Mobjects.FamilyFuelMonotone(nodes, mob, fuel, |nodes|);
      var intersect := Intersect(Mobjects.GetFamily(nodes, mob).value, remove);
      if intersect != {} {
        Mobjects.FamiliesSome(nodes, nodes[mob].submobjects, fuel - 1);
        SafeListWithinFuel(nodes, nodes[mob].submobjects, intersect, fuel - 1);
      }
    }
  }

  lemma {:induction false} SafeListWithinFuel(nodes: seq<Mobjects.Node>, list: seq<Id>, remove: set<Id>, fuel: nat)
    requires Mobjects.Linked(nodes) && Mobjects.AllIn(nodes, list) && fuel <= |nodes|
    requires forall k :: 0 <= k < |list| ==> Mobjects.FamilyWithin(nodes, list[k], fuel).Some?
    ensures SafeMobjects(nodes, list, remove, fuel).Some?
    decreases fuel, |list|
  {
    if list != [] {
      SafeOneWithinFuel(nodes, list[0], remove, fuel);
      assert forall k :: 0 <= k < |list[1..]| ==> list[1..][k] == list[k + 1];
      SafeListWithinFuel(nodes, list[1..], remove, fuel);
    }
  }

  /** With every listed family complete, restructuring never runs out of
      budget: `None` then only comes from a family that overflows. */
  lemma SafeMobjectsComplete(nodes: seq<Mobjects.Node>, list: seq<Id>, remove: set<Id>)
    requires Mobjects.Linked(nodes) && Mobjects.AllIn(nodes, list)
    requires forall k :: 0 <= k < |list| ==> Mobjects.GetFamily(nodes, list[k]).Some?
    ensures SafeMobjects(nodes, list, remove, |nodes|).Some?
  {
    SafeListWithinFuel(nodes, list, remove, |nodes|);
  }

  /** Restructuring a concatenation restructures each part. */
  lemma {:induction false} SafeConcat(nodes: seq<Mobjects.Node>, a: seq<Id>, b: seq<Id>, remove: set<Id>, fuel: nat)
    requires Mobjects.Linked(nodes) && Mobjects.AllIn(nodes, a) && Mobjects.AllIn(nodes, b)
    ensures Mobjects.AllIn(nodes, a + b)
    ensures SafeMobjects(nodes, a + b, remove, fuel) == Joined(SafeMobjects(nodes, a, remove, fuel), SafeMobjects(nodes, b, remove, fuel))
    decreases |a|
  {
    assert forall k :: 0 <= k < |a + b| ==> (a + b)[k] == if k < |a| then a[k] else b[k - |a|];
    if a == [] {
      assert a + b == b;
      var rb := SafeMobjects(nodes, b, remove, fuel);
      if rb.Some? {
        assert [] + rb.value == rb.value;
      }
    } else {
      assert (a + b)[0] == a[0];
      assert (a + b)[1..] == a[1..] + b;
      SafeConcat(nodes, a[1..], b, remove, fuel);
      var h := SafeOne(nodes, a[0], remove, fuel);
      var ta := SafeMobjects(nodes, a[1..], remove, fuel);
      var tb := SafeMobjects(nodes, b, remove, fuel);
      if h.Some? && ta.Some? && tb.Some? {
        assert h.value + (ta.value + tb.value) == (h.value + ta.value) + tb.value;
      }
    }
  }

  /** A list split around its `i`-th mobject. */
  lemma SafeSplit(nodes: seq<Mobjects.Node>, list: seq<Id>, remove: set<Id>, fuel: nat, i: nat)
    requires Mobjects.Linked(nodes) && Mobjects.AllIn(nodes, list) && i < |list|
    ensures SafeMobjects(nodes, list[..i + 1], remove, fuel) == Joined(SafeMobjects(nodes, list[..i], remove, fuel), SafeOne(nodes, list[i], remove, fuel))
    ensures SafeMobjects(nodes, list, remove, fuel) == Joined(SafeMobjects(nodes, list[..i + 1], remove, fuel), SafeMobjects(nodes, list[i + 1..], remove, fuel))
  {
    assert list[..i + 1] == list[..i] + [list[i]];
    SafeConcat(nodes, list[..i], [list[i]], remove, fuel);
    assert [list[i]][1..] == [];
    var one := SafeOne(nodes, list[i], remove, fuel);
    assert SafeMobjects(nodes, [list[i]], remove, fuel) == Joined(one, Some([]));
    if one.Some? {
      assert one.value + [] == one.value;
    }
    assert list == list[..i + 1] + list[i + 1..];
    SafeConcat(nodes, list[..i + 1], list[i + 1..], remove, fuel);
  }

  /** Every mobject the restructuring keeps has a family that avoids the
      removal set, and that family lies inside the family of a listed
      mobject (`bound` collects what those families may contain). */
  lemma {:induction false} SafeAvoids(nodes: seq<Mobjects.Node>, list: seq<Id>, remove: set<Id>, fuel: nat, bound: set<Id>)
    requires Mobjects.Linked(nodes) && Mobjects.AllIn(nodes, list)
    requires forall c :: c in list && c < |nodes| && Mobjects.GetFamily(nodes, c).Some? ==>
               forall m :: m in Mobjects.GetFamily(nodes, c).value ==> m in bound
    requires SafeMobjects(nodes, list, remove, fuel).Some?
    ensures forall x :: x in SafeMobjects(nodes, list, remove, fuel).value ==>
              x < |nodes| && Mobjects.GetFamily(nodes, x).Some? &&
              forall m :: m in Mobjects.GetFamily(nodes, x).value ==> m in bound && m !in remove
    decreases fuel, |list|
  {
    if list != [] {
      var mob := list[0];
      assert mob in list;
      assert forall c :: c in list[1..] ==> c in list;
      SafeAvoids(nodes, list[1..], remove, fuel, bound);
      if mob !in remove {
        var family := Mobjects.GetFamily(nodes, mob);
        var intersect := Intersect(family.value, remove);
        if intersect != {} {
          var inner := set m | m in family.value;
          forall c | c in nodes[mob].submobjects && c < |nodes| && Mobjects.GetFamily(nodes, c).Some?
            ensures forall m :: m in Mobjects.GetFamily(nodes, c).value ==> m in inner
          {
            Mobjects.ChildFamilyIncluded(nodes, mob, c);
          }
          SafeAvoids(nodes, nodes[mob].submobjects, intersect, fuel - 1, inner);
        }
      }
    }
  }

  /** A list whose every family avoids the removal set comes through whole. */
  lemma {:induction false} SafeKeepsAll(nodes: seq<Mobjects.Node>, list: seq<Id>, remove: set<Id>, fuel: nat)
    requires Mobjects.Linked(nodes) && Mobjects.AllIn(nodes, list)
    requires forall k :: 0 <= k < |list| ==>
               Mobjects.GetFamily(nodes, list[k]).Some? && Intersect(Mobjects.GetFamily(nodes, list[k]).value, remove) == {}
    ensures SafeMobjects(nodes, list, remove, fuel) == Some(list)
    decreases |list|
  {
    if list != [] {
      var m := Mobjects.GetFamily(nodes, list[0]).value;
      assert list[0] in m;
      assert forall k :: 1 <= k < |list| ==> list[1..][k - 1] == list[k];
      SafeKeepsAll(nodes, list[1..], remove, fuel);
      assert [list[0]] + list[1..] == list;
    }
  }

  /** The three cases for one mobject in the middle of a list: the others
      keep their places around what it becomes. A mobject to be removed
      leaves nothing; one whose family avoids the removal set stays; one
      whose family meets it is replaced in place by its restructured
      children. */
  lemma SafeInPlace(nodes: seq<Mobjects.Node>, a: seq<Id>, x: Id, b: seq<Id>, remove: set<Id>, fuel: nat)
    requires Mobjects.Linked(nodes) && Mobjects.AllIn(nodes, a) && x < |nodes| && Mobjects.AllIn(nodes, b)
    ensures Mobjects.AllIn(nodes, a + [x] + b)
    ensures x in remove ==>
              SafeMobjects(nodes, a + [x] + b, remove, fuel) == Joined(SafeMobjects(nodes, a, remove, fuel), SafeMobjects(nodes, b, remove, fuel))
    ensures x !in remove && Mobjects.GetFamily(nodes, x).Some? && Intersect(Mobjects.GetFamily(nodes, x).value, remove) == {} ==>
              SafeMobjects(nodes, a + [x] + b, remove, fuel) == Joined(Joined(SafeMobjects(nodes, a, remove, fuel), Some([x])), SafeMobjects(nodes, b, remove, fuel))
    ensures x !in remove && Mobjects.GetFamily(nodes, x).Some? && fuel > 0 &&
            Intersect(Mobjects.GetFamily(nodes, x).value, remove) != {} ==>
              SafeMobjects(nodes, a + [x] + b, remove, fuel) ==
              Joined(Joined(SafeMobjects(nodes, a, remove, fuel),
                            SafeMobjects(nodes, nodes[x].submobjects, Intersect(Mobjects.GetFamily(nodes, x).value, remove), fuel - 1)),
                     SafeMobjects(nodes, b, remove, fuel))
  {
    var list := a + [x] + b;
    assert forall k :: 0 <= k < |list| ==> list[k] == if k < |a| then a[k] else if k == |a| then x else b[k - |a| - 1];
    SafeSplit(nodes, list, remove, fuel, |a|);
    assert list[..|a|] == a;
    assert list[|a| + 1..] == b;
    var head := SafeMobjects(nodes, a, remove, fuel);
    if x in remove && head.Some? {
      assert head.value + [] == head.value;
    }
  }

  /** `getRestructuredMobjectList`'s helper as it runs: one pass over the
      list, pushing onto the accumulator. */
  method AddSafeMobjectsFromList(nodes: seq<Mobjects.Node>, list: seq<Id>, remove: set<Id>, fuel: nat, acc: seq<Id>)
    returns (r: Option<seq<Id>>)
    requires Mobjects.Linked(nodes) && Mobjects.AllIn(nodes, list)
    ensures r == Joined(Some(acc), SafeMobjects(nodes, list, remove, fuel))
    decreases fuel, 1
  {
    var out := acc;
    var i := 0;
    assert list[..0] == [];
    assert acc + [] == acc;
    while i < |list|
      invariant 0 <= i <= |list|
      invariant SafeMobjects(nodes, list[..i], remove, fuel).Some?
      invariant out == acc + SafeMobjects(nodes, list[..i], remove, fuel).value
    {
      SafeSplit(nodes, list, remove, fuel, i);
      ghost var done := SafeMobjects(nodes, list[..i], remove, fuel).value;
      var next := AddSafeMobject(nodes, list[i], remove, fuel, out);
      if next.None? {
        return None;
      }
      ghost var one := SafeOne(nodes, list[i], remove, fuel).value;
      assert (acc + done) + one == acc + (done + one);
      out := next.value;
      i := i + 1;
    }
    assert list[..i] == list;
    r := Some(out);
  }

  /** The body of the helper's loop for one mobject: skip it when it is to
      be removed, push it when its family avoids the removal set, and
      otherwise recurse into its children against the intersection. */
  method AddSafeMobject(nodes: seq<Mobjects.Node>, mob: Id, remove: set<Id>, fuel: nat, acc: seq<Id>)
    returns (r: Option<seq<Id>>)
    requires Mobjects.Linked(nodes) && mob < |nodes|
    ensures r == Joined(Some(acc), SafeOne(nodes, mob, remove, fuel))
    decreases fuel, 0
  {
    if mob in remove {
      assert acc + [] == acc;
      return Some(acc);
    }
    var family := Mobjects.GetFamily(nodes, mob);
    if family.None? {
      return None;
    }
    var intersect := set m | m in family.value && m in remove;
    assert intersect == Intersect(family.value, remove);
    if intersect == {} {
      return Some(acc + [mob]);
    }
    if fuel == 0 {
      return None;
    }
    r := AddSafeMobjectsFromList(nodes, nodes[mob].submobjects, intersect, fuel - 1, acc);
  }

  /** `toRemove_`: the mobjects to remove, followed by their family members
      when `extractFamilies` is set. The camera's
      `extractMobjectFamilyMembers` is taken to return the members of the
      listed families; only which mobjects it returns matters here. */
  function RemovalList(nodes: seq<Mobjects.Node>, toRemove: seq<Id>, extractFamilies: bool): (r: Option<seq<Id>>)
    requires Mobjects.Linked(nodes) && Mobjects.AllIn(nodes, toRemove)
    ensures r.None? <==> extractFamilies && Mobjects.FamiliesWithin(nodes, toRemove, |nodes|).None?
    ensures r.Some? ==> forall t :: t in toRemove ==> t in r.value
    ensures r.Some? && extractFamilies ==>
              forall t :: t in toRemove ==>
                t < |nodes| && Mobjects.GetFamily(nodes, t).Some? &&
                forall m :: m in Mobjects.GetFamily(nodes, t).value ==> m in r.value
  {
    if !extractFamilies then Some(toRemove)
    else
      var families := Mobjects.FamiliesWithin(nodes, toRemove, |nodes|);
      if families.None? then None
      else
        Mobjects.AllInMembers(nodes, toRemove);
        assert forall t :: t in toRemove ==>
          t < |nodes| && Mobjects.GetFamily(nodes, t).Some? &&
          forall m :: m in Mobjects.GetFamily(nodes, t).value ==> m in families.value
        by {
          forall t | t in toRemove
            ensures t < |nodes| && Mobjects.GetFamily(nodes, t).Some?
            ensures forall m :: m in Mobjects.GetFamily(nodes, t).value ==> m in families.value
          {
            Mobjects.MemberFamilyIncluded(nodes, toRemove, |nodes|, t);
          }
        }
        Some(toRemove + families.value)
  }

  /** `restructureMobjects` applied to a list: `None` when a family
      overflows the stack. */
  function Restructured(nodes: seq<Mobjects.Node>, list: seq<Id>, toRemove: seq<Id>, extractFamilies: bool): Option<seq<Id>>
    requires Mobjects.Linked(nodes) && Mobjects.AllIn(nodes, list) && Mobjects.AllIn(nodes, toRemove)
  {
    var removal := RemovalList(nodes, toRemove, extractFamilies);
    if removal.None? then None
    else SafeMobjects(nodes, list, set x | x in removal.value, |nodes|)
  }

  /** The ids of an arena of `n` mobjects. */
  function Ids(n: nat): (r: set<Id>)
    ensures forall m: Id :: m in r <==> m < n
  {
    if n == 0 then {} else Ids(n - 1) + {n - 1}
  }

  /** What survives restructuring is an arena mobject none of whose family
      is to be removed; with families extracted it is also no member of the
      family of anything removed. */
  lemma RestructuredAvoids(nodes: seq<Mobjects.Node>, list: seq<Id>, toRemove: seq<Id>, extractFamilies: bool)
    requires Mobjects.Linked(nodes) && Mobjects.AllIn(nodes, list) && Mobjects.AllIn(nodes, toRemove)
    requires Restructured(nodes, list, toRemove, extractFamilies).Some?
    ensures Mobjects.AllIn(nodes, Restructured(nodes, list, toRemove, extractFamilies).value)
    ensures forall x :: x in Restructured(nodes, list, toRemove, extractFamilies).value ==>
              x < |nodes| && Mobjects.GetFamily(nodes, x).Some? &&
              forall m :: m in Mobjects.GetFamily(nodes, x).value ==> m !in toRemove
    ensures extractFamilies ==>
              forall x, t :: x in Restructured(nodes, list, toRemove, extractFamilies).value && t in toRemove &&
                             t < |nodes| && Mobjects.GetFamily(nodes, t).Some? ==>
                x !in Mobjects.GetFamily(nodes, t).value
  {
    var removal := RemovalList(nodes, toRemove, extractFamilies).value;
    var s := set x | x in removal;
    var all := Ids(|nodes|);
    forall c | c in list && c < |nodes| && Mobjects.GetFamily(nodes, c).Some?
      ensures forall m :: m in Mobjects.GetFamily(nodes, c).value ==> m in all
    {
      Mobjects.AllInMembers(nodes, Mobjects.GetFamily(nodes, c).value);
    }
    SafeAvoids(nodes, list, s, |nodes|, all);
    var r := SafeMobjects(nodes, list, s, |nodes|).value;
    Mobjects.AllInMembers(nodes, r);
    forall x | x in r ensures x in Mobjects.GetFamily(nodes, x).value {
      assert Mobjects.GetFamily(nodes, x).value[0] == x;
    }
  }

  // ---------------------------------------------------------------------
  // getTopLevelMobjects

  /** How many of the families contain `x`. */
  function Holders(families: seq<seq<Id>>, x: Id): (n: nat)
    ensures n <= |families|
    ensures n == 0 <==> forall k :: 0 <= k < |families| ==> x !in families[k]
  {
    if families == [] then 0
    else
      assert forall k :: 1 <= k < |families| ==> families[1..][k - 1] == families[k];
      (if x in families[0] then 1 else 0) + Holders(families[1..], x)
  }

  /** Two families containing `x` make at least two holders. */
  lemma {:induction false} HoldersTwo(families: seq<seq<Id>>, x: Id, i: nat, j: nat)
    requires i < j < |families| && x in families[i] && x in families[j]
    ensures Holders(families, x) >= 2
    decreases i
  {
    assert families[1..][j - 1] == families[j];
    if i > 0 {
      assert families[1..][i - 1] == families[i];
      HoldersTwo(families[1..], x, i - 1, j - 1);
    }
  }

  /** A single family containing `x` makes exactly one holder. */
  lemma {:induction false} HoldersOne(families: seq<seq<Id>>, x: Id, i: nat)
    requires i < |families| && x in families[i]
    requires forall k :: 0 <= k < |families| && k != i ==> x !in families[k]
    ensures Holders(families, x) == 1
    decreases i
  {
    assert forall k :: 1 <= k < |families| ==> families[1..][k - 1] == families[k];
    if i > 0 {
      HoldersOne(families[1..], x, i - 1);
    }
  }

  /** The family of each listed mobject (`mobjects.map(m => m.getFamily())`). */
  function Families(nodes: seq<Mobjects.Node>, mobjects: seq<Id>): (r: Option<seq<seq<Id>>>)
    requires Mobjects.Linked(nodes) && Mobjects.AllIn(nodes, mobjects)
    ensures r.None? <==> exists k :: 0 <= k < |mobjects| && Mobjects.GetFamily(nodes, mobjects[k]).None?
    ensures r.Some? ==> |r.value| == |mobjects|
    ensures r.Some? ==> forall k :: 0 <= k < |mobjects| ==> Some(r.value[k]) == Mobjects.GetFamily(nodes, mobjects[k])
    decreases |mobjects|
  {
    if mobjects == [] then Some([])
    else
      assert forall k :: 1 <= k < |mobjects| ==> mobjects[1..][k - 1] == mobjects[k];
      var head := Mobjects.GetFamily(nodes, mobjects[0]);
      var rest := Families(nodes, mobjects[1..]);
      if head.None? || rest.None? then None else Some([head.value] + rest.value)
  }

  /** `getTopLevelMobjects()`: the listed mobjects, in order, that belong to
      exactly one listed family. */
  function TopLevel(nodes: seq<Mobjects.Node>, mobjects: seq<Id>): (r: Option<seq<Id>>)
    requires Mobjects.Linked(nodes) && Mobjects.AllIn(nodes, mobjects)
    ensures r.None? <==> exists k :: 0 <= k < |mobjects| && Mobjects.GetFamily(nodes, mobjects[k]).None?
    ensures r.Some? ==> |r.value| <= |mobjects|
    ensures r.Some? ==> forall x :: x in r.value <==> x in mobjects && Holders(Families(nodes, mobjects).value, x) == 1
  {
    var families := Families(nodes, mobjects);
    if families.None? then None
    else Some(ArrayUtil.Filter(mobjects, (m: Id) => Holders(families.value, m) == 1))
  }

  /** A listed mobject inside the family of another listed entry, or listed
      twice, is not top-level. */
  lemma TopLevelDropsContained(nodes: seq<Mobjects.Node>, mobjects: seq<Id>, i: nat, j: nat)
    requires Mobjects.Linked(nodes) && Mobjects.AllIn(nodes, mobjects)
    requires i < |mobjects| && j < |mobjects| && i != j
    requires TopLevel(nodes, mobjects).Some?
    ensures Mobjects.GetFamily(nodes, mobjects[j]).Some?
    ensures mobjects[i] in Mobjects.GetFamily(nodes, mobjects[j]).value ==> mobjects[i] !in TopLevel(nodes, mobjects).value
  {
    var families := Families(nodes, mobjects).value;
    var x := mobjects[i];
    assert families[i][0] == x;
    if x in families[j] {
      if i < j {
        HoldersTwo(families, x, i, j);
      } else {
        HoldersTwo(families, x, j, i);
      }
    }
  }

  /** A mobject listed once and in no other listed family is top-level. */
  lemma TopLevelKeepsSole(nodes: seq<Mobjects.Node>, mobjects: seq<Id>, i: nat)
    requires Mobjects.Linked(nodes) && Mobjects.AllIn(nodes, mobjects) && i < |mobjects|
    requires TopLevel(nodes, mobjects).Some?
    requires forall k :: 0 <= k < |mobjects| && k != i ==>
               Mobjects.GetFamily(nodes, mobjects[k]).Some? && mobjects[i] !in Mobjects.GetFamily(nodes, mobjects[k]).value
    ensures mobjects[i] in TopLevel(nodes, mobjects).value
  {
    var families := Families(nodes, mobjects).value;
    assert families[i][0] == mobjects[i];
    HoldersOne(families, mobjects[i], i);
  }

  // ---------------------------------------------------------------------
  // getRunTime

  /** The run times of the animations, in order. */
  function RunTimes(animations: seq<Animations.Animation>): (r: seq<real>)
    reads set a | a in animations
    ensures |r| == |animations| && forall k :: 0 <= k < |r| ==> r[k] == animations[k].runTime
  {
    if animations == [] then []
    else [animations[0].runTime] + RunTimes(animations[1..])
  }

  /** `getRunTime(animations)`: the longest run time. `Math.max()` of no
      arguments is negative infinity, here `None`. */
  function GetRunTime(animations: seq<Animations.Animation>): (r: Option<real>)
    reads set a | a in animations
    ensures r.None? <==> animations == []
    ensures r.Some? ==> (forall k :: 0 <= k < |animations| ==> animations[k].runTime <= r.value) &&
                        exists k :: 0 <= k < |animations| && animations[k].runTime == r.value
  {
    var times := RunTimes(animations);
    Compositions.SpreadMax(times)
  }

  // ---------------------------------------------------------------------
  // The scene

  class Scene {
    /** The drawn mobjects, back to front. */
    var mobjects: seq<Id>

    /** The listed mobjects exist in the arena. */
    ghost predicate Within(arena: Mobjects.Arena)
      reads this, arena
    {
      arena.Valid() && Mobjects.AllIn(arena.nodes, mobjects)
    }

    /** A new scene draws nothing. */
    constructor ()
      ensures mobjects == []
    {
      mobjects := [];
    }

    /** `getRestructuredMobjectList(mobjects, toRemove)`. */
    method GetRestructuredMobjectList(arena: Mobjects.Arena, mobjects: seq<Id>, toRemove: seq<Id>) returns (r: Option<seq<Id>>)
      requires arena.Valid() && Mobjects.AllIn(arena.nodes, mobjects)
      ensures r == SafeMobjects(arena.nodes, mobjects, set x | x in toRemove, |arena.nodes|)
      ensures r.Some? ==> forall x :: x in r.value ==>
                x < |arena.nodes| && Mobjects.GetFamily(arena.nodes, x).Some? &&
                forall m :: m in Mobjects.GetFamily(arena.nodes, x).value ==> m !in toRemove
    {
      var setToRemove := set x | x in toRemove;
      r := AddSafeMobjectsFromList(arena.nodes, mobjects, setToRemove, |arena.nodes|, []);
      ghost var s := SafeMobjects(arena.nodes, mobjects, setToRemove, |arena.nodes|);
      if s.Some? {
        assert [] + s.value == s.value;
      }
      if r.Some? {
        var all := Ids(|arena.nodes|);
        forall c | c in mobjects && c < |arena.nodes| && Mobjects.GetFamily(arena.nodes, c).Some?
          ensures forall m :: m in Mobjects.GetFamily(arena.nodes, c).value ==> m in all
        {
          Mobjects.AllInMembers(arena.nodes, Mobjects.GetFamily(arena.nodes, c).value);
        }
        SafeAvoids(arena.nodes, mobjects, setToRemove, |arena.nodes|, all);
      }
    }

    /** `restructureMobjects({toRemove, extractFamilies})`. */
    method RestructureMobjects(arena: Mobjects.Arena, toRemove: seq<Id>, extractFamilies: bool := true) returns (o: Outcome)
      requires Within(arena) && Mobjects.AllIn(arena.nodes, toRemove)
      modifies this`mobjects
      ensures Within(arena)
      ensures o.Fail? <==> Restructured(arena.nodes, old(mobjects), toRemove, extractFamilies).None?
      ensures o.Fail? ==> mobjects == old(mobjects)
      ensures o.Pass? ==> mobjects == Restructured(arena.nodes, old(mobjects), toRemove, extractFamilies).value
    {
      var removal := toRemove;
      if extractFamilies {
        var families := Mobjects.FamiliesWithin(arena.nodes, toRemove, |arena.nodes|);
        if families.None? {
          return Fail(Mobjects.STACK_OVERFLOW);
        }
        removal := toRemove + families.value;
      }
      assert RemovalList(arena.nodes, toRemove, extractFamilies) == Some(removal);
      var r := GetRestructuredMobjectList(arena, mobjects, removal);
      if r.None? {
        return Fail(Mobjects.STACK_OVERFLOW);
      }
      RestructuredAvoids(arena.nodes, mobjects, toRemove, extractFamilies);
      mobjects := r.value;
      o := Pass;
    }

    /** `addToBack(mobjects)`: take the mobjects and their families out of
        the list, then append the mobjects. */
    method AddToBack(arena: Mobjects.Arena, mobs: seq<Id>) returns (o: Outcome)
      requires Within(arena) && Mobjects.AllIn(arena.nodes, mobs)
      modifies this`mobjects
      ensures Within(arena)
      ensures o.Fail? <==> Restructured(arena.nodes, old(mobjects), mobs, true).None?
      ensures o.Fail? ==> mobjects == old(mobjects)
      ensures o.Pass? ==> mobjects == Restructured(arena.nodes, old(mobjects), mobs, true).value + mobs
    {
      o := RestructureMobjects(arena, mobs);
      if o.Pass? {
        Mobjects.AllInMembers(arena.nodes, mobjects);
        Mobjects.AllInMembers(arena.nodes, mobs);
        Mobjects.AllInMembers(arena.nodes, mobjects + mobs);
        mobjects := mobjects + mobs;
      }
    }

    /** `addToFront(mobjects)`: take the mobjects and their families out of
        the list, then put the mobjects first, in the given order. Nothing
        that stays behind them belongs to one of their families. */
    method AddToFront(arena: Mobjects.Arena, mobs: seq<Id>) returns (o: Outcome)
      requires Within(arena) && Mobjects.AllIn(arena.nodes, mobs)
      modifies this`mobjects
      ensures Within(arena)
      ensures o.Fail? <==> Restructured(arena.nodes, old(mobjects), mobs, true).None?
      ensures o.Fail? ==> mobjects == old(mobjects)
      ensures o.Pass? ==> mobjects == mobs + Restructured(arena.nodes, old(mobjects), mobs, true).value
      ensures o.Pass? ==> forall x, t :: x in mobjects[|mobs|..] && t in mobs ==>
                t < |arena.nodes| && Mobjects.GetFamily(arena.nodes, t).Some? && x !in Mobjects.GetFamily(arena.nodes, t).value
    {
      o := RestructureMobjects(arena, mobs);
      if o.Pass? {
        RestructuredAvoids(arena.nodes, old(mobjects), mobs, true);
        ghost var rest := mobjects;
        assert RemovalList(arena.nodes, mobs, true).Some?;
        Mobjects.AllInMembers(arena.nodes, mobjects);
        Mobjects.AllInMembers(arena.nodes, mobs);
        Mobjects.AllInMembers(arena.nodes, mobs + mobjects);
        mobjects := mobs + mobjects;
        assert mobjects[|mobs|..] == rest;
      }
    }

    /** `add(mobjects)`: the same as `addToFront`. */
    method Add(arena: Mobjects.Arena, mobs: seq<Id>) returns (o: Outcome)
      requires Within(arena) && Mobjects.AllIn(arena.nodes, mobs)
      modifies this`mobjects
      ensures Within(arena)
      ensures o.Fail? <==> Restructured(arena.nodes, old(mobjects), mobs, true).None?
      ensures o.Fail? ==> mobjects == old(mobjects)
      ensures o.Pass? ==> mobjects == mobs + Restructured(arena.nodes, old(mobjects), mobs, true).value
    {
      o := AddToFront(arena, mobs);
    }

    /** `remove(mobjects)`: take the mobjects and their families out of the
        list. */
    method Remove(arena: Mobjects.Arena, mobs: seq<Id>) returns (o: Outcome)
      requires Within(arena) && Mobjects.AllIn(arena.nodes, mobs)
      modifies this`mobjects
      ensures Within(arena)
      ensures o.Fail? <==> Restructured(arena.nodes, old(mobjects), mobs, true).None?
      ensures o.Fail? ==> mobjects == old(mobjects)
      ensures o.Pass? ==> mobjects == Restructured(arena.nodes, old(mobjects), mobs, true).value
    {
      o := RestructureMobjects(arena, mobs, true);
    }

    /** `clear()`. */
    method Clear()
      modifies this`mobjects
      ensures mobjects == []
    {
      mobjects := [];
    }

    /** `getTopLevelMobjects()`. */
    function GetTopLevelMobjects(arena: Mobjects.Arena): (r: Option<seq<Id>>)
      reads this, arena
      requires Within(arena)
      ensures r.None? <==> exists k :: 0 <= k < |mobjects| && Mobjects.GetFamily(arena.nodes, mobjects[k]).None?
      ensures r.Some? ==> |r.value| <= |mobjects|
      ensures r.Some? ==> forall x :: x in r.value <==> x in mobjects && Holders(Families(arena.nodes, mobjects).value, x) == 1
    {
      TopLevel(arena.nodes, mobjects)
    }

    /** `beginAnimation(animation)`: note the members of the drawn families,
        begin the animation, then add its mobject only if it was not among
        them. Reading the families fails before the animation begins. */
    method BeginAnimation(arena: Mobjects.Arena, animation: Animations.Animation) returns (o: Outcome)
      requires Within(arena) && animation.Within(arena)
      modifies this`mobjects, animation`startingMobject, animation`hooks, arena
      ensures Within(arena) && animation.Within(arena) && Mobjects.AllIn(arena.nodes, old(mobjects))
      ensures |arena.nodes| >= old(|arena.nodes|) && Mobjects.AllIn(arena.nodes, [animation.mobject])
      ensures Mobjects.FamiliesWithin(old(arena.nodes), old(mobjects), old(|arena.nodes|)).None? ==>
                o.Fail? && mobjects == old(mobjects) && arena.nodes == old(arena.nodes) && animation.hooks == old(animation.hooks)
      ensures Mobjects.FamiliesWithin(old(arena.nodes), old(mobjects), old(|arena.nodes|)).Some? &&
              Mobjects.GetFamily(old(arena.nodes), animation.mobject).None? ==>
                o.Fail? && mobjects == old(mobjects) && animation.hooks == old(animation.hooks) &&
                arena.nodes[..old(|arena.nodes|)] == old(arena.nodes)
      ensures Mobjects.FamiliesWithin(old(arena.nodes), old(mobjects), old(|arena.nodes|)).Some? &&
              Mobjects.GetFamily(old(arena.nodes), animation.mobject).Some? ==>
                animation.startingMobject.Some? &&
                Animations.Begun(old(arena.nodes), arena.nodes, animation.mobject, animation.startingMobject.value,
                                 animation.suspendMobjectUpdating) &&
                animation.hooks == old(animation.hooks) +
                  Animations.HookCalls(Animations.ZippedFamilies(arena.nodes, [animation.mobject, animation.startingMobject.value]).value,
                                       animation.rateFunc(0.0), animation.lagRatio) &&
                (o.Fail? <==> animation.mobject !in Mobjects.FamiliesWithin(old(arena.nodes), old(mobjects), old(|arena.nodes|)).value &&
                              Restructured(arena.nodes, old(mobjects), [animation.mobject], true).None?)
      ensures o.Pass? ==> animation.startingMobject.Some?
      ensures o.Pass? ==>
                var current := Mobjects.FamiliesWithin(old(arena.nodes), old(mobjects), old(|arena.nodes|));
                current.Some? &&
                (animation.mobject in current.value ==> mobjects == old(mobjects)) &&
                (animation.mobject !in current.value ==>
                   Restructured(arena.nodes, old(mobjects), [animation.mobject], true).Some? &&
                   mobjects == [animation.mobject] + Restructured(arena.nodes, old(mobjects), [animation.mobject], true).value)
    {
      var current := Mobjects.FamiliesWithin(arena.nodes, mobjects, |arena.nodes|);
      if current.None? {
        return Fail(Mobjects.STACK_OVERFLOW);
      }
      o := animation.Begin(arena);
      if o.Fail? {
        return;
      }
      var mob := animation.mobject;
      Mobjects.AllInMembers(old(arena.nodes), mobjects);
      Mobjects.AllInMembers(arena.nodes, mobjects);
      if mob !in current.value {
        o := Add(arena, [mob]);
      }
    }
  }

  /** `cleanUpFromScene(scene)` of an animation: a remover takes its
      mobject out of the scene; any other animation leaves the scene as it
      is. */
  method CleanUpFromScene(animation: Animations.Animation, scene: Scene, arena: Mobjects.Arena) returns (o: Outcome)
    requires scene.Within(arena) && animation.Within(arena)
    modifies scene`mobjects
    ensures scene.Within(arena)
    ensures !animation.remover ==> o.Pass? && scene.mobjects == old(scene.mobjects)
    ensures animation.remover ==>
              (o.Fail? <==> Restructured(arena.nodes, old(scene.mobjects), [animation.mobject], true).None?)
    ensures animation.remover && o.Pass? ==>
              scene.mobjects == Restructured(arena.nodes, old(scene.mobjects), [animation.mobject], true).value
  {
    o := Pass;
    if animation.remover {
      o := scene.Remove(arena, [animation.mobject]);
    }
  }
}
