/** List utilities of `src/util/array.ts`. Indices and counts are `int`;
    the source only ever passes whole numbers to these helpers. */
module ArrayUtil {
  import opened Wrappers
  import MathFunctions
  import Interpolation
  import SpaceOps

  /** `range(start, end, step)`: throws for a zero step; otherwise the
      arithmetic progression from `start` that stays strictly on the near side
      of `end`. */
  method Range(start: int, end: int, step: int) returns (r: Result<seq<int>>)
    ensures step == 0 <==> r.Err?
    ensures r.Ok? ==> forall k :: 0 <= k < |r.value| ==> r.value[k] == start + k * step
    ensures r.Ok? && step > 0 ==>
              (forall k :: 0 <= k < |r.value| ==> r.value[k] < end) && start + |r.value| * step >= end
    ensures r.Ok? && step < 0 ==>
              (forall k :: 0 <= k < |r.value| ==> r.value[k] > end) && start + |r.value| * step <= end
  {
    if step == 0 {
      return Err("Step cannot be 0");
    }
    var result: seq<int> := [];
    var i := start;
    if step > 0 {
      while i < end
        invariant i == start + |result| * step
        invariant forall k :: 0 <= k < |result| ==> result[k] == start + k * step && result[k] < end
        decreases end - i
      {
        result := result + [i];
        i := i + step;
      }
    } else {
      while i > end
        invariant i == start + |result| * step
        invariant forall k :: 0 <= k < |result| ==> result[k] == start + k * step && result[k] > end
        decreases i - end
      {
        result := result + [i];
        i := i + step;
      }
    }
    return Ok(result);
  }

  /** A range with a positive step is empty exactly when start >= end. */
  lemma RangeEmptyIffNotBelow(start: int, end: int, step: int, r: seq<int>)
    requires step > 0
    requires forall k :: 0 <= k < |r| ==> r[k] == start + k * step && r[k] < end
    requires start + |r| * step >= end
    ensures r == [] <==> start >= end
  {
    if r == [] {
      assert start + 0 * step >= end;
    } else {
      assert r[0] == start;
    }
  }

  /** `linspace(start, end, count)`: the column of `count` values
      `interpolate(start, end, i / (count - 1))`, i = 0 .. count - 1; no rows
      when count <= 0. For count = 1 the step is 0 / 0, which is NaN in the
      source and an error here. */
  function Linspace(start: real, end: real, count: int): (r: Result<SpaceOps.MArray>)
    ensures r.Err? <==> count == 1
    ensures r.Ok? ==> SpaceOps.WellFormed(r.value)
    ensures r.Ok? ==> r.value.shape == if count <= 0 then (0, 0) else (count, 1)
    ensures r.Ok? ==> forall i :: 0 <= i < count ==>
              r.value.values[i] == [Interpolation.Interpolate(start, end, i as real / (count - 1) as real)]
  {
    if count == 1 then Err("0 / 0 is NaN")
    else
      var n := if count < 0 then 0 else count;
      var rows := seq(n, i requires 0 <= i < n => [Interpolation.Interpolate(start, end, i as real / (count - 1) as real)]);
      SpaceOps.New(rows)
  }

  /** With count >= 2 the first row is start and the last is end. */
  lemma LinspaceEndpoints(start: real, end: real, count: int)
    requires count >= 2
    ensures Linspace(start, end, count).Ok?
    ensures Linspace(start, end, count).value.values[0] == [start]
    ensures Linspace(start, end, count).value.values[count - 1] == [end]
  {
    var r := Linspace(start, end, count).value;
    assert (count - 1) as real / (count - 1) as real == 1.0;
  }

  /** `enumerate(list)`: every element paired with its index. */
  method Enumerate<T>(list: seq<T>) returns (r: seq<(int, T)>)
    ensures |r| == |list|
    ensures forall i :: 0 <= i < |list| ==> r[i] == (i, list[i])
  {
    if |list| == 0 {
      return [];
    }
    r := [];
    var i := 0;
    while i < |list|
      invariant 0 <= i <= |list| && |r| == i
      invariant forall j :: 0 <= j < i ==> r[j] == (j, list[j])
    {
      r := r + [(i, list[i])];
      i := i + 1;
    }
  }

  /** `sum(l)`: 0 for an empty list, otherwise the left-to-right reduce. */
  function Sum(l: seq<real>): (r: real)
    ensures (forall i :: 0 <= i < |l| ==> 0.0 <= l[i]) ==> 0.0 <= r
    ensures (forall i :: 0 <= i < |l| ==> l[i] <= 0.0) ==> r <= 0.0
    ensures |l| == 1 ==> r == l[0]
  {
    if |l| == 0 then 0.0
    else
      var init := l[..|l| - 1];
      assert forall i :: 0 <= i < |init| ==> init[i] == l[i];
      Sum(init) + l[|l| - 1]
  }

  lemma {:induction false} SumConcat(a: seq<real>, b: seq<real>)
    ensures Sum(a + b) == Sum(a) + Sum(b)
  {
    if |b| == 0 {
      assert a + b == a;
    } else {
      assert (a + b)[..|a + b| - 1] == a + b[..|b| - 1];
      SumConcat(a, b[..|b| - 1]);
    }
  }

  /** The reduce of `argmax` after visiting the first `n` elements. */
  function ArgmaxPrefix(a: seq<real>, n: nat): (m: nat)
    requires n <= |a|
    ensures n > 0 ==> m < n
    ensures n > 0 ==> forall j :: 0 <= j < n ==> a[j] <= a[m]
    ensures n > 0 ==> forall j :: 0 <= j < m ==> a[j] < a[m]
    ensures n == 0 ==> m == 0
  {
    if n <= 1 then 0
    else
      var m := ArgmaxPrefix(a, n - 1);
      if a[n - 1] > a[m] then n - 1 else m
  }

  /** `argmax(array)`: the first index of a maximum (strict `>`), 0 when empty. */
  function Argmax(a: seq<real>): (m: nat)
    ensures |a| == 0 ==> m == 0
    ensures |a| > 0 ==> m < |a| && (forall j :: 0 <= j < |a| ==> a[j] <= a[m])
                        && (forall j :: 0 <= j < m ==> a[j] < a[m])
  {
    ArgmaxPrefix(a, |a|)
  }

  function ArgminPrefix(a: seq<real>, n: nat): (m: nat)
    requires n <= |a|
    ensures n > 0 ==> m < n
    ensures n > 0 ==> forall j :: 0 <= j < n ==> a[m] <= a[j]
    ensures n > 0 ==> forall j :: 0 <= j < m ==> a[m] < a[j]
    ensures n == 0 ==> m == 0
  {
    if n <= 1 then 0
    else
      var m := ArgminPrefix(a, n - 1);
      if a[n - 1] < a[m] then n - 1 else m
  }

  /** `argmin(array)`: the first index of a minimum (strict `<`), 0 when empty. */
  function Argmin(a: seq<real>): (m: nat)
    ensures |a| == 0 ==> m == 0
    ensures |a| > 0 ==> m < |a| && (forall j :: 0 <= j < |a| ==> a[m] <= a[j])
                        && (forall j :: 0 <= j < m ==> a[m] < a[j])
  {
    ArgminPrefix(a, |a|)
  }

  /** Nearest-neighbour source index for target slot `e`: floor(e * cur / len). */
  function StretchIndex(e: int, cur: int, len: int): (i: nat)
    requires 0 <= e < len && 0 < cur
    ensures i < cur
  {
    StretchIndexBound(e, cur, len);
    (e * cur) / len
  }

  lemma StretchIndexBound(e: int, cur: int, len: int)
    requires 0 <= e < len && 0 < cur
    ensures 0 <= (e * cur) / len < cur
  {
    var q := (e * cur) / len;
    MathFunctions.DivMulLe(e * cur, len);
    MathFunctions.MulLe2(e + 1, len, cur);
    assert (e + 1) * cur == e * cur + cur;
    assert q * len < len * cur;
    MathFunctions.LtFromMul(q, cur, len);
  }

  /** Target slots map to non-decreasing source indices. */
  lemma StretchIndexMonotone(e1: int, e2: int, cur: int, len: int)
    requires 0 <= e1 <= e2 < len && 0 < cur
    ensures StretchIndex(e1, cur, len) <= StretchIndex(e2, cur, len)
  {
    MathFunctions.MulLe2(e1, e2, cur);
    MathFunctions.DivMonotone(e1 * cur, e2 * cur, len);
  }

  function Stretch<T>(list: seq<T>, length: nat): (r: seq<T>)
    requires 0 < |list|
    ensures |r| == length
  {
    seq(length, e requires 0 <= e < length => list[StretchIndex(e, |list|, length)])
  }

  /** `stretchListToLength(list, length)`. */
  function StretchListToLength<T>(list: seq<T>, length: int): (r: Result<seq<T>>)
    ensures |list| == 0 ==> r == Ok(list)
    ensures 0 < |list| && length < |list| ==> r.Err?
    ensures 0 < |list| <= length ==> r.Ok? && |r.value| == length
    ensures r.Ok? ==> forall x :: x in r.value ==> x in list
  {
    if |list| == 0 then Ok(list)
    else if |list| > length then Err("Trying to stretch an array to a length shorter than its own")
    else Ok(Stretch(list, length))
  }

  /** Stretching to the list's own length is the identity. */
  lemma StretchToOwnLength<T>(list: seq<T>)
    ensures StretchListToLength(list, |list|) == Ok(list)
  {
    if |list| > 0 {
      var r := Stretch(list, |list|);
      forall e | 0 <= e < |list| ensures r[e] == list[e] {
        MathFunctions.FloorDivBetween(e * |list|, |list|, e);
      }
      assert r == list;
    }
  }

  /** Stretching up never loses an element and keeps the list's order. */
  lemma StretchKeepsEveryElementInOrder<T>(list: seq<T>, length: int)
    requires 0 < |list| <= length
    ensures forall i :: 0 <= i < |list| ==> list[i] in StretchListToLength(list, length).value
    ensures forall e1, e2 :: 0 <= e1 <= e2 < length ==>
              StretchIndex(e1, |list|, length) <= StretchIndex(e2, |list|, length)
  {
    var r := Stretch(list, length);
    forall i | 0 <= i < |list| ensures list[i] in r {
      var e := MathFunctions.ScaledIndexHit(i, |list|, length);
      assert r[e] == list[i];
    }
    forall e1, e2 | 0 <= e1 <= e2 < length
      ensures StretchIndex(e1, |list|, length) <= StretchIndex(e2, |list|, length)
    {
      StretchIndexMonotone(e1, e2, |list|, length);
    }
  }

  /** `makeEven(listA, listB)`. The source reads `undefined` entries when
      exactly one list is empty; the model asks for both or neither. */
  function MakeEven<A, B>(listA: seq<A>, listB: seq<B>): (r: (seq<A>, seq<B>))
    requires (|listA| == 0) == (|listB| == 0)
    ensures |r.0| == |r.1|
    ensures |r.0| == if |listA| >= |listB| then |listA| else |listB|
  {
    var length := if |listA| >= |listB| then |listA| else |listB|;
    if length == 0 then ([], [])
    else (Stretch(listA, length), Stretch(listB, length))
  }

  /** Both halves are the stretches to the common length, and the longer
      list comes back unchanged. */
  lemma MakeEvenStretchesBoth<A, B>(listA: seq<A>, listB: seq<B>)
    requires 0 < |listA| && 0 < |listB|
    ensures var L := if |listA| >= |listB| then |listA| else |listB|;
            Ok(MakeEven(listA, listB).0) == StretchListToLength(listA, L) &&
            Ok(MakeEven(listA, listB).1) == StretchListToLength(listB, L)
    ensures |listA| >= |listB| ==> MakeEven(listA, listB).0 == listA
    ensures |listB| >= |listA| ==> MakeEven(listA, listB).1 == listB
  {
    if |listA| >= |listB| {
      StretchToOwnLength(listA);
    }
    if |listB| >= |listA| {
      StretchToOwnLength(listB);
    }
  }

  function Reverse<T>(s: seq<T>): (r: seq<T>)
    ensures |r| == |s|
  {
    seq(|s|, k requires 0 <= k < |s| => s[|s| - 1 - k])
  }

  /** Elements in order of first appearance (the loop of `withoutRedundancies`
      over an already reversed list). */
  function FirstOccurrences<T(==)>(t: seq<T>): seq<T>
  {
    if t == [] then []
    else FirstOccurrences(t[..|t| - 1]) + (if t[|t| - 1] in t[..|t| - 1] then [] else [t[|t| - 1]])
  }

  /** Elements that do not occur again later, in their original order. */
  function KeepLast<T(==)>(s: seq<T>): seq<T>
  {
    if s == [] then []
    else (if s[0] in s[1..] then [] else [s[0]]) + KeepLast(s[1..])
  }

  lemma {:induction false} KeepLastElements<T>(s: seq<T>)
    ensures forall x :: x in KeepLast(s) <==> x in s
  {
    if s != [] {
      KeepLastElements(s[1..]);
      assert s == [s[0]] + s[1..];
    }
  }

  predicate NoDuplicates<T(==)>(r: seq<T>)
  {
    forall i, j :: 0 <= i < j < |r| ==> r[i] != r[j]
  }

  lemma {:induction false} KeepLastNoDuplicates<T>(s: seq<T>)
    ensures NoDuplicates(KeepLast(s))
  {
    if s != [] {
      KeepLastNoDuplicates(s[1..]);
      KeepLastElements(s[1..]);
      var r := KeepLast(s);
      var tail := KeepLast(s[1..]);
      if s[0] in s[1..] {
        assert r == tail;
      } else {
        assert r == [s[0]] + tail;
        forall i, j | 0 <= i < j < |r| ensures r[i] != r[j] {
          if i == 0 {
            assert r[j] == tail[j - 1];
            assert r[j] in tail;
            assert r[0] == s[0];
          } else {
            assert r[i] == tail[i - 1] && r[j] == tail[j - 1];
            assert 0 <= i - 1 < j - 1 < |tail|;
          }
        }
      }
    }
  }

  /** `s.filter(keep)`: the kept elements in their original order. */
  function Filter<T(==,!new)>(s: seq<T>, keep: T -> bool): (r: seq<T>)
    ensures |r| <= |s|
    ensures forall x :: x in r <==> x in s && keep(x)
  {
    if s == [] then [] else (if keep(s[0]) then [s[0]] else []) + Filter(s[1..], keep)
  }

  /** Filtering distributes over concatenation, so it keeps relative order. */
  lemma {:induction false} FilterConcat<T(!new)>(a: seq<T>, b: seq<T>, keep: T -> bool)
    ensures Filter(a + b, keep) == Filter(a, keep) + Filter(b, keep)
  {
    if a != [] {
      assert (a + b)[1..] == a[1..] + b;
      FilterConcat(a[1..], b, keep);
    } else {
      assert a + b == b;
    }
  }

  /** Filtering a list without duplicates gives a list without duplicates;
      a filter that keeps everything is the identity. */
  lemma {:induction false} FilterNoDuplicates<T(!new)>(s: seq<T>, keep: T -> bool)
    requires NoDuplicates(s)
    ensures NoDuplicates(Filter(s, keep))
  {
    if s != [] {
      FilterNoDuplicates(s[1..], keep);
      var tail := Filter(s[1..], keep);
      if keep(s[0]) {
        var r := [s[0]] + tail;
        assert s[0] !in s[1..];
        forall i, j | 0 <= i < j < |r| ensures r[i] != r[j] {
          assert r[j] == tail[j - 1] && tail[j - 1] in tail;
          if i > 0 {
            assert r[i] == tail[i - 1];
          }
        }
      }
    }
  }

  /** A filter that keeps every element returns the list unchanged. */
  lemma {:induction false} FilterKeepAll<T(!new)>(s: seq<T>, keep: T -> bool)
    requires forall x :: x in s ==> keep(x)
    ensures Filter(s, keep) == s
  {
    if s != [] {
      assert forall x :: x in s[1..] ==> x in s;
      FilterKeepAll(s[1..], keep);
    }
  }

  /** `Array.from(new Set(t))`: the same elements, each once, the first one
      still first. */
  lemma {:induction false} FirstOccurrencesProperties<T>(t: seq<T>)
    ensures forall x :: x in FirstOccurrences(t) <==> x in t
    ensures NoDuplicates(FirstOccurrences(t))
    ensures t != [] ==> |FirstOccurrences(t)| >= 1 && FirstOccurrences(t)[0] == t[0]
  {
    if t != [] {
      var init := t[..|t| - 1];
      FirstOccurrencesProperties(init);
      var f := FirstOccurrences(init);
      var last := t[|t| - 1];
      assert t == init + [last];
      if last !in init {
        var r := f + [last];
        assert FirstOccurrences(t) == r;
        forall i, j | 0 <= i < j < |r| ensures r[i] != r[j] {
          if j == |r| - 1 {
            assert r[i] == f[i] && f[i] in f;
          } else {
            assert r[i] == f[i] && r[j] == f[j];
          }
        }
        if init == [] {
          assert FirstOccurrences(init) == [];
        }
      }
    }
  }

  lemma ReverseConcat<T>(a: seq<T>, b: seq<T>)
    ensures Reverse(a + b) == Reverse(b) + Reverse(a)
  {
  }

  lemma ReverseCons<T>(s: seq<T>)
    requires s != []
    ensures Reverse(s) == Reverse(s[1..]) + [s[0]]
    ensures forall x :: x in Reverse(s[1..]) <==> x in s[1..]
  {
    forall x | x in s[1..] ensures x in Reverse(s[1..]) {
      var k :| 0 <= k < |s[1..]| && s[1..][k] == x;
      assert Reverse(s[1..])[|s| - 2 - k] == x;
    }
  }

  /** Reversing, keeping first occurrences and reversing back keeps the last
      occurrences in their original order. */
  lemma {:induction false} KeepLastByReversal<T>(s: seq<T>)
    ensures Reverse(FirstOccurrences(Reverse(s))) == KeepLast(s)
  {
    if s != [] {
      ReverseCons(s);
      var rs := Reverse(s);
      assert rs[..|rs| - 1] == Reverse(s[1..]);
      assert rs[|rs| - 1] == s[0];
      var head := if s[0] in s[1..] then [] else [s[0]];
      assert FirstOccurrences(rs) == FirstOccurrences(Reverse(s[1..])) + head;
      ReverseConcat(FirstOccurrences(Reverse(s[1..])), head);
      KeepLastByReversal(s[1..]);
    }
  }

  /** `withoutRedundancies(list)`: reverses `list` in place (an observable
      side effect of `Array.prototype.reverse`), then keeps the first
      occurrence of each element and reverses the result. */
  method WithoutRedundancies<T(==)>(list: array<T>) returns (r: seq<T>)
    modifies list
    ensures list[..] == Reverse(old(list[..]))
    ensures r == KeepLast(old(list[..]))
  {
    ghost var original := list[..];
    ReverseInPlace(list);
    var reversedResult := FirstOccurrencesOf(list[..]);
    r := Reverse(reversedResult);
    KeepLastByReversal(original);
  }

  /** `Array.prototype.reverse`: swaps the two halves in place. */
  method ReverseInPlace<T>(a: array<T>)
    modifies a
    ensures a[..] == Reverse(old(a[..]))
  {
    var n := a.Length;
    var i := 0;
    while i < n / 2
      invariant 0 <= i <= n / 2
      invariant forall k :: 0 <= k < i ==> a[k] == old(a[n - 1 - k]) && a[n - 1 - k] == old(a[k])
      invariant forall k :: i <= k < n - i ==> a[k] == old(a[k])
    {
      a[i], a[n - 1 - i] := a[n - 1 - i], a[i];
      i := i + 1;
    }
  }

  /** The scan of `withoutRedundancies`: push each element not yet in
      `used`, so the result keeps first occurrences. */
  method FirstOccurrencesOf<T(==)>(s: seq<T>) returns (result: seq<T>)
    ensures result == FirstOccurrences(s)
  {
    result := [];
    var used: set<T> := {};
    var k := 0;
    while k < |s|
      invariant 0 <= k <= |s|
      invariant result == FirstOccurrences(s[..k])
      invariant forall x :: x in used <==> x in s[..k]
    {
      var x := s[k];
      assert s[..k + 1][..k] == s[..k];
      if x !in used {
        result := result + [x];
        used := used + {x};
      }
      k := k + 1;
    }
    assert s[..k] == s;
  }

  /** Concatenation of the batches of a `batchByProperty` result. */
  function Flatten<T, B>(batches: seq<(seq<T>, B)>): seq<T>
  {
    if batches == [] then [] else Flatten(batches[..|batches| - 1]) + batches[|batches| - 1].0
  }

  /** Every batch is non-empty, labelled with its members' common property. */
  ghost predicate Labelled<T, B>(batches: seq<(seq<T>, B)>, prop: T -> B)
  {
    forall i :: 0 <= i < |batches| ==>
      |batches[i].0| > 0 && batches[i].1 == prop(batches[i].0[0]) &&
      forall x :: x in batches[i].0 ==> prop(x) == batches[i].1
  }

  /** Neighbouring batches carry different properties (the batches are maximal runs). */
  ghost predicate AdjacentDiffer<T, B>(batches: seq<(seq<T>, B)>)
  {
    forall i :: 0 < i < |batches| ==> batches[i - 1].1 != batches[i].1
  }

  /** Closing a run: a non-empty run of one property that differs from
      the last batch's extends the batches and keeps them labelled and
      maximal. */
  lemma CloseBatch<T, B>(batches: seq<(seq<T>, B)>, run: seq<T>, prop: T -> B)
    requires Labelled(batches, prop) && AdjacentDiffer(batches) && |run| > 0
    requires forall x :: x in run ==> prop(x) == prop(run[0])
    requires |batches| > 0 ==> batches[|batches| - 1].1 != prop(run[0])
    ensures var closed := batches + [(run, prop(run[0]))];
            Flatten(closed) == Flatten(batches) + run && Labelled(closed, prop) && AdjacentDiffer(closed)
  {
    var closed := batches + [(run, prop(run[0]))];
    assert closed[..|closed| - 1] == batches;
    assert forall i :: 0 <= i < |batches| ==> closed[i] == batches[i];
  }

  /** The state of `batchByProperty`'s loop after the prefix `done`: the
      closed batches followed by the open run spell the prefix, the closed
      batches are labelled maximal runs, and the open run shares one
      property, which differs from that of the last closed batch. */
  ghost predicate Batching<T, B>(done: seq<T>, batches: seq<(seq<T>, B)>, run: seq<T>, prop: T -> B)
  {
    Flatten(batches) + run == done && Labelled(batches, prop) && AdjacentDiffer(batches) &&
    (run == [] ==> batches == []) &&
    (run != [] ==> (forall x :: x in run ==> prop(x) == prop(run[0])) &&
                   (|batches| > 0 ==> batches[|batches| - 1].1 != prop(run[0])))
  }

  /** An item with the open run's property joins the run. */
  lemma ExtendRun<T, B>(done: seq<T>, batches: seq<(seq<T>, B)>, run: seq<T>, item: T, prop: T -> B)
    requires Batching(done, batches, run, prop) && run != [] && prop(item) == prop(run[0])
    ensures Batching(done + [item], batches, run + [item], prop)
  {
    assert (Flatten(batches) + run) + [item] == Flatten(batches) + (run + [item]);
  }

  /** An item with another property closes the open run, if any, and
      opens a run of its own. */
  lemma StartRun<T, B>(done: seq<T>, batches: seq<(seq<T>, B)>, run: seq<T>, item: T, prop: T -> B)
    requires Batching(done, batches, run, prop) && (run == [] || prop(item) != prop(run[0]))
    ensures var closed := if run == [] then batches else batches + [(run, prop(run[0]))];
            Batching(done + [item], closed, [item], prop)
  {
    if run != [] {
      CloseBatch(batches, run, prop);
    }
  }

  /** At the end of the items the open run, if any, closes the last batch. */
  lemma EndRuns<T, B>(items: seq<T>, batches: seq<(seq<T>, B)>, run: seq<T>, prop: T -> B)
    requires Batching(items, batches, run, prop)
    ensures var closed := if run == [] then batches else batches + [(run, prop(run[0]))];
            Flatten(closed) == items && Labelled(closed, prop) && AdjacentDiffer(closed)
  {
    if run != [] {
      CloseBatch(batches, run, prop);
    } else {
      assert Flatten(batches) + run == Flatten(batches);
    }
  }

  /** The body of `batchByProperty`'s loop for one item: an item with a
      new property closes the open run, if any, and opens its own; any
      other item joins the open run. */
  method AddItem<T, B(==)>(ghost done: seq<T>, batches: seq<(seq<T>, B)>, currentBatch: seq<T>, currentProp: Option<B>, item: T, prop: T -> B)
    returns (batches': seq<(seq<T>, B)>, currentBatch': seq<T>, currentProp': Option<B>)
    requires Batching(done, batches, currentBatch, prop)
    requires currentProp == if currentBatch == [] then None else Some(prop(currentBatch[0]))
    ensures Batching(done + [item], batches', currentBatch', prop)
    ensures currentProp' == if currentBatch' == [] then None else Some(prop(currentBatch'[0]))
  {
    var p := prop(item);
    if currentProp != Some(p) {
      StartRun(done, batches, currentBatch, item, prop);
      batches' := batches;
      if |currentBatch| > 0 {
        batches' := batches + [(currentBatch, prop(currentBatch[0]))];
      }
      currentProp' := Some(p);
      currentBatch' := [item];
    } else {
      ExtendRun(done, batches, currentBatch, item, prop);
      batches' := batches;
      currentProp' := currentProp;
      currentBatch' := currentBatch + [item];
    }
  }

  /** `batchByProperty(items, propertyFunc)`: split into maximal runs of equal property. */
  method BatchByProperty<T, B(==)>(items: seq<T>, prop: T -> B) returns (batches: seq<(seq<T>, B)>)
    ensures Flatten(batches) == items
    ensures Labelled(batches, prop)
    ensures AdjacentDiffer(batches)
  {
    batches := [];
    var currentBatch: seq<T> := [];
    var currentProp: Option<B> := None;
    var k := 0;
    while k < |items|
      invariant 0 <= k <= |items|
      invariant Batching(items[..k], batches, currentBatch, prop)
      invariant currentProp == if currentBatch == [] then None else Some(prop(currentBatch[0]))
    {
      assert items[..k + 1] == items[..k] + [items[k]];
      batches, currentBatch, currentProp := AddItem(items[..k], batches, currentBatch, currentProp, items[k], prop);
      k := k + 1;
    }
    assert items[..k] == items;
    EndRuns(items, batches, currentBatch, prop);
    if |currentBatch| > 0 {
      batches := batches + [(currentBatch, prop(currentBatch[0]))];
    }
  }

  /** `adjacentNTuples(objects, n)`: tuple i holds the n cyclic successors from i. */
  function AdjacentNTuples<T>(objects: seq<T>, n: int): (r: seq<seq<T>>)
    ensures |r| == |objects|
    ensures forall i :: 0 <= i < |r| ==> |r[i]| == (if n > 0 then n else 0)
  {
    var width := if n > 0 then n else 0;
    seq(|objects|, i requires 0 <= i < |objects| =>
      seq(width, k requires 0 <= k < width => objects[(i + k) % |objects|]))
  }

  /** Consecutive tuples overlap: tuple i shifted by one is tuple i+1 (cyclically). */
  lemma AdjacentNTuplesShift<T>(objects: seq<T>, n: int, i: int, k: int)
    requires 0 <= i < |objects| && 0 <= k && k + 1 < n
    ensures AdjacentNTuples(objects, n)[i][k + 1] == AdjacentNTuples(objects, n)[(i + 1) % |objects|][k]
    ensures AdjacentNTuples(objects, n)[i][0] == objects[i]
  {
    var L := |objects|;
    var r := AdjacentNTuples(objects, n);
    var j := (i + 1) % L;
    assert r[i][k + 1] == objects[(i + (k + 1)) % L];
    assert r[j][k] == objects[(j + k) % L];
    ModShift(i, k, L);
    MathFunctions.DivModUnique(i, L, 0, i);
    assert r[i][0] == objects[(i + 0) % L];
  }

  lemma ModShift(i: int, k: int, L: int)
    requires 0 <= i < L && 0 <= k
    ensures ((i + 1) % L + k) % L == (i + (k + 1)) % L
  {
    if i + 1 == L {
      MathFunctions.DivModUnique(i + 1, L, 1, 0);
      var q, rem := k / L, k % L;
      MathFunctions.DivModUnique(k, L, q, rem);
      assert (q + 1) * L == q * L + L;
      MathFunctions.DivModUnique(L + k, L, q + 1, rem);
      assert i + (k + 1) == L + k;
      assert 0 + k == k;
    } else {
      MathFunctions.DivModUnique(i + 1, L, 0, i + 1);
    }
  }
}
