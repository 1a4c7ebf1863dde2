/** The path engine of `VMobject` (`src/mobject/types/vectorized_mobject.ts`).

    A path is a flat list of points read in groups of four: anchor, handle,
    handle, anchor of one cubic Bezier curve. A point list whose length is one
    more than a multiple of four has started a new path that has no curve
    yet. The queries on point lists are functions; the operations that change
    a `VMobject`'s points or colour lists are methods on the arena of module
    Mobjects. */
module VectorizedMobjects {
  import opened Wrappers
  import opened MathFunctions
  import Vectors
  import Colors
  import ArrayUtil
  import Interpolation
  import Bezier
  import Mobjects

  type Points = seq<Vectors.Vector3>

  /** `nPointsPerCurve`. */
  const N_PPC: nat := 4

  /** The default `toleranceForPointEquality`, 1e-6, and the fixed relative
      tolerance 1e-5 of `considerPointsEquals`. */
  const ATOL: real := 0.000001
  const RTOL: real := 0.00001

  /** The lists of a list, concatenated in order. */
  function Joined<T>(lists: seq<seq<T>>): seq<T>
  {
    if lists == [] then [] else Joined(lists[..|lists| - 1]) + lists[|lists| - 1]
  }

  lemma {:induction false} JoinedAppend<T>(a: seq<seq<T>>, b: seq<seq<T>>)
    ensures Joined(a + b) == Joined(a) + Joined(b)
    decreases |b|
  {
    if b == [] {
      assert a + b == a;
    } else {
      var c := b[..|b| - 1];
      var last := b[|b| - 1];
      assert (a + b)[..|a + b| - 1] == a + c;
      assert (a + b)[|a + b| - 1] == last;
      JoinedAppend(a, c);
      calc {
        Joined(a + b);
        Joined(a + c) + last;
        (Joined(a) + Joined(c)) + last;
        Joined(a) + (Joined(c) + last);
        Joined(a) + Joined(b);
      }
    }
  }

  // ---------------------------------------------------------------------
  // Curves

  /** `hasNewPathStarted()`. */
  predicate HasNewPathStarted(points: Points): (r: bool)
    ensures r <==> |points| == NumCurves(points) * N_PPC + 1
  {
    |points| % N_PPC == 1
  }

  /** `getNumCurves()`. */
  function NumCurves(points: Points): (r: nat)
    ensures r * N_PPC <= |points| < r * N_PPC + N_PPC
  {
    |points| / N_PPC
  }

  /** `genCubicBezierTuplesFromPoints(points)`: the trailing remainder is
      dropped and every four points make one curve. */
  function CubicBezierTuples(points: Points): (r: seq<Points>)
    ensures |r| == NumCurves(points)
    ensures forall k :: 0 <= k < |r| ==> |r[k]| == N_PPC && r[k] == points[4 * k..4 * k + 4]
  {
    seq(|points| / 4, k requires 0 <= k < |points| / 4 => points[4 * k..4 * k + 4])
  }

  /** Joining the curves gives back the points up to the trailing remainder. */
  lemma CubicBezierTuplesJoin(points: Points)
    ensures Joined(CubicBezierTuples(points)) == points[..4 * NumCurves(points)]
  {
    JoinedQuads(points, NumCurves(points));
  }

  lemma {:induction false} JoinedQuads(points: Points, m: nat)
    requires 4 * m <= |points|
    ensures Joined(seq(m, k requires 0 <= k < m => points[4 * k..4 * k + 4])) == points[..4 * m]
  {
    var s := seq(m, k requires 0 <= k < m => points[4 * k..4 * k + 4]);
    if m > 0 {
      JoinedQuads(points, m - 1);
      assert s[..m - 1] == seq(m - 1, k requires 0 <= k < m - 1 => points[4 * k..4 * k + 4]);
      assert points[..4 * m] == points[..4 * (m - 1)] + points[4 * (m - 1)..4 * m];
    }
  }

  /** JavaScript `slice(start, end)`: negative bounds count from the end and
      both bounds saturate at the ends of the list. */
  function JsSliceIndex(len: nat, i: int): (p: nat)
    ensures p <= len
  {
    if i < 0 then (if len + i < 0 then 0 else len + i) else if i > len then len else i
  }

  function JsSlice<T>(s: seq<T>, start: int, end: int): seq<T>
  {
    var a, b := JsSliceIndex(|s|, start), JsSliceIndex(|s|, end);
    if a < b then s[a..b] else []
  }

  /** `getNthCurvePoints(n)`: throws when n is not below the number of curves;
      otherwise `slice(4 n, 4 (n + 1))`, which a negative n also reaches. */
  function GetNthCurvePoints(points: Points, n: int): (r: Result<Points>)
    ensures r.Err? <==> n >= NumCurves(points)
    ensures 0 <= n < NumCurves(points) ==> r == Ok(CubicBezierTuples(points)[n])
  {
    if n >= NumCurves(points) then Err("Index out of range")
    else Ok(JsSlice(points, N_PPC * n, N_PPC * (n + 1)))
  }

  /** A negative index reads from the end: curve -1 is `slice(-4, 0)`, which is
      empty. */
  lemma GetNthCurvePointsMinusOne(points: Points)
    ensures GetNthCurvePoints(points, -1) == Ok([])
  {
  }

  // ---------------------------------------------------------------------
  // Point equality

  /** One coordinate of `considerPointsEquals`: |a - b| <= atol + rtol |b|. */
  predicate CloseCoord(a: real, b: real, atol: real)
  {
    Abs(a - b) <= atol + RTOL * Abs(b)
  }

  /** `considerPointsEquals2D(a, b)`: x and y close. */
  predicate ConsiderPointsEquals2D(a: Vectors.Vector3, b: Vectors.Vector3, atol: real): (r: bool)
    ensures atol >= 0.0 && a.x == b.x && a.y == b.y ==> r
  {
    MulNonNegative(RTOL, Abs(b.x));
    MulNonNegative(RTOL, Abs(b.y));
    CloseCoord(a.x, b.x, atol) && CloseCoord(a.y, b.y, atol)
  }

  /** `considerPointsEquals(a, b)`: x, y and z close. */
  predicate ConsiderPointsEquals(a: Vectors.Vector3, b: Vectors.Vector3, atol: real): (r: bool)
    ensures r ==> ConsiderPointsEquals2D(a, b, atol)
    ensures atol >= 0.0 && a == b ==> r
  {
    MulNonNegative(RTOL, Abs(b.z));
    ConsiderPointsEquals2D(a, b, atol) && CloseCoord(a.z, b.z, atol)
  }

  /** With a non-negative tolerance every point equals itself, and equality in
      3D implies equality in 2D. */
  lemma ConsiderPointsEqualsProperties(a: Vectors.Vector3, b: Vectors.Vector3, atol: real)
    requires atol >= 0.0
    ensures ConsiderPointsEquals(a, a, atol) && ConsiderPointsEquals2D(a, a, atol)
    ensures ConsiderPointsEquals(a, b, atol) ==> ConsiderPointsEquals2D(a, b, atol)
    ensures ConsiderPointsEquals2D(a, b, atol) && CloseCoord(a.z, b.z, atol) ==> ConsiderPointsEquals(a, b, atol)
  {
    MulNonNegative(RTOL, Abs(a.x));
    MulNonNegative(RTOL, Abs(a.y));
    MulNonNegative(RTOL, Abs(a.z));
  }

  /** The tolerance is relative to the second point, so the test is not
      symmetric: 1.000005e-6 is close to 0, but 0 is not close to it. */
  lemma ConsiderPointsEqualsNotSymmetric()
    ensures var p, q := Vectors.Vector3(0.0, 0.0, 0.0), Vectors.Vector3(0.000001000005, 0.0, 0.0);
            ConsiderPointsEquals(p, q, ATOL) && !ConsiderPointsEquals(q, p, ATOL)
  {
  }

  // ---------------------------------------------------------------------
  // Subpaths

  /** `range(4, len, 4)`: the multiples of four strictly between 0 and len. */
  function Multiples(len: nat): (r: seq<nat>)
    ensures forall k :: 0 <= k < |r| ==> r[k] == 4 * (k + 1) && r[k] < len
    ensures forall x :: x in r <==> x % 4 == 0 && 4 <= x < len
  {
    var m := if len == 0 then 0 else (len - 1) / 4;
    var r := seq(m, k requires 0 <= k < m => 4 * (k + 1));
    forall x | x % 4 == 0 && 4 <= x < len ensures x in r {
      assert r[x / 4 - 1] == x;
    }
    r
  }

  predicate NonDecreasing(s: seq<int>)
  {
    forall i, j :: 0 <= i < j < |s| ==> s[i] <= s[j]
  }

  predicate Increasing(s: seq<nat>)
  {
    forall i, j :: 0 <= i < j < |s| ==> s[i] < s[j]
  }

  lemma {:induction false} FilterIncreasing(s: seq<nat>, keep: nat -> bool)
    requires Increasing(s)
    ensures Increasing(ArrayUtil.Filter<nat>(s, keep))
  {
    if s != [] {
      var rest := s[1..];
      assert Increasing(rest) by {
        forall i, j | 0 <= i < j < |rest| ensures rest[i] < rest[j] {
          assert rest[i] == s[i + 1] && rest[j] == s[j + 1];
        }
      }
      FilterIncreasing(rest, keep);
      var tail := ArrayUtil.Filter<nat>(rest, keep);
      if keep(s[0]) {
        forall x | x in tail ensures s[0] < x {
          var k :| 0 <= k < |rest| && rest[k] == x;
          assert rest[k] == s[k + 1];
        }
        ConsIncreasing(s[0], tail);
      }
    }
  }

  /** A head below every element of an increasing tail keeps it increasing. */
  lemma ConsIncreasing(h: nat, t: seq<nat>)
    requires Increasing(t) && forall x :: x in t ==> h < x
    ensures Increasing([h] + t)
  {
    var f := [h] + t;
    forall i, j | 0 <= i < j < |f| ensures f[i] < f[j] {
      assert f[j] == t[j - 1];
      if i > 0 {
        assert f[i] == t[i - 1];
      } else {
        assert t[j - 1] in t;
      }
    }
  }

  /** The split indices: 0, the multiples of four where `cut` holds, and the
      length. */
  function SplitIndices(points: Points, cut: nat -> bool): (r: seq<nat>)
    ensures |r| >= 2 && r[0] == 0 && r[|r| - 1] == |points|
    ensures NonDecreasing(r)
    ensures forall k :: 0 <= k < |r| ==> r[k] <= |points|
    ensures forall x :: x in r ==> x == 0 || x == |points| || (x % 4 == 0 && cut(x))
    ensures forall k :: 1 <= k < |r| ==> r[k] >= N_PPC || r[k] == |points|
  {
    var m := Multiples(|points|);
    var cuts := ArrayUtil.Filter<nat>(m, cut);
    FilterIncreasing(m, cut);
    assert forall x :: x in cuts ==> x % 4 == 0 && 4 <= x < |points| && cut(x);
    SplitIndicesOrdered(cuts, |points|, cut);
    [0] + cuts + [|points|]
  }

  lemma SplitIndicesOrdered(cuts: seq<nat>, len: nat, cut: nat -> bool)
    requires Increasing(cuts) && forall x :: x in cuts ==> x % 4 == 0 && 4 <= x < len && cut(x)
    ensures NonDecreasing([0] + cuts + [len])
    ensures forall x :: x in [0] + cuts + [len] ==> x == 0 || x == len || (x % 4 == 0 && cut(x))
    ensures forall k :: 0 <= k < |cuts| + 2 ==> ([0] + cuts + [len])[k] <= len
    ensures forall k :: 1 <= k < |cuts| + 2 ==> ([0] + cuts + [len])[k] >= 4 || ([0] + cuts + [len])[k] == len
  {
    var r: seq<nat> := [0] + cuts + [len];
    forall i, j | 0 <= i < j < |r| ensures r[i] <= r[j] {
      if 0 < i && j < |r| - 1 {
        assert r[i] == cuts[i - 1] && r[j] == cuts[j - 1];
      } else if 0 < i {
        assert r[i] == cuts[i - 1] && r[i] in cuts;
      } else if j < |r| - 1 {
        assert r[j] == cuts[j - 1];
      }
    }
    forall k | 0 <= k < |r| ensures r[k] <= len && (k >= 1 ==> r[k] >= 4 || r[k] == len) {
      if 0 < k < |r| - 1 {
        assert r[k] == cuts[k - 1] && r[k] in cuts;
      }
    }
  }

  predicate SplitWithin(split: seq<nat>, len: nat)
  {
    NonDecreasing(split) && forall k :: 0 <= k < |split| ==> split[k] <= len
  }

  lemma SplitTail(split: seq<nat>, len: nat)
    requires |split| >= 1 && SplitWithin(split, len)
    ensures SplitWithin(split[1..], len)
  {
    var t := split[1..];
    forall i, j | 0 <= i < j < |t| ensures t[i] <= t[j] {
      assert t[i] == split[i + 1] && t[j] == split[j + 1];
    }
  }

  /** The piece between split indices i and i + 1, when it holds a whole curve. */
  function Piece(points: Points, split: seq<nat>, i: nat): (r: seq<Points>)
    requires SplitWithin(split, |points|) && i + 1 < |split|
    ensures |r| <= 1 && forall p :: p in r ==> |p| >= N_PPC
  {
    if split[i + 1] - split[i] >= N_PPC then [points[split[i]..split[i + 1]]] else []
  }

  /** The slices between consecutive split indices that hold a whole curve. */
  function Pieces(points: Points, split: seq<nat>): (r: seq<Points>)
    requires SplitWithin(split, |points|)
    ensures forall p :: p in r ==> |p| >= N_PPC
    decreases |split|
  {
    if |split| < 2 then []
    else
      SplitTail(split, |points|);
      Piece(points, split, 0) + Pieces(points, split[1..])
  }

  /** Each piece is the slice between two consecutive split indices. */
  lemma {:induction false} PiecesAreSlices(points: Points, split: seq<nat>, p: Points)
    requires SplitWithin(split, |points|) && p in Pieces(points, split)
    ensures exists i :: 0 <= i < |split| - 1 && split[i] + N_PPC <= split[i + 1] && p == points[split[i]..split[i + 1]]
    decreases |split|
  {
    SplitTail(split, |points|);
    if p !in Piece(points, split, 0) {
      PiecesAreSlices(points, split[1..], p);
      var i :| 0 <= i < |split| - 2 && split[1..][i] + N_PPC <= split[1..][i + 1] && p == points[split[1..][i]..split[1..][i + 1]];
      assert split[i + 1] + N_PPC <= split[i + 2] && p == points[split[i + 1]..split[i + 2]];
    }
  }

  /** `_getSubpathsFromPoints(points, filterFunc)`. */
  function SubpathsFromPoints(points: Points, cut: nat -> bool): (r: seq<Points>)
    ensures forall p :: p in r ==> |p| >= N_PPC
  {
    Pieces(points, SplitIndices(points, cut))
  }

  /** Every subpath is a contiguous slice of at least four points that starts
      at 0 or at a multiple of four where `cut` holds, and ends at the length
      or at such a multiple. */
  lemma SubpathsAreSlices(points: Points, cut: nat -> bool, p: Points)
    requires p in SubpathsFromPoints(points, cut)
    ensures exists s, e :: 0 <= s && s + N_PPC <= e <= |points| && p == points[s..e] &&
                           (s == 0 || (s % 4 == 0 && cut(s))) &&
                           (e == |points| || (e % 4 == 0 && cut(e)))
  {
    var split := SplitIndices(points, cut);
    PiecesAreSlices(points, split, p);
    var i :| 0 <= i < |split| - 1 && split[i] + N_PPC <= split[i + 1] && p == points[split[i]..split[i + 1]];
    assert split[i] in split && split[i + 1] in split;
  }

  /** Gaps between consecutive split indices are empty or hold a whole curve. */
  predicate WholeGaps(split: seq<nat>)
  {
    forall i :: 0 <= i < |split| - 1 ==> split[i + 1] == split[i] || split[i] + N_PPC <= split[i + 1]
  }

  /** With whole gaps, the pieces join to the points between the first and
      the last split index. */
  lemma {:induction false} PiecesJoin(points: Points, split: seq<nat>)
    requires |split| >= 1 && SplitWithin(split, |points|) && WholeGaps(split)
    ensures Joined(Pieces(points, split)) == points[split[0]..split[|split| - 1]]
    decreases |split|
  {
    if |split| >= 2 {
      var tail := split[1..];
      SplitTail(split, |points|);
      assert WholeGaps(tail) by {
        forall i | 0 <= i < |tail| - 1 ensures tail[i + 1] == tail[i] || tail[i] + N_PPC <= tail[i + 1] {
          assert tail[i] == split[i + 1] && tail[i + 1] == split[i + 2];
        }
      }
      PiecesJoin(points, tail);
      var head := Piece(points, split, 0);
      JoinedAppend(head, Pieces(points, tail));
      JoinedPiece(points, split);
      assert split[0] <= split[1] <= split[|split| - 1];
      assert points[split[0]..split[|split| - 1]] == points[split[0]..split[1]] + points[split[1]..split[|split| - 1]];
    }
  }

  lemma JoinedPiece(points: Points, split: seq<nat>)
    requires SplitWithin(split, |points|) && |split| >= 2 && WholeGaps(split)
    ensures Joined(Piece(points, split, 0)) == points[split[0]..split[1]]
  {
    if split[1] - split[0] >= N_PPC {
      assert Piece(points, split, 0)[..0] == [];
    } else {
      assert split[1] == split[0];
    }
  }

  /** A list of whole curves is covered exactly by its subpaths, in order. */
  lemma SubpathsJoin(points: Points, cut: nat -> bool)
    requires |points| % 4 == 0
    ensures Joined(SubpathsFromPoints(points, cut)) == points
  {
    var split := SplitIndices(points, cut);
    forall k | 0 <= k < |split| ensures split[k] % 4 == 0 {
      assert split[k] in split;
    }
    forall i | 0 <= i < |split| - 1 ensures split[i + 1] == split[i] || split[i] + N_PPC <= split[i + 1] {
      assert split[i] <= split[i + 1];
      DifferenceOfMultiples(split[i], split[i + 1]);
    }
    PiecesJoin(points, split);
  }

  lemma DifferenceOfMultiples(a: nat, b: nat)
    requires a <= b && a % 4 == 0 && b % 4 == 0
    ensures b == a || a + 4 <= b
  {
    assert a == 4 * (a / 4) && b == 4 * (b / 4);
  }

  /** With no cut at all, a list of at least one curve is a single subpath. */
  lemma SubpathsWithoutCuts(points: Points, cut: nat -> bool)
    requires |points| >= N_PPC
    requires forall x: nat :: x in Multiples(|points|) ==> !cut(x)
    ensures SubpathsFromPoints(points, cut) == [points]
  {
    var m := Multiples(|points|);
    NoneKept(m, cut);
    var split := SplitIndices(points, cut);
    assert split == [0, |points|];
    assert split[1..] == [|points|];
    assert Pieces(points, split[1..]) == [];
    assert Piece(points, split, 0) == [points[0..|points|]];
    assert points[0..|points|] == points;
  }

  lemma {:induction false} NoneKept(s: seq<nat>, cut: nat -> bool)
    requires forall x :: x in s ==> !cut(x)
    ensures ArrayUtil.Filter<nat>(s, cut) == []
  {
    if s != [] {
      NoneKept(s[1..], cut);
    }
  }

  /** `getSubpathsFromPoints(points)`: a cut where two consecutive points are
      not equal within tolerance. */
  function PointCut(points: Points, atol: real): nat -> bool
  {
    n => 0 < n < |points| && !ConsiderPointsEquals(points[n - 1], points[n], atol)
  }

  function GetSubpathsFromPoints(points: Points, atol: real): (r: seq<Points>)
    ensures forall p :: p in r ==> |p| >= N_PPC
    ensures |points| % 4 == 0 ==> Joined(r) == points
  {
    if |points| % 4 == 0 then
      SubpathsJoin(points, PointCut(points, atol));
      SubpathsFromPoints(points, PointCut(points, atol))
    else
      SubpathsFromPoints(points, PointCut(points, atol))
  }

  /** `getSubpathsFromPoints2D(points)`. */
  function PointCut2D(points: Points, atol: real): nat -> bool
  {
    n => 0 < n < |points| && !ConsiderPointsEquals2D(points[n - 1], points[n], atol)
  }

  function GetSubpathsFromPoints2D(points: Points, atol: real): (r: seq<Points>)
    ensures forall p :: p in r ==> |p| >= N_PPC
    ensures |points| % 4 == 0 ==> Joined(r) == points
  {
    if |points| % 4 == 0 then
      SubpathsJoin(points, PointCut2D(points, atol));
      SubpathsFromPoints(points, PointCut2D(points, atol))
    else
      SubpathsFromPoints(points, PointCut2D(points, atol))
  }

  // ---------------------------------------------------------------------
  // Curve insertion

  /** `repeatIndices`: floor(i c / t) for each i below t; none when t <= 0. */
  function RepeatIndices(c: nat, t: int): (r: seq<nat>)
    ensures |r| == if t <= 0 then 0 else t
  {
    if t <= 0 then [] else seq(t, i requires 0 <= i < t => (i * c) / t)
  }

  /** The number of occurrences of v in s: `s.filter((j) => v === j).length`. */
  function Count(s: seq<nat>, v: nat): nat
  {
    if s == [] then 0 else Count(s[..|s| - 1], v) + (if s[|s| - 1] == v then 1 else 0)
  }

  /** `splitFactors`: how often each curve index occurs among the repeat indices. */
  function SplitFactors(c: nat, t: int): (r: seq<nat>)
    ensures |r| == c
  {
    var rep := RepeatIndices(c, t);
    seq(c, i requires 0 <= i < c => Count(rep, i))
  }

  function NatSum(s: seq<nat>): nat
  {
    if s == [] then 0 else NatSum(s[..|s| - 1]) + s[|s| - 1]
  }

  /** The number of elements of s below c. */
  function CountBelow(s: seq<nat>, c: nat): nat
  {
    if s == [] then 0 else CountBelow(s[..|s| - 1], c) + (if s[|s| - 1] < c then 1 else 0)
  }

  lemma {:induction false} CountPositive(s: seq<nat>, v: nat)
    requires v in s
    ensures Count(s, v) >= 1
  {
    if s[|s| - 1] != v {
      assert v in s[..|s| - 1];
      CountPositive(s[..|s| - 1], v);
    }
  }

  lemma {:induction false} CountBelowStep(s: seq<nat>, c: nat)
    ensures CountBelow(s, c + 1) == CountBelow(s, c) + Count(s, c)
  {
    if s != [] {
      CountBelowStep(s[..|s| - 1], c);
    }
  }

  lemma {:induction false} CountBelowAll(s: seq<nat>, c: nat)
    requires forall k :: 0 <= k < |s| ==> s[k] < c
    ensures CountBelow(s, c) == |s|
  {
    if s != [] {
      CountBelowAll(s[..|s| - 1], c);
    }
  }

  lemma {:induction false} CountBelowZero(s: seq<nat>)
    ensures CountBelow(s, 0) == 0
  {
    if s != [] {
      CountBelowZero(s[..|s| - 1]);
    }
  }

  /** Summing the occurrence counts of 0 .. c - 1 counts the elements below c. */
  lemma {:induction false} SumOfCounts(s: seq<nat>, c: nat)
    ensures NatSum(seq(c, v requires 0 <= v < c => Count(s, v))) == CountBelow(s, c)
  {
    if c == 0 {
      CountBelowZero(s);
    } else {
      var f := seq(c, v requires 0 <= v < c => Count(s, v));
      assert f[..c - 1] == seq(c - 1, v requires 0 <= v < c - 1 => Count(s, v));
      SumOfCounts(s, c - 1);
      CountBelowStep(s, c - 1);
    }
  }

  /** Every repeat index names a curve: floor(i c / t) < c for i < t. */
  lemma RepeatIndicesBelow(c: nat, t: int)
    requires c >= 1
    ensures forall k :: 0 <= k < |RepeatIndices(c, t)| ==> RepeatIndices(c, t)[k] < c
  {
    var r := RepeatIndices(c, t);
    forall k | 0 <= k < |r| ensures r[k] < c {
      var q := (k * c) / t;
      DivMulLe(k * c, t);
      MulLe2(k + 1, t, c);
      if q >= c {
        MulLe2(c, q, t);
      }
    }
  }

  /** The split factors of c curves raised to t: each is at least 1 when no
      curve is removed, and together they make t curves (none when t <= 0). */
  lemma SplitFactorsProperties(c: nat, t: int)
    requires c >= 1
    ensures NatSum(SplitFactors(c, t)) == if t <= 0 then 0 else t
    ensures c <= t ==> forall i :: 0 <= i < c ==> SplitFactors(c, t)[i] >= 1
  {
    var rep := RepeatIndices(c, t);
    RepeatIndicesBelow(c, t);
    SumOfCounts(rep, c);
    CountBelowAll(rep, c);
    assert SplitFactors(c, t) == seq(c, v requires 0 <= v < c => Count(rep, v));
    if c <= t {
      forall i | 0 <= i < c ensures SplitFactors(c, t)[i] >= 1 {
        var e := ScaledIndexHit(i, c, t);
        assert rep[e] == i;
        CountPositive(rep, i);
      }
    }
  }

  /** Entry j of `linspace(0, 1, sf + 1)`. */
  function Alpha(j: nat, sf: nat): real
    requires sf >= 1
  {
    Interpolation.Interpolate(0.0, 1.0, j as real / sf as real)
  }

  /** The first j of the sf pieces one curve is cut into: piece j runs from
      alpha j to alpha j + 1. */
  function CurvePieces(quad: Points, sf: nat, j: nat): (r: Points)
    requires j <= sf
  {
    if j == 0 then []
    else CurvePieces(quad, sf, j - 1) + Bezier.PartialBezierPoints(quad, Alpha(j - 1, sf), Alpha(j, sf))
  }

  /** The first i curves, each cut into as many pieces as its split factor. */
  function SplitCurves(quads: seq<Points>, factors: seq<nat>, i: nat): Points
    requires |factors| == |quads| && i <= |quads|
  {
    if i == 0 then []
    else SplitCurves(quads, factors, i - 1) + CurvePieces(quads[i - 1], factors[i - 1], factors[i - 1])
  }

  /** `insertNCurvesToPointList(n, points)`: a single point becomes 4 n copies of
      itself (a negative n is an invalid array length); otherwise every whole
      curve is cut into its split factor's pieces. */
  function InsertedPoints(n: int, points: Points): (r: Result<Points>)
    ensures r.Err? <==> |points| == 1 && n < 0
    ensures |points| == 1 && n >= 0 ==> |r.value| == N_PPC * n && forall k :: 0 <= k < |r.value| ==> r.value[k] == points[0]
  {
    if |points| == 1 then
      if n < 0 then Err("Invalid array length") else Ok(seq(N_PPC * n, _ => points[0]))
    else
      var quads := CubicBezierTuples(points);
      Ok(SplitCurves(quads, SplitFactors(|quads|, |quads| + n), |quads|))
  }

  lemma {:induction false} CurvePiecesLength(quad: Points, sf: nat, j: nat)
    requires j <= sf
    ensures |CurvePieces(quad, sf, j)| == j * |quad|
  {
    if j > 0 {
      CurvePiecesLength(quad, sf, j - 1);
      assert (j - 1) * |quad| + |quad| == j * |quad|;
    }
  }

  lemma {:induction false} SplitCurvesLength(quads: seq<Points>, factors: seq<nat>, i: nat)
    requires |factors| == |quads| && i <= |quads|
    requires forall k :: 0 <= k < |quads| ==> |quads[k]| == N_PPC
    ensures |SplitCurves(quads, factors, i)| == N_PPC * NatSum(factors[..i])
  {
    if i > 0 {
      SplitCurvesLength(quads, factors, i - 1);
      CurvePiecesLength(quads[i - 1], factors[i - 1], factors[i - 1]);
      assert factors[..i][..i - 1] == factors[..i - 1];
    }
  }

  /** Inserting n curves into c >= 1 whole curves gives c + n curves, four
      points each (none when c + n <= 0). */
  lemma InsertedLength(n: int, points: Points)
    requires |points| != 1 && NumCurves(points) >= 1
    ensures var t := NumCurves(points) + n;
            |InsertedPoints(n, points).value| == N_PPC * (if t <= 0 then 0 else t)
  {
    var quads := CubicBezierTuples(points);
    var factors := SplitFactors(|quads|, |quads| + n);
    SplitCurvesLength(quads, factors, |quads|);
    SplitFactorsProperties(|quads|, |quads| + n);
    assert factors[..|quads|] == factors;
  }

  /** A split factor of 1 keeps the curve: the single piece runs from 0 to 1. */
  lemma OnePiece(quad: Points)
    ensures CurvePieces(quad, 1, 1) == quad
  {
    assert Alpha(0, 1) == 0.0 && Alpha(1, 1) == 1.0;
    Bezier.PartialBezierWhole(quad);
  }

  lemma {:induction false} CountOfIndices(c: nat, v: nat)
    ensures Count(seq(c, i requires 0 <= i < c => i), v) == if v < c then 1 else 0
  {
    if c > 0 {
      var s := seq(c, i requires 0 <= i < c => i);
      assert s[..c - 1] == seq(c - 1, i requires 0 <= i < c - 1 => i);
      CountOfIndices(c - 1, v);
    }
  }

  lemma {:induction false} SplitCurvesOfOnes(quads: seq<Points>, factors: seq<nat>, i: nat)
    requires |factors| == |quads| && i <= |quads|
    requires forall k :: 0 <= k < |factors| ==> factors[k] == 1
    ensures SplitCurves(quads, factors, i) == Joined(quads[..i])
  {
    if i > 0 {
      SplitCurvesOfOnes(quads, factors, i - 1);
      OnePiece(quads[i - 1]);
      assert quads[..i][..i - 1] == quads[..i - 1];
    }
  }

  /** Inserting no curve returns the whole curves unchanged. */
  lemma InsertNothing(points: Points)
    requires |points| != 1
    ensures InsertedPoints(0, points) == Ok(points[..N_PPC * NumCurves(points)])
  {
    var quads := CubicBezierTuples(points);
    var c := |quads|;
    var factors := SplitFactors(c, c);
    if c > 0 {
      assert RepeatIndices(c, c) == seq(c, i requires 0 <= i < c => i) by {
        forall i | 0 <= i < c ensures (i * c) / c == i {
          FloorDivBetween(i * c, c, i);
        }
      }
      forall k | 0 <= k < c ensures factors[k] == 1 {
        CountOfIndices(c, k);
      }
    }
    SplitCurvesOfOnes(quads, factors, c);
    assert quads[..c] == quads;
    CubicBezierTuplesJoin(points);
  }

  /** The loops of `insertNCurvesToPointList`, pushing piece after piece. */
  method InsertNCurvesToPointList(n: int, points: Points) returns (r: Result<Points>)
    ensures r == InsertedPoints(n, points)
  {
    if |points| == 1 {
      if n < 0 {
        return Err("Invalid array length");
      }
      return Ok(seq(N_PPC * n, _ => points[0]));
    }
    var quads := CubicBezierTuples(points);
    var currentNum := |quads|;
    var splitFactors := SplitFactors(currentNum, currentNum + n);
    var newPoints: Points := [];
    var i := 0;
    while i < currentNum
      invariant 0 <= i <= currentNum
      invariant newPoints == SplitCurves(quads, splitFactors, i)
    {
      var next := i + 1;
      newPoints := AppendPieces(quads[i], splitFactors[i], newPoints);
      SplitCurvesStep(quads, splitFactors, i, next);
      i := next;
    }
    return Ok(newPoints);
  }

  /** The inner loop of `insertNCurvesToPointList`: the sf pieces of one
      curve pushed onto the points built so far. */
  method AppendPieces(quad: Points, sf: nat, start: Points) returns (r: Points)
    ensures r == start + CurvePieces(quad, sf, sf)
  {
    r := start;
    var j := 0;
    while j < sf
      invariant 0 <= j <= sf
      invariant r == start + CurvePieces(quad, sf, j)
    {
      var next := j + 1;
      var piece := Bezier.PartialBezierPoints(quad, Alpha(j, sf), Alpha(next, sf));
      CurvePiecesStep(quad, sf, j, next, piece);
      assert r + piece == start + (CurvePieces(quad, sf, j) + piece);
      r := r + piece;
      j := next;
    }
  }

  lemma CurvePiecesStep(quad: Points, sf: nat, j: nat, next: nat, piece: Points)
    requires next == j + 1 && next <= sf
    requires piece == Bezier.PartialBezierPoints(quad, Alpha(j, sf), Alpha(next, sf))
    ensures CurvePieces(quad, sf, next) == CurvePieces(quad, sf, j) + piece
  {
  }

  lemma SplitCurvesStep(quads: seq<Points>, factors: seq<nat>, i: nat, next: nat)
    requires |factors| == |quads| && next == i + 1 && next <= |quads|
    ensures SplitCurves(quads, factors, next) == SplitCurves(quads, factors, i) + CurvePieces(quads[i], factors[i], factors[i])
  {
  }

  // ---------------------------------------------------------------------
  // Proportions and partial paths

  /** For at least one curve, `integerInterpolate(0, nc, alpha)` names a curve. */
  lemma CurveIndexInRange(nc: int, alpha: real)
    requires nc >= 1
    ensures 0 <= Interpolation.IntegerInterpolate(0, nc, alpha).0 < nc
    ensures 0.0 <= Interpolation.IntegerInterpolate(0, nc, alpha).1 <= 1.0
  {
    if alpha <= 0.0 {
      Interpolation.IntegerInterpolateBelow(0, nc, alpha);
    }
  }

  /** `pointFromProportion(alpha)`: the point at the residue on the curve
      `integerInterpolate` picks. With no curve, alpha >= 1 reads curve -1,
      whose empty point list sums to the origin, and any other alpha reads
      curve 0, which does not exist. */
  function PointFromProportion(points: Points, alpha: real): (r: Result<Vectors.Vector3>)
    ensures NumCurves(points) >= 1 ==> r.Ok?
  {
    var (n, residue) := Interpolation.IntegerInterpolate(0, NumCurves(points), alpha);
    var curve := GetNthCurvePoints(points, n);
    if curve.Err? then Err(curve.msg) else Ok(Bezier.BezierAt(curve.value, residue))
  }

  /** The path starts at proportion 0 at its first point and ends at
      proportion 1 at the end anchor of its last curve. */
  lemma PointFromProportionEnds(points: Points)
    requires NumCurves(points) >= 1
    ensures PointFromProportion(points, 0.0) == Ok(points[0])
    ensures PointFromProportion(points, 1.0) == Ok(points[N_PPC * NumCurves(points) - 1])
  {
    var nc := NumCurves(points);
    Interpolation.IntegerInterpolateBelow(0, nc, 0.0);
    var quads := CubicBezierTuples(points);
    Bezier.BezierEndpoints(quads[0]);
    Bezier.BezierEndpoints(quads[nc - 1]);
  }

  /** The curves strictly between two curve indices, in order. */
  function Interior(quads: seq<Points>, lo: nat, hi: nat): Points
    requires hi <= |quads|
  {
    if lo < hi then Joined(quads[lo..hi]) else []
  }

  /** `pointwiseBecomePartial(mob, a, b)`: the points of the part of a path
      between proportions a and b. */
  function PartialPath(points: Points, a: real, b: real): (r: Points)
    ensures a <= 0.0 && b >= 1.0 ==> r == points
    ensures !(a <= 0.0 && b >= 1.0) && NumCurves(points) == 0 ==> r == []
  {
    if a <= 0.0 && b >= 1.0 then points
    else
      var quads := CubicBezierTuples(points);
      var nc := |quads|;
      if nc == 0 then []
      else
        CurveIndexInRange(nc, a);
        CurveIndexInRange(nc, b);
        var (lowerIndex, lowerResidue) := Interpolation.IntegerInterpolate(0, nc, a);
        var (upperIndex, upperResidue) := Interpolation.IntegerInterpolate(0, nc, b);
        if lowerIndex == upperIndex then
          Bezier.PartialBezierPoints(quads[lowerIndex], lowerResidue, upperResidue)
        else
          Bezier.PartialBezierPoints(quads[lowerIndex], lowerResidue, 1.0) +
          Interior(quads, lowerIndex + 1, upperIndex) +
          Bezier.PartialBezierPoints(quads[upperIndex], 0.0, upperResidue)
  }

  /** The curves lo .. hi - 1 joined are the points 4 lo .. 4 hi. */
  lemma {:induction false} JoinedCurveRange(points: Points, lo: nat, hi: nat)
    requires lo <= hi <= NumCurves(points)
    ensures Joined(CubicBezierTuples(points)[lo..hi]) == points[N_PPC * lo..N_PPC * hi]
    decreases hi
  {
    var quads := CubicBezierTuples(points);
    if lo < hi {
      JoinedCurveRange(points, lo, hi - 1);
      assert quads[lo..hi][..hi - lo - 1] == quads[lo..hi - 1];
      assert points[N_PPC * lo..N_PPC * hi] == points[N_PPC * lo..N_PPC * (hi - 1)] + points[N_PPC * (hi - 1)..N_PPC * hi];
    } else {
      assert quads[lo..hi] == [];
    }
  }

  /** Outside the copying case, the part of a path with curves starts at the
      point at proportion a. */
  lemma PartialPathStart(points: Points, a: real, b: real)
    requires !(a <= 0.0 && b >= 1.0) && NumCurves(points) >= 1
    ensures PartialPath(points, a, b)[0] == PointFromProportion(points, a).value
  {
    var quads := CubicBezierTuples(points);
    var nc := |quads|;
    CurveIndexInRange(nc, a);
    CurveIndexInRange(nc, b);
    var (lower, lr) := Interpolation.IntegerInterpolate(0, nc, a);
    var (upper, ur) := Interpolation.IntegerInterpolate(0, nc, b);
    Bezier.PartialBezierStartsAtA(quads[lower], lr, if lower == upper then ur else 1.0);
  }

  /** Within one curve the part is that curve's partial, four points; across
      curves it is the lower curve's tail, every curve strictly between copied
      verbatim, and the upper curve's head; with the indices reversed only the
      two end pieces remain. */
  lemma PartialPathShape(points: Points, a: real, b: real, lower: nat, lr: real, upper: nat, ur: real)
    requires !(a <= 0.0 && b >= 1.0) && NumCurves(points) >= 1
    requires (lower as int, lr) == Interpolation.IntegerInterpolate(0, NumCurves(points), a)
    requires (upper as int, ur) == Interpolation.IntegerInterpolate(0, NumCurves(points), b)
    ensures var r := PartialPath(points, a, b);
            (lower == upper ==> |r| == N_PPC) &&
            (lower < upper ==> |r| == N_PPC * (upper - lower + 1) &&
                               r[N_PPC..N_PPC * (upper - lower)] == points[N_PPC * (lower + 1)..N_PPC * upper]) &&
            (lower > upper ==> |r| == 2 * N_PPC)
  {
    CurveIndexInRange(NumCurves(points), a);
    CurveIndexInRange(NumCurves(points), b);
    PartialPathPieces(points, a, b, lower, lr, upper, ur);
    PiecesShape(points, PartialPath(points, a, b), lower, lr, upper, ur);
  }

  /** The shape of the points the partial-path construction builds from the
      curves of points between curve lower at residue lr and curve upper at
      residue ur. */
  lemma PiecesShape(points: Points, r: Points, lower: nat, lr: real, upper: nat, ur: real)
    requires lower < NumCurves(points) && upper < NumCurves(points)
    requires var quads := CubicBezierTuples(points);
             r == if lower == upper then Bezier.PartialBezierPoints(quads[lower], lr, ur)
                  else Bezier.PartialBezierPoints(quads[lower], lr, 1.0) + Interior(quads, lower + 1, upper) +
                       Bezier.PartialBezierPoints(quads[upper], 0.0, ur)
    ensures lower == upper ==> |r| == N_PPC
    ensures lower < upper ==> |r| == N_PPC * (upper - lower + 1) &&
                              r[N_PPC..N_PPC * (upper - lower)] == points[N_PPC * (lower + 1)..N_PPC * upper]
    ensures lower > upper ==> |r| == 2 * N_PPC
  {
    var quads := CubicBezierTuples(points);
    if lower != upper {
      var head := Bezier.PartialBezierPoints(quads[lower], lr, 1.0);
      var inner := Interior(quads, lower + 1, upper);
      var tail := Bezier.PartialBezierPoints(quads[upper], 0.0, ur);
      if lower < upper {
        JoinedCurveRange(points, lower + 1, upper);
        ThreePieces(r, head, inner, tail, lower, upper);
      }
    }
  }

  /** A path made of one curve, the curves strictly between lower and
      upper, and one more curve. */
  lemma ThreePieces(r: Points, head: Points, inner: Points, tail: Points, lower: nat, upper: nat)
    requires lower < upper && |head| == N_PPC && |tail| == N_PPC && |inner| == N_PPC * (upper - lower - 1)
    requires r == head + inner + tail
    ensures |r| == N_PPC * (upper - lower + 1) && r[N_PPC..N_PPC * (upper - lower)] == inner
  {
    assert r[N_PPC..N_PPC + |inner|] == inner;
  }

  // ---------------------------------------------------------------------
  // Path building

  /** `getLastPoint()`. */
  function LastPoint(points: Points): Vectors.Vector3
    requires |points| > 0
  {
    points[|points| - 1]
  }

  /** The first subpath of a path of at least one curve starts at its first point. */
  lemma FirstSubpath(points: Points, cut: nat -> bool)
    requires |points| >= N_PPC
    ensures |SubpathsFromPoints(points, cut)| >= 1 && SubpathsFromPoints(points, cut)[0][0] == points[0]
  {
    var split := SplitIndices(points, cut);
    assert split[1] >= N_PPC;
    assert Piece(points, split, 0) == [points[0..split[1]]];
    SplitTail(split, |points|);
    assert SubpathsFromPoints(points, cut) == [points[0..split[1]]] + Pieces(points, split[1..]);
  }

  /** `addCubicBezierCurveTo(handle1, handle2, anchor)`: throws on an empty
      path; a pending new path takes the two handles and the anchor, any other
      path first repeats its last point as the new curve's start anchor. */
  function CurveTo(points: Points, handle1: Vectors.Vector3, handle2: Vectors.Vector3, anchor: Vectors.Vector3): (r: Result<Points>)
    ensures r.Err? <==> |points| == 0
    ensures r.Ok? ==> points <= r.value && LastPoint(r.value) == anchor
    ensures r.Ok? ==> |r.value| == |points| + if HasNewPathStarted(points) then 3 else 4
  {
    if |points| == 0 then Err("Cannot add cubic bezier curve to an empty path")
    else if HasNewPathStarted(points) then Ok(points + [handle1, handle2, anchor])
    else Ok(points + [LastPoint(points), handle1, handle2, anchor])
  }

  /** On a path of whole curves or one with a pending new path, the new curve
      is the last curve, running from the previous last point to the anchor,
      and the path again holds whole curves only. */
  lemma CurveToAddsCurve(points: Points, handle1: Vectors.Vector3, handle2: Vectors.Vector3, anchor: Vectors.Vector3)
    requires |points| > 0 && (|points| % 4 == 0 || |points| % 4 == 1)
    ensures var r := CurveTo(points, handle1, handle2, anchor).value;
            |r| % 4 == 0 && NumCurves(r) == NumCurves(points) + 1 &&
            CubicBezierTuples(r)[NumCurves(r) - 1] == [LastPoint(points), handle1, handle2, anchor]
  {
    var r := CurveTo(points, handle1, handle2, anchor).value;
    assert r[|r| - 4..] == [LastPoint(points), handle1, handle2, anchor];
  }

  /** The corrected `addLineTo(pt)`: a straight cubic from the last point to pt
      whose handles sit at 1/3 and 2/3 of the way (`linspace(0, 1, 4)`). */
  function LineTo(points: Points, pt: Vectors.Vector3): (r: Result<Points>)
    ensures r.Err? <==> |points| == 0
  {
    if |points| == 0 then Err("Cannot add cubic bezier curve to an empty path")
    else
      var last := LastPoint(points);
      CurveTo(points, Vectors.Lerp(last, pt, Alpha(1, 3)), Vectors.Lerp(last, pt, Alpha(2, 3)), Vectors.Lerp(last, pt, Alpha(3, 3)))
  }

  /** The new last curve lies on the segment to pt: its points are the
      segment's points at 0, 1/3, 2/3 and 1, and the path ends at pt. */
  lemma LineToIsStraight(points: Points, pt: Vectors.Vector3)
    requires |points| > 0 && (|points| % 4 == 0 || |points| % 4 == 1)
    ensures var r := LineTo(points, pt).value;
            var last := LastPoint(points);
            LastPoint(r) == pt &&
            CubicBezierTuples(r)[NumCurves(r) - 1] ==
              [Vectors.Lerp(last, pt, 0.0), Vectors.Lerp(last, pt, 1.0 / 3.0), Vectors.Lerp(last, pt, 2.0 / 3.0), Vectors.Lerp(last, pt, 1.0)]
  {
    var last := LastPoint(points);
    assert Alpha(1, 3) == 1.0 / 3.0 && Alpha(2, 3) == 2.0 / 3.0 && Alpha(3, 3) == 1.0;
    CurveToAddsCurve(points, Vectors.Lerp(last, pt, Alpha(1, 3)), Vectors.Lerp(last, pt, Alpha(2, 3)), Vectors.Lerp(last, pt, Alpha(3, 3)));
  }

  /** JavaScript `*` on two `Vector3` objects as `interpolateValue` applies it:
      their string forms are not numbers, so the value is NaN, not a point. */
  function InterpolateValueAsWritten(a: Vectors.Vector3, b: Vectors.Vector3, alpha: real): (r: Option<Vectors.Vector3>)
    ensures r.None?
  {
    None
  }

  /** `addLineTo(pt)` as written: the entries it appends come from
      `interpolateValue`; `None` marks an entry that is not a point. */
  function LineToAsWritten(points: Points, pt: Vectors.Vector3): (r: Result<seq<Option<Vectors.Vector3>>>)
    ensures r.Err? <==> |points| == 0
  {
    if |points| == 0 then Err("Cannot add cubic bezier curve to an empty path")
    else
      var last := LastPoint(points);
      var data := seq(4, k requires 0 <= k < 4 => InterpolateValueAsWritten(last, pt, Alpha(k, 3)));
      var kept := seq(|points|, i requires 0 <= i < |points| => Some(points[i]));
      if HasNewPathStarted(points) then Ok(kept + [data[1], data[2], data[3]])
      else Ok(kept + [Some(last), data[1], data[2], data[3]])
  }

  /** As written, the path after `addLineTo` ends in an entry that is not a
      point where the corrected one ends at pt. */
  lemma LineToAsWrittenLosesEnd(points: Points, pt: Vectors.Vector3)
    requires |points| > 0
    ensures var w := LineToAsWritten(points, pt).value;
            var r := LineTo(points, pt).value;
            |w| == |r| && w[|w| - 1].None? && LastPoint(r) == pt
  {
    assert Alpha(3, 3) == 1.0;
  }

  /** `addQuadraticBezierCurveTo(handle, anchor)`: the cubic with the same
      shape; an empty path has no last point to scale and throws. */
  function QuadraticCurveTo(points: Points, handle: Vectors.Vector3, anchor: Vectors.Vector3): (r: Result<Points>)
    ensures r.Err? <==> |points| == 0
  {
    if |points| == 0 then Err("Cannot read properties of undefined (reading 'scale')")
    else
      var last := LastPoint(points);
      CurveTo(points,
              Vectors.Plus(Vectors.Scale(handle, 2.0 / 3.0), Vectors.Scale(last, 1.0 / 3.0)),
              Vectors.Plus(Vectors.Scale(handle, 2.0 / 3.0), Vectors.Scale(anchor, 1.0 / 3.0)),
              anchor)
  }

  /** The degree-raising rule: each cubic handle lies 2/3 of the way from its
      anchor to the quadratic's control point. */
  lemma QuadraticHandles(points: Points, handle: Vectors.Vector3, anchor: Vectors.Vector3)
    requires |points| > 0 && (|points| % 4 == 0 || |points| % 4 == 1)
    ensures var r := QuadraticCurveTo(points, handle, anchor).value;
            var last := LastPoint(points);
            CubicBezierTuples(r)[NumCurves(r) - 1] ==
              [last, Vectors.Lerp(last, handle, 2.0 / 3.0), Vectors.Lerp(anchor, handle, 2.0 / 3.0), anchor]
  {
    var last := LastPoint(points);
    var h1 := Vectors.Plus(Vectors.Scale(handle, 2.0 / 3.0), Vectors.Scale(last, 1.0 / 3.0));
    var h2 := Vectors.Plus(Vectors.Scale(handle, 2.0 / 3.0), Vectors.Scale(anchor, 1.0 / 3.0));
    CurveToAddsCurve(points, h1, h2, anchor);
    assert h1 == Vectors.Lerp(last, handle, 2.0 / 3.0);
    assert h2 == Vectors.Lerp(anchor, handle, 2.0 / 3.0);
  }

  /** `closePath()`: a path whose ends are not considered equal gets a line to
      the start of its first subpath. Reading an empty path, or the first of
      no subpaths, throws. */
  function ClosePath(points: Points): (r: Result<Points>)
    ensures |points| == 0 ==> r.Err?
    ensures |points| > 0 && ConsiderPointsEquals(points[0], LastPoint(points), ATOL) ==> r == Ok(points)
  {
    if |points| == 0 then Err("Cannot read properties of undefined (reading 'x')")
    else if ConsiderPointsEquals(points[0], LastPoint(points), ATOL) then Ok(points)
    else
      var subpaths := GetSubpathsFromPoints(points, ATOL);
      if |subpaths| == 0 then Err("Cannot read properties of undefined (reading '0')")
      else LineTo(points, subpaths[0][0])
  }

  /** A path closed by `closePath` keeps its points and is closed afterwards;
      it fails exactly on paths shorter than one curve whose ends differ. */
  lemma ClosePathCloses(points: Points)
    ensures ClosePath(points).Ok? ==>
              points <= ClosePath(points).value &&
              ConsiderPointsEquals(ClosePath(points).value[0], LastPoint(ClosePath(points).value), ATOL)
    ensures |points| >= N_PPC ==> ClosePath(points).Ok?
  {
    if |points| >= N_PPC {
      FirstSubpath(points, PointCut(points, ATOL));
    }
    if |points| > 0 {
      ConsiderPointsEqualsProperties(points[0], points[0], ATOL);
      var subpaths := GetSubpathsFromPoints(points, ATOL);
      if !ConsiderPointsEquals(points[0], LastPoint(points), ATOL) && |subpaths| > 0 {
        SubpathsAreSlices(points, PointCut(points, ATOL), subpaths[0]);
        FirstSubpath(points, PointCut(points, ATOL));
      }
    }
  }

  /** The points after dropping a pending new path's lone start point. */
  function Popped(points: Points): (r: Points)
    ensures r <= points && |points| - |r| == if HasNewPathStarted(points) then 1 else 0
  {
    if HasNewPathStarted(points) then points[..|points| - 1] else points
  }

  /** `appendVectorizedMobject(mob)`: a pending new path is dropped, then mob's
      points follow. */
  function AppendedPath(points: Points, other: Points): (r: Points)
  {
    Popped(points) + other
  }

  /** Appending whole curves to whole curves (or to a pending new path) keeps
      the curves of both sides, in order. */
  lemma AppendedCurves(points: Points, other: Points)
    requires (|points| % 4 == 0 || |points| % 4 == 1) && |other| % 4 == 0
    ensures var r := AppendedPath(points, other);
            |r| % 4 == 0 && CubicBezierTuples(r) == CubicBezierTuples(points) + CubicBezierTuples(other)
  {
    var r := AppendedPath(points, other);
    var p := Popped(points);
    assert |p| == N_PPC * NumCurves(points);
    var left, right, both := CubicBezierTuples(points), CubicBezierTuples(other), CubicBezierTuples(r);
    assert |both| == |left| + |right|;
    forall k | 0 <= k < |both| ensures both[k] == (left + right)[k] {
      if k < |left| {
        assert both[k] == r[4 * k..4 * k + 4] == p[4 * k..4 * k + 4] == points[4 * k..4 * k + 4];
      } else {
        var j := k - |left|;
        assert 4 * k == |p| + 4 * j;
        assert both[k] == r[4 * k..4 * k + 4] == other[4 * j..4 * j + 4];
      }
    }
  }

  // ---------------------------------------------------------------------
  // Colour lists

  /** The colours a `setFill`/`setStroke` call asks for: `colors`, then
      `color` when given. */
  function ColorList(color: Option<Colors.Color>, colors: seq<Colors.Color>): (r: seq<Colors.Color>)
    ensures colors <= r && |r| == |colors| + if color.Some? then 1 else 0
    ensures color.Some? ==> r[|r| - 1] == color.value
  {
    colors + if color.Some? then [color.value] else []
  }

  /** The colour-list update of `setFill` (and of `setStroke`, corrected): an
      empty request changes nothing; an unset list takes the request; an
      existing list is stretched up to the request's length, or the request up
      to the list's, and the list becomes the request's entries. */
  function ResizedColors(current: Option<seq<Colors.Color>>, colors: seq<Colors.Color>): (r: Option<seq<Colors.Color>>)
    ensures |colors| == 0 ==> r == current
    ensures |colors| > 0 ==> r.Some?
    ensures |colors| > 0 ==>
              |r.value| == if current.None? then |colors|
                           else if |current.value| == 0 then 0
                           else if |current.value| >= |colors| then |current.value| else |colors|
    ensures |colors| > 0 && r.value != [] ==> |r.value| >= |colors| && r.value == ArrayUtil.Stretch(colors, |r.value|)
  {
    if |colors| == 0 then current
    else
      var list := if current.Some? then current.value else colors;
      var resized := if |list| < |colors| then ArrayUtil.StretchListToLength(list, |colors|).value else list;
      var source := if |colors| < |list| then ArrayUtil.StretchListToLength(colors, |list|).value else colors;
      ArrayUtil.StretchToOwnLength(colors);
      Some(seq(|resized|, i requires 0 <= i < |resized| => source[i]))
  }

  /** Repeating the same update changes nothing more. */
  lemma ResizedColorsIdempotent(current: Option<seq<Colors.Color>>, colors: seq<Colors.Color>)
    ensures ResizedColors(ResizedColors(current, colors), colors) == ResizedColors(current, colors)
  {
    ArrayUtil.StretchToOwnLength(colors);
  }

  /** A non-empty result holds every requested colour, in the request's
      order, each repeated as often as the nearest-neighbour stretch says. */
  lemma ResizedColorsKeepRequest(current: Option<seq<Colors.Color>>, colors: seq<Colors.Color>)
    requires |colors| > 0 && ResizedColors(current, colors).value != []
    ensures forall i :: 0 <= i < |colors| ==> colors[i] in ResizedColors(current, colors).value
  {
    var r := ResizedColors(current, colors).value;
    ArrayUtil.StretchKeepsEveryElementInOrder(colors, |r|);
  }

  /** `range(0, n).map((i) => colors[i])` as JavaScript evaluates it: an index
      past the end reads `undefined` (`None`). */
  function ReadColors(n: nat, colors: seq<Colors.Color>): (r: seq<Option<Colors.Color>>)
    ensures |r| == n
  {
    seq(n, i requires 0 <= i < n => if i < |colors| then Some(colors[i]) else None)
  }

  /** The foreground branch of `setStroke` as written: when the existing list
      is longer, the stretched request is stored but the request itself is
      read, past its end. */
  function StrokeColorsAsWritten(current: Option<seq<Colors.Color>>, colors: seq<Colors.Color>): (r: Option<seq<Option<Colors.Color>>>)
    ensures r.None? <==> |colors| == 0 && current.None?
    ensures |colors| > 0 ==> forall i :: 0 <= i < |r.value| ==> r.value[i] == if i < |colors| then Some(colors[i]) else None
    ensures |colors| > 0 && current.Some? && |current.value| > 0 ==>
              |r.value| == if |colors| < |current.value| then |current.value| else |colors|
  {
    if |colors| == 0 then
      if current.Some? then Some(ReadColors(|current.value|, current.value)) else None
    else
      var list := if current.Some? then current.value else colors;
      var stored := if |list| < |colors| then ArrayUtil.StretchListToLength(list, |colors|).value
                    else if |colors| < |list| then ArrayUtil.StretchListToLength(colors, |list|).value
                    else list;
      Some(ReadColors(|stored|, colors))
  }

  /** A stroke list [WHITE, WHITE] given the single colour TRANSPARENT ends up
      as [TRANSPARENT, undefined] as written, and as [TRANSPARENT, TRANSPARENT]
      corrected. */
  lemma StrokeColorsAsWrittenReadsPastEnd()
    ensures StrokeColorsAsWritten(Some([Colors.WHITE, Colors.WHITE]), [Colors.TRANSPARENT]) ==
            Some([Some(Colors.TRANSPARENT), None])
    ensures ResizedColors(Some([Colors.WHITE, Colors.WHITE]), [Colors.TRANSPARENT]) ==
            Some([Colors.TRANSPARENT, Colors.TRANSPARENT])
  {
    var w := ReadColors(2, [Colors.TRANSPARENT]);
    assert w[0] == Some(Colors.TRANSPARENT) && w[1] == None;
    assert w == [Some(Colors.TRANSPARENT), None];
    var stretched := ArrayUtil.Stretch([Colors.TRANSPARENT], 2);
    assert stretched[0] == Colors.TRANSPARENT && stretched[1] == Colors.TRANSPARENT;
    assert stretched == [Colors.TRANSPARENT, Colors.TRANSPARENT];
  }

  /** Where the request is at least as long as the existing list, the
      foreground branch as written agrees with the corrected update. */
  lemma StrokeColorsAsWrittenAgrees(current: Option<seq<Colors.Color>>, colors: seq<Colors.Color>)
    requires |colors| > 0 && (current.None? || |current.value| <= |colors|)
    ensures var w := StrokeColorsAsWritten(current, colors);
            var r := ResizedColors(current, colors);
            w.Some? && |w.value| == |r.value| && forall i :: 0 <= i < |w.value| ==> w.value[i] == Some(r.value[i])
  {
    ArrayUtil.StretchToOwnLength(colors);
  }

  /** The background branch of `setStroke` as written: it resizes the
      background list (stretching the old background rather than the request
      when the request is longer), then overwrites the foreground list with
      the request's entries; an unset foreground list has no length to read. */
  function BackgroundStrokeAsWritten(background: Option<seq<Colors.Color>>, stroke: Option<seq<Colors.Color>>, colors: seq<Colors.Color>)
    : (r: Result<(Option<seq<Colors.Color>>, seq<Option<Colors.Color>>)>)
    requires |colors| > 0
    ensures r.Err? <==> stroke.None?
    ensures r.Ok? ==> |r.value.1| == |stroke.value| &&
                      forall i :: 0 <= i < |r.value.1| ==> r.value.1[i] == if i < |colors| then Some(colors[i]) else None
  {
    var list := if background.Some? then background.value else colors;
    var newBackground := if |list| < |colors| then ArrayUtil.StretchListToLength(list, |colors|).value
                         else if |colors| < |list| then ArrayUtil.StretchListToLength(colors, |list|).value
                         else list;
    if stroke.None? then Err("Cannot read properties of undefined (reading 'length')")
    else Ok((Some(newBackground), ReadColors(|stroke.value|, colors)))
  }

  /** A new `VMobject` (stroke [WHITE], no background list) asked for the
      background stroke TRANSPARENT: as written its foreground stroke turns
      TRANSPARENT; corrected, only the background list changes. */
  lemma BackgroundStrokeAsWrittenChangesForeground()
    ensures BackgroundStrokeAsWritten(None, Some([Colors.WHITE]), [Colors.TRANSPARENT]) ==
            Ok((Some([Colors.TRANSPARENT]), [Some(Colors.TRANSPARENT)]))
    ensures ResizedColors(None, [Colors.TRANSPARENT]) == Some([Colors.TRANSPARENT])
  {
    var w := ReadColors(1, [Colors.TRANSPARENT]);
    assert w[0] == Some(Colors.TRANSPARENT);
    assert w == [Some(Colors.TRANSPARENT)];
    ArrayUtil.StretchToOwnLength([Colors.TRANSPARENT]);
  }

  /** `getFillColors()`: [TRANSPARENT] when unset. */
  function GetFillColors(style: Mobjects.Style): (r: seq<Colors.Color>)
    ensures style.fillColors.None? ==> r == [Colors.TRANSPARENT]
    ensures style.fillColors.Some? ==> r == style.fillColors.value
  {
    if style.fillColors.Some? then style.fillColors.value else [Colors.TRANSPARENT]
  }

  /** `getStrokeColors({ background })`: [TRANSPARENT] when unset or empty,
      so never empty. */
  function GetStrokeColors(style: Mobjects.Style, background: bool): (r: seq<Colors.Color>)
    ensures |r| >= 1
    ensures var list := if background then style.backgroundStrokeColors else style.strokeColors;
            if list.None? || list.value == [] then r == [Colors.TRANSPARENT] else r == list.value
  {
    var list := if background then style.backgroundStrokeColors else style.strokeColors;
    if list.None? || |list.value| == 0 then [Colors.TRANSPARENT] else list.value
  }

  /** Which colour list a style call updates. */
  datatype Paint = FillPaint | StrokePaint | BackgroundPaint

  /** One `VMobject`'s fields after `setFill`/`setStroke`/`setBackgroundStroke`
      with `family: false` (the stroke branches corrected): the chosen list is
      resized and, for a stroke, a given width replaces the matching width. */
  function Painted(n: Mobjects.Node, paint: Paint, colors: seq<Colors.Color>, width: Option<real>): (r: Mobjects.Node)
    requires Mobjects.IsVectorized(n)
    ensures Mobjects.IsVectorized(r) && r.(style := n.style) == n
  {
    var s := n.style.value;
    var w := if paint.FillPaint? || width.None? then None else width;
    var s' := match paint
      case FillPaint => s.(fillColors := ResizedColors(s.fillColors, colors))
      case StrokePaint =>
        s.(strokeColors := ResizedColors(s.strokeColors, colors),
           strokeWidth := if w.Some? then w.value else s.strokeWidth)
      case BackgroundPaint =>
        s.(backgroundStrokeColors := ResizedColors(s.backgroundStrokeColors, colors),
           backgroundStrokeWidth := if w.Some? then w.value else s.backgroundStrokeWidth);
    n.(style := Some(s'))
  }

  /** Painting a mobject a second time with the same request changes
      nothing, and painting changes only the chosen list and width. */
  lemma PaintedIdempotent(n: Mobjects.Node, paint: Paint, colors: seq<Colors.Color>, width: Option<real>)
    requires Mobjects.IsVectorized(n)
    ensures Painted(Painted(n, paint, colors, width), paint, colors, width) == Painted(n, paint, colors, width)
    ensures var s, t := n.style.value, Painted(n, paint, colors, width).style.value;
            (paint != FillPaint ==> t.fillColors == s.fillColors) &&
            (paint != StrokePaint ==> t.strokeColors == s.strokeColors && t.strokeWidth == s.strokeWidth) &&
            (paint != BackgroundPaint ==> t.backgroundStrokeColors == s.backgroundStrokeColors && t.backgroundStrokeWidth == s.backgroundStrokeWidth)
  {
    var s := n.style.value;
    ResizedColorsIdempotent(s.fillColors, colors);
    ResizedColorsIdempotent(s.strokeColors, colors);
    ResizedColorsIdempotent(s.backgroundStrokeColors, colors);
  }

  // ---------------------------------------------------------------------
  // Point alignment

  /** The first loop of `alignPoints` on one side: an empty path starts a
      new path at the centre, and a pending new path gets a line to its own
      last point. */
  function Prepared(points: Points, centre: Vectors.Vector3): (r: Points)
    ensures |r| >= 1
  {
    var started := if |points| == 0 then [centre] else points;
    if HasNewPathStarted(started) then LineTo(started, LastPoint(started)).value else started
  }

  /** Preparing a path of whole curves (or an empty one, or one with a
      pending new path) leaves at least one whole curve and nothing else. */
  lemma PreparedWhole(points: Points, centre: Vectors.Vector3)
    requires |points| % 4 == 0 || |points| % 4 == 1
    ensures |Prepared(points, centre)| % 4 == 0 && |Prepared(points, centre)| >= N_PPC
  {
  }

  /** Every list of the list holds at least one point. */
  predicate NonEmptyEach(subpaths: seq<Points>)
  {
    forall k :: 0 <= k < |subpaths| ==> |subpaths[k]| >= 1
  }

  lemma SubpathsNonEmpty(points: Points, cut: nat -> bool)
    ensures NonEmptyEach(SubpathsFromPoints(points, cut))
  {
    var subpaths := SubpathsFromPoints(points, cut);
    forall k | 0 <= k < |subpaths| ensures |subpaths[k]| >= 1 {
      assert subpaths[k] in subpaths;
    }
  }

  /** The helper `getNthSubpath`: past the end, four copies of the last point
      of the last subpath; with no subpath at all, that read throws. */
  function NthSubpath(subpaths: seq<Points>, n: nat): (r: Result<Points>)
    requires NonEmptyEach(subpaths)
    ensures r.Err? <==> |subpaths| == 0
    ensures n < |subpaths| ==> r == Ok(subpaths[n])
    ensures n >= |subpaths| > 0 ==> |r.value| == N_PPC && forall k :: 0 <= k < N_PPC ==> r.value[k] == LastPoint(subpaths[|subpaths| - 1])
  {
    if n < |subpaths| then Ok(subpaths[n])
    else if |subpaths| == 0 then Err("Cannot read properties of undefined (reading 'length')")
    else Ok(seq(N_PPC, _ => LastPoint(subpaths[|subpaths| - 1])))
  }

  /** `Math.max(0, Math.floor((theirs.length - mine.length) / 4))`. */
  function ExtraCurves(mine: Points, theirs: Points): nat
  {
    var d := (|theirs| - |mine|) / N_PPC;
    if d < 0 then 0 else d
  }

  /** Round n of the second loop: the subpaths n of both sides, the shorter
      one given the missing curves. */
  function AlignedRound(s1: seq<Points>, s2: seq<Points>, n: nat): (r: (Points, Points))
    requires NonEmptyEach(s1) && NonEmptyEach(s2) && |s1| > 0 && |s2| > 0
  {
    var sp1, sp2 := NthSubpath(s1, n).value, NthSubpath(s2, n).value;
    (InsertedPoints(ExtraCurves(sp1, sp2), sp1).value, InsertedPoints(ExtraCurves(sp2, sp1), sp2).value)
  }

  /** The new paths after the first k rounds. */
  function AlignedRounds(s1: seq<Points>, s2: seq<Points>, k: nat): (r: (Points, Points))
    requires NonEmptyEach(s1) && NonEmptyEach(s2) && (k == 0 || (|s1| > 0 && |s2| > 0))
  {
    if k == 0 then ([], [])
    else
      var prev, round := AlignedRounds(s1, s2, k - 1), AlignedRound(s1, s2, k - 1);
      (prev.0 + round.0, prev.1 + round.1)
  }

  /** `alignPoints(mob)`, given both centres (`getCenter` is not part of this
      model): equal point counts change nothing; otherwise both paths are
      prepared, split into subpaths and rebuilt subpath by subpath, the side
      with fewer curves in a subpath getting extra curves. */
  function AlignedPaths(p1: Points, c1: Vectors.Vector3, p2: Points, c2: Vectors.Vector3): (r: Result<(Points, Points)>)
    ensures |p1| == |p2| ==> r == Ok((p1, p2))
  {
    if |p1| == |p2| then Ok((p1, p2))
    else
      var q1, q2 := Prepared(p1, c1), Prepared(p2, c2);
      var s1, s2 := GetSubpathsFromPoints(q1, ATOL), GetSubpathsFromPoints(q2, ATOL);
      var count := if |s1| >= |s2| then |s1| else |s2|;
      SubpathsNonEmpty(q1, PointCut(q1, ATOL));
      SubpathsNonEmpty(q2, PointCut(q2, ATOL));
      if count > 0 && (|s1| == 0 || |s2| == 0) then Err("Cannot read properties of undefined (reading 'length')")
      else Ok(AlignedRounds(s1, s2, count))
  }

  /** Every path of the list holds whole curves, at least one. */
  predicate WholeCurvesEach(subpaths: seq<Points>)
  {
    forall k :: 0 <= k < |subpaths| ==> |subpaths[k]| % 4 == 0 && |subpaths[k]| >= N_PPC
  }

  /** One subpath of a whole-curve path holds whole curves. */
  lemma SubpathWhole(points: Points, cut: nat -> bool, p: Points)
    requires |points| % 4 == 0
    requires p in SubpathsFromPoints(points, cut)
    ensures |p| % 4 == 0 && |p| >= N_PPC
  {
    var split := SplitIndices(points, cut);
    forall k | 0 <= k < |split| ensures split[k] % 4 == 0 {
      assert split[k] in split;
    }
    PieceOfMultiples(points, split, p);
  }

  lemma {:induction false} PieceOfMultiples(points: Points, split: seq<nat>, p: Points)
    requires SplitWithin(split, |points|) && p in Pieces(points, split)
    requires forall k :: 0 <= k < |split| ==> split[k] % 4 == 0
    ensures |p| % 4 == 0
    decreases |split|
  {
    SplitTail(split, |points|);
    if p in Piece(points, split, 0) {
      var a, b := split[0], split[1];
      assert p == points[a..b];
      MultiplesDifference(a, b, |p|);
    } else {
      var rest := split[1..];
      assert forall k :: 0 <= k < |rest| ==> rest[k] == split[k + 1];
      PieceOfMultiples(points, rest, p);
    }
  }

  /** The distance d between two multiples of four is a multiple of four. */
  lemma MultiplesDifference(a: nat, b: nat, d: int)
    requires a % 4 == 0 && b % 4 == 0 && d == b - a
    ensures d % 4 == 0
  {
    assert a == 4 * (a / 4) && b == 4 * (b / 4);
    assert b - a == 4 * (b / 4 - a / 4);
  }

  /** Subpaths of whole curves hold whole curves. */
  lemma SubpathsWhole(points: Points, cut: nat -> bool)
    requires |points| % 4 == 0
    ensures WholeCurvesEach(SubpathsFromPoints(points, cut))
  {
    var subpaths := SubpathsFromPoints(points, cut);
    forall k | 0 <= k < |subpaths| ensures |subpaths[k]| % 4 == 0 && |subpaths[k]| >= N_PPC {
      SubpathWhole(points, cut, subpaths[k]);
    }
  }

  /** Round n takes a whole-curve subpath from each side. */
  lemma NthSubpathWhole(subpaths: seq<Points>, n: nat)
    requires NonEmptyEach(subpaths) && |subpaths| > 0 && WholeCurvesEach(subpaths)
    ensures |NthSubpath(subpaths, n).value| % 4 == 0 && |NthSubpath(subpaths, n).value| >= N_PPC
  {
  }

  /** Adding d curves to a whole-curve path adds 4 d points. */
  lemma InsertedWhole(d: nat, points: Points)
    requires |points| % 4 == 0 && |points| >= N_PPC
    ensures |InsertedPoints(d, points).value| == |points| + N_PPC * d
  {
    InsertedLength(d, points);
    assert NumCurves(points) * N_PPC == |points|;
  }

  /** Giving the shorter of two whole-curve paths the missing curves makes
      the two equally long. */
  lemma ExtraCurvesEqualize(a: Points, b: Points)
    requires |a| % 4 == 0 && |a| >= N_PPC && |b| % 4 == 0 && |b| >= N_PPC
    ensures |a| + N_PPC * ExtraCurves(a, b) == |b| + N_PPC * ExtraCurves(b, a)
  {
    var d := |b| - |a|;
    assert d % 4 == 0;
    assert N_PPC * (d / N_PPC) == d;
    assert N_PPC * (-d / N_PPC) == -d;
  }

  /** In one round on whole-curve subpaths both sides end equally long. */
  lemma AlignedRoundEqual(s1: seq<Points>, s2: seq<Points>, n: nat)
    requires NonEmptyEach(s1) && NonEmptyEach(s2) && |s1| > 0 && |s2| > 0
    requires WholeCurvesEach(s1) && WholeCurvesEach(s2)
    ensures |AlignedRound(s1, s2, n).0| == |AlignedRound(s1, s2, n).1|
  {
    var sp1, sp2 := NthSubpath(s1, n).value, NthSubpath(s2, n).value;
    NthSubpathWhole(s1, n);
    NthSubpathWhole(s2, n);
    InsertedWhole(ExtraCurves(sp1, sp2), sp1);
    InsertedWhole(ExtraCurves(sp2, sp1), sp2);
    ExtraCurvesEqualize(sp1, sp2);
  }

  /** Equal lengths after n rounds and in round n give equal lengths
      after n + 1 rounds. */
  lemma AlignedRoundsEqualStep(s1: seq<Points>, s2: seq<Points>, n: nat)
    requires NonEmptyEach(s1) && NonEmptyEach(s2) && |s1| > 0 && |s2| > 0
    requires |AlignedRounds(s1, s2, n).0| == |AlignedRounds(s1, s2, n).1|
    requires |AlignedRound(s1, s2, n).0| == |AlignedRound(s1, s2, n).1|
    ensures |AlignedRounds(s1, s2, n + 1).0| == |AlignedRounds(s1, s2, n + 1).1|
  {
  }

  /** After k rounds on whole-curve subpaths both sides are equally long. */
  lemma {:induction false} AlignedRoundsEqual(s1: seq<Points>, s2: seq<Points>, k: nat)
    requires NonEmptyEach(s1) && NonEmptyEach(s2) && |s1| > 0 && |s2| > 0
    requires WholeCurvesEach(s1) && WholeCurvesEach(s2)
    ensures |AlignedRounds(s1, s2, k).0| == |AlignedRounds(s1, s2, k).1|
  {
    if k > 0 {
      var n := k - 1;
      AlignedRoundsEqual(s1, s2, n);
      AlignedRoundEqual(s1, s2, n);
      AlignedRoundsEqualStep(s1, s2, n);
      assert n + 1 == k;
    }
  }

  /** For whole-curve inputs (or empty ones, or ones with a pending new path)
      alignment succeeds and leaves both sides with the same number of
      points. */
  lemma AlignedPathsEqualCounts(p1: Points, c1: Vectors.Vector3, p2: Points, c2: Vectors.Vector3)
    requires |p1| % 4 == 0 || |p1| % 4 == 1
    requires |p2| % 4 == 0 || |p2| % 4 == 1
    ensures AlignedPaths(p1, c1, p2, c2).Ok?
    ensures |AlignedPaths(p1, c1, p2, c2).value.0| == |AlignedPaths(p1, c1, p2, c2).value.1|
  {
    if |p1| != |p2| {
      var q1, q2 := Prepared(p1, c1), Prepared(p2, c2);
      PreparedWhole(p1, c1);
      PreparedWhole(p2, c2);
      var s1, s2 := GetSubpathsFromPoints(q1, ATOL), GetSubpathsFromPoints(q2, ATOL);
      FirstSubpath(q1, PointCut(q1, ATOL));
      FirstSubpath(q2, PointCut(q2, ATOL));
      SubpathsWhole(q1, PointCut(q1, ATOL));
      SubpathsWhole(q2, PointCut(q2, ATOL));
      var count := if |s1| >= |s2| then |s1| else |s2|;
      AlignedRoundsEqual(s1, s2, count);
    }
  }

  /** `insertNCurves(n)`: the curves get n more, and a pending new path's
      start point is put back at the end. */
  function InsertedCurves(n: int, points: Points): (r: Result<Points>)
    ensures r.Err? <==> |points| == 1 && n < 0
  {
    var inserted := InsertedPoints(n, points);
    if inserted.Err? then inserted
    else Ok(inserted.value + if HasNewPathStarted(points) then [LastPoint(points)] else [])
  }

  /** Adding curves keeps a pending new path pending, and keeps whole
      curves whole. */
  lemma InsertedCurvesKeepPending(n: nat, points: Points)
    requires |points| % 4 == 0 || |points| % 4 == 1
    ensures |InsertedCurves(n, points).value| % 4 == |points| % 4
  {
    var ins := InsertedPoints(n, points).value;
    var tail: Points := if HasNewPathStarted(points) then [LastPoint(points)] else [];
    assert InsertedCurves(n, points).value == ins + tail;
    var curves: int;
    if |points| == 1 {
      curves := n;
    } else if NumCurves(points) >= 1 {
      InsertedLength(n, points);
      curves := NumCurves(points) + n;
    } else {
      assert CubicBezierTuples(points) == [];
      curves := 0;
    }
    assert |ins| == 4 * curves;
    DivModUnique(|points|, 4, NumCurves(points), |tail|);
    DivModUnique(|ins + tail|, 4, curves, |tail|);
  }

  // ---------------------------------------------------------------------
  // In-place operations on a VMobject of the arena

  /** The arena with mobject id's points replaced and nothing else changed. */
  function WithPoints(nodes: seq<Mobjects.Node>, id: Mobjects.Id, points: Points): (r: seq<Mobjects.Node>)
    requires id < |nodes|
    ensures |r| == |nodes| && r[id].points == points
    ensures forall i :: 0 <= i < |nodes| && i != id ==> r[i] == nodes[i]
    ensures r[id].(points := nodes[id].points) == nodes[id]
  {
    nodes[id := nodes[id].(points := points)]
  }

  /** `setPoints(points)`. */
  method SetPoints(arena: Mobjects.Arena, id: Mobjects.Id, points: Points)
    requires arena.Valid() && id < |arena.nodes|
    modifies arena
    ensures arena.Valid() && arena.nodes == WithPoints(old(arena.nodes), id, points)
  {
    Mobjects.AllInMembers(arena.nodes, arena.nodes[id].submobjects);
    arena.SetNode(id, arena.nodes[id].(points := points));
  }

  /** `clearPoints()`. */
  method ClearPoints(arena: Mobjects.Arena, id: Mobjects.Id)
    requires arena.Valid() && id < |arena.nodes|
    modifies arena
    ensures arena.Valid() && arena.nodes == WithPoints(old(arena.nodes), id, [])
  {
    SetPoints(arena, id, []);
  }

  /** `appendPoints(pts)` (and `addSubpath`): the points are pushed at the end. */
  method AppendPoints(arena: Mobjects.Arena, id: Mobjects.Id, pts: Points)
    requires arena.Valid() && id < |arena.nodes|
    modifies arena
    ensures arena.Valid() && arena.nodes == WithPoints(old(arena.nodes), id, old(arena.nodes[id].points) + pts)
  {
    SetPoints(arena, id, arena.nodes[id].points + pts);
  }

  /** `startNewPath(pt)`: on a path of whole curves the new last point starts
      a new path. */
  method StartNewPath(arena: Mobjects.Arena, id: Mobjects.Id, pt: Vectors.Vector3)
    requires arena.Valid() && id < |arena.nodes|
    modifies arena
    ensures arena.Valid() && arena.nodes == WithPoints(old(arena.nodes), id, old(arena.nodes[id].points) + [pt])
    ensures |old(arena.nodes[id].points)| % 4 == 0 ==>
              HasNewPathStarted(arena.nodes[id].points) && LastPoint(arena.nodes[id].points) == pt
  {
    AppendPoints(arena, id, [pt]);
  }

  /** `addCubicBezierCurve(anchor1, handle1, handle2, anchor2)`: on a path of
      whole curves the four points become its last curve. */
  method AddCubicBezierCurve(arena: Mobjects.Arena, id: Mobjects.Id, anchor1: Vectors.Vector3, handle1: Vectors.Vector3, handle2: Vectors.Vector3, anchor2: Vectors.Vector3)
    requires arena.Valid() && id < |arena.nodes|
    modifies arena
    ensures arena.Valid()
    ensures arena.nodes == WithPoints(old(arena.nodes), id, old(arena.nodes[id].points) + [anchor1, handle1, handle2, anchor2])
    ensures |old(arena.nodes[id].points)| % 4 == 0 ==>
              var p := arena.nodes[id].points;
              NumCurves(p) == NumCurves(old(arena.nodes[id].points)) + 1 &&
              CubicBezierTuples(p)[NumCurves(p) - 1] == [anchor1, handle1, handle2, anchor2]
  {
    ghost var before := arena.nodes[id].points;
    AppendPoints(arena, id, [anchor1, handle1, handle2, anchor2]);
    ghost var p := arena.nodes[id].points;
    assert p[|p| - 4..] == [anchor1, handle1, handle2, anchor2];
  }

  /** `addCubicBezierCurveTo(handle1, handle2, anchor)`: fails on an empty
      path; a pending new path supplies the first anchor, otherwise the last
      point is repeated as the new curve's first anchor. */
  method AddCubicBezierCurveTo(arena: Mobjects.Arena, id: Mobjects.Id, handle1: Vectors.Vector3, handle2: Vectors.Vector3, anchor: Vectors.Vector3) returns (o: Outcome)
    requires arena.Valid() && id < |arena.nodes|
    modifies arena
    ensures arena.Valid()
    ensures var r := CurveTo(old(arena.nodes[id].points), handle1, handle2, anchor);
            (o.Fail? <==> r.Err?) &&
            (o.Fail? ==> arena.nodes == old(arena.nodes)) &&
            (o.Pass? ==> arena.nodes == WithPoints(old(arena.nodes), id, r.value))
  {
    var points := arena.nodes[id].points;
    if |points| == 0 {
      return Fail("Cannot add cubic bezier curve to an empty path");
    }
    if HasNewPathStarted(points) {
      AppendPoints(arena, id, [handle1, handle2, anchor]);
    } else {
      AppendPoints(arena, id, [LastPoint(points), handle1, handle2, anchor]);
    }
    o := Pass;
  }

  /** The corrected `addLineTo(pt)`. */
  method AddLineTo(arena: Mobjects.Arena, id: Mobjects.Id, pt: Vectors.Vector3) returns (o: Outcome)
    requires arena.Valid() && id < |arena.nodes|
    modifies arena
    ensures arena.Valid()
    ensures var r := LineTo(old(arena.nodes[id].points), pt);
            (o.Fail? <==> r.Err?) &&
            (o.Fail? ==> arena.nodes == old(arena.nodes)) &&
            (o.Pass? ==> arena.nodes == WithPoints(old(arena.nodes), id, r.value))
  {
    var points := arena.nodes[id].points;
    if |points| == 0 {
      return Fail("Cannot add cubic bezier curve to an empty path");
    }
    var last := LastPoint(points);
    o := AddCubicBezierCurveTo(arena, id, Vectors.Lerp(last, pt, Alpha(1, 3)), Vectors.Lerp(last, pt, Alpha(2, 3)), Vectors.Lerp(last, pt, Alpha(3, 3)));
  }

  /** `addPointsAsCorners(points)`: a line to each point in turn. */
  method AddPointsAsCorners(arena: Mobjects.Arena, id: Mobjects.Id, corners: Points) returns (o: Outcome)
    requires arena.Valid() && id < |arena.nodes|
    modifies arena
    ensures arena.Valid()
    ensures o.Fail? <==> |old(arena.nodes[id].points)| == 0 && |corners| > 0
    ensures o.Fail? ==> arena.nodes == old(arena.nodes)
    ensures o.Pass? ==> arena.nodes == WithPoints(old(arena.nodes), id, Corners(old(arena.nodes[id].points), corners))
  {
    ghost var start := arena.nodes;
    var k := 0;
    while k < |corners|
      invariant 0 <= k <= |corners| && arena.Valid() && id < |arena.nodes|
      invariant k > 0 ==> |start[id].points| > 0
      invariant arena.nodes == WithPoints(start, id, Corners(start[id].points, corners[..k]))
    {
      var points := arena.nodes[id].points;
      assert corners[..k + 1][..k] == corners[..k];
      o := AddLineTo(arena, id, corners[k]);
      if o.Fail? {
        assert k == 0;
        return;
      }
      k := k + 1;
    }
    assert corners[..k] == corners;
    o := Pass;
  }

  /** The path after lines to each corner in turn; an empty path keeps
      nothing to start from. */
  function Corners(points: Points, corners: Points): (r: Points)
    ensures |points| > 0 ==> points <= r && |r| >= |points|
    decreases |corners|
  {
    if |corners| == 0 then points
    else
      var before := Corners(points, corners[..|corners| - 1]);
      if |before| == 0 then before else LineTo(before, corners[|corners| - 1]).value
  }

  /** Lines to k corners add k whole curves, and the path ends at the last
      corner. */
  lemma {:induction false} CornersAddCurves(points: Points, corners: Points)
    requires |points| > 0 && (|points| % 4 == 0 || |points| % 4 == 1)
    ensures var r := Corners(points, corners);
            |corners| > 0 ==> |r| % 4 == 0 && NumCurves(r) == NumCurves(points) + |corners| &&
                              LastPoint(r) == corners[|corners| - 1]
    decreases |corners|
  {
    if |corners| > 0 {
      var init := corners[..|corners| - 1];
      var before := Corners(points, init);
      CornersAddCurves(points, init);
      LineToIsStraight(before, corners[|corners| - 1]);
      CurveToAddsCurve(before, Vectors.Lerp(LastPoint(before), corners[|corners| - 1], Alpha(1, 3)),
                       Vectors.Lerp(LastPoint(before), corners[|corners| - 1], Alpha(2, 3)),
                       Vectors.Lerp(LastPoint(before), corners[|corners| - 1], Alpha(3, 3)));
    }
  }

  /** `addQuadraticBezierCurveTo(handle, anchor)`. */
  method AddQuadraticBezierCurveTo(arena: Mobjects.Arena, id: Mobjects.Id, handle: Vectors.Vector3, anchor: Vectors.Vector3) returns (o: Outcome)
    requires arena.Valid() && id < |arena.nodes|
    modifies arena
    ensures arena.Valid()
    ensures var r := QuadraticCurveTo(old(arena.nodes[id].points), handle, anchor);
            (o.Fail? <==> r.Err?) &&
            (o.Fail? ==> arena.nodes == old(arena.nodes)) &&
            (o.Pass? ==> arena.nodes == WithPoints(old(arena.nodes), id, r.value))
  {
    var points := arena.nodes[id].points;
    if |points| == 0 {
      return Fail("Cannot read properties of undefined (reading 'scale')");
    }
    var last := LastPoint(points);
    o := AddCubicBezierCurveTo(arena, id,
                               Vectors.Plus(Vectors.Scale(handle, 2.0 / 3.0), Vectors.Scale(last, 1.0 / 3.0)),
                               Vectors.Plus(Vectors.Scale(handle, 2.0 / 3.0), Vectors.Scale(anchor, 1.0 / 3.0)),
                               anchor);
  }

  /** `closePath()`. */
  method ClosePathOf(arena: Mobjects.Arena, id: Mobjects.Id) returns (o: Outcome)
    requires arena.Valid() && id < |arena.nodes|
    modifies arena
    ensures arena.Valid()
    ensures var r := ClosePath(old(arena.nodes[id].points));
            (o.Fail? <==> r.Err?) &&
            (o.Fail? ==> arena.nodes == old(arena.nodes)) &&
            (o.Pass? ==> arena.nodes == WithPoints(old(arena.nodes), id, r.value))
  {
    var points := arena.nodes[id].points;
    if |points| == 0 {
      return Fail("Cannot read properties of undefined (reading 'x')");
    }
    if ConsiderPointsEquals(points[0], LastPoint(points), ATOL) {
      return Pass;
    }
    var subpaths := GetSubpathsFromPoints(points, ATOL);
    if |subpaths| == 0 {
      return Fail("Cannot read properties of undefined (reading '0')");
    }
    o := AddLineTo(arena, id, subpaths[0][0]);
  }

  /** `appendVectorizedMobject(mob)`: mob's points are read after the pending
      new path is dropped, so appending a mobject to itself appends the
      popped points. */
  method AppendVectorizedMobject(arena: Mobjects.Arena, id: Mobjects.Id, mob: Mobjects.Id)
    requires arena.Valid() && id < |arena.nodes| && mob < |arena.nodes|
    modifies arena
    ensures arena.Valid()
    ensures var mine := old(arena.nodes[id].points);
            var other := if mob == id then Popped(mine) else old(arena.nodes[mob].points);
            arena.nodes == WithPoints(old(arena.nodes), id, AppendedPath(mine, other))
  {
    var points := arena.nodes[id].points;
    if HasNewPathStarted(points) {
      SetPoints(arena, id, points[..|points| - 1]);
    }
    AppendPoints(arena, id, arena.nodes[mob].points);
  }

  /** `insertNCurves(n)`. */
  method InsertNCurves(arena: Mobjects.Arena, id: Mobjects.Id, n: int) returns (o: Outcome)
    requires arena.Valid() && id < |arena.nodes|
    modifies arena
    ensures arena.Valid()
    ensures var r := InsertedCurves(n, old(arena.nodes[id].points));
            (o.Fail? <==> r.Err?) &&
            (o.Fail? ==> arena.nodes == old(arena.nodes)) &&
            (o.Pass? ==> arena.nodes == WithPoints(old(arena.nodes), id, r.value))
  {
    var points := arena.nodes[id].points;
    var newPathPoint: Option<Vectors.Vector3> := None;
    if HasNewPathStarted(points) {
      newPathPoint := Some(LastPoint(points));
    }
    var newPoints := InsertNCurvesToPointList(n, points);
    if newPoints.Err? {
      return Fail(newPoints.msg);
    }
    ghost var start := old(arena.nodes);
    SetPoints(arena, id, newPoints.value);
    if newPathPoint.Some? {
      AppendPoints(arena, id, [newPathPoint.value]);
      assert arena.nodes == WithPoints(start, id, newPoints.value + [LastPoint(points)]);
    } else {
      assert newPoints.value + [] == newPoints.value;
    }
    o := Pass;
  }

  /** The curves lo .. hi - 1 pushed one by one, as the middle loop of
      `pointwiseBecomePartial` does. */
  method AppendCurves(arena: Mobjects.Arena, id: Mobjects.Id, quads: seq<Points>, lo: nat, hi: nat)
    requires arena.Valid() && id < |arena.nodes| && hi <= |quads|
    modifies arena
    ensures arena.Valid()
    ensures arena.nodes == WithPoints(old(arena.nodes), id, old(arena.nodes[id].points) + Interior(quads, lo, hi))
  {
    ghost var start := arena.nodes;
    ghost var head := arena.nodes[id].points;
    assert head + Interior(quads, lo, if lo <= hi then lo else hi) == head;
    var i := lo;
    while i < hi
      invariant lo <= i && (i <= hi || i == lo)
      invariant arena.Valid() && id < |arena.nodes|
      invariant arena.nodes == WithPoints(start, id, head + Interior(quads, lo, if i <= hi then i else hi))
    {
      InteriorStep(quads, lo, i);
      assert head + Interior(quads, lo, i + 1) == (head + Interior(quads, lo, i)) + quads[i];
      AppendPoints(arena, id, quads[i]);
      i := i + 1;
    }
  }

  lemma InteriorStep(quads: seq<Points>, lo: nat, i: nat)
    requires lo <= i < |quads|
    ensures Interior(quads, lo, i + 1) == Interior(quads, lo, i) + quads[i]
  {
    JoinedAppend(quads[lo..i], [quads[i]]);
    assert quads[lo..i + 1] == quads[lo..i] + [quads[i]];
    assert [quads[i]][..0] == [];
    if lo == i {
      assert quads[lo..i] == [];
    }
  }

  /** Outside the copying case, a part across curves is the lower curve's
      tail, the curves between and the upper curve's head. */
  lemma PartialPathPieces(points: Points, a: real, b: real, lower: nat, lr: real, upper: nat, ur: real)
    requires !(a <= 0.0 && b >= 1.0) && NumCurves(points) >= 1
    requires (lower as int, lr) == Interpolation.IntegerInterpolate(0, NumCurves(points), a)
    requires (upper as int, ur) == Interpolation.IntegerInterpolate(0, NumCurves(points), b)
    requires lower < NumCurves(points) && upper < NumCurves(points)
    ensures var quads := CubicBezierTuples(points);
            PartialPath(points, a, b) ==
              if lower == upper then Bezier.PartialBezierPoints(quads[lower], lr, ur)
              else Bezier.PartialBezierPoints(quads[lower], lr, 1.0) + Interior(quads, lower + 1, upper) +
                   Bezier.PartialBezierPoints(quads[upper], 0.0, ur)
  {
  }

  /** `pointwiseBecomePartial(mob, a, b)`: the curves of mob are read before
      this mobject's points are cleared, so mob may be the mobject itself. */
  method PointwiseBecomePartial(arena: Mobjects.Arena, id: Mobjects.Id, mob: Mobjects.Id, a: real, b: real)
    requires arena.Valid() && id < |arena.nodes| && mob < |arena.nodes|
    modifies arena
    ensures arena.Valid()
    ensures arena.nodes == WithPoints(old(arena.nodes), id, PartialPath(old(arena.nodes[mob].points), a, b))
  {
    ghost var start := arena.nodes;
    var source := arena.nodes[mob].points;
    if a <= 0.0 && b >= 1.0 {
      SetPoints(arena, id, source);
      return;
    }
    var quads := CubicBezierTuples(source);
    var numCubics := |quads|;
    var (lowerIndex, lowerResidue) := Interpolation.IntegerInterpolate(0, numCubics, a);
    var (upperIndex, upperResidue) := Interpolation.IntegerInterpolate(0, numCubics, b);
    ClearPoints(arena, id);
    if numCubics == 0 {
      return;
    }
    CurveIndexInRange(numCubics, a);
    CurveIndexInRange(numCubics, b);
    PartialPathPieces(source, a, b, lowerIndex, lowerResidue, upperIndex, upperResidue);
    ghost var part := PartialPath(source, a, b);
    assert arena.nodes[id].points == [];
    AppendPart(arena, id, quads, lowerIndex, lowerResidue, upperIndex, upperResidue);
    assert [] + part == part;
    WithPointsOverwrite(start, id, [], part);
  }

  /** The points of the part of the curves quads from curve lower at residue
      lr to curve upper at residue ur appended to mobject id. */
  method AppendPart(arena: Mobjects.Arena, id: Mobjects.Id, quads: seq<Points>, lower: nat, lr: real, upper: nat, ur: real)
    requires arena.Valid() && id < |arena.nodes| && lower < |quads| && upper < |quads|
    modifies arena
    ensures arena.Valid()
    ensures arena.nodes == WithPoints(old(arena.nodes), id, old(arena.nodes[id].points) +
              if lower == upper then Bezier.PartialBezierPoints(quads[lower], lr, ur)
              else Bezier.PartialBezierPoints(quads[lower], lr, 1.0) + Interior(quads, lower + 1, upper) +
                   Bezier.PartialBezierPoints(quads[upper], 0.0, ur))
  {
    ghost var start := arena.nodes;
    ghost var before := arena.nodes[id].points;
    if lower == upper {
      AppendPoints(arena, id, Bezier.PartialBezierPoints(quads[lower], lr, ur));
    } else {
      var head := Bezier.PartialBezierPoints(quads[lower], lr, 1.0);
      var tail := Bezier.PartialBezierPoints(quads[upper], 0.0, ur);
      AppendPoints(arena, id, head);
      AppendCurves(arena, id, quads, lower + 1, upper);
      AppendPoints(arena, id, tail);
      assert before + head + Interior(quads, lower + 1, upper) + tail ==
             before + (head + Interior(quads, lower + 1, upper) + tail);
      WithPointsOverwrite(start, id, before + head, before + head + Interior(quads, lower + 1, upper));
      WithPointsOverwrite(start, id, before + head + Interior(quads, lower + 1, upper),
                          before + head + Interior(quads, lower + 1, upper) + tail);
    }
  }

  /** Setting the points of a mobject twice keeps the second setting. */
  lemma WithPointsOverwrite(nodes: seq<Mobjects.Node>, id: Mobjects.Id, p: Points, q: Points)
    requires id < |nodes|
    ensures WithPoints(WithPoints(nodes, id, p), id, q) == WithPoints(nodes, id, q)
  {
  }

  /** `getSubcurve(a, b)`: a fresh copy of the mobject whose points are the
      part between proportions a and b; the existing mobjects are untouched. */
  method GetSubcurve(arena: Mobjects.Arena, id: Mobjects.Id, a: real, b: real) returns (r: Option<Mobjects.Id>)
    requires arena.Valid() && id < |arena.nodes|
    modifies arena
    ensures arena.Valid() && |arena.nodes| >= old(|arena.nodes|) && arena.nodes[..old(|arena.nodes|)] == old(arena.nodes)
    ensures r.Some? ==> old(|arena.nodes|) <= r.value < |arena.nodes|
    ensures r.Some? ==> arena.nodes[r.value].points == PartialPath(old(arena.nodes[id].points), a, b)
    ensures r.Some? ==> Mobjects.CopyOf(arena.nodes[r.value].(points := old(arena.nodes[id].points)), old(arena.nodes[id]))
  {
    r := arena.Copy(id);
    if r.Some? {
      ghost var copied := arena.nodes;
      PointwiseBecomePartial(arena, r.value, id, a, b);
      assert arena.nodes[..old(|arena.nodes|)] == copied[..old(|arena.nodes|)];
    }
  }

  /** One side of the first loop of `alignPoints`. */
  method PreparePath(arena: Mobjects.Arena, id: Mobjects.Id, centre: Vectors.Vector3)
    requires arena.Valid() && id < |arena.nodes|
    modifies arena
    ensures arena.Valid()
    ensures arena.nodes == WithPoints(old(arena.nodes), id, Prepared(old(arena.nodes[id].points), centre))
  {
    ghost var start := arena.nodes;
    if |arena.nodes[id].points| == 0 {
      StartNewPath(arena, id, centre);
      assert [] + [centre] == [centre];
    }
    var points := arena.nodes[id].points;
    assert arena.nodes == WithPoints(start, id, points);
    if HasNewPathStarted(points) {
      var o := AddLineTo(arena, id, LastPoint(points));
    }
  }

  /** `alignPoints(mob)` with the centres it would read (`getCenter` is not
      part of this model): afterwards both mobjects hold the aligned paths;
      when a subpath list is empty the first loop's changes stay and the
      second loop throws. Paths of whole curves come out equally long. */
  method AlignPoints(arena: Mobjects.Arena, id: Mobjects.Id, mob: Mobjects.Id, centre: Vectors.Vector3, mobCentre: Vectors.Vector3) returns (o: Outcome)
    requires arena.Valid() && id < |arena.nodes| && mob < |arena.nodes|
    modifies arena
    ensures arena.Valid()
    ensures var p1, p2 := old(arena.nodes[id].points), old(arena.nodes[mob].points);
            var aligned := AlignedPaths(p1, centre, p2, mobCentre);
            (o.Fail? <==> aligned.Err?) &&
            (o.Pass? ==> arena.nodes == WithPoints(WithPoints(old(arena.nodes), id, aligned.value.0), mob, aligned.value.1)) &&
            (o.Fail? ==> arena.nodes == WithPoints(WithPoints(old(arena.nodes), id, Prepared(p1, centre)), mob, Prepared(p2, mobCentre)))
    ensures var p1, p2 := old(arena.nodes[id].points), old(arena.nodes[mob].points);
            (|p1| % 4 == 0 || |p1| % 4 == 1) && (|p2| % 4 == 0 || |p2| % 4 == 1) ==>
              o.Pass? && |arena.nodes[id].points| == |arena.nodes[mob].points|
  {
    var p1, p2 := arena.nodes[id].points, arena.nodes[mob].points;
    if (|p1| % 4 == 0 || |p1| % 4 == 1) && (|p2| % 4 == 0 || |p2| % 4 == 1) {
      AlignedPathsEqualCounts(p1, centre, p2, mobCentre);
    }
    if |p1| == |p2| {
      assert WithPoints(WithPoints(arena.nodes, id, p1), mob, p2) == arena.nodes;
      return Pass;
    }
    o := AlignUnequal(arena, id, mob, centre, mobCentre);
  }

  /** `alignPoints(mob)` as written: past the early return for equal
      counts, the first loop calls `m.hasNoPoints()` and `m.getCenter()`,
      which no mobject class defines, so every alignment of unequal counts
      throws before anything changes (the method modifies nothing). */
  method AlignPointsAsWritten(arena: Mobjects.Arena, id: Mobjects.Id, mob: Mobjects.Id) returns (o: Outcome)
    requires arena.Valid() && id < |arena.nodes| && mob < |arena.nodes|
    ensures o.Pass? <==> |arena.nodes[id].points| == |arena.nodes[mob].points|
  {
    if |arena.nodes[id].points| == |arena.nodes[mob].points| {
      return Pass;
    }
    o := Fail(Mobjects.NOT_A_FUNCTION);
  }

  /** Both sides of the first loop of `alignPoints`, `this` first. */
  method PreparePaths(arena: Mobjects.Arena, id: Mobjects.Id, mob: Mobjects.Id, centre: Vectors.Vector3, mobCentre: Vectors.Vector3)
    requires arena.Valid() && id < |arena.nodes| && mob < |arena.nodes| && id != mob
    modifies arena
    ensures arena.Valid()
    ensures arena.nodes == WithPoints(WithPoints(old(arena.nodes), id, Prepared(old(arena.nodes[id].points), centre)),
                                      mob, Prepared(old(arena.nodes[mob].points), mobCentre))
  {
    PreparePath(arena, id, centre);
    PreparePath(arena, mob, mobCentre);
  }

  /** `alignPoints(mob)` past the early return: the point counts differ. */
  method AlignUnequal(arena: Mobjects.Arena, id: Mobjects.Id, mob: Mobjects.Id, centre: Vectors.Vector3, mobCentre: Vectors.Vector3) returns (o: Outcome)
    requires arena.Valid() && id < |arena.nodes| && mob < |arena.nodes|
    requires |arena.nodes[id].points| != |arena.nodes[mob].points|
    modifies arena
    ensures arena.Valid()
    ensures var p1, p2 := old(arena.nodes[id].points), old(arena.nodes[mob].points);
            var aligned := AlignedPaths(p1, centre, p2, mobCentre);
            (o.Fail? <==> aligned.Err?) &&
            (o.Pass? ==> arena.nodes == WithPoints(WithPoints(old(arena.nodes), id, aligned.value.0), mob, aligned.value.1)) &&
            (o.Fail? ==> arena.nodes == WithPoints(WithPoints(old(arena.nodes), id, Prepared(p1, centre)), mob, Prepared(p2, mobCentre)))
  {
    ghost var start := arena.nodes;
    ghost var p1, p2 := arena.nodes[id].points, arena.nodes[mob].points;
    ghost var aligned := AlignedPaths(p1, centre, p2, mobCentre);
    AlignedPathsUnequal(p1, centre, p2, mobCentre);
    PreparePaths(arena, id, mob, centre, mobCentre);
    var q1, q2 := arena.nodes[id].points, arena.nodes[mob].points;
    var subpaths1 := GetSubpathsFromPoints(q1, ATOL);
    var subpaths2 := GetSubpathsFromPoints(q2, ATOL);
    var numSubpaths := if |subpaths1| >= |subpaths2| then |subpaths1| else |subpaths2|;
    if numSubpaths > 0 && (|subpaths1| == 0 || |subpaths2| == 0) {
      return Fail("Cannot read properties of undefined (reading 'length')");
    }
    var newPath1, newPath2 := AlignSubpaths(subpaths1, subpaths2, numSubpaths);
    SetPoints(arena, id, newPath1);
    SetPoints(arena, mob, newPath2);
    WithPointsTwice(start, id, mob, q1, q2, newPath1, newPath2);
    o := Pass;
  }

  /** Outside the equal-count case, the alignment in terms of the prepared
      paths' subpaths. */
  lemma AlignedPathsUnequal(p1: Points, c1: Vectors.Vector3, p2: Points, c2: Vectors.Vector3)
    requires |p1| != |p2|
    ensures var q1, q2 := Prepared(p1, c1), Prepared(p2, c2);
            var s1, s2 := GetSubpathsFromPoints(q1, ATOL), GetSubpathsFromPoints(q2, ATOL);
            var count := if |s1| >= |s2| then |s1| else |s2|;
            NonEmptyEach(s1) && NonEmptyEach(s2) &&
            AlignedPaths(p1, c1, p2, c2) ==
              if count > 0 && (|s1| == 0 || |s2| == 0) then Err("Cannot read properties of undefined (reading 'length')")
              else Ok(AlignedRounds(s1, s2, count))
  {
    var q1, q2 := Prepared(p1, c1), Prepared(p2, c2);
    SubpathsNonEmpty(q1, PointCut(q1, ATOL));
    SubpathsNonEmpty(q2, PointCut(q2, ATOL));
  }

  /** The second loop of `alignPoints`: subpath n of each side, the shorter
      one given the missing curves, pushed onto the new paths. */
  method AlignSubpaths(subpaths1: seq<Points>, subpaths2: seq<Points>, numSubpaths: nat) returns (newPath1: Points, newPath2: Points)
    requires NonEmptyEach(subpaths1) && NonEmptyEach(subpaths2)
    requires numSubpaths == 0 || (|subpaths1| > 0 && |subpaths2| > 0)
    ensures (newPath1, newPath2) == AlignedRounds(subpaths1, subpaths2, numSubpaths)
  {
    newPath1, newPath2 := [], [];
    var n := 0;
    while n < numSubpaths
      invariant 0 <= n <= numSubpaths
      invariant (newPath1, newPath2) == AlignedRounds(subpaths1, subpaths2, n)
    {
      var m := n + 1;
      newPath1, newPath2 := AlignRound(subpaths1, subpaths2, n, m, newPath1, newPath2);
      n := m;
    }
    assert n == numSubpaths;
  }

  /** One round of that loop: subpath n of each side, the shorter one given
      the missing curves, pushed onto the new paths. */
  method AlignRound(subpaths1: seq<Points>, subpaths2: seq<Points>, n: nat, m: nat, newPath1: Points, newPath2: Points)
    returns (path1: Points, path2: Points)
    requires NonEmptyEach(subpaths1) && NonEmptyEach(subpaths2) && |subpaths1| > 0 && |subpaths2| > 0
    requires (newPath1, newPath2) == AlignedRounds(subpaths1, subpaths2, n) && m == n + 1
    ensures (path1, path2) == AlignedRounds(subpaths1, subpaths2, m)
  {
    var sp1 := NthSubpath(subpaths1, n).value;
    var sp2 := NthSubpath(subpaths2, n).value;
    var diff1 := ExtraCurves(sp1, sp2);
    var diff2 := ExtraCurves(sp2, sp1);
    var r1 := InsertNCurvesToPointList(diff1, sp1);
    var r2 := InsertNCurvesToPointList(diff2, sp2);
    AlignedRoundsStep(subpaths1, subpaths2, n, r1.value, r2.value);
    path1, path2 := newPath1 + r1.value, newPath2 + r2.value;
  }

  lemma AlignedRoundsStep(s1: seq<Points>, s2: seq<Points>, n: nat, x: Points, y: Points)
    requires NonEmptyEach(s1) && NonEmptyEach(s2) && |s1| > 0 && |s2| > 0
    requires (x, y) == AlignedRound(s1, s2, n)
    ensures AlignedRounds(s1, s2, n + 1) == (AlignedRounds(s1, s2, n).0 + x, AlignedRounds(s1, s2, n).1 + y)
  {
  }

  /** Setting the points of two mobjects twice keeps the second setting. */
  lemma WithPointsTwice(nodes: seq<Mobjects.Node>, id: Mobjects.Id, mob: Mobjects.Id, a: Points, b: Points, c: Points, d: Points)
    requires id < |nodes| && mob < |nodes| && id != mob
    ensures WithPoints(WithPoints(WithPoints(WithPoints(nodes, id, a), mob, b), id, c), mob, d) ==
            WithPoints(WithPoints(nodes, id, c), mob, d)
  {
  }

  // ---------------------------------------------------------------------
  // Styling a family

  /** The arena after painting each listed vectorized mobject once. */
  function PaintedNodes(nodes: seq<Mobjects.Node>, members: seq<Mobjects.Id>, paint: Paint, colors: seq<Colors.Color>, width: Option<real>): (r: seq<Mobjects.Node>)
    ensures |r| == |nodes|
    ensures forall i :: 0 <= i < |nodes| ==> r[i].(style := nodes[i].style) == nodes[i]
    ensures forall i :: 0 <= i < |nodes| && Mobjects.IsVectorized(nodes[i]) ==> Mobjects.IsVectorized(r[i])
  {
    seq(|nodes|, i requires 0 <= i < |nodes| =>
      if i in members && Mobjects.IsVectorized(nodes[i]) then Painted(nodes[i], paint, colors, width) else nodes[i])
  }

  /** Painting one more listed mobject: it is still unpainted, and it
      becomes painted while every other node keeps its state. */
  lemma PaintedNodesStep(nodes: seq<Mobjects.Node>, members: seq<Mobjects.Id>, k: nat, paint: Paint, colors: seq<Colors.Color>, width: Option<real>)
    requires Mobjects.AllIn(nodes, members) && ArrayUtil.NoDuplicates(members) && k < |members|
    requires Mobjects.IsVectorized(nodes[members[k]])
    ensures var m := members[k];
            var before := PaintedNodes(nodes, members[..k], paint, colors, width);
            before[m] == nodes[m] &&
            PaintedNodes(nodes, members[..k + 1], paint, colors, width) == before[m := Painted(nodes[m], paint, colors, width)]
  {
    var m := members[k];
    assert m !in members[..k];
    assert forall x :: x in members[..k + 1] <==> x in members[..k] || x == m;
  }

  /** `setFill`/`setStroke` with `family: false` on each listed mobject, in
      list order. */
  method PaintMembers(arena: Mobjects.Arena, members: seq<Mobjects.Id>, paint: Paint, colors: seq<Colors.Color>, width: Option<real>)
    requires arena.Valid() && Mobjects.AllIn(arena.nodes, members) && ArrayUtil.NoDuplicates(members)
    requires forall k :: 0 <= k < |members| ==> Mobjects.IsVectorized(arena.nodes[members[k]])
    modifies arena
    ensures arena.Valid() && arena.nodes == PaintedNodes(old(arena.nodes), members, paint, colors, width)
  {
    ghost var start := arena.nodes;
    var k := 0;
    while k < |members|
      invariant 0 <= k <= |members| && arena.Valid() && |arena.nodes| == |start|
      invariant arena.nodes == PaintedNodes(start, members[..k], paint, colors, width)
    {
      var m := members[k];
      PaintedNodesStep(start, members, k, paint, colors, width);
      var n := Painted(arena.nodes[m], paint, colors, width);
      assert n.submobjects == arena.nodes[m].submobjects;
      arena.SetNode(m, n);
      k := k + 1;
    }
    assert members[..k] == members;
  }

  /** The family loop of `setFill`/`setStroke` followed by the call's own
      update: with `family`, every vectorized family member is painted (the
      mobject itself a second time, which changes nothing); without, only
      the mobject. A cyclic family overflows the stack. */
  method PaintFamily(arena: Mobjects.Arena, id: Mobjects.Id, paint: Paint, colors: seq<Colors.Color>, width: Option<real>, family: bool) returns (o: Outcome)
    requires arena.Valid() && id < |arena.nodes| && Mobjects.IsVectorized(arena.nodes[id])
    modifies arena
    ensures arena.Valid()
    ensures o.Fail? <==> family && old(Mobjects.GetFamily(arena.nodes, id)).None?
    ensures o.Fail? ==> o.msg == Mobjects.STACK_OVERFLOW && arena.nodes == old(arena.nodes)
    ensures o.Pass? ==>
              var members := if family then old(Mobjects.VectorizedFamily(arena.nodes, id)).value else [id];
              arena.nodes == PaintedNodes(old(arena.nodes), members, paint, colors, width)
  {
    ghost var start := arena.nodes;
    ghost var members: seq<Mobjects.Id> := [id];
    if family {
      var fam := Mobjects.VectorizedFamily(arena.nodes, id);
      if fam.None? {
        return Fail(Mobjects.STACK_OVERFLOW);
      }
      members := fam.value;
      assert id in Mobjects.GetFamily(arena.nodes, id).value;
      forall k | 0 <= k < |fam.value| ensures Mobjects.IsVectorized(arena.nodes[fam.value[k]]) {
        assert fam.value[k] in fam.value;
      }
      PaintMembers(arena, fam.value, paint, colors, width);
      PaintedIdempotent(start[id], paint, colors, width);
    }
    var n := Painted(arena.nodes[id], paint, colors, width);
    arena.SetNode(id, n);
    assert arena.nodes == PaintedNodes(start, members, paint, colors, width);
    o := Pass;
  }

  /** `setFill({ color, colors, family })`. */
  method SetFill(arena: Mobjects.Arena, id: Mobjects.Id, color: Option<Colors.Color>, colors: seq<Colors.Color>, family: bool) returns (o: Outcome)
    requires arena.Valid() && id < |arena.nodes| && Mobjects.IsVectorized(arena.nodes[id])
    modifies arena
    ensures arena.Valid()
    ensures o.Fail? <==> family && old(Mobjects.GetFamily(arena.nodes, id)).None?
    ensures o.Fail? ==> o.msg == Mobjects.STACK_OVERFLOW && arena.nodes == old(arena.nodes)
    ensures o.Pass? ==>
              var members := if family then old(Mobjects.VectorizedFamily(arena.nodes, id)).value else [id];
              arena.nodes == PaintedNodes(old(arena.nodes), members, FillPaint, ColorList(color, colors), None)
  {
    o := PaintFamily(arena, id, FillPaint, ColorList(color, colors), None, family);
  }

  /** `setStroke({ color, colors, width, background, family })`, with the
      stroke branches corrected. */
  method SetStroke(arena: Mobjects.Arena, id: Mobjects.Id, color: Option<Colors.Color>, colors: seq<Colors.Color>, width: Option<real>, background: bool, family: bool) returns (o: Outcome)
    requires arena.Valid() && id < |arena.nodes| && Mobjects.IsVectorized(arena.nodes[id])
    modifies arena
    ensures arena.Valid()
    ensures o.Fail? <==> family && old(Mobjects.GetFamily(arena.nodes, id)).None?
    ensures o.Fail? ==> o.msg == Mobjects.STACK_OVERFLOW && arena.nodes == old(arena.nodes)
    ensures o.Pass? ==>
              var members := if family then old(Mobjects.VectorizedFamily(arena.nodes, id)).value else [id];
              var paint := if background then BackgroundPaint else StrokePaint;
              arena.nodes == PaintedNodes(old(arena.nodes), members, paint, ColorList(color, colors), width)
  {
    o := PaintFamily(arena, id, if background then BackgroundPaint else StrokePaint, ColorList(color, colors), width, family);
  }

  /** `setBackgroundStroke(...)`: `setStroke` with `background: true`. */
  method SetBackgroundStroke(arena: Mobjects.Arena, id: Mobjects.Id, color: Option<Colors.Color>, colors: seq<Colors.Color>, width: Option<real>, family: bool) returns (o: Outcome)
    requires arena.Valid() && id < |arena.nodes| && Mobjects.IsVectorized(arena.nodes[id])
    modifies arena
    ensures arena.Valid()
    ensures o.Fail? <==> family && old(Mobjects.GetFamily(arena.nodes, id)).None?
    ensures o.Fail? ==> o.msg == Mobjects.STACK_OVERFLOW && arena.nodes == old(arena.nodes)
    ensures o.Pass? ==>
              var members := if family then old(Mobjects.VectorizedFamily(arena.nodes, id)).value else [id];
              arena.nodes == PaintedNodes(old(arena.nodes), members, BackgroundPaint, ColorList(color, colors), width)
  {
    o := SetStroke(arena, id, color, colors, width, true, family);
  }

  /** The mobjects a style call paints: the vectorized family, or the
      mobject alone. */
  function PaintTargets(nodes: seq<Mobjects.Node>, id: Mobjects.Id, family: bool): seq<Mobjects.Id>
    requires Mobjects.Linked(nodes) && id < |nodes|
    requires family ==> Mobjects.GetFamily(nodes, id).Some?
  {
    if family then Mobjects.VectorizedFamily(nodes, id).value else [id]
  }

  /** The repaint `setColor(color, family)` does: `setFill` and then
      `setStroke`, each with the one colour. It moves no point and no link. */
  function ColorRepainted(nodes: seq<Mobjects.Node>, id: Mobjects.Id, color: Colors.Color, family: bool): (r: seq<Mobjects.Node>)
    requires Mobjects.Linked(nodes) && id < |nodes| && Mobjects.IsVectorized(nodes[id])
    requires family ==> Mobjects.GetFamily(nodes, id).Some?
    ensures Mobjects.SameLinks(nodes, r)
    ensures forall i :: 0 <= i < |nodes| ==> r[i].points == nodes[i].points
  {
    var n1 := PaintedNodes(nodes, PaintTargets(nodes, id, family), FillPaint, [color], None);
    Mobjects.FamilySameLinks(nodes, n1, id, |nodes|);
    PaintedNodes(n1, PaintTargets(n1, id, family), StrokePaint, [color], None)
  }

  /** `setColor(color, family)` as written: it repaints with `setFill` and
      `setStroke` (the corrected stroke update) and then calls
      `super.setColor`, which `Mobject` does not define, so every call
      throws once the repaint is done; a cyclic family overflows the stack
      in `setFill`, before anything changes. */
  method SetColorAsWritten(arena: Mobjects.Arena, id: Mobjects.Id, color: Colors.Color, family: bool) returns (o: Outcome)
    requires arena.Valid() && id < |arena.nodes| && Mobjects.IsVectorized(arena.nodes[id])
    modifies arena
    ensures arena.Valid() && o.Fail?
    ensures family && old(Mobjects.GetFamily(arena.nodes, id)).None? ==>
              o.msg == Mobjects.STACK_OVERFLOW && arena.nodes == old(arena.nodes)
    ensures !family || old(Mobjects.GetFamily(arena.nodes, id)).Some? ==>
              o.msg == Mobjects.NOT_A_FUNCTION && arena.nodes == ColorRepainted(old(arena.nodes), id, color, family)
  {
    ghost var start := arena.nodes;
    assert ColorList(None, [color]) == [color];
    o := SetFill(arena, id, None, [color], family);
    if o.Fail? {
      return;
    }
    ghost var n1 := arena.nodes;
    assert n1 == PaintedNodes(start, PaintTargets(start, id, family), FillPaint, [color], None);
    Mobjects.FamilySameLinks(start, n1, id, |start|);
    o := SetStroke(arena, id, None, [color], None, false, family);
    assert arena.nodes == PaintedNodes(n1, PaintTargets(n1, id, family), StrokePaint, [color], None);
    o := Fail(Mobjects.NOT_A_FUNCTION);
  }

  /** Painting changes only the vectorized members' chosen colour list and
      width: every other field, and every mobject off the list, is kept, and
      painting twice is painting once. */
  lemma PaintedNodesKeepsTheRest(nodes: seq<Mobjects.Node>, members: seq<Mobjects.Id>, paint: Paint, colors: seq<Colors.Color>, width: Option<real>)
    ensures var r := PaintedNodes(nodes, members, paint, colors, width);
            (forall i :: 0 <= i < |nodes| && i !in members ==> r[i] == nodes[i]) &&
            PaintedNodes(r, members, paint, colors, width) == r
  {
    var r := PaintedNodes(nodes, members, paint, colors, width);
    forall i | 0 <= i < |nodes| && i in members && Mobjects.IsVectorized(nodes[i])
      ensures Painted(r[i], paint, colors, width) == r[i]
    {
      PaintedIdempotent(nodes[i], paint, colors, width);
    }
  }
}
