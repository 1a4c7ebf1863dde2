/** The curve helpers of `src/util/bezier.ts`: the generic `interpolate`
    over the value types, Bernstein `bezier`, `partialBezierPoints`,
    `isClosed`, `interpolateColorList` and the early return of
    `getSmoothHandlePoints`. The numeric `interpolate` and
    `integerInterpolate` are in module Interpolation. */
module Bezier {
  import opened Wrappers
  import opened MathFunctions
  import Interpolation
  import Vectors
  import Colors
  import SpaceOps

  /** The values `interpolate` distinguishes at run time. */
  datatype Value =
    | Num(x: real)
    | Vec(v: Vectors.Vector3)
    | Col(c: Colors.Color)
    | Mat(m: SpaceOps.MArray)
    | VecList(vs: seq<Vectors.Vector3>)
    | Other

  /** Matrices reaching `interpolate` have shapes that describe their values. */
  predicate Readable(a: Value)
  {
    a.Mat? ==> SpaceOps.WellFormed(a.m)
  }

  /** The pairs `interpolate` can combine without throwing. */
  predicate Supported(a: Value, b: Value)
  {
    (a.Num? && b.Num?) || (a.Vec? && b.Vec?) || (a.Col? && b.Col?) ||
    (a.Mat? && b.Mat? && a.m.shape == b.m.shape) ||
    (a.VecList? && b.VecList? && |a.vs| == |b.vs|)
  }

  /** `interpolate(a, b, alpha)`: numbers by a (1 - alpha) + b alpha, vectors,
      colours and matrices by their `lerp`, equally long lists of vectors point
      by point; any other pair throws. */
  function InterpolateValue(a: Value, b: Value, alpha: real): (r: Result<Value>)
    requires Readable(a) && Readable(b)
    ensures r.Ok? <==> Supported(a, b)
    ensures r.Ok? && a.Num? ==> r.value == Num(Interpolation.Interpolate(a.x, b.x, alpha))
    ensures r.Ok? && a.VecList? ==> r.value.VecList? && |r.value.vs| == |a.vs|
  {
    if a.Num? && b.Num? then Ok(Num(Interpolation.Interpolate(a.x, b.x, alpha)))
    else if a.Vec? && b.Vec? then Ok(Vec(Vectors.Lerp(a.v, b.v, alpha)))
    else if a.Col? && b.Col? then Ok(Col(Colors.Lerp(a.c, b.c, alpha)))
    else if a.Mat? && b.Mat? then
      var m := SpaceOps.Lerp(a.m, b.m, alpha);
      if m.Err? then Err(m.msg) else Ok(Mat(m.value))
    else if a.VecList? && b.VecList? && |a.vs| == |b.vs| then
      Ok(VecList(seq(|a.vs|, i requires 0 <= i < |a.vs| => Vectors.Lerp(a.vs[i], b.vs[i], alpha))))
    else Err("Unsupported types for interpolation")
  }

  /** Every supported pair is reached at both ends: alpha = 0 gives a and alpha = 1 gives b. */
  lemma InterpolateValueEndpoints(a: Value, b: Value)
    requires Readable(a) && Readable(b) && Supported(a, b)
    ensures InterpolateValue(a, b, 0.0) == Ok(a)
    ensures InterpolateValue(a, b, 1.0) == Ok(b)
  {
    if a.Mat? {
      SpaceOps.LerpEndpoints(a.m, b.m);
    } else if a.VecList? {
      assert InterpolateValue(a, b, 0.0).value.vs == a.vs;
      assert InterpolateValue(a, b, 1.0).value.vs == b.vs;
    }
  }

  /** The Bernstein weight of point k among n + 1 at t:
      (1 - t)^(n - k) t^k C(n, k). */
  function Coefficient(n: nat, k: nat, t: real): real
    requires k <= n
  {
    RealPow(1.0 - t, n - k) * RealPow(t, k) * Choose(n, k) as real
  }

  /** The `reduce` over the first k points, starting from the origin. */
  function BezierPrefix(points: seq<Vectors.Vector3>, t: real, k: nat): Vectors.Vector3
    requires k <= |points|
  {
    if k == 0 then Vectors.ORIGIN
    else Vectors.Plus(BezierPrefix(points, t, k - 1), Vectors.Scale(points[k - 1], Coefficient(|points| - 1, k - 1, t)))
  }

  /** `bezier(points)(t)`: the Bernstein sum of the control points. */
  function BezierAt(points: seq<Vectors.Vector3>, t: real): Vectors.Vector3
  {
    BezierPrefix(points, t, |points|)
  }

  lemma ProductWithZero(a: real, b: real, c: real)
    requires a == 0.0 || b == 0.0
    ensures a * b * c == 0.0
  {
  }

  lemma ProductOfOnes(a: real, b: real, c: real)
    requires a == 1.0 && b == 1.0 && c == 1.0
    ensures a * b * c == 1.0
  {
  }

  /** At t = 0 the weights are 1 for the first point and 0 for the others;
      at t = 1 they are 1 for the last point and 0 for the others. */
  lemma CoefficientAtEnds(n: nat, k: nat)
    requires k <= n
    ensures Coefficient(n, k, 0.0) == if k == 0 then 1.0 else 0.0
    ensures Coefficient(n, k, 1.0) == if k == n then 1.0 else 0.0
  {
    RealPowOfOneAndZero(n - k);
    RealPowOfOneAndZero(k);
    ChooseZero(n);
    ChooseSelfAndOne(n);
    if k == 0 {
      ProductOfOnes(RealPow(1.0, n - k), RealPow(0.0, k), Choose(n, k) as real);
    } else {
      ProductWithZero(RealPow(1.0, n - k), RealPow(0.0, k), Choose(n, k) as real);
    }
    if k == n {
      ProductOfOnes(RealPow(0.0, n - k), RealPow(1.0, k), Choose(n, k) as real);
    } else {
      ProductWithZero(RealPow(0.0, n - k), RealPow(1.0, k), Choose(n, k) as real);
    }
  }

  /** At t = 0 only the first weight is non-zero, and it is 1. */
  lemma {:induction false} BezierPrefixAtZero(points: seq<Vectors.Vector3>, k: nat)
    requires 1 <= k <= |points|
    ensures BezierPrefix(points, 0.0, k) == points[0]
  {
    CoefficientAtEnds(|points| - 1, k - 1);
    if k > 1 {
      BezierPrefixAtZero(points, k - 1);
    }
  }

  /** At t = 1 the weights before the last are all 0. */
  lemma {:induction false} BezierPrefixAtOne(points: seq<Vectors.Vector3>, k: nat)
    requires k < |points|
    ensures BezierPrefix(points, 1.0, k) == Vectors.ORIGIN
  {
    if k > 0 {
      CoefficientAtEnds(|points| - 1, k - 1);
      BezierPrefixAtOne(points, k - 1);
    }
  }

  /** `bezier(P)(0)` is the first control point and `bezier(P)(1)` the last. */
  lemma BezierEndpoints(points: seq<Vectors.Vector3>)
    requires |points| >= 1
    ensures BezierAt(points, 0.0) == points[0]
    ensures BezierAt(points, 1.0) == points[|points| - 1]
  {
    BezierPrefixAtZero(points, |points|);
    BezierPrefixAtOne(points, |points| - 1);
    CoefficientAtEnds(|points| - 1, |points| - 1);
  }

  /** A single control point is a constant curve. */
  lemma BezierOfOnePoint(p: Vectors.Vector3, t: real)
    ensures BezierAt([p], t) == p
  {
    ChooseZero(0);
    ProductOfOnes(RealPow(1.0 - t, 0), RealPow(t, 0), Choose(0, 0) as real);
    assert Coefficient(0, 0, t) == 1.0;
    assert BezierAt([p], t) == BezierPrefix([p], t, 1);
    assert BezierPrefix([p], t, 1) == Vectors.Plus(Vectors.ORIGIN, Vectors.Scale(p, Coefficient(0, 0, t)));
  }

  /** `partialBezierPoints(points, a, b)`: the control points of the piece of
      the curve between a and b, as many as the input. With a = 1 every point
      is the last control point. */
  function PartialBezierPoints(points: seq<Vectors.Vector3>, a: real, b: real): (r: seq<Vectors.Vector3>)
    ensures |r| == |points|
    ensures a == 1.0 ==> forall i :: 0 <= i < |r| ==> r[i] == points[|points| - 1]
  {
    if a == 1.0 then seq(|points|, _ requires |points| > 0 => points[|points| - 1])
    else
      var aTo1 := seq(|points|, i requires 0 <= i < |points| => BezierAt(points[i..], a));
      var endProp := (b - a) / (1.0 - a);
      seq(|points|, n requires 0 <= n < |points| => BezierAt(aTo1[..n + 1], endProp))
  }

  /** The whole range (0, 1) gives back the control points. */
  lemma PartialBezierWhole(points: seq<Vectors.Vector3>)
    ensures PartialBezierPoints(points, 0.0, 1.0) == points
  {
    var r := PartialBezierPoints(points, 0.0, 1.0);
    var aTo1 := seq(|points|, i requires 0 <= i < |points| => BezierAt(points[i..], 0.0));
    forall n | 0 <= n < |points|
      ensures r[n] == points[n]
    {
      BezierEndpoints(aTo1[..n + 1]);
      BezierEndpoints(points[n..]);
    }
  }

  /** The first point of the piece is the curve's point at a. */
  lemma PartialBezierStartsAtA(points: seq<Vectors.Vector3>, a: real, b: real)
    requires |points| >= 1
    ensures PartialBezierPoints(points, a, b)[0] == BezierAt(points, a)
  {
    if a == 1.0 {
      BezierEndpoints(points);
    } else {
      var aTo1 := seq(|points|, i requires 0 <= i < |points| => BezierAt(points[i..], a));
      assert aTo1[..1] == [aTo1[0]];
      BezierOfOnePoint(aTo1[0], (b - a) / (1.0 - a));
      assert points[0..] == points;
    }
  }

  /** `getSmoothHandlePoints(points)` with fewer than two anchors returns one
      origin handle on each side. The banded solve for two or more anchors is
      not part of this model and is `None` here. */
  function GetSmoothHandlePoints(points: seq<Vectors.Vector3>): (r: Option<(seq<Vectors.Vector3>, seq<Vectors.Vector3>)>)
    ensures r.Some? <==> |points| < 2
    ensures r.Some? ==> r.value == ([Vectors.ORIGIN], [Vectors.ORIGIN])
  {
    if |points| - 1 < 1 then Some(([Vectors.ORIGIN], [Vectors.ORIGIN])) else None
  }

  /** The default tolerance of `isClosed`, 1e-6. */
  const DEFAULT_TOLERANCE: real := 0.000001

  /** `isClosed(points, tolerance)`: the squared distance from the first to
      the last point is at most tolerance^2. An empty list has no first point
      and throws. */
  function IsClosed(points: seq<Vectors.Vector3>, tolerance: real): (r: Result<bool>)
    ensures r.Err? <==> |points| == 0
  {
    if |points| == 0 then Err("Cannot read properties of undefined (reading 'subtract')")
    else Ok(Vectors.NormSquared(Vectors.Minus(points[0], points[|points| - 1])) <= Sq(tolerance))
  }

  /** The gap between two points is zero exactly when they coincide. */
  lemma GapIsOrigin(p: Vectors.Vector3, q: Vectors.Vector3)
    ensures Vectors.Minus(p, q) == Vectors.ORIGIN <==> p == q
  {
  }

  /** `isClosed` compares the squared gap between the ends with tolerance^2. */
  lemma ClosedByGap(points: seq<Vectors.Vector3>, tolerance: real)
    requires |points| >= 1
    ensures IsClosed(points, tolerance)
      == Ok(Vectors.NormSquared(Vectors.Minus(points[0], points[|points| - 1])) <= Sq(tolerance))
  {
  }

  /** A path that ends where it starts is closed for every tolerance. */
  lemma EndsWhereItStartsIsClosed(points: seq<Vectors.Vector3>, tolerance: real)
    requires |points| >= 1 && points[0] == points[|points| - 1]
    ensures IsClosed(points, tolerance) == Ok(true)
  {
    var d := Vectors.Minus(points[0], points[|points| - 1]);
    GapIsOrigin(points[0], points[|points| - 1]);
    assert d == Vectors.ORIGIN;
    ClosedByGap(points, tolerance);
    ZeroWithinTolerance(Vectors.NormSquared(d), tolerance);
  }

  /** A zero squared gap is within every tolerance. */
  lemma ZeroWithinTolerance(gap: real, tolerance: real)
    requires gap == 0.0
    ensures gap <= Sq(tolerance)
  {
    SqNonNegative(tolerance);
  }

  /** With tolerance 0 a path is closed exactly when it ends where it starts. */
  lemma ClosedWithoutTolerance(points: seq<Vectors.Vector3>)
    requires |points| >= 1
    ensures IsClosed(points, 0.0) == Ok(points[0] == points[|points| - 1])
  {
    var d := Vectors.Minus(points[0], points[|points| - 1]);
    GapIsOrigin(points[0], points[|points| - 1]);
    OnlyOriginWithinZero(d);
    assert IsClosed(points, 0.0) == Ok(Vectors.NormSquared(d) <= Sq(0.0));
  }

  /** Only the origin lies within tolerance 0 of the origin. */
  lemma OnlyOriginWithinZero(d: Vectors.Vector3)
    ensures Vectors.NormSquared(d) <= Sq(0.0) <==> d == Vectors.ORIGIN
  {
    Vectors.NormSquaredSign(d);
    assert Sq(0.0) == 0.0;
  }

  /** `color.toArray()`: the row r, g, b, a. */
  function ColorRow(c: Colors.Color): seq<real>
  {
    [c.r, c.g, c.b, c.a]
  }

  /** `interpolateColorList(a, b, alpha)` as written: after the length check it
      passes the rows positionally to the `MArray` constructor, which throws. */
  function InterpolateColorListAsWritten(a: seq<Colors.Color>, b: seq<Colors.Color>, alpha: real): (r: Result<seq<Colors.Color>>)
    ensures r.Err?
  {
    if |a| != |b| then Err("Color lists must have the same length")
    else
      var arrayA := SpaceOps.Construct(SpaceOps.ArrayArg(seq(|a|, i requires 0 <= i < |a| => ColorRow(a[i]))));
      Err(arrayA.msg)
  }

  /** As written, even two equal one-colour lists cannot be interpolated. */
  lemma InterpolateColorListAsWrittenThrows(c: Colors.Color)
    ensures InterpolateColorListAsWritten([c], [c], 0.5).Err?
  {
  }

  /** `interpolateColorList(a, b, alpha)` with the matrices built from an
      options object: the 4-column matrices of the two lists are interpolated
      and read back row by row as colours. */
  function InterpolateColorList(a: seq<Colors.Color>, b: seq<Colors.Color>, alpha: real): (r: Result<seq<Colors.Color>>)
    ensures r.Err? <==> |a| != |b|
    ensures r.Ok? ==> |r.value| == |a| && forall i :: 0 <= i < |a| ==> r.value[i] == Colors.Lerp(a[i], b[i], alpha)
  {
    if |a| != |b| then Err("Color lists must have the same length")
    else
      var arrayA := SpaceOps.MArray(seq(|a|, i requires 0 <= i < |a| => ColorRow(a[i])), (|a|, 4));
      var arrayB := SpaceOps.MArray(seq(|b|, i requires 0 <= i < |b| => ColorRow(b[i])), (|b|, 4));
      var m := SpaceOps.Lerp(arrayA, arrayB, alpha).value;
      Ok(seq(|a|, i requires 0 <= i < |a| => Colors.Color(m.values[i][0], m.values[i][1], m.values[i][2], m.values[i][3])))
  }

  /** The colour lists are reached at both ends. */
  lemma InterpolateColorListEndpoints(a: seq<Colors.Color>, b: seq<Colors.Color>)
    requires |a| == |b|
    ensures InterpolateColorList(a, b, 0.0) == Ok(a)
    ensures InterpolateColorList(a, b, 1.0) == Ok(b)
  {
    assert InterpolateColorList(a, b, 0.0).value == a;
    assert InterpolateColorList(a, b, 1.0).value == b;
  }
}
