/** The numeric branch of `interpolate` and `integerInterpolate` from
    `src/util/bezier.ts`. They live apart from the curve code because the
    colour and array modules depend on them while the curve code depends on
    those modules. */
module Interpolation {
  import MathFunctions

  /** `interpolate(a, b, alpha)` on two numbers: a (1 - alpha) + b alpha. */
  function Interpolate(a: real, b: real, alpha: real): (r: real)
    ensures alpha == 0.0 ==> r == a
    ensures alpha == 1.0 ==> r == b
  {
    a * (1.0 - alpha) + b * alpha
  }

  /** For alpha in [0, 1] the result lies between the endpoints. */
  lemma InterpolateBetween(a: real, b: real, alpha: real)
    requires 0.0 <= alpha <= 1.0 && a <= b
    ensures a <= Interpolate(a, b, alpha) <= b
  {
    assert Interpolate(a, b, alpha) - a == (b - a) * alpha;
    assert b - Interpolate(a, b, alpha) == (b - a) * (1.0 - alpha);
    MathFunctions.MulNonNegative(b - a, alpha);
    MathFunctions.MulNonNegative(b - a, 1.0 - alpha);
  }

  /** Interpolation is affine: a + (b - a) alpha. */
  lemma InterpolateAffine(a: real, b: real, alpha: real)
    ensures Interpolate(a, b, alpha) == a + (b - a) * alpha
  {
  }

  /** JavaScript truncation toward zero (`Math.trunc`). */
  function Trunc(x: real): (n: int)
    ensures x >= 0.0 ==> n as real <= x < n as real + 1.0
    ensures x < 0.0 ==> n as real - 1.0 < x <= n as real
  {
    if x >= 0.0 then x.Floor else -((-x).Floor)
  }

  /** JavaScript `x % 1`: the fractional part, carrying the sign of x. */
  function JsModOne(x: real): (r: real)
    ensures x >= 0.0 ==> 0.0 <= r < 1.0
    ensures x < 0.0 ==> -1.0 < r <= 0.0
  {
    x - Trunc(x) as real
  }

  /** `integerInterpolate(start, end, alpha)`: an index and the residue
      within that index's unit step. */
  function IntegerInterpolate(start: int, end: int, alpha: real): (r: (int, real))
    ensures alpha >= 1.0 ==> r == (end - 1, 1.0)
    ensures 0.0 < alpha < 1.0 && start < end ==>
              start <= r.0 <= end - 1 && 0.0 <= r.1 < 1.0 &&
              r.0 as real + r.1 == start as real + (end - start) as real * alpha
  {
    if alpha >= 1.0 then (end - 1, 1.0)
    else if alpha <= 0.0 then (start, 0.0)
    else
      var value := Interpolate(start as real, end as real, alpha).Floor;
      var residue := JsModOne((end - start) as real * alpha);
      IntegerInterpolateInside(start, end, alpha);
      (value, residue)
  }

  lemma IntegerInterpolateInside(start: int, end: int, alpha: real)
    requires 0.0 < alpha < 1.0
    ensures start < end ==> var v := (end - start) as real * alpha;
            var value := Interpolate(start as real, end as real, alpha).Floor;
            0.0 < v < (end - start) as real &&
            value == start + v.Floor &&
            start <= value <= end - 1 &&
            value as real + JsModOne(v) == start as real + v
  {
    if start < end {
      var v := (end - start) as real * alpha;
      assert 0.0 < v < (end - start) as real;
      InterpolateAffine(start as real, end as real, alpha);
      var x := start as real + v;
      assert x.Floor == start + v.Floor;
    }
  }

  /** Saturation below: a non-positive alpha gives the start index and no residue. */
  lemma IntegerInterpolateBelow(start: int, end: int, alpha: real)
    requires alpha <= 0.0
    ensures IntegerInterpolate(start, end, alpha) == (start, 0.0)
  {
  }
}
