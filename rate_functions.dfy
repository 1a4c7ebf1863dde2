/** Easing curves of `src/util/rate_functions.ts`: maps from animation
    progress in [0, 1] to eased progress. */
module RateFunctions {
  import MathFunctions

  type RateFunc = real -> real

  /** `linear`: progress is not eased at all. */
  function Linear(t: real): (r: real)
    ensures r == t
  {
    t
  }

  /** `smooth`: t^3 (10 s^2 + 5 s t + t^2) with s = 1 - t. */
  function Smooth(t: real): (r: real)
    ensures t == 0.0 ==> r == 0.0
    ensures t == 1.0 ==> r == 1.0
  {
    var s := 1.0 - t;
    t * t * t * (10.0 * s * s + 5.0 * s * t + t * t)
  }

  /** The same curve as the quintic 10t^3 - 15t^4 + 6t^5. */
  lemma SmoothIsQuintic(t: real)
    ensures Smooth(t) == 10.0 * t * t * t - 15.0 * t * t * t * t + 6.0 * t * t * t * t * t
  {
    var s := 1.0 - t;
    assert 10.0 * s * s + 5.0 * s * t + t * t == 10.0 - 15.0 * t + 6.0 * t * t;
  }

  lemma SmoothEndpoints()
    ensures Smooth(0.0) == 0.0 && Smooth(1.0) == 1.0 && Smooth(0.5) == 0.5
  {
  }

  /** Point symmetry about (1/2, 1/2). */
  lemma SmoothSymmetric(t: real)
    ensures Smooth(1.0 - t) == 1.0 - Smooth(t)
  {
    SmoothIsQuintic(t);
    SmoothIsQuintic(1.0 - t);
    var u := 1.0 - t;
    assert u * u == 1.0 - 2.0 * t + t * t;
    assert u * u * u == 1.0 - 3.0 * t + 3.0 * t * t - t * t * t;
    assert u * u * u * u == 1.0 - 4.0 * t + 6.0 * t * t - 4.0 * t * t * t + t * t * t * t;
    assert u * u * u * u * u == 1.0 - 5.0 * t + 10.0 * t * t - 10.0 * t * t * t + 5.0 * t * t * t * t - t * t * t * t * t;
  }

  /** On [0, 1] the eased progress stays in [0, 1]. */
  lemma SmoothInUnitInterval(t: real)
    requires 0.0 <= t <= 1.0
    ensures 0.0 <= Smooth(t) <= 1.0
  {
    SmoothNonNegative(t);
    SmoothNonNegative(1.0 - t);
    SmoothSymmetric(t);
  }

  lemma SmoothNonNegative(t: real)
    requires 0.0 <= t <= 1.0
    ensures 0.0 <= Smooth(t)
  {
    var s := 1.0 - t;
    MathFunctions.MulNonNegative(t, t);
    MathFunctions.MulNonNegative(t * t, t);
    assert 0.0 <= 10.0 * s * s + 5.0 * s * t + t * t;
    MathFunctions.MulNonNegative(t * t * t, 10.0 * s * s + 5.0 * s * t + t * t);
  }

  /** `doubleSmooth`: `smooth` run twice over the two halves of [0, 1]. */
  function DoubleSmooth(t: real): (r: real)
    ensures 0.0 <= t <= 0.5 ==> 0.0 <= r <= 0.5
    ensures 0.5 <= t <= 1.0 ==> 0.5 <= r <= 1.0
  {
    if t < 0.5 then
      (if 0.0 <= t then SmoothInUnitInterval(2.0 * t); Smooth(2.0 * t) / 2.0 else Smooth(2.0 * t) / 2.0)
    else
      (if t <= 1.0 then SmoothInUnitInterval(2.0 * t - 1.0); (Smooth(2.0 * t - 1.0) + 1.0) / 2.0
       else (Smooth(2.0 * t - 1.0) + 1.0) / 2.0)
  }

  lemma DoubleSmoothAnchors()
    ensures DoubleSmooth(0.0) == 0.0 && DoubleSmooth(0.5) == 0.5 && DoubleSmooth(1.0) == 1.0
  {
    SmoothEndpoints();
  }

  /** `invertRateFunc(f)`: the curve played backwards in time. */
  function InvertRateFunc(f: RateFunc): (g: RateFunc)
    ensures forall t :: g(t) == f(1.0 - t)
  {
    (t: real) => f(1.0 - t)
  }

  /** Inverting twice gives back the original curve. */
  lemma InvertRateFuncInvolution(f: RateFunc, t: real)
    ensures InvertRateFunc(InvertRateFunc(f))(t) == f(t)
  {
    assert 1.0 - (1.0 - t) == t;
  }

  /** `thereAndBack`: rises with `smooth` over the first half, falls back over the second. */
  function ThereAndBack(t: real): (r: real)
    ensures 0.0 <= t <= 1.0 ==> 0.0 <= r <= 1.0
  {
    if t < 0.5 then
      (if 0.0 <= t then SmoothInUnitInterval(2.0 * t); Smooth(2.0 * t) else Smooth(2.0 * t))
    else
      (if t <= 1.0 then SmoothInUnitInterval(2.0 * (1.0 - t)); Smooth(2.0 * (1.0 - t))
       else Smooth(2.0 * (1.0 - t)))
  }

  lemma ThereAndBackAnchors()
    ensures ThereAndBack(0.0) == 0.0 && ThereAndBack(0.5) == 1.0 && ThereAndBack(1.0) == 0.0
  {
    SmoothEndpoints();
  }

  /** The return trip mirrors the outward trip. */
  lemma ThereAndBackMirror(t: real)
    ensures ThereAndBack(1.0 - t) == ThereAndBack(t)
  {
  }
}
