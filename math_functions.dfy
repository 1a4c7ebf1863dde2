/** Scalar helpers of `src/util/math_functions.ts`: clipping, binomial
    coefficients (with the module-level memo cache) and linear re-mapping. */
module MathFunctions {

  function Min(a: real, b: real): real { if a <= b then a else b }

  function Max(a: real, b: real): real { if a >= b then a else b }

  function Abs(x: real): real { if x < 0.0 then -x else x }

  /** `Math.min(upper, Math.max(val, lower))`. */
  function Clip(val: real, lower: real, upper: real): (r: real)
    ensures lower <= upper ==> lower <= r <= upper
    ensures lower <= val <= upper ==> r == val
    ensures lower <= upper && val < lower ==> r == lower
    ensures lower <= upper && upper < val ==> r == upper
    ensures upper < lower ==> r == upper
  {
    Min(upper, Max(val, lower))
  }

  /** Product of `range(1, r + 1)`, i.e. r! (1 for r <= 0). */
  function Factorial(r: int): (f: int)
    ensures f >= 1
  {
    if r <= 0 then 1 else r * Factorial(r - 1)
  }

  /** Product of `range(n, n - r, -1)`: n (n-1) ... (n-r+1), 1 for r <= 0. */
  function Falling(n: int, r: int): int
    decreases r
  {
    if r <= 0 then 1 else n * Falling(n - 1, r - 1)
  }

  /** Uncached `choose(n, r)`: 0 when n < r, 1 when r == 0, otherwise the
      floor of the falling factorial over r!. Dafny's `/` on a positive
      divisor is the floor, as `Math.floor(numer / denom)` is. */
  function Choose(n: int, r: int): (c: int)
    ensures c >= 0
    ensures c == 0 <==> n < r
  {
    if n < r then 0
    else if r == 0 then 1
    else if r < 0 then Falling(n, r) / Factorial(r)
    else
      FallingAtLeastFactorial(n, r);
      Falling(n, r) / Factorial(r)
  }

  /** n (n-1) ... (n-r+1) >= r! when r <= n: each factor is at least its
      counterpart in r!. */
  lemma {:induction false} FallingAtLeastFactorial(n: int, r: nat)
    requires r <= n
    ensures Falling(n, r) >= Factorial(r)
    decreases r
  {
    if r > 0 {
      FallingAtLeastFactorial(n - 1, r - 1);
      var f, g := Falling(n - 1, r - 1), Factorial(r - 1);
      assert n * f >= n * g by { MulLe2(g, f, n); }
      assert n * g >= r * g by { MulLe2(r, n, g); }
    }
  }

  lemma {:induction false} FallingSelf(n: nat)
    ensures Falling(n, n) == Factorial(n)
  {
    if n > 0 {
      FallingSelf(n - 1);
    }
  }

  lemma ChooseBelow(n: int, r: int)
    requires n < r
    ensures Choose(n, r) == 0
  {
  }

  lemma ChooseZero(n: nat)
    ensures Choose(n, 0) == 1
  {
  }

  /** `choose(n, n) == 1` and `choose(n, 1) == n`. */
  lemma ChooseSelfAndOne(n: nat)
    ensures Choose(n, n) == 1
    ensures n >= 1 ==> Choose(n, 1) == n
  {
    FallingSelf(n);
    if n > 0 {
      assert Falling(n, 1) == n * Falling(n - 1, 0) == n;
      assert Factorial(1) == 1 * Factorial(0) == 1;
    }
  }

  /** The module-level `chooseCache` dictionary: n -> r -> choose(n, r). */
  class ChooseCache {
    var cache: map<int, map<int, int>>

    /** Every cached entry holds the uncached value. */
    ghost predicate Valid()
      reads this
    {
      forall n, r :: n in cache && r in cache[n] ==> cache[n][r] == Choose(n, r)
    }

    constructor ()
      ensures Valid() && cache == map[]
    {
      cache := map[];
    }

    /** `chooseCached(n, r)`: fill the entry on a miss, never overwrite one. */
    method ChooseCached(n: int, r: int) returns (v: int)
      requires Valid()
      modifies this
      ensures Valid()
      ensures v == Choose(n, r)
      ensures n in cache && r in cache[n] && cache[n][r] == v
      ensures forall n', r' :: n' in old(cache) && r' in old(cache)[n'] ==>
                n' in cache && r' in cache[n'] && cache[n'][r'] == old(cache)[n'][r']
      ensures forall n' :: n' in cache ==> n' == n || n' in old(cache)
    {
      if n !in cache {
        cache := cache[n := map[]];
      }
      if r !in cache[n] {
        cache := cache[n := cache[n][r := Choose(n, r)]];
      }
      v := cache[n][r];
    }

    /** `choose(n, r, useCache)`: the cache is transparent. */
    method ChooseWith(n: int, r: int, useCache: bool) returns (v: int)
      requires Valid()
      modifies this
      ensures Valid()
      ensures v == Choose(n, r)
      ensures !useCache ==> cache == old(cache)
    {
      if useCache {
        v := ChooseCached(n, r);
      } else {
        v := Choose(n, r);
      }
    }
  }

  /** `mapValue`: the affine map sending [start1, stop1] onto [start2, stop2].
      The source divides by `stop1 - start1`; a zero width gives NaN there. */
  function MapValue(value: real, start1: real, stop1: real, start2: real, stop2: real): (r: real)
    requires start1 != stop1
    ensures value == start1 ==> r == start2
    ensures value == stop1 ==> r == stop2
  {
    var w := stop1 - start1;
    var t := (value - start1) / w;
    assert value == stop1 ==> t == w / w;
    assert w / w == 1.0;
    assert value == start1 ==> t == 0.0;
    t * (stop2 - start2) + start2
  }

  /** For 0 <= i < c <= t some e < t has floor(e c / t) == i: nearest-neighbour
      index maps never skip a source index when stretching up. */
  lemma ScaledIndexHit(i: int, c: int, t: int) returns (e: int)
    requires 0 <= i < c <= t
    ensures 0 <= e < t && (e * c) / t == i
  {
    var a := i * t + c - 1;
    e := a / c;
    DivMulLe(a, c);
    DivMulGt(a, c);
    assert i * t <= e * c < i * t + t;
    FloorDivBetween(e * c, t, i);
    MulLe2(i + 1, c, t);
    assert e * c < c * t;
    LtFromMul(e, t, c);
  }

  lemma LtFromMul(e: int, t: int, c: int)
    requires c > 0 && e * c < c * t
    ensures e < t
  {
    if e >= t {
      MulLe2(t, e, c);
    }
  }

  lemma DivMulLe(a: int, c: int)
    requires a >= 0 && c > 0
    ensures (a / c) * c <= a
  {
  }

  lemma DivMulGt(a: int, c: int)
    requires a >= 0 && c > 0
    ensures (a / c) * c > a - c
  {
  }


  lemma FloorDivBetween(x: int, t: int, i: int)
    requires t > 0 && i * t <= x < i * t + t
    ensures x / t == i
  {
    var q := x / t;
    assert q * t <= x < q * t + t;
    if q < i {
      assert (q + 1) * t <= i * t by { MulLe2(q + 1, i, t); }
    } else if q > i {
      assert (i + 1) * t <= q * t by { MulLe2(i + 1, q, t); }
    }
  }

  lemma MulLe2(a: int, b: int, t: int)
    requires a <= b && t > 0
    ensures a * t <= b * t
  {
  }

  /** Euclidean division is determined by quotient and remainder. */
  lemma DivModUnique(x: int, d: int, q: int, rem: int)
    requires d > 0 && 0 <= rem < d && x == q * d + rem
    ensures x / d == q && x % d == rem
  {
    FloorDivBetween(x, d, q);
  }

  lemma DivMonotone(x: int, y: int, d: int)
    requires x <= y && d > 0
    ensures x / d <= y / d
  {
    var qx, qy := x / d, y / d;
    assert qx * d <= x;
    assert y < qy * d + d;
    assert (qy + 1) * d == qy * d + d;
    if qx > qy {
      MulLe2(qy + 1, qx, d);
    }
  }

  lemma MulNonNegative(a: real, b: real)
    requires 0.0 <= a && 0.0 <= b
    ensures 0.0 <= a * b
  {
  }

  lemma MulPositive(a: real, b: real)
    requires 0.0 < a && 0.0 < b
    ensures 0.0 < a * b
  {
  }

  /** Dividing by a positive width keeps a value's place relative to 0 and
      to the width. */
  lemma RatioBounds(x: real, w: real)
    requires w > 0.0
    ensures x <= 0.0 ==> x / w <= 0.0
    ensures x >= w ==> x / w >= 1.0
    ensures 0.0 <= x ==> 0.0 <= x / w
    ensures x <= w ==> x / w <= 1.0
  {
    var q := x / w;
    assert q * w == x;
    if q > 0.0 {
      MulPositive(q, w);
    }
    if q < 0.0 {
      MulPositive(-q, w);
      assert (-q) * w == -x;
    }
    if q < 1.0 {
      MulPositive(1.0 - q, w);
      assert (1.0 - q) * w == w - x;
    }
    if q > 1.0 {
      MulPositive(q - 1.0, w);
      assert (q - 1.0) * w == x - w;
    }
  }

  /** x squared, kept behind a function so that facts about it stay usable. */
  function Sq(x: real): real
  {
    x * x
  }

  lemma SqPositive(x: real)
    requires x != 0.0
    ensures Sq(x) > 0.0
  {
    if x > 0.0 {
      calc { Sq(x); == x * x; > 0.0 * x; == 0.0; }
    } else {
      calc { Sq(x); == (-x) * (-x); > 0.0 * (-x); == 0.0; }
    }
  }

  lemma SqNonNegative(x: real)
    ensures Sq(x) >= 0.0
  {
    if x != 0.0 {
      SqPositive(x);
    }
  }

  /** `Math.pow(x, k)` for a whole exponent k >= 0, with 0^0 = 1. */
  function RealPow(x: real, k: nat): real
  {
    if k == 0 then 1.0 else RealPow(x, k - 1) * x
  }

  /** Powers of 1 are 1; positive powers of 0 are 0. */
  lemma {:induction false} RealPowOfOneAndZero(k: nat)
    ensures RealPow(1.0, k) == 1.0
    ensures k >= 1 ==> RealPow(0.0, k) == 0.0
  {
    if k > 0 {
      RealPowOfOneAndZero(k - 1);
    }
  }
}
