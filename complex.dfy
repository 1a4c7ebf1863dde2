/** The immutable `Complex` value class of `src/util/complex.ts`. */
module Complexes {
  import opened Wrappers
  import opened MathFunctions

  datatype Complex = Complex(re: real, im: real)

  /** The argument of `equals`: another complex number or a plain number. */
  datatype Comparand = C(c: Complex) | N(n: real)

  /** `Complex.fromDouble(real)`: imaginary part 0. */
  function FromDouble(x: real): Complex
  {
    Complex(x, 0.0)
  }

  /** `equals`: exact comparison of both parts; a number compares as a real complex number. */
  function Equals(z: Complex, other: Comparand): (r: bool)
    ensures other.C? ==> (r <==> z == other.c)
  {
    match other
    case C(c) => z.re == c.re && z.im == c.im
    case N(n) => z.re == n && z.im == 0.0
  }

  /** Comparing with a number is comparing with that number as a complex number. */
  lemma EqualsNumber(z: Complex, n: real)
    ensures Equals(z, N(n)) <==> Equals(z, C(FromDouble(n)))
    ensures Equals(z, N(n)) <==> (z.re == n && z.im == 0.0)
  {
  }

  /** `add(other)`: componentwise sum; only 0 leaves the other operand unchanged. */
  function Add(z: Complex, w: Complex): (r: Complex)
    ensures r == z <==> w == FromDouble(0.0)
  {
    Complex(z.re + w.re, z.im + w.im)
  }

  /** `subtract(other)`: `add(other.scale(-1))`. */
  function Subtract(z: Complex, w: Complex): (r: Complex)
    ensures Add(r, w) == z
  {
    Add(z, Scale(w, -1.0))
  }

  /** `multiply(other)`: the complex product; the squared norm is multiplicative. */
  function Multiply(z: Complex, w: Complex): (r: Complex)
    ensures NormSquared(r) == NormSquared(z) * NormSquared(w)
    ensures w == FromDouble(1.0) ==> r == z
  {
    Complex(z.re * w.re - z.im * w.im, z.re * w.im + z.im * w.re)
  }

  /** `scale(k)`: `multiply(Complex.fromDouble(k))`. */
  function Scale(z: Complex, k: real): (r: Complex)
    ensures r == Complex(k * z.re, k * z.im)
  {
    Multiply(z, FromDouble(k))
  }

  /** `conjugate()`: negated imaginary part; z times it is the real |z|^2. */
  function Conjugate(z: Complex): (r: Complex)
    ensures Multiply(z, r) == FromDouble(NormSquared(z))
    ensures NormSquared(r) == NormSquared(z)
  {
    Complex(z.re, -z.im)
  }

  /** `normSquared()`: re^2 + im^2. */
  function NormSquared(z: Complex): real
  {
    Sq(z.re) + Sq(z.im)
  }

  /** The squared norm is never negative, and it is zero exactly at 0. */
  lemma NormSquaredSign(z: Complex)
    ensures NormSquared(z) >= 0.0
    ensures NormSquared(z) == 0.0 <==> Equals(z, N(0.0))
  {
    SqNonNegative(z.re);
    SqNonNegative(z.im);
    if z.re != 0.0 {
      SqPositive(z.re);
    }
    if z.im != 0.0 {
      SqPositive(z.im);
    }
  }

  /** `divide(other)`: throws when the divisor equals 0. */
  function Divide(z: Complex, w: Complex): (r: Result<Complex>)
    ensures r.Err? <==> Equals(w, N(0.0))
  {
    if Equals(w, N(0.0)) then Err("Division by zero")
    else
      var a, b, c, d := z.re, z.im, w.re, w.im;
      NormSquaredSign(w);
      var n := NormSquared(w);
      Ok(Complex((a * c + b * d) / n, (b * c - a * d) / n))
  }

  /** The standard formulas: addition and multiplication commute. */
  lemma AddMultiplyCommute(z: Complex, w: Complex)
    ensures Add(z, w) == Add(w, z)
    ensures Multiply(z, w) == Multiply(w, z)
  {
  }

  /** Dividing then multiplying by the same non-zero divisor gives back the dividend. */
  lemma DivideThenMultiply(z: Complex, w: Complex)
    requires !Equals(w, N(0.0))
    ensures Multiply(Divide(z, w).value, w) == z
  {
    NormSquaredSign(w);
    var q := Divide(z, w).value;
    DivisionRecovers(z.re, z.im, w.re, w.im, q.re, q.im);
  }

  /** (a c + b d) c - (b c - a d) d = a (c^2 + d^2), and the matching identity for b. */
  lemma ConjugateIdentities(a: real, b: real, c: real, d: real)
    ensures (a * c + b * d) * c - (b * c - a * d) * d == a * (c * c + d * d)
    ensures (a * c + b * d) * d - (-(b * c - a * d)) * c == b * (c * c + d * d)
  {
  }

  /** With n = c^2 + d^2 non-zero, u = (a c + b d) / n and v = (b c - a d) / n
      satisfy u c - v d = a and u d + v c = b. */
  lemma DivisionRecovers(a: real, b: real, c: real, d: real, u: real, v: real)
    requires c * c + d * d != 0.0
    requires u == (a * c + b * d) / (c * c + d * d) && v == (b * c - a * d) / (c * c + d * d)
    ensures u * c - v * d == a && u * d + v * c == b
  {
    var n := c * c + d * d;
    ConjugateIdentities(a, b, c, d);
    assert u * n == a * c + b * d;
    assert v * n == b * c - a * d;
    assert (u * c - v * d) * n == (u * n) * c - (v * n) * d;
    assert (u * d + v * c) * n == (u * n) * d + (v * n) * c;
    CancelFactor(u * c - v * d, a, n);
    CancelFactor(u * d + v * c, b, n);
  }

  /** A non-zero factor cancels. */
  lemma CancelFactor(x: real, y: real, n: real)
    requires n != 0.0 && x * n == y * n
    ensures x == y
  {
    assert (x - y) * n == 0.0;
  }

  /** Conjugating twice is the identity. */
  lemma ConjugateInvolution(z: Complex)
    ensures Conjugate(Conjugate(z)) == z
    ensures Multiply(z, Conjugate(z)) == FromDouble(NormSquared(z))
  {
  }

  /** The norm is multiplicative. */
  lemma NormSquaredMultiplicative(z: Complex, w: Complex)
    ensures NormSquared(Multiply(z, w)) == NormSquared(z) * NormSquared(w)
  {
  }

  /** The reduce of `Array(k).fill(z)` with `multiply`, k >= 1. */
  function RepeatedProduct(z: Complex, k: nat): Complex
    requires k >= 1
  {
    if k == 1 then z else Multiply(RepeatedProduct(z, k - 1), z)
  }

  /** Integer `pow(k)`: the k-fold product for k >= 1. With k == 0 the reduce
      over an empty array has no initial value and throws; a negative k is an
      invalid array length and throws. */
  function Pow(z: Complex, k: int): (r: Result<Complex>)
    ensures r.Ok? <==> k >= 1
    ensures k == 1 ==> r == Ok(z)
  {
    if k < 0 then Err("Invalid array length")
    else if k == 0 then Err("Reduce of empty array with no initial value")
    else Ok(RepeatedProduct(z, k))
  }

  /** Each further power multiplies by z once more; the norm of z^k is |z|^(2k). */
  lemma {:induction false} PowSteps(z: Complex, k: int)
    requires k >= 1
    ensures Pow(z, k + 1) == Ok(Multiply(Pow(z, k).value, z))
    ensures NormSquared(Pow(z, k).value) == RealPow(NormSquared(z), k)
  {
    if k > 1 {
      PowSteps(z, k - 1);
      NormSquaredMultiplicative(RepeatedProduct(z, k - 1), z);
    }
  }
}
