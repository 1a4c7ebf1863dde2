/** The immutable `Vector3` value class of `src/util/vector.ts`. Every
    operation returns a new vector. */
module Vectors {
  import opened Wrappers
  import Interpolation
  import MathFunctions

  datatype Vector3 = Vector3(x: real, y: real, z: real)

  const ORIGIN: Vector3 := Vector3(0.0, 0.0, 0.0)

  /** The argument of the arithmetic methods: a number, a vector or `null`. */
  datatype Operand = Num(k: real) | Vec(v: Vector3) | Null

  /** `Vector3.fromValue(k)`: k on every axis. */
  function FromValue(k: real): Vector3
  {
    Vector3(k, k, k)
  }

  /** Coordinate i of v (0, 1, 2 for x, y, z). */
  function Coord(v: Vector3, i: int): real
    requires 0 <= i < 3
  {
    if i == 0 then v.x else if i == 1 then v.y else v.z
  }

  /** The vector a numeric or vector operand stands for: numbers are broadcast. */
  function Broadcast(o: Operand): Vector3
    requires !o.Null?
  {
    if o.Num? then FromValue(o.k) else o.v
  }

  /** `equals`: exact equality of the three coordinates. */
  function EqualsV(a: Vector3, b: Vector3): (r: bool)
    ensures r <==> a == b
  {
    a.x == b.x && a.y == b.y && a.z == b.z
  }

  /** `add`: a number or a vector, anything else throws. */
  function Add(a: Vector3, o: Operand): (r: Result<Vector3>)
    ensures r.Err? <==> o.Null?
    ensures r.Ok? ==> forall i :: 0 <= i < 3 ==> Coord(r.value, i) == Coord(a, i) + Coord(Broadcast(o), i)
  {
    match o
    case Num(k) => Ok(Vector3(a.x + k, a.y + k, a.z + k))
    case Vec(v) => Ok(Plus(a, v))
    case Null => Err("Vector3 only supports addition by number or Vector3")
  }

  /** `subtract`: a number or a vector; `null` negates. */
  function Subtract(a: Vector3, o: Operand): (r: Result<Vector3>)
    ensures r.Ok?
    ensures !o.Null? ==> forall i :: 0 <= i < 3 ==> Coord(r.value, i) == Coord(a, i) - Coord(Broadcast(o), i)
  {
    match o
    case Num(k) => Ok(Vector3(a.x - k, a.y - k, a.z - k))
    case Vec(v) => Ok(Minus(a, v))
    case Null => Ok(Negate(a))
  }

  /** `multiply`: componentwise product with a number or a vector. */
  function Multiply(a: Vector3, o: Operand): (r: Result<Vector3>)
    ensures r.Err? <==> o.Null?
    ensures r.Ok? ==> forall i :: 0 <= i < 3 ==> Coord(r.value, i) == Coord(a, i) * Coord(Broadcast(o), i)
  {
    match o
    case Num(k) => Ok(Scale(a, k))
    case Vec(v) => Ok(Vector3(a.x * v.x, a.y * v.y, a.z * v.z))
    case Null => Err("Vector3 only supports multiplication by number or Vector3")
  }

  /** A divisor with no zero coordinate (the source would produce infinities). */
  predicate NonZeroDivisor(o: Operand)
  {
    match o
    case Num(k) => k != 0.0
    case Vec(v) => v.x != 0.0 && v.y != 0.0 && v.z != 0.0
    case Null => true
  }

  /** `divide`: componentwise quotient by a number or a vector. */
  function Divide(a: Vector3, o: Operand): (r: Result<Vector3>)
    requires NonZeroDivisor(o)
    ensures r.Err? <==> o.Null?
    ensures r.Ok? ==> forall i :: 0 <= i < 3 ==> Coord(r.value, i) * Coord(Broadcast(o), i) == Coord(a, i)
  {
    match o
    case Num(k) => Ok(Vector3(a.x / k, a.y / k, a.z / k))
    case Vec(v) => Ok(Vector3(a.x / v.x, a.y / v.y, a.z / v.z))
    case Null => Err("Vector3 only supports division by number or Vector3")
  }

  /** The Vector3 branch of `add`. */
  function Plus(a: Vector3, b: Vector3): Vector3
  {
    Vector3(a.x + b.x, a.y + b.y, a.z + b.z)
  }

  /** The Vector3 branch of `subtract`. */
  function Minus(a: Vector3, b: Vector3): Vector3
  {
    Vector3(a.x - b.x, a.y - b.y, a.z - b.z)
  }

  /** `scale(k)`, the numeric branch of `multiply`. */
  function Scale(a: Vector3, k: real): Vector3
  {
    Vector3(a.x * k, a.y * k, a.z * k)
  }

  /** `negate()`: `scale(-1)`. */
  function Negate(a: Vector3): Vector3
  {
    Scale(a, -1.0)
  }

  /** `normSquared()`: x^2 + y^2 + z^2. */
  function NormSquared(a: Vector3): real
  {
    MathFunctions.Sq(a.x) + MathFunctions.Sq(a.y) + MathFunctions.Sq(a.z)
  }

  /** The squared norm is never negative, and it is zero exactly at the origin. */
  lemma NormSquaredSign(a: Vector3)
    ensures NormSquared(a) >= 0.0
    ensures NormSquared(a) == 0.0 <==> a == ORIGIN
  {
    MathFunctions.SqNonNegative(a.x);
    MathFunctions.SqNonNegative(a.y);
    MathFunctions.SqNonNegative(a.z);
    if a.x != 0.0 {
      MathFunctions.SqPositive(a.x);
    }
    if a.y != 0.0 {
      MathFunctions.SqPositive(a.y);
    }
    if a.z != 0.0 {
      MathFunctions.SqPositive(a.z);
    }
  }

  /** A numeric operand behaves exactly like the vector that repeats it. */
  lemma ScalarIsBroadcast(a: Vector3, k: real)
    ensures Add(a, Num(k)) == Add(a, Vec(FromValue(k)))
    ensures Subtract(a, Num(k)) == Subtract(a, Vec(FromValue(k)))
    ensures Multiply(a, Num(k)) == Multiply(a, Vec(FromValue(k)))
  {
    var w := FromValue(k);
    var m1, m2 := Multiply(a, Num(k)), Multiply(a, Vec(w));
    assert m1.value == Vector3(a.x * k, a.y * k, a.z * k);
    assert m2.value == Vector3(a.x * w.x, a.y * w.y, a.z * w.z);
    assert m1.value == m2.value;
  }

  lemma ScalarDivisorIsBroadcast(a: Vector3, k: real)
    requires k != 0.0
    ensures Divide(a, Num(k)) == Divide(a, Vec(FromValue(k)))
  {
  }

  /** `subtract(null)` is `negate()`, which is subtracting from the origin. */
  lemma SubtractNullIsNegate(a: Vector3)
    ensures Subtract(a, Null) == Ok(Negate(a))
    ensures Negate(a) == Minus(ORIGIN, a)
  {
  }

  /** Subtracting then adding the same operand returns the original vector. */
  lemma AddUndoesSubtract(a: Vector3, o: Operand)
    requires !o.Null?
    ensures Add(Subtract(a, o).value, o) == Ok(a)
  {
  }

  /** Dividing by a non-zero number undoes multiplying by it. */
  lemma DivideUndoesMultiply(a: Vector3, k: real)
    requires k != 0.0
    ensures Divide(Multiply(a, Num(k)).value, Num(k)) == Ok(a)
  {
    var m := Multiply(a, Num(k)).value;
    assert m == Vector3(a.x * k, a.y * k, a.z * k);
    assert (a.x * k) / k == a.x && (a.y * k) / k == a.y && (a.z * k) / k == a.z;
  }

  /** `getComponent(i)`: throws outside 0..2. */
  function GetComponent(v: Vector3, i: int): (r: Result<real>)
    ensures r.Ok? <==> 0 <= i < 3
    ensures r.Ok? ==> r.value == Coord(v, i)
  {
    if i == 0 then Ok(v.x)
    else if i == 1 then Ok(v.y)
    else if i == 2 then Ok(v.z)
    else Err("No component at index " + IntToString(i) + " on a Vector3")
  }

  /** The decimal form JavaScript gives an integer in a template string. */
  function IntToString(i: int): (s: string)
    ensures |s| >= 1 && (s[0] == '-' <==> i < 0)
  {
    if i < 0 then "-" + NatToString(-i) else NatToString(i)
  }

  function NatToString(n: nat): (s: string)
    ensures |s| >= 1 && forall k :: 0 <= k < |s| ==> '0' <= s[k] <= '9'
  {
    var digit := ['0', '1', '2', '3', '4', '5', '6', '7', '8', '9'][n % 10];
    if n < 10 then [digit] else NatToString(n / 10) + [digit]
  }

  /** `withComponent(index, value)`: throws outside 0..2. */
  function WithComponent(v: Vector3, index: int, value: real): (r: Result<Vector3>)
    ensures r.Ok? <==> 0 <= index < 3
  {
    if index == 0 then Ok(Vector3(value, v.y, v.z))
    else if index == 1 then Ok(Vector3(v.x, value, v.z))
    else if index == 2 then Ok(Vector3(v.x, v.y, value))
    else Err("Cannot index a Vector3 with index")
  }

  /** `withComponent` sets the chosen coordinate and no other. */
  lemma WithComponentChangesOnlyIndex(v: Vector3, index: int, value: real)
    requires 0 <= index < 3
    ensures GetComponent(WithComponent(v, index, value).value, index) == Ok(value)
    ensures forall j :: 0 <= j < 3 && j != index ==>
              GetComponent(WithComponent(v, index, value).value, j) == GetComponent(v, j)
  {
  }

  /** `lerp(other, t)`: this + (other - this) t. */
  function Lerp(a: Vector3, b: Vector3, t: real): (r: Vector3)
    ensures t == 0.0 ==> r == a
    ensures t == 1.0 ==> r == b
  {
    Vector3(a.x + (b.x - a.x) * t, a.y + (b.y - a.y) * t, a.z + (b.z - a.z) * t)
  }

  /** `lerp` is affine in t: each coordinate is the numeric `interpolate`. */
  lemma LerpIsAffine(a: Vector3, b: Vector3, t: real)
    ensures Lerp(a, b, t) == Plus(Scale(a, 1.0 - t), Scale(b, t))
    ensures forall i :: 0 <= i < 3 ==> Coord(Lerp(a, b, t), i) == Interpolation.Interpolate(Coord(a, i), Coord(b, i), t)
  {
  }

  /** `dot(other)`: a vector dotted with itself is never negative. */
  function Dot(a: Vector3, b: Vector3): (r: real)
    ensures a == b ==> r >= 0.0
  {
    a.x * b.x + a.y * b.y + a.z * b.z
  }

  /** `cross(other)`: orthogonal to both operands. */
  function Cross(a: Vector3, b: Vector3): (r: Vector3)
    ensures Dot(r, a) == 0.0 && Dot(r, b) == 0.0
  {
    Vector3(a.y * b.z - a.z * b.y, a.z * b.x - a.x * b.z, a.x * b.y - a.y * b.x)
  }

  /** The cross product is anti-commutative and orthogonal to both operands. */
  lemma CrossProperties(a: Vector3, b: Vector3)
    ensures Cross(b, a) == Negate(Cross(a, b))
    ensures Dot(Cross(a, b), a) == 0.0
    ensures Dot(Cross(a, b), b) == 0.0
    ensures Cross(a, a) == ORIGIN
  {
  }
}
