/** The `MArray` matrix class of `src/util/space_ops.ts` and the free
    functions on it (quaternions, line intersection), together with
    `Vector3.matMul` of `src/util/vector.ts`, which multiplies through an
    `MArray`. Every operation returns a new matrix; only `matMul` and
    `reshape` build their result with loops, and those two are methods. */
module SpaceOps {
  import opened Wrappers
  import opened MathFunctions
  import Vectors
  import Interpolation

  /** `values` row by row and the `shape` (rows, columns) it was given. */
  datatype MArray = MArray(values: seq<seq<real>>, shape: (int, int))

  /** Every row has `cols` entries: the one check the constructor makes. */
  predicate RowsHave(values: seq<seq<real>>, cols: int)
  {
    forall i :: 0 <= i < |values| ==> |values[i]| == cols
  }

  /** The shape describes the values exactly: shape.0 rows of shape.1 entries. */
  predicate WellFormed(a: MArray)
  {
    a.shape.0 == |a.values| && a.shape.1 >= 0 && RowsHave(a.values, a.shape.1)
  }

  /** The shape the constructor derives when none is given. */
  function DefaultShape(values: seq<seq<real>>): (int, int)
  {
    (|values|, if |values| > 0 then |values[0]| else 0)
  }

  /** What reaches the constructor: the options object `{ values, shape? }`,
      or (as in `new MArray([[x], [y], [z]])`) a bare array of rows. */
  datatype ConstructorArg =
    | Options(values: seq<seq<real>>, shape: Option<(int, int)>)
    | ArrayArg(rows: seq<seq<real>>)

  /** `new MArray(...)`: throws unless every row has as many entries as the
      shape has columns; the row count is not checked. Destructuring a bare
      array reads its inherited `values` method, a function with no `every`,
      so that call always throws. */
  function Construct(arg: ConstructorArg): (r: Result<MArray>)
    ensures r.Ok? <==> (arg.Options? &&
      RowsHave(arg.values, if arg.shape.Some? then arg.shape.value.1 else DefaultShape(arg.values).1))
    ensures r.Ok? ==> r.value.values == arg.values
    ensures r.Ok? && arg.shape.Some? ==> r.value.shape == arg.shape.value
  {
    match arg
    case ArrayArg(_) => Err("values.every is not a function")
    case Options(values, shape) =>
      var s := if shape.Some? then shape.value else DefaultShape(values);
      if RowsHave(values, s.1) then Ok(MArray(values, s))
      else Err("Values do not match the specified shape")
  }

  /** `new MArray({ values })`. */
  function New(values: seq<seq<real>>): Result<MArray>
  {
    Construct(Options(values, None))
  }

  /** Without a shape, the constructor accepts exactly the rectangular lists, and
      what it builds is well formed. */
  lemma NewAcceptsRectangular(values: seq<seq<real>>)
    ensures New(values).Ok? <==> RowsHave(values, DefaultShape(values).1)
    ensures New(values).Ok? ==> WellFormed(New(values).value) && New(values).value.values == values
  {
  }

  /** `MArray.fromValue(val, (m, n))`: `Array(m)` throws for a negative
      length, and so does `Array(n)` once a row is built. With no rows the
      row callback never runs, so any column count is accepted: a 0 x n
      shape with negative n gives an empty matrix that is not well formed. */
  function FromValue(val: real, m: int, n: int): (r: Result<MArray>)
    ensures r.Ok? <==> m >= 0 && (m == 0 || n >= 0)
    ensures r.Ok? ==> r.value.shape == (m, n) && |r.value.values| == m && RowsHave(r.value.values, n)
    ensures r.Ok? ==> (WellFormed(r.value) <==> n >= 0)
    ensures r.Ok? ==> forall i, j :: 0 <= i < m && 0 <= j < n ==> r.value.values[i][j] == val
  {
    if m < 0 || (m > 0 && n < 0) then Err("Invalid array length")
    else if m == 0 then Ok(MArray([], (m, n)))
    else Ok(MArray(seq(m, _ => seq(n, _ => val)), (m, n)))
  }

  /** The right operand of the elementwise operations. */
  datatype Operand = Scalar(k: real) | Mat(m: MArray)

  /** A matrix operand must itself be well formed for its entries to be read. */
  predicate Readable(o: Operand)
  {
    o.Mat? ==> WellFormed(o.m)
  }

  /** The matrix an operand stands for: a number is broadcast to the receiver's shape. */
  function OperandArray(a: MArray, o: Operand): (b: MArray)
    requires WellFormed(a) && Readable(o)
    ensures WellFormed(b)
    ensures o.Scalar? ==> b.shape == a.shape
  {
    match o
    case Scalar(k) => FromValue(k, a.shape.0, a.shape.1).value
    case Mat(m) => m
  }

  /** Entry (i, j) of the operand, a number standing for itself everywhere. */
  function Entry(o: Operand, i: int, j: int): real
    requires Readable(o)
    requires o.Mat? ==> 0 <= i < o.m.shape.0 && 0 <= j < o.m.shape.1
  {
    match o
    case Scalar(k) => k
    case Mat(m) => m.values[i][j]
  }

  /** `map` pairing each entry of `a` with the entry of `b` at the same position. */
  function ZipWith(a: MArray, b: MArray, f: (real, real) -> real): (r: MArray)
    requires WellFormed(a) && WellFormed(b) && a.shape == b.shape
    ensures WellFormed(r) && r.shape == a.shape
    ensures forall i, j :: 0 <= i < a.shape.0 && 0 <= j < a.shape.1 ==>
              r.values[i][j] == f(a.values[i][j], b.values[i][j])
  {
    MArray(seq(|a.values|, i requires 0 <= i < |a.values| =>
             seq(|a.values[i]|, j requires 0 <= j < |a.values[i]| => f(a.values[i][j], b.values[i][j]))),
           a.shape)
  }

  /** The shared body of `add`, `subtract`, `multiply` and `divide`. */
  function Elementwise(a: MArray, o: Operand, f: (real, real) -> real, msg: string): (r: Result<MArray>)
    requires WellFormed(a) && Readable(o)
    ensures r.Err? <==> o.Mat? && o.m.shape != a.shape
    ensures r.Ok? ==> WellFormed(r.value) && r.value.shape == a.shape
    ensures r.Ok? ==> forall i, j :: 0 <= i < a.shape.0 && 0 <= j < a.shape.1 ==>
              r.value.values[i][j] == f(a.values[i][j], Entry(o, i, j))
  {
    var b := OperandArray(a, o);
    if b.shape != a.shape then Err(msg) else Ok(ZipWith(a, b, f))
  }

  function Add(a: MArray, o: Operand): (r: Result<MArray>)
    requires WellFormed(a) && Readable(o)
    ensures r.Err? <==> o.Mat? && o.m.shape != a.shape
    ensures r.Ok? ==> WellFormed(r.value) && r.value.shape == a.shape
    ensures r.Ok? ==> forall i, j :: 0 <= i < a.shape.0 && 0 <= j < a.shape.1 ==>
              r.value.values[i][j] == a.values[i][j] + Entry(o, i, j)
  {
    Elementwise(a, o, (x, y) => x + y, "Shapes must be equal for addition")
  }

  function Subtract(a: MArray, o: Operand): (r: Result<MArray>)
    requires WellFormed(a) && Readable(o)
    ensures r.Err? <==> o.Mat? && o.m.shape != a.shape
    ensures r.Ok? ==> WellFormed(r.value) && r.value.shape == a.shape
    ensures r.Ok? ==> forall i, j :: 0 <= i < a.shape.0 && 0 <= j < a.shape.1 ==>
              r.value.values[i][j] == a.values[i][j] - Entry(o, i, j)
  {
    Elementwise(a, o, (x, y) => x - y, "Shapes must be equal for subtraction")
  }

  function Multiply(a: MArray, o: Operand): (r: Result<MArray>)
    requires WellFormed(a) && Readable(o)
    ensures r.Err? <==> o.Mat? && o.m.shape != a.shape
    ensures r.Ok? ==> WellFormed(r.value) && r.value.shape == a.shape
    ensures r.Ok? ==> forall i, j :: 0 <= i < a.shape.0 && 0 <= j < a.shape.1 ==>
              r.value.values[i][j] == a.values[i][j] * Entry(o, i, j)
  {
    Elementwise(a, o, (x, y) => x * y, "Shapes must be equal for multiplication")
  }

  /** No entry of the divisor is zero (the source would produce infinities). */
  predicate NonZeroDivisor(o: Operand)
  {
    match o
    case Scalar(k) => k != 0.0
    case Mat(m) => forall i, j :: 0 <= i < |m.values| && 0 <= j < |m.values[i]| ==> m.values[i][j] != 0.0
  }

  function Divide(a: MArray, o: Operand): (r: Result<MArray>)
    requires WellFormed(a) && Readable(o) && NonZeroDivisor(o)
    ensures r.Err? <==> o.Mat? && o.m.shape != a.shape
    ensures r.Ok? ==> WellFormed(r.value) && r.value.shape == a.shape
    ensures r.Ok? ==> forall i, j :: 0 <= i < a.shape.0 && 0 <= j < a.shape.1 ==>
              r.value.values[i][j] * Entry(o, i, j) == a.values[i][j]
  {
    var b := OperandArray(a, o);
    if b.shape != a.shape then Err("Shapes must be equal for division")
    else
      assert forall i, j :: 0 <= i < |b.values| && 0 <= j < |b.values[i]| ==> b.values[i][j] != 0.0;
      Ok(ZipWith(a, b, (x, y) => if y == 0.0 then 0.0 else x / y))
  }

  /** A number operand acts as the constant matrix of the receiver's shape. */
  lemma ScalarIsBroadcast(a: MArray, k: real)
    requires WellFormed(a)
    ensures Add(a, Scalar(k)) == Add(a, Mat(FromValue(k, a.shape.0, a.shape.1).value))
    ensures Subtract(a, Scalar(k)) == Subtract(a, Mat(FromValue(k, a.shape.0, a.shape.1).value))
    ensures Multiply(a, Scalar(k)) == Multiply(a, Mat(FromValue(k, a.shape.0, a.shape.1).value))
  {
  }

  /** Two well-formed matrices with the same shape and entries are equal. */
  lemma Extensionality(a: MArray, b: MArray)
    requires WellFormed(a) && WellFormed(b) && a.shape == b.shape
    requires forall i, j :: 0 <= i < a.shape.0 && 0 <= j < a.shape.1 ==> a.values[i][j] == b.values[i][j]
    ensures a == b
  {
    assert |a.values| == |b.values|;
    forall i | 0 <= i < |a.values|
      ensures a.values[i] == b.values[i]
    {
    }
  }

  /** Adding back what was subtracted restores the receiver. */
  lemma AddUndoesSubtract(a: MArray, o: Operand)
    requires WellFormed(a) && Readable(o)
    requires o.Mat? ==> o.m.shape == a.shape
    ensures Add(Subtract(a, o).value, o) == Ok(a)
  {
    Extensionality(Add(Subtract(a, o).value, o).value, a);
  }

  /** Dividing by a non-zero operand undoes multiplying by it. */
  lemma DivideUndoesMultiply(a: MArray, o: Operand)
    requires WellFormed(a) && Readable(o) && NonZeroDivisor(o)
    requires o.Mat? ==> o.m.shape == a.shape
    ensures Divide(Multiply(a, o).value, o) == Ok(a)
  {
    var p := Multiply(a, o).value;
    var q := Divide(p, o).value;
    forall i, j | 0 <= i < a.shape.0 && 0 <= j < a.shape.1
      ensures q.values[i][j] == a.values[i][j]
    {
      var e := Entry(o, i, j);
      assert e != 0.0;
      assert q.values[i][j] * e == a.values[i][j] * e;
    }
    Extensionality(q, a);
  }

  /** `MArray.identity(size)`. */
  function Identity(size: nat): (r: MArray)
    ensures WellFormed(r) && r.shape == (size, size)
    ensures forall i, j :: 0 <= i < size && 0 <= j < size ==> r.values[i][j] == if i == j then 1.0 else 0.0
  {
    MArray(seq(size, i => seq(size, j => if i == j then 1.0 else 0.0)), (size, size))
  }

  /** The sum of the first k products a[i][t] * b[t][j], accumulated from 0 in
      the order `matMul` adds them. */
  function DotPrefix(a: MArray, b: MArray, i: int, j: int, k: nat): real
    requires WellFormed(a) && WellFormed(b) && a.shape.1 == b.shape.0
    requires 0 <= i < a.shape.0 && 0 <= j < b.shape.1 && k <= a.shape.1
  {
    if k == 0 then 0.0 else DotPrefix(a, b, i, j, k - 1) + a.values[i][k - 1] * b.values[k - 1][j]
  }

  /** The matrix product, entry by entry. */
  function Product(a: MArray, b: MArray): (r: MArray)
    requires WellFormed(a) && WellFormed(b) && a.shape.1 == b.shape.0
    ensures WellFormed(r) && r.shape == (a.shape.0, b.shape.1)
  {
    MArray(seq(a.shape.0, i requires 0 <= i < a.shape.0 =>
             seq(b.shape.1, j requires 0 <= j < b.shape.1 => DotPrefix(a, b, i, j, a.shape.1))),
           (a.shape.0, b.shape.1))
  }

  /** `matMul`: throws unless the inner dimensions agree; otherwise the m x p
      matrix whose entry (i, j) accumulates a[i][k] * b[k][j] for k in order. */
  method MatMul(a: MArray, b: MArray) returns (r: Result<MArray>)
    requires WellFormed(a) && WellFormed(b)
    ensures r.Err? <==> a.shape.1 != b.shape.0
    ensures r.Ok? ==> r.value == Product(a, b)
  {
    if a.shape.1 != b.shape.0 {
      return Err("Incompatible matrix dimensions for multiplication");
    }
    var m, n, p := a.shape.0, a.shape.1, b.shape.1;
    var mat: seq<seq<real>> := [];
    for i := 0 to m
      invariant |mat| == i
      invariant forall i' :: 0 <= i' < i ==> mat[i'] == Product(a, b).values[i']
    {
      var row: seq<real> := [];
      for j := 0 to p
        invariant |row| == j
        invariant forall j' :: 0 <= j' < j ==> row[j'] == DotPrefix(a, b, i, j', n)
      {
        var acc := 0.0;
        for k := 0 to n
          invariant acc == DotPrefix(a, b, i, j, k)
        {
          acc := acc + a.values[i][k] * b.values[k][j];
        }
        row := row + [acc];
      }
      mat := mat + [row];
    }
    r := Ok(MArray(mat, (m, p)));
  }

  lemma {:induction false} IdentityLeftPrefix(a: MArray, i: int, j: int, k: nat)
    requires WellFormed(a) && 0 <= i < a.shape.0 && 0 <= j < a.shape.1 && k <= a.shape.0
    ensures DotPrefix(Identity(a.shape.0), a, i, j, k) == if i < k then a.values[i][j] else 0.0
  {
    if k > 0 {
      IdentityLeftPrefix(a, i, j, k - 1);
    }
  }

  lemma {:induction false} IdentityRightPrefix(a: MArray, i: int, j: int, k: nat)
    requires WellFormed(a) && 0 <= i < a.shape.0 && 0 <= j < a.shape.1 && k <= a.shape.1
    ensures DotPrefix(a, Identity(a.shape.1), i, j, k) == if j < k then a.values[i][j] else 0.0
  {
    if k > 0 {
      IdentityRightPrefix(a, i, j, k - 1);
    }
  }

  /** The identity is neutral for the matrix product on both sides. */
  lemma IdentityNeutral(a: MArray)
    requires WellFormed(a)
    ensures Product(Identity(a.shape.0), a) == a
    ensures Product(a, Identity(a.shape.1)) == a
  {
    forall i, j | 0 <= i < a.shape.0 && 0 <= j < a.shape.1
      ensures Product(Identity(a.shape.0), a).values[i][j] == a.values[i][j]
      ensures Product(a, Identity(a.shape.1)).values[i][j] == a.values[i][j]
    {
      IdentityLeftPrefix(a, i, j, a.shape.0);
      IdentityRightPrefix(a, i, j, a.shape.1);
    }
    Extensionality(Product(Identity(a.shape.0), a), a);
    Extensionality(Product(a, Identity(a.shape.1)), a);
  }

  /** `transpose`: the columns of the first row's width become rows. With no
      rows, `values[0].map` reads a property of undefined and throws; the new
      shape is derived from the new values, so an m x 0 matrix becomes 0 x 0. */
  function Transpose(a: MArray): (r: Result<MArray>)
    requires WellFormed(a)
    ensures r.Err? <==> |a.values| == 0
    ensures r.Ok? ==> WellFormed(r.value) && r.value.shape == (a.shape.1, if a.shape.1 > 0 then a.shape.0 else 0)
    ensures r.Ok? ==> forall i, j :: 0 <= i < a.shape.0 && 0 <= j < a.shape.1 ==> r.value.values[j][i] == a.values[i][j]
  {
    if |a.values| == 0 then Err("Cannot read properties of undefined (reading 'map')")
    else
      var cols := seq(|a.values[0]|, c requires 0 <= c < |a.values[0]| =>
                    seq(|a.values|, i requires 0 <= i < |a.values| => a.values[i][c]));
      Ok(MArray(cols, DefaultShape(cols)))
  }

  /** Transposing twice gives back any matrix with at least one row and one column. */
  lemma TransposeInvolution(a: MArray)
    requires WellFormed(a) && a.shape.0 >= 1 && a.shape.1 >= 1
    ensures Transpose(a).Ok? && Transpose(Transpose(a).value).Ok?
    ensures Transpose(Transpose(a).value).value == a
  {
    var t := Transpose(a).value;
    var tt := Transpose(t).value;
    Extensionality(tt, a);
  }

  /** `flat()`: the rows concatenated in order. */
  function Flat(values: seq<seq<real>>): (r: seq<real>)
    ensures RowsHave(values, 0) ==> |r| == 0
  {
    if |values| == 0 then [] else values[0] + Flat(values[1..])
  }

  /** Index j m + i of a list of m n entries is in range when i < m and j < n. */
  lemma CellIndexInRange(i: int, j: int, m: int, n: int)
    requires 0 <= i < m && 0 <= j < n
    ensures 0 <= j * m + i < m * n
  {
    MulLe2(j + 1, n, m);
    MulNonNegativeInt(j, m);
  }

  lemma MulNonNegativeInt(a: int, b: int)
    requires a >= 0 && b >= 0
    ensures a * b >= 0
  {
  }

  /** A positive row count times the column count gives a count of entries
      only when the column count is not negative. */
  lemma CountedColumns(count: nat, m: int, n: int)
    requires m > 0 && count == m * n
    ensures n >= 0
  {
    if n < 0 {
      MulNegative(m, n);
    }
  }

  lemma MulNegative(m: int, n: int)
    requires m > 0 && n < 0
    ensures m * n < 0
  {
  }

  /** The m x n matrix filled column by column from `flat`. */
  function ColumnMajor(flat: seq<real>, m: int, n: int): (r: seq<seq<real>>)
    requires m >= 0 && n >= 0 && |flat| == m * n
    ensures |r| == m && RowsHave(r, n)
  {
    seq(m, i requires 0 <= i < m =>
      seq(n, j requires 0 <= j < n => CellIndexInRange(i, j, m, n); flat[j * m + i]))
  }

  /** Column-major filling puts entry k at row k mod m, column k div m. */
  lemma ColumnMajorPlaces(flat: seq<real>, m: int, n: int, k: int)
    requires m >= 0 && n >= 0 && |flat| == m * n && 0 <= k < |flat|
    ensures m > 0 && 0 <= k / m < n
    ensures ColumnMajor(flat, m, n)[k % m][k / m] == flat[k]
  {
    var q, rem := k / m, k % m;
    DivModUnique(k, m, q, rem);
    if q >= n {
      MulLe2(n, q, m);
    }
    CellIndexInRange(rem, q, m, n);
    DivModUnique(q * m + rem, m, q, rem);
  }

  /** Entries 0 .. k-1 of `flat` sit at their column-major places in `vals`. */
  predicate PlacedUpTo(vals: seq<seq<real>>, flat: seq<real>, m: int, k: int)
  {
    forall k' :: 0 <= k' < k ==>
      m > 0 && k' < |flat| && k' % m < |vals| && 0 <= k' / m < |vals[k' % m]| && vals[k' % m][k' / m] == flat[k']
  }

  /** Two different indices have different column-major places. */
  lemma PlacesDistinct(k1: int, k2: int, m: int)
    requires m > 0 && 0 <= k1 < k2
    ensures k1 % m != k2 % m || k1 / m != k2 / m
  {
    DivModUnique(k1, m, k1 / m, k1 % m);
    DivModUnique(k2, m, k2 / m, k2 % m);
  }

  /** Writing entry k at its place keeps the earlier entries where they are. */
  lemma PlaceNext(vals: seq<seq<real>>, flat: seq<real>, m: int, n: int, k: int)
    requires m >= 0 && n >= 0 && |flat| == m * n && 0 <= k < |flat|
    requires |vals| == m && RowsHave(vals, n) && PlacedUpTo(vals, flat, m, k)
    ensures m > 0 && 0 <= k / m < n
    ensures var v := vals[k % m := vals[k % m][k / m := flat[k]]];
            |v| == m && RowsHave(v, n) && PlacedUpTo(v, flat, m, k + 1)
  {
    ColumnMajorPlaces(flat, m, n, k);
    var v := vals[k % m := vals[k % m][k / m := flat[k]]];
    forall k' | 0 <= k' < k + 1
      ensures m > 0 && k' < |flat| && k' % m < |v| && 0 <= k' / m < |v[k' % m]| && v[k' % m][k' / m] == flat[k']
    {
      if k' < k {
        PlacesDistinct(k', k, m);
      }
    }
  }

  /** Once every entry is placed, the matrix is the column-major filling. */
  lemma PlacedIsColumnMajor(vals: seq<seq<real>>, flat: seq<real>, m: int, n: int)
    requires m >= 0 && n >= 0 && |flat| == m * n
    requires |vals| == m && RowsHave(vals, n) && PlacedUpTo(vals, flat, m, |flat|)
    ensures vals == ColumnMajor(flat, m, n)
  {
    var c := ColumnMajor(flat, m, n);
    forall i | 0 <= i < m
      ensures vals[i] == c[i]
    {
      forall j | 0 <= j < n
        ensures vals[i][j] == c[i][j]
      {
        CellIndexInRange(i, j, m, n);
        var k := j * m + i;
        DivModUnique(k, m, j, i);
      }
    }
  }

  /** `reshape(m, n)`: throws unless the entry count is m n, and when `Array`
      rejects a negative row count; otherwise entry k of `flat()` is written
      to row k mod m, column floor(k / m) of an m x n matrix of zeros. A 0 x n
      shape with negative n passes both checks and gives an empty matrix. */
  method Reshape(a: MArray, m: int, n: int) returns (r: Result<MArray>)
    ensures r.Err? <==> |Flat(a.values)| != m * n || m < 0
    ensures r.Ok? ==> r.value.shape == (m, n) && (WellFormed(r.value) <==> n >= 0)
    ensures r.Ok? && n >= 0 ==> r.value.values == ColumnMajor(Flat(a.values), m, n)
    ensures r.Ok? && n < 0 ==> m == 0 && r.value.values == []
  {
    var flat := Flat(a.values);
    if |flat| != m * n {
      return Err("Cannot reshape array to specified dimensions");
    }
    if m < 0 {
      return Err("Invalid array length");
    }
    if m == 0 {
      return FromValue(0.0, m, n);
    }
    CountedColumns(|flat|, m, n);
    var vals := FromValue(0.0, m, n).value.values;
    for k := 0 to |flat|
      invariant |vals| == m && RowsHave(vals, n)
      invariant PlacedUpTo(vals, flat, m, k)
    {
      PlaceNext(vals, flat, m, n, k);
      var i, j := k % m, k / m;
      vals := vals[i := vals[i][j := flat[k]]];
    }
    PlacedIsColumnMajor(vals, flat, m, n);
    r := Ok(MArray(vals, (m, n)));
  }

  /** n rows of n entries each. */
  predicate Square(values: seq<seq<real>>, n: int)
  {
    |values| == n && RowsHave(values, n)
  }

  /** `row.filter((_, index) => index !== j)`. */
  function DropAt(row: seq<real>, j: int): (r: seq<real>)
    requires 0 <= j < |row|
    ensures |r| == |row| - 1
    ensures forall c :: 0 <= c < |r| ==> r[c] == if c < j then row[c] else row[c + 1]
  {
    row[..j] + row[j + 1..]
  }

  /** `_subMatrix(i, j)`: the values without row i and without column j. */
  function SubMatrix(values: seq<seq<real>>, n: int, i: int, j: int): (r: seq<seq<real>>)
    requires Square(values, n) && 0 <= i < n && 0 <= j < n
    ensures Square(r, n - 1)
  {
    var rows := values[..i] + values[i + 1..];
    seq(n - 1, k requires 0 <= k < n - 1 => DropAt(rows[k], j))
  }

  /** The sign of cofactor i along the first row. */
  function CofactorSign(i: int): real
  {
    if i % 2 == 0 then 1.0 else -1.0
  }

  /** The determinant of an n x n matrix, n >= 2: a d - b c for n = 2, and the
      cofactor expansion along the first row otherwise. */
  function Det(values: seq<seq<real>>, n: int): real
    requires n >= 2 && Square(values, n)
    decreases n, 1
  {
    if n == 2 then values[0][0] * values[1][1] - values[0][1] * values[1][0]
    else CofactorSum(values, n, n)
  }

  /** The `reduce` over the first k entries of the first row, starting from 0. */
  function CofactorSum(values: seq<seq<real>>, n: int, k: int): real
    requires n >= 3 && Square(values, n) && 0 <= k <= n
    decreases n, 0, k
  {
    if k == 0 then 0.0
    else CofactorSum(values, n, k - 1) + (CofactorSign(k - 1) * values[0][k - 1]) * Det(SubMatrix(values, n, 0, k - 1), n - 1)
  }

  /** `getDeterminant()`: throws for a non-square matrix. A 0 x 0 or 1 x 1
      matrix ends in reading row 0 of an empty list, which throws as well. */
  function GetDeterminant(a: MArray): (r: Result<real>)
    requires WellFormed(a)
    ensures r.Err? <==> a.shape.0 != a.shape.1 || a.shape.0 < 2
    ensures r.Ok? && a.shape.0 == 2 ==>
              r.value == a.values[0][0] * a.values[1][1] - a.values[0][1] * a.values[1][0]
  {
    if a.shape.0 != a.shape.1 then Err("Matrix must be square to calculate determinant")
    else if a.shape.0 < 2 then Err("Cannot read properties of undefined (reading 'reduce')")
    else Ok(Det(a.values, a.shape.0))
  }

  /** Without row 0 and column 0, the identity of size n is the identity of size n - 1. */
  lemma SubMatrixOfIdentity(n: int)
    requires n >= 2
    ensures SubMatrix(Identity(n).values, n, 0, 0) == Identity(n - 1).values
  {
    var s := SubMatrix(Identity(n).values, n, 0, 0);
    var e := Identity(n - 1).values;
    forall i | 0 <= i < n - 1
      ensures s[i] == e[i]
    {
    }
  }

  /** Along the first row of the identity only the first cofactor is non-zero. */
  lemma {:induction false} IdentityCofactorSum(n: int, k: int)
    requires n >= 3 && 1 <= k <= n
    ensures CofactorSum(Identity(n).values, n, k) == Det(SubMatrix(Identity(n).values, n, 0, 0), n - 1)
  {
    if k > 1 {
      IdentityCofactorSum(n, k - 1);
      assert Identity(n).values[0][k - 1] == 0.0;
    }
  }

  /** The identity of any size n >= 2 has determinant 1. */
  lemma {:induction false} IdentityDeterminant(n: int)
    requires n >= 2
    ensures GetDeterminant(Identity(n)) == Ok(1.0)
  {
    if n > 2 {
      IdentityCofactorSum(n, n);
      SubMatrixOfIdentity(n);
      IdentityDeterminant(n - 1);
    }
  }

  /** `flat()` of a matrix with one entry per row is its single column. */
  lemma {:induction false} FlatOfColumn(values: seq<seq<real>>)
    requires RowsHave(values, 1)
    ensures |Flat(values)| == |values|
    ensures forall i :: 0 <= i < |values| ==> Flat(values)[i] == values[i][0]
  {
    if |values| > 0 {
      FlatOfColumn(values[1..]);
      assert values[0] == [values[0][0]];
    }
  }

  /** A 3 x 1 column vector. */
  function Column3(x: real, y: real, z: real): (r: MArray)
    ensures WellFormed(r) && r.shape == (3, 1)
  {
    MArray([[x], [y], [z]], (3, 1))
  }

  /** `Vector3.toMArray()` as its authors meant it: the 3 x 1 column of the coordinates. */
  function ToMArray(v: Vectors.Vector3): (r: MArray)
    ensures WellFormed(r) && r.shape == (3, 1)
  {
    Column3(v.x, v.y, v.z)
  }

  /** The cross product of (a0, a1, a2) and (b0, b1, b2) as a column: the
      same formula as `Vector3.cross`. */
  function CrossColumn(a0: real, a1: real, a2: real, b0: real, b1: real, b2: real): MArray
  {
    ToMArray(Vectors.Cross(Vectors.Vector3(a0, a1, a2), Vectors.Vector3(b0, b1, b2)))
  }

  /** `cross(other)`: only for two 3 x 1 column vectors. */
  function Cross(a: MArray, b: MArray): (r: Result<MArray>)
    requires WellFormed(a) && WellFormed(b)
    ensures r.Err? <==> a.shape != (3, 1) || b.shape != (3, 1)
    ensures r.Ok? ==> r.value == CrossColumn(a.values[0][0], a.values[1][0], a.values[2][0],
                                             b.values[0][0], b.values[1][0], b.values[2][0])
  {
    if a.shape.0 != 3 || b.shape.0 != 3 || a.shape.1 != 1 || b.shape.1 != 1 then
      Err("Cross product is only defined for 3D column vectors")
    else
      FlatOfColumn(a.values);
      FlatOfColumn(b.values);
      var u := Flat(a.values);
      var v := Flat(b.values);
      Ok(CrossColumn(u[0], u[1], u[2], v[0], v[1], v[2]))
  }

  /** The matrix cross product is the vector cross product on columns; so it
      is anti-commutative and orthogonal to both operands. */
  lemma CrossIsVectorCross(p: Vectors.Vector3, q: Vectors.Vector3)
    ensures Cross(ToMArray(p), ToMArray(q)) == Ok(ToMArray(Vectors.Cross(p, q)))
  {
    assert Cross(ToMArray(p), ToMArray(q)).value == CrossColumn(p.x, p.y, p.z, q.x, q.y, q.z);
  }

  /** `lerp(other, alpha)`: throws unless the shapes are equal. */
  function Lerp(a: MArray, b: MArray, alpha: real): (r: Result<MArray>)
    requires WellFormed(a) && WellFormed(b)
    ensures r.Err? <==> a.shape != b.shape
    ensures r.Ok? ==> WellFormed(r.value) && r.value.shape == a.shape
    ensures r.Ok? ==> forall i, j :: 0 <= i < a.shape.0 && 0 <= j < a.shape.1 ==>
              r.value.values[i][j] == Interpolation.Interpolate(a.values[i][j], b.values[i][j], alpha)
  {
    if a.shape != b.shape then Err("Matrices must have the same shape for lerp")
    else Ok(ZipWith(a, b, (x, y) => x + (y - x) * alpha))
  }

  /** `lerp` reaches the receiver at alpha = 0 and the other matrix at alpha = 1. */
  lemma LerpEndpoints(a: MArray, b: MArray)
    requires WellFormed(a) && WellFormed(b) && a.shape == b.shape
    ensures Lerp(a, b, 0.0) == Ok(a)
    ensures Lerp(a, b, 1.0) == Ok(b)
  {
    Extensionality(Lerp(a, b, 0.0).value, a);
    Extensionality(Lerp(a, b, 1.0).value, b);
  }

  /** The quaternion x i + y j + z k + w as a 4 x 1 column vector. */
  function Quat(x: real, y: real, z: real, w: real): (r: MArray)
    ensures WellFormed(r) && r.shape == (4, 1)
  {
    MArray([[x], [y], [z], [w]], (4, 1))
  }

  /** Every well-formed 4 x 1 matrix is a quaternion column. */
  lemma QuatOfColumn(q: MArray)
    requires WellFormed(q) && q.shape == (4, 1)
    ensures q == Quat(q.values[0][0], q.values[1][0], q.values[2][0], q.values[3][0])
  {
    Extensionality(q, Quat(q.values[0][0], q.values[1][0], q.values[2][0], q.values[3][0]));
  }

  /** The Hamilton product of two quaternions given as (x, y, z, w). */
  function Hamilton(x1: real, y1: real, z1: real, w1: real, x2: real, y2: real, z2: real, w2: real): MArray
  {
    Quat(w1 * x2 + x1 * w2 + y1 * z2 - z1 * y2,
         w1 * y2 + y1 * w2 + z1 * x2 - x1 * z2,
         w1 * z2 + z1 * w2 + x1 * y2 - y1 * x2,
         w1 * w2 - x1 * x2 - y1 * y2 - z1 * z2)
  }

  /** `quaternionMultiplication(q1, q2)`: throws unless both are 4 x 1. */
  function QuaternionMultiplication(q1: MArray, q2: MArray): (r: Result<MArray>)
    requires WellFormed(q1) && WellFormed(q2)
    ensures r.Err? <==> q1.shape != (4, 1) || q2.shape != (4, 1)
    ensures r.Ok? ==> r.value == Hamilton(q1.values[0][0], q1.values[1][0], q1.values[2][0], q1.values[3][0],
                                          q2.values[0][0], q2.values[1][0], q2.values[2][0], q2.values[3][0])
  {
    if q1.shape != (4, 1) || q2.shape != (4, 1) then Err("Quaternions must be 4x1 column vectors")
    else
      FlatOfColumn(q1.values);
      FlatOfColumn(q2.values);
      var a, b := Flat(q1.values), Flat(q2.values);
      Ok(Hamilton(a[0], a[1], a[2], a[3], b[0], b[1], b[2], b[3]))
  }

  /** The mask that `quaternionConjugate` multiplies by. */
  const CONJUGATE_MASK: MArray := MArray([[-1.0], [-1.0], [-1.0], [1.0]], (4, 1))

  /** `quaternionConjugate(q)`: throws unless q is 4 x 1; multiplies
      elementwise by (-1, -1, -1, 1). */
  function QuaternionConjugate(q: MArray): (r: Result<MArray>)
    requires WellFormed(q)
    ensures r.Err? <==> q.shape != (4, 1)
    ensures r.Ok? ==> r.value == Quat(-q.values[0][0], -q.values[1][0], -q.values[2][0], q.values[3][0])
  {
    if q.shape != (4, 1) then Err("Quaternion must be a 4x1 column vector")
    else
      var r := Multiply(q, Mat(CONJUGATE_MASK));
      assert r.Ok?;
      Extensionality(r.value, Quat(-q.values[0][0], -q.values[1][0], -q.values[2][0], q.values[3][0]));
      r
  }

  /** Conjugating twice gives back the quaternion. */
  lemma ConjugateInvolution(q: MArray)
    requires WellFormed(q) && q.shape == (4, 1)
    ensures QuaternionConjugate(QuaternionConjugate(q).value) == Ok(q)
  {
    QuatOfColumn(q);
  }

  /** The identity quaternion (0, 0, 0, 1) is neutral on both sides. */
  lemma QuaternionIdentityNeutral(q: MArray)
    requires WellFormed(q) && q.shape == (4, 1)
    ensures QuaternionMultiplication(Quat(0.0, 0.0, 0.0, 1.0), q) == Ok(q)
    ensures QuaternionMultiplication(q, Quat(0.0, 0.0, 0.0, 1.0)) == Ok(q)
  {
    var x, y, z, w := q.values[0][0], q.values[1][0], q.values[2][0], q.values[3][0];
    QuatOfColumn(q);
    assert Hamilton(0.0, 0.0, 0.0, 1.0, x, y, z, w) == Quat(x, y, z, w);
    assert Hamilton(x, y, z, w, 0.0, 0.0, 0.0, 1.0) == Quat(x, y, z, w);
  }

  /** The conjugate of a quaternion column, coordinate by coordinate. */
  lemma ConjugateOfQuat(q: MArray)
    requires WellFormed(q) && q.shape == (4, 1)
    ensures QuaternionConjugate(q) == Ok(Quat(-q.values[0][0], -q.values[1][0], -q.values[2][0], q.values[3][0]))
  {
  }

  /** The product of two quaternion columns, coordinate by coordinate. */
  lemma MultiplicationOfQuats(x1: real, y1: real, z1: real, w1: real, x2: real, y2: real, z2: real, w2: real)
    ensures QuaternionMultiplication(Quat(x1, y1, z1, w1), Quat(x2, y2, z2, w2)) == Ok(Hamilton(x1, y1, z1, w1, x2, y2, z2, w2))
  {
  }

  /** Conjugation reverses the Hamilton product, coordinate by coordinate. */
  lemma HamiltonConjugate(x1: real, y1: real, z1: real, w1: real, x2: real, y2: real, z2: real, w2: real)
    ensures var h := Hamilton(x1, y1, z1, w1, x2, y2, z2, w2);
            Quat(-h.values[0][0], -h.values[1][0], -h.values[2][0], h.values[3][0]) ==
            Hamilton(-x2, -y2, -z2, w2, -x1, -y1, -z1, w1)
  {
  }

  /** The conjugate of a product is the product of the conjugates in reverse order. */
  lemma ConjugateOfProduct(q1: MArray, q2: MArray)
    requires WellFormed(q1) && q1.shape == (4, 1) && WellFormed(q2) && q2.shape == (4, 1)
    ensures QuaternionConjugate(QuaternionMultiplication(q1, q2).value) ==
            QuaternionMultiplication(QuaternionConjugate(q2).value, QuaternionConjugate(q1).value)
  {
    var x1, y1, z1, w1 := q1.values[0][0], q1.values[1][0], q1.values[2][0], q1.values[3][0];
    var x2, y2, z2, w2 := q2.values[0][0], q2.values[1][0], q2.values[2][0], q2.values[3][0];
    var h := Hamilton(x1, y1, z1, w1, x2, y2, z2, w2);
    var c1, c2 := Quat(-x1, -y1, -z1, w1), Quat(-x2, -y2, -z2, w2);
    calc {
      QuaternionConjugate(QuaternionMultiplication(q1, q2).value);
      QuaternionConjugate(h);
      { ConjugateOfQuat(h); }
      Ok(Quat(-h.values[0][0], -h.values[1][0], -h.values[2][0], h.values[3][0]));
      { HamiltonConjugate(x1, y1, z1, w1, x2, y2, z2, w2); }
      Ok(Hamilton(-x2, -y2, -z2, w2, -x1, -y1, -z1, w1));
      { MultiplicationOfQuats(-x2, -y2, -z2, w2, -x1, -y1, -z1, w1); }
      QuaternionMultiplication(c2, c1);
      { ConjugateOfQuat(q1); ConjugateOfQuat(q2); }
      QuaternionMultiplication(QuaternionConjugate(q2).value, QuaternionConjugate(q1).value);
    }
  }

  /** The 2 x 2 determinant `det(a, b) = a[0] b[1] - a[1] b[0]`. */
  function Det2(a0: real, a1: real, b0: real, b1: real): real
  {
    a0 * b1 - a1 * b0
  }

  /** `lineIntersection(line1, line2)`: the intersection in the xy-plane of the
      line through line1[0], line1[1] and the line through line2[0], line2[1].
      Throws when the direction determinant is 0 (parallel lines), and, reading
      a missing point, when a line has fewer than two points. */
  function LineIntersection(line1: seq<Vectors.Vector3>, line2: seq<Vectors.Vector3>): (r: Result<Vectors.Vector3>)
    ensures r.Err? <==> (|line1| < 2 || |line2| < 2 ||
      Det2(line1[0].x - line1[1].x, line2[0].x - line2[1].x, line1[0].y - line1[1].y, line2[0].y - line2[1].y) == 0.0)
    ensures r.Ok? ==> r.value.z == 0.0
  {
    if |line1| < 2 || |line2| < 2 then Err("Cannot read properties of undefined (reading 'x')")
    else
      var xd0, xd1 := line1[0].x - line1[1].x, line2[0].x - line2[1].x;
      var yd0, yd1 := line1[0].y - line1[1].y, line2[0].y - line2[1].y;
      var div := Det2(xd0, xd1, yd0, yd1);
      if div == 0.0 then Err("Lines do not intersect")
      else
        var d0 := Det2(line1[0].x, line1[0].y, line1[1].x, line1[1].y);
        var d1 := Det2(line2[0].x, line2[0].y, line2[1].x, line2[1].y);
        Ok(Vectors.Vector3(Det2(d0, d1, xd0, xd1) / div, Det2(d0, d1, yd0, yd1) / div, 0.0))
  }

  /** (x, y) lies on the line through p and q: (x - p.x, y - p.y) is parallel to p - q. */
  predicate OnLine(x: real, y: real, p: Vectors.Vector3, q: Vectors.Vector3)
  {
    (x - p.x) * (p.y - q.y) - (y - p.y) * (p.x - q.x) == 0.0
  }

  /** Cleared of the division, the intersection formula satisfies the equation
      of the line through p and q, and of the line through u and v. */
  lemma IntersectionEquations(p: Vectors.Vector3, q: Vectors.Vector3, u: Vectors.Vector3, v: Vectors.Vector3)
    ensures var xd0, xd1, yd0, yd1 := p.x - q.x, u.x - v.x, p.y - q.y, u.y - v.y;
            var div := Det2(xd0, xd1, yd0, yd1);
            var d0, d1 := Det2(p.x, p.y, q.x, q.y), Det2(u.x, u.y, v.x, v.y);
            var nx, ny := Det2(d0, d1, xd0, xd1), Det2(d0, d1, yd0, yd1);
            (nx - p.x * div) * yd0 - (ny - p.y * div) * xd0 == 0.0 &&
            (nx - u.x * div) * yd1 - (ny - u.y * div) * xd1 == 0.0
  {
    var xd0, xd1, yd0, yd1 := p.x - q.x, u.x - v.x, p.y - q.y, u.y - v.y;
    var div := Det2(xd0, xd1, yd0, yd1);
    var d0, d1 := Det2(p.x, p.y, q.x, q.y), Det2(u.x, u.y, v.x, v.y);
    var nx, ny := Det2(d0, d1, xd0, xd1), Det2(d0, d1, yd0, yd1);
    assert nx * yd0 - ny * xd0 == -d0 * div;
    assert p.x * yd0 - p.y * xd0 == -d0;
    assert nx * yd1 - ny * xd1 == -d1 * div;
    assert u.x * yd1 - u.y * xd1 == -d1;
  }

  /** Dividing through by a non-zero `div` keeps a line equation satisfied. */
  lemma ScaledPointOnLine(nx: real, ny: real, div: real, p: Vectors.Vector3, q: Vectors.Vector3)
    requires div != 0.0
    requires (nx - p.x * div) * (p.y - q.y) - (ny - p.y * div) * (p.x - q.x) == 0.0
    ensures OnLine(nx / div, ny / div, p, q)
  {
    var x, y := nx / div, ny / div;
    assert nx == x * div && ny == y * div;
    assert (x - p.x) * (p.y - q.y) - (y - p.y) * (p.x - q.x) ==
           ((nx - p.x * div) * (p.y - q.y) - (ny - p.y * div) * (p.x - q.x)) / div;
  }

  /** The point `lineIntersection` returns lies on both lines. */
  lemma IntersectionLiesOnBothLines(line1: seq<Vectors.Vector3>, line2: seq<Vectors.Vector3>)
    requires LineIntersection(line1, line2).Ok?
    ensures var pt := LineIntersection(line1, line2).value;
            OnLine(pt.x, pt.y, line1[0], line1[1]) && OnLine(pt.x, pt.y, line2[0], line2[1])
  {
    var p, q, u, v := line1[0], line1[1], line2[0], line2[1];
    IntersectionEquations(p, q, u, v);
    var xd0, xd1, yd0, yd1 := p.x - q.x, u.x - v.x, p.y - q.y, u.y - v.y;
    var div := Det2(xd0, xd1, yd0, yd1);
    var d0, d1 := Det2(p.x, p.y, q.x, q.y), Det2(u.x, u.y, v.x, v.y);
    var nx, ny := Det2(d0, d1, xd0, xd1), Det2(d0, d1, yd0, yd1);
    assert div != 0.0 && LineIntersection(line1, line2).value == Vectors.Vector3(nx / div, ny / div, 0.0);
    ScaledPointOnLine(nx, ny, div, p, q);
    ScaledPointOnLine(nx, ny, div, u, v);
  }

  /** The 3 x 3 identity with the top-left block replaced by `m`: entries
      outside m's shape keep their identity value. */
  function Padded(m: MArray): (r: MArray)
    requires WellFormed(m)
    ensures WellFormed(r) && r.shape == (3, 3)
    ensures forall i, j :: 0 <= i < 3 && 0 <= j < 3 ==>
              r.values[i][j] == if i >= m.shape.0 || j >= m.shape.1 then Identity(3).values[i][j] else m.values[i][j]
  {
    var id := Identity(3);
    MArray(seq(3, i requires 0 <= i < 3 =>
             seq(3, j requires 0 <= j < 3 =>
               if i >= m.shape.0 || j >= m.shape.1 then id.values[i][j] else m.values[i][j])),
           (3, 3))
  }

  /** `Vector3.fromArray(a)`: throws unless a is 3 x 1. */
  function FromArray(a: MArray): (r: Result<Vectors.Vector3>)
    requires WellFormed(a)
    ensures r.Ok? <==> a.shape == (3, 1)
    ensures r.Ok? ==> ToMArray(r.value) == a
  {
    if a.shape.0 != 3 || a.shape.1 != 1 then Err("Array must be 3x1 to create Vector3")
    else
      Extensionality(a, Column3(a.values[0][0], a.values[1][0], a.values[2][0]));
      Ok(Vectors.Vector3(a.values[0][0], a.values[1][0], a.values[2][0]))
  }

  /** The vector p v, read back from the column of the product. */
  function Transform(p: MArray, v: Vectors.Vector3): Vectors.Vector3
    requires WellFormed(p) && p.shape == (3, 3)
  {
    FromArray(Product(p, ToMArray(v))).value
  }

  /** `v.matMul(matrix)` with the column built as intended: pads the matrix into
      the 3 x 3 identity and multiplies the column of v by it. */
  method VectorMatMul(v: Vectors.Vector3, m: MArray) returns (r: Vectors.Vector3)
    requires WellFormed(m)
    ensures r == Transform(Padded(m), v)
  {
    var full := Padded(m);
    var column := ToMArray(v);
    var product := MatMul(full, column);
    r := FromArray(product.value).value;
  }

  /** Padding the identity of any size gives the 3 x 3 identity, and it maps
      every vector to itself. */
  lemma PaddedIdentity(k: nat, v: Vectors.Vector3)
    ensures Padded(Identity(k)) == Identity(3)
    ensures Transform(Identity(3), v) == v
  {
    Extensionality(Padded(Identity(k)), Identity(3));
    IdentityNeutral(ToMArray(v));
  }

  /** `v.toMArray()` as written: `new MArray([[x], [y], [z]])` passes the rows
      positionally to a constructor that destructures an options object. */
  function ToMArrayAsWritten(v: Vectors.Vector3): (r: Result<MArray>)
    ensures r.Err?
  {
    Construct(ArrayArg([[v.x], [v.y], [v.z]]))
  }

  /** `v.matMul(matrix)` as written: building the column throws, so the call
      ends with that error before any multiplication happens. */
  function VectorMatMulAsWritten(v: Vectors.Vector3, m: MArray): (r: Result<Vectors.Vector3>)
    requires WellFormed(m)
  {
    Err(ToMArrayAsWritten(v).msg)
  }

  /** As written, even multiplying by the identity throws instead of returning v. */
  lemma VectorMatMulAsWrittenThrows(v: Vectors.Vector3)
    ensures VectorMatMulAsWritten(v, Identity(3)) != Ok(v)
    ensures VectorMatMulAsWritten(v, Identity(3)).Err?
  {
  }
}
