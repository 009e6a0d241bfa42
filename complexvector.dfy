/**
 * The arithmetic of `ComplexColumnVector` and `ComplexRowVector`: the
 * unconjugated dot product (also against a real vector), the cross product
 * of two 3-vectors, and a complex row vector times a complex matrix.
 */
module ComplexVectors {
  import opened Wrappers
  import opened Dense
  import C = ComplexNumbers
  import opened ComplexMatrices
  import Vectors

  /**
   * `dotProduct(other)` of two complex vectors: the lengths must agree, then
   * `sum += this[i] * other[i]` with no conjugation.
   */
  method DotProduct(a: seq<Complex>, b: seq<Complex>) returns (res: Result<Complex>)
    ensures res.Ok? <==> |a| == |b|
    ensures res.Err? ==> res.error == IllegalArgument
    ensures res.Ok? ==> res.value == Dot(a, b)
  {
    if |a| != |b| {
      return Err(IllegalArgument);
    }
    var sum := C.Zero;
    var i := 0;
    while i < |a|
      invariant 0 <= i <= |a|
      invariant sum == Dot(a[..i], b[..i])
    {
      DotPrefixStep(a, b, i);
      sum := C.Add(sum, C.Mul(a[i], b[i]));
      i := i + 1;
    }
    assert a[..i] == a && b[..i] == b;
    return Ok(sum);
  }

  /** A real vector made complex. */
  function EmbedVector(v: seq<real>): (r: seq<Complex>)
    ensures |r| == |v| && forall i :: 0 <= i < |v| ==> r[i] == C.FromReal(v[i])
  {
    seq(|v|, i requires 0 <= i < |v| => C.FromReal(v[i]))
  }

  /**
   * `ComplexRowVector.dotProduct(ColumnVector)`: each complex entry is
   * scaled by the real one; the sum is the complex dot product with the
   * real vector made complex.
   */
  method DotProductReal(a: seq<Complex>, b: seq<real>) returns (res: Result<Complex>)
    ensures res.Ok? <==> |a| == |b|
    ensures res.Err? ==> res.error == IllegalArgument
    ensures res.Ok? ==> res.value == Dot(a, EmbedVector(b))
  {
    if |a| != |b| {
      return Err(IllegalArgument);
    }
    ghost var cb := EmbedVector(b);
    var sum := C.Zero;
    var i := 0;
    while i < |a|
      invariant 0 <= i <= |a|
      invariant sum == Dot(a[..i], cb[..i])
    {
      DotPrefixStep(a, cb, i);
      sum := C.Add(sum, C.Scale(a[i], b[i]));
      i := i + 1;
    }
    assert a[..i] == a && cb[..i] == cb;
    return Ok(sum);
  }

  /** A sum over four entries, written out. */
  lemma Dot4(a: seq<Complex>, b: seq<Complex>)
    requires |a| == 4 && |b| == 4
    ensures Dot(a, b) == C.Add(C.Add(C.Add(C.Add(C.Zero, C.Mul(a[0], b[0])), C.Mul(a[1], b[1])), C.Mul(a[2], b[2])), C.Mul(a[3], b[3]))
  {
    assert a[..0] == [] && b[..0] == [];
    DotPrefixStep(a, b, 0);
    DotPrefixStep(a, b, 1);
    DotPrefixStep(a, b, 2);
    DotPrefixStep(a, b, 3);
    assert a[..4] == a && b[..4] == b;
  }

  /** The unconjugated sum is not a norm: [i, 2, 3i, 4] against itself is 10. */
  lemma DotExample(v: seq<Complex>)
    requires v == [C.Complex(0.0, 1.0), C.Complex(2.0, 0.0), C.Complex(0.0, 3.0), C.Complex(4.0, 0.0)]
    ensures Dot(v, v) == C.Complex(10.0, 0.0)
  {
    Dot4(v, v);
  }

  /** The three components of a × b. */
  function CrossOf(a: seq<Complex>, b: seq<Complex>): (c: seq<Complex>)
    requires |a| == 3 && |b| == 3
    ensures |c| == 3
  {
    [C.Sub(C.Mul(a[1], b[2]), C.Mul(a[2], b[1])),
     C.Sub(C.Mul(a[2], b[0]), C.Mul(a[0], b[2])),
     C.Sub(C.Mul(a[0], b[1]), C.Mul(a[1], b[0]))]
  }

  /** `crossProduct(other)`: both operands must have length 3. */
  function Cross(a: seq<Complex>, b: seq<Complex>): (res: Result<seq<Complex>>)
    ensures res.Ok? <==> |a| == 3 && |b| == 3
    ensures res.Err? ==> res.error == IllegalArgument
    ensures res.Ok? ==> res.value == CrossOf(a, b)
  {
    if |a| != 3 || |b| != 3 then Err(IllegalArgument) else Ok(CrossOf(a, b))
  }

  /** A vector crossed with itself is the zero vector. */
  lemma CrossSelf(a: seq<Complex>)
    requires |a| == 3
    ensures Cross(a, a) == Ok([C.Zero, C.Zero, C.Zero])
  {
    C.MulComm(a[1], a[2]);
    C.MulComm(a[2], a[0]);
    C.MulComm(a[0], a[1]);
  }

  /** Entry j of a row vector times a matrix: the vector against column j. */
  function VectorTimesMatrix(v: seq<Complex>, m: Mat<Complex>): (r: seq<Complex>)
    requires Valid(m) && |v| == m.rows
    ensures |r| == m.cols && forall j :: 0 <= j < m.cols ==> r[j] == Dot(v, Column(m, j))
  {
    seq(m.cols, j requires 0 <= j < m.cols => Dot(v, Column(m, j)))
  }

  /** As a 1×rows matrix, the row vector times a matrix is the matrix product. */
  lemma VectorTimesIsMatMul(v: seq<Complex>, m: Mat<Complex>)
    requires Valid(m) && |v| == m.rows
    ensures Vectors.RowMatrix(VectorTimesMatrix(v, m)) == MatMul(Vectors.RowMatrix(v), m)
  {
    var row, p := Vectors.RowMatrix(v), MatMul(Vectors.RowMatrix(v), m);
    assert Row(row, 0) == v;
    Extensionality(Vectors.RowMatrix(VectorTimesMatrix(v, m)), p);
  }

  /** The inner `var sum` loop of `times(ComplexMatrix)` for column `c`. */
  method ColumnSum(v: seq<Complex>, m: Mat<Complex>, c: nat) returns (sum: Complex)
    requires Valid(m) && |v| == m.rows && c < m.cols
    ensures sum == Dot(v, Column(m, c))
  {
    ghost var y := Column(m, c);
    sum := C.Zero;
    var i := 0;
    while i < |v|
      invariant 0 <= i <= |v|
      invariant sum == Dot(v[..i], y[..i])
    {
      DotPrefixStep(v, y, i);
      sum := C.Add(sum, C.Mul(v[i], At(m, i, c)));
      i := i + 1;
    }
    assert v[..i] == v && y[..i] == y;
  }

  /**
   * `ComplexRowVector.times(ComplexMatrix)`: the length must equal the
   * number of rows; entry j of the result of length `cols` is Σ v[i]·M[i, j].
   */
  method Times(v: seq<Complex>, m: Mat<Complex>) returns (res: Result<seq<Complex>>)
    requires Valid(m)
    ensures res.Ok? <==> |v| == m.rows
    ensures res.Err? ==> res.error == IllegalArgument
    ensures res.Ok? ==> res.value == VectorTimesMatrix(v, m)
  {
    if |v| != m.rows {
      return Err(IllegalArgument);
    }
    var data := new Complex[m.cols];
    var j := 0;
    while j < m.cols
      invariant 0 <= j <= m.cols
      invariant forall j' :: 0 <= j' < j ==> data[j'] == Dot(v, Column(m, j'))
    {
      data[j] := ColumnSum(v, m, j);
      j := j + 1;
    }
    assert data[..] == VectorTimesMatrix(v, m);
    return Ok(data[..]);
  }
}
