/**
 * The arithmetic of the real `ColumnVector` and `RowVector`: the dot
 * product that both loop over a `var sum`, the cross product of two
 * 3-vectors, and a row vector times a matrix.
 */
module RealVectors {
  import opened Wrappers
  import opened Dense
  import opened RealMatrices
  import Vectors

  /**
   * `dotProduct(other)` (every overload of both classes): the lengths must
   * agree, then `sum += this[i] * other[i]` for i from 0.
   */
  method DotProduct(a: seq<real>, b: seq<real>) returns (res: Result<real>)
    ensures res.Ok? <==> |a| == |b|
    ensures res.Err? ==> res.error == IllegalArgument
    ensures res.Ok? ==> res.value == Dot(a, b)
  {
    if |a| != |b| {
      return Err(IllegalArgument);
    }
    var sum := 0.0;
    var i := 0;
    while i < |a|
      invariant 0 <= i <= |a|
      invariant sum == Dot(a[..i], b[..i])
    {
      DotPrefixStep(a, b, i);
      sum := sum + a[i] * b[i];
      i := i + 1;
    }
    assert a[..i] == a && b[..i] == b;
    return Ok(sum);
  }

  /** The three components of a × b. */
  function CrossOf(a: seq<real>, b: seq<real>): (c: seq<real>)
    requires |a| == 3 && |b| == 3
    ensures |c| == 3
  {
    [a[1] * b[2] - a[2] * b[1], a[2] * b[0] - a[0] * b[2], a[0] * b[1] - a[1] * b[0]]
  }

  /** `crossProduct(other)`: both operands must have length 3. */
  function Cross(a: seq<real>, b: seq<real>): (res: Result<seq<real>>)
    ensures res.Ok? <==> |a| == 3 && |b| == 3
    ensures res.Err? ==> res.error == IllegalArgument
    ensures res.Ok? ==> res.value == CrossOf(a, b)
  {
    if |a| != 3 || |b| != 3 then Err(IllegalArgument) else Ok(CrossOf(a, b))
  }

  /** A vector crossed with itself is the zero vector. */
  lemma CrossSelf(a: seq<real>)
    requires |a| == 3
    ensures Cross(a, a) == Ok([0.0, 0.0, 0.0])
  {}

  /** Swapping the operands negates the cross product. */
  lemma CrossAntiCommutes(a: seq<real>, b: seq<real>)
    requires |a| == 3 && |b| == 3
    ensures forall k :: 0 <= k < 3 ==> CrossOf(b, a)[k] == -CrossOf(a, b)[k]
  {}

  /** A sum Σ x[i]·y[i] over three entries. */
  lemma Dot3(x: seq<real>, y: seq<real>)
    requires |x| == 3 && |y| == 3
    ensures Dot(x, y) == x[0] * y[0] + x[1] * y[1] + x[2] * y[2]
  {
    assert x[..2][..1] == x[..1] && y[..2][..1] == y[..1];
    assert x[..1][..0] == [] && y[..1][..0] == [];
    assert Dot(x[..1], y[..1]) == x[0] * y[0];
    assert Dot(x[..2], y[..2]) == x[0] * y[0] + x[1] * y[1];
  }

  /** a × b is orthogonal to both a and b. */
  lemma CrossOrthogonal(a: seq<real>, b: seq<real>)
    requires |a| == 3 && |b| == 3
    ensures Dot(a, CrossOf(a, b)) == 0.0 && Dot(b, CrossOf(a, b)) == 0.0
  {
    DotCross(a, a, b);
    DotCross(b, a, b);
    TripleVanishes(a[0], a[1], a[2], b[0], b[1], b[2]);
  }

  /** x · (a × b) written out component by component. */
  lemma DotCross(x: seq<real>, a: seq<real>, b: seq<real>)
    requires |x| == 3 && |a| == 3 && |b| == 3
    ensures Dot(x, CrossOf(a, b)) ==
      x[0] * (a[1] * b[2] - a[2] * b[1]) + x[1] * (a[2] * b[0] - a[0] * b[2]) + x[2] * (a[0] * b[1] - a[1] * b[0])
  {
    Dot3(x, CrossOf(a, b));
  }

  /** The scalar triple products x · (x × y) and y · (x × y), expanded: every term cancels. */
  lemma TripleVanishes(x0: real, x1: real, x2: real, y0: real, y1: real, y2: real)
    ensures x0 * (x1 * y2 - x2 * y1) + x1 * (x2 * y0 - x0 * y2) + x2 * (x0 * y1 - x1 * y0) == 0.0
    ensures y0 * (x1 * y2 - x2 * y1) + y1 * (x2 * y0 - x0 * y2) + y2 * (x0 * y1 - x1 * y0) == 0.0
  {
    assert x0 * (x1 * y2 - x2 * y1) == x0 * x1 * y2 - x0 * x2 * y1;
    assert x1 * (x2 * y0 - x0 * y2) == x1 * x2 * y0 - x0 * x1 * y2;
    assert x2 * (x0 * y1 - x1 * y0) == x0 * x2 * y1 - x1 * x2 * y0;
    assert y0 * (x1 * y2 - x2 * y1) == x1 * y0 * y2 - x2 * y0 * y1;
    assert y1 * (x2 * y0 - x0 * y2) == x2 * y0 * y1 - x0 * y1 * y2;
    assert y2 * (x0 * y1 - x1 * y0) == x0 * y1 * y2 - x1 * y0 * y2;
  }

  /** Entry j of a row vector times a matrix: the vector against column j. */
  function VectorTimesMatrix(v: seq<real>, m: Mat<real>): (r: seq<real>)
    requires Valid(m) && |v| == m.rows
    ensures |r| == m.cols && forall j :: 0 <= j < m.cols ==> r[j] == Dot(v, Column(m, j))
  {
    seq(m.cols, j requires 0 <= j < m.cols => Dot(v, Column(m, j)))
  }

  /** As a 1×rows matrix, the row vector times a matrix is the matrix product. */
  lemma VectorTimesIsMatMul(v: seq<real>, m: Mat<real>)
    requires Valid(m) && |v| == m.rows
    ensures Vectors.RowMatrix(VectorTimesMatrix(v, m)) == MatMul(Vectors.RowMatrix(v), m)
  {
    var row, p := Vectors.RowMatrix(v), MatMul(Vectors.RowMatrix(v), m);
    assert Row(row, 0) == v;
    Extensionality(Vectors.RowMatrix(VectorTimesMatrix(v, m)), p);
  }

  /** The inner `var sum` loop of `times(Matrix)` for column `c`. */
  method ColumnSum(v: seq<real>, m: Mat<real>, c: nat) returns (sum: real)
    requires Valid(m) && |v| == m.rows && c < m.cols
    ensures sum == Dot(v, Column(m, c))
  {
    ghost var y := Column(m, c);
    sum := 0.0;
    var i := 0;
    while i < |v|
      invariant 0 <= i <= |v|
      invariant sum == Dot(v[..i], y[..i])
    {
      DotPrefixStep(v, y, i);
      sum := sum + v[i] * At(m, i, c);
      i := i + 1;
    }
    assert v[..i] == v && y[..i] == y;
  }

  /**
   * `RowVector.times(Matrix)`: the length must equal the number of rows;
   * entry j of the result of length `cols` is Σ v[i]·M[i, j].
   */
  method Times(v: seq<real>, m: Mat<real>) returns (res: Result<seq<real>>)
    requires Valid(m)
    ensures res.Ok? <==> |v| == m.rows
    ensures res.Err? ==> res.error == IllegalArgument
    ensures res.Ok? ==> res.value == VectorTimesMatrix(v, m)
  {
    if |v| != m.rows {
      return Err(IllegalArgument);
    }
    var data := new real[m.cols];
    var j := 0;
    while j < m.cols
      invariant 0 <= j <= m.cols
      invariant forall j' :: 0 <= j' < j ==> data[j'] == Dot(v, Column(m, j'))
    {
      data[j] := ColumnSum(v, m, j);
      j := j + 1;
    }
    return Ok(data[..]);
  }
}
