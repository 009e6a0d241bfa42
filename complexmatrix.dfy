/**
 * The arithmetic of `ComplexMatrix` over exact complex numbers: the inner
 * product its `var sum` loops accumulate, the product `times`, the
 * element-wise and scalar operations, `addRow` with a real fraction, the
 * identity, `toComplex()` of a real matrix and the conjugate transpose.
 */
module ComplexMatrices {
  import opened Wrappers
  import opened Dense
  import C = ComplexNumbers
  import RowMajor
  import RealMatrices

  type Complex = C.Complex

  /** Σ a[i]·b[i], unconjugated, summed left to right from `0.0.R`. */
  function Dot(a: seq<Complex>, b: seq<Complex>): Complex
    requires |a| == |b|
  {
    if |a| == 0 then C.Zero else C.Add(Dot(a[..|a| - 1], b[..|b| - 1]), C.Mul(a[|a| - 1], b[|b| - 1]))
  }

  /** The running sum of the first `i` products, as the loops hold it. */
  lemma DotPrefixStep(a: seq<Complex>, b: seq<Complex>, i: nat)
    requires |a| == |b| && i < |a|
    ensures Dot(a[..i + 1], b[..i + 1]) == C.Add(Dot(a[..i], b[..i]), C.Mul(a[i], b[i]))
  {
    assert a[..i + 1][..i] == a[..i];
    assert b[..i + 1][..i] == b[..i];
  }

  /** A sum whose left factors are all zero except at `p` is that one product. */
  lemma {:induction false} DotUnit(a: seq<Complex>, b: seq<Complex>, p: nat)
    requires |a| == |b| && p < |a|
    requires forall k :: 0 <= k < |a| && k != p ==> a[k] == C.Zero
    ensures Dot(a, b) == C.Mul(a[p], b[p])
    decreases |a|
  {
    var n := |a| - 1;
    if p < n {
      DotUnit(a[..n], b[..n], p);
    } else {
      DotZero(a[..n], b[..n]);
    }
  }

  /** A sum whose left factors are all zero is zero. */
  lemma {:induction false} DotZero(a: seq<Complex>, b: seq<Complex>)
    requires |a| == |b|
    requires forall k :: 0 <= k < |a| ==> a[k] == C.Zero
    ensures Dot(a, b) == C.Zero
    decreases |a|
  {
    if |a| > 0 {
      DotZero(a[..|a| - 1], b[..|b| - 1]);
    }
  }

  /** Changing the order of the factors does not change the sum. */
  lemma {:induction false} DotComm(a: seq<Complex>, b: seq<Complex>)
    requires |a| == |b|
    ensures Dot(a, b) == Dot(b, a)
    decreases |a|
  {
    if |a| > 0 {
      DotComm(a[..|a| - 1], b[..|b| - 1]);
      C.MulComm(a[|a| - 1], b[|b| - 1]);
    }
  }

  /** The matrix product: entry (i, j) is row i of `a` against column j of `b`. */
  function MatMul(a: Mat<Complex>, b: Mat<Complex>): (p: Mat<Complex>)
    requires Valid(a) && Valid(b) && a.cols == b.rows
    ensures Valid(p) && p.rows == a.rows && p.cols == b.cols
    ensures forall i: nat, j: nat :: i < p.rows && j < p.cols ==> At(p, i, j) == Dot(Row(a, i), Column(b, j))
  {
    Build(a.rows, b.cols, (i: nat, j: nat) requires i < a.rows && j < b.cols => Dot(Row(a, i), Column(b, j)))
  }

  /** The `var sum` loop of `times`: row r of `a` against column c of `b`. */
  method RowTimesColumn(a: Mat<Complex>, b: Mat<Complex>, r: nat, c: nat) returns (sum: Complex)
    requires Valid(a) && Valid(b) && a.cols == b.rows && r < a.rows && c < b.cols
    ensures sum == Dot(Row(a, r), Column(b, c))
  {
    ghost var x, y := Row(a, r), Column(b, c);
    sum := C.Zero;
    var i: nat := 0;
    while i < a.cols
      invariant i <= a.cols
      invariant sum == Dot(x[..i], y[..i])
    {
      DotPrefixStep(x, y, i);
      sum := C.Add(sum, C.Mul(At(a, r, i), At(b, i, c)));
      i := i + 1;
    }
    assert x[..i] == x && y[..i] == y;
  }

  /** Offset k of the product holds the entry of cell (r, c) when k = r·cols + c. */
  lemma MatMulOffset(a: Mat<Complex>, b: Mat<Complex>, k: nat, r: nat, c: nat)
    requires Valid(a) && Valid(b) && a.cols == b.rows && r < a.rows && c < b.cols
    requires k == r * b.cols + c && k < a.rows * b.cols
    ensures k < |MatMul(a, b).data|
    ensures MatMul(a, b).data[k] == Dot(Row(a, r), Column(b, c))
  {
    assert At(MatMul(a, b), r, c) == Dot(Row(a, r), Column(b, c));
  }

  /**
   * `times(other)`: offset `k` of the product is the `var sum` loop over
   * row k / other.cols of `a` and column k % other.cols of `b`.
   */
  method Times(a: Mat<Complex>, b: Mat<Complex>) returns (res: Result<Mat<Complex>>)
    requires Valid(a) && Valid(b)
    ensures res.Ok? <==> a.cols == b.rows
    ensures res.Err? ==> res.error == IllegalArgument
    ensures res.Ok? ==> res.value == MatMul(a, b)
  {
    if a.cols != b.rows {
      return Err(IllegalArgument);
    }
    ghost var p := MatMul(a, b);
    var n: nat := a.rows * b.cols;
    var data := new Complex[n];
    var k: nat := 0;
    while k < n
      invariant k <= n == |p.data| == data.Length
      invariant forall k' :: 0 <= k' < k ==> data[k'] == p.data[k']
    {
      RowMajor.OffsetOfCell(k, a.rows, b.cols);
      var r: nat, c: nat := k / b.cols, k % b.cols;
      var sum := RowTimesColumn(a, b, r, c);
      MatMulOffset(a, b, k, r, c);
      data[k] := sum;
      k := k + 1;
    }
    assert data[..] == p.data;
    return Ok(Mat(a.rows, b.cols, data[..]));
  }

  /** Entry-wise sum of two matrices of one shape (`plus`). */
  function Add(a: Mat<Complex>, b: Mat<Complex>): (r: Mat<Complex>)
    requires Valid(a) && Valid(b) && a.rows == b.rows && a.cols == b.cols
    ensures Valid(r) && r.rows == a.rows && r.cols == a.cols
    ensures forall i: nat, j: nat :: i < r.rows && j < r.cols ==> At(r, i, j) == C.Add(At(a, i, j), At(b, i, j))
  {
    Build(a.rows, a.cols, (i: nat, j: nat) requires i < a.rows && j < a.cols => C.Add(At(a, i, j), At(b, i, j)))
  }

  /** Entry-wise difference (`minus`): what must be added to `b` to get `a`. */
  function Sub(a: Mat<Complex>, b: Mat<Complex>): (r: Mat<Complex>)
    requires Valid(a) && Valid(b) && a.rows == b.rows && a.cols == b.cols
    ensures Valid(r) && r.rows == a.rows && r.cols == a.cols
    ensures forall i: nat, j: nat :: i < r.rows && j < r.cols ==> At(r, i, j) == C.Sub(At(a, i, j), At(b, i, j))
    ensures Add(r, b) == a
  {
    var r := Build(a.rows, a.cols, (i: nat, j: nat) requires i < a.rows && j < a.cols => C.Sub(At(a, i, j), At(b, i, j)));
    Extensionality(Add(r, b), a);
    r
  }

  /** Multiplication by a complex scalar (`times(ComplexDouble)`). */
  function Scale(m: Mat<Complex>, z: Complex): (r: Mat<Complex>)
    requires Valid(m)
    ensures Valid(r) && r.rows == m.rows && r.cols == m.cols
    ensures forall i: nat, j: nat :: i < r.rows && j < r.cols ==> At(r, i, j) == C.Mul(At(m, i, j), z)
  {
    Build(m.rows, m.cols, (i: nat, j: nat) requires i < m.rows && j < m.cols => C.Mul(At(m, i, j), z))
  }

  /** Division by a nonzero complex scalar (`div(ComplexDouble)`) undoes scaling by it. */
  function DivideBy(m: Mat<Complex>, z: Complex): (r: Mat<Complex>)
    requires Valid(m) && z != C.Zero
    ensures Valid(r) && r.rows == m.rows && r.cols == m.cols
    ensures Scale(r, z) == m
  {
    var r := Build(m.rows, m.cols, (i: nat, j: nat) requires i < m.rows && j < m.cols => C.Div(At(m, i, j), z));
    Extensionality(Scale(r, z), m);
    r
  }

  /**
   * `addRow(src, dst, fraction)`: row dst becomes dst + fraction·src with a
   * real fraction, every other row is kept.  Both indices must be rows and
   * must differ.
   */
  function AddRow(m: Mat<Complex>, src: int, dst: int, f: real): (res: Result<Mat<Complex>>)
    requires Valid(m)
    ensures res.Ok? <==> 0 <= src < m.rows && 0 <= dst < m.rows && src != dst
    ensures res.Err? ==> res.error == IllegalArgument
    ensures res.Ok? ==> Valid(res.value) && res.value.rows == m.rows && res.value.cols == m.cols
    ensures res.Ok? ==> forall i: nat, j: nat :: i < m.rows && j < m.cols ==>
      At(res.value, i, j) == if i == dst then C.Add(At(m, dst, j), C.Scale(At(m, src, j), f)) else At(m, i, j)
  {
    if src < 0 || dst < 0 || src >= m.rows || dst >= m.rows then Err(IllegalArgument)
    else if src == dst then Err(IllegalArgument)
    else Ok(Build(m.rows, m.cols, (i: nat, j: nat) requires i < m.rows && j < m.cols =>
      if i == dst then C.Add(At(m, dst, j), C.Scale(At(m, src, j), f)) else At(m, i, j)))
  }

  /** Adding −f times the same row afterwards undoes `addRow`. */
  lemma AddRowUndo(m: Mat<Complex>, src: nat, dst: nat, f: real)
    requires Valid(m) && src < m.rows && dst < m.rows && src != dst
    ensures AddRow(AddRow(m, src, dst, f).value, src, dst, -f) == Ok(m)
  {
    var once := AddRow(m, src, dst, f).value;
    var twice := AddRow(once, src, dst, -f).value;
    forall i: nat, j: nat | i < m.rows && j < m.cols
      ensures At(twice, i, j) == At(m, i, j)
    {
      AddRowUndoCell(m, once, twice, src, dst, f, i, j);
    }
    Extensionality(twice, m);
  }

  /** One cell of `AddRowUndo`. */
  lemma AddRowUndoCell(m: Mat<Complex>, once: Mat<Complex>, twice: Mat<Complex>, src: nat, dst: nat, f: real, i: nat, j: nat)
    requires Valid(m) && src < m.rows && dst < m.rows && src != dst && i < m.rows && j < m.cols
    requires AddRow(m, src, dst, f) == Ok(once) && AddRow(once, src, dst, -f) == Ok(twice)
    ensures At(twice, i, j) == At(m, i, j)
  {
    if i == dst {
      var x, y := At(m, dst, j), At(m, src, j);
      assert At(once, src, j) == y && At(once, dst, j) == C.Add(x, C.Scale(y, f));
      assert At(twice, i, j) == C.Add(C.Add(x, C.Scale(y, f)), C.Scale(y, -f));
      assert x.re + y.re * f + y.re * (-f) == x.re;
      assert x.im + y.im * f + y.im * (-f) == x.im;
    } else {
      assert At(twice, i, j) == At(once, i, j);
    }
  }

  /** The identity of order n ≥ 1. */
  function Eye(n: nat): (e: Mat<Complex>)
    requires n >= 1
    ensures Valid(e) && e.rows == n && e.cols == n
    ensures forall i: nat, j: nat :: i < n && j < n ==> At(e, i, j) == if i == j then C.One else C.Zero
  {
    Build(n, n, (i: nat, j: nat) requires i < n && j < n => if i == j then C.One else C.Zero)
  }

  /**
   * `identityMatrix(n)`; a non-positive order makes the shape check of the
   * constructor throw.
   */
  function IdentityMatrix(n: int): (res: Result<Mat<Complex>>)
    ensures res.Ok? <==> n >= 1
    ensures res.Err? ==> res.error == IllegalArgument
    ensures res.Ok? ==> res.value == Eye(n)
  {
    if n < 1 then Err(IllegalArgument) else Ok(Eye(n))
  }

  /** The identity is neutral on the left. */
  lemma EyeTimes(m: Mat<Complex>)
    requires Valid(m)
    ensures MatMul(Eye(m.rows), m) == m
  {
    var e := Eye(m.rows);
    forall i: nat, j: nat | i < m.rows && j < m.cols
      ensures At(MatMul(e, m), i, j) == At(m, i, j)
    {
      DotUnit(Row(e, i), Column(m, j), i);
    }
    Extensionality(MatMul(e, m), m);
  }

  /** `toComplex()` of a real matrix: every entry x becomes x + 0i. */
  function Embed(m: Mat<real>): (r: Mat<Complex>)
    requires Valid(m)
    ensures Valid(r) && r.rows == m.rows && r.cols == m.cols
    ensures forall i: nat, j: nat :: i < r.rows && j < r.cols ==> At(r, i, j) == C.FromReal(At(m, i, j))
  {
    Build(m.rows, m.cols, (i: nat, j: nat) requires i < m.rows && j < m.cols => C.FromReal(At(m, i, j)))
  }

  /** The real identity made complex is the complex identity. */
  lemma EmbedEye(n: nat)
    requires n >= 1
    ensures Embed(RealMatrices.Eye(n)) == Eye(n)
  {
    Extensionality(Embed(RealMatrices.Eye(n)), Eye(n));
  }

  /** The complex product of two real matrices is the real product made complex. */
  lemma EmbedMatMul(a: Mat<real>, b: Mat<real>)
    requires Valid(a) && Valid(b) && a.cols == b.rows
    ensures MatMul(Embed(a), Embed(b)) == Embed(RealMatrices.MatMul(a, b))
  {
    var p, q := MatMul(Embed(a), Embed(b)), Embed(RealMatrices.MatMul(a, b));
    forall i: nat, j: nat | i < p.rows && j < p.cols
      ensures At(p, i, j) == At(q, i, j)
    {
      EmbedDot(Row(a, i), Column(b, j), Row(Embed(a), i), Column(Embed(b), j));
    }
    Extensionality(p, q);
  }

  lemma {:induction false} EmbedDot(x: seq<real>, y: seq<real>, cx: seq<Complex>, cy: seq<Complex>)
    requires |x| == |y| == |cx| == |cy|
    requires forall k :: 0 <= k < |x| ==> cx[k] == C.FromReal(x[k]) && cy[k] == C.FromReal(y[k])
    ensures Dot(cx, cy) == C.FromReal(RealMatrices.Dot(x, y))
    decreases |x|
  {
    if |x| > 0 {
      var n := |x| - 1;
      var x', y', cx', cy' := x[..n], y[..n], cx[..n], cy[..n];
      assert forall k :: 0 <= k < n ==> cx'[k] == C.FromReal(x'[k]) && cy'[k] == C.FromReal(y'[k]);
      EmbedDot(x', y', cx', cy');
      var d, last := RealMatrices.Dot(x', y'), x[n] * y[n];
      assert RealMatrices.Dot(x, y) == d + last;
      assert Dot(cx, cy) == C.Add(Dot(cx', cy'), C.Mul(cx[n], cy[n]));
      assert cx[n] == C.FromReal(x[n]) && cy[n] == C.FromReal(y[n]);
      assert C.Mul(cx[n], cy[n]) == C.FromReal(last);
      assert Dot(cx', cy') == C.FromReal(d);
    }
  }

  /** Entry-wise conjugation. */
  function Conjugate(m: Mat<Complex>): (r: Mat<Complex>)
    requires Valid(m)
    ensures Valid(r) && r.rows == m.rows && r.cols == m.cols
    ensures forall i: nat, j: nat :: i < r.rows && j < r.cols ==> At(r, i, j) == C.Conj(At(m, i, j))
  {
    Build(m.rows, m.cols, (i: nat, j: nat) requires i < m.rows && j < m.cols => C.Conj(At(m, i, j)))
  }

  /** `conjTrans()`: the cols×rows matrix H with H[i, j] = conj(M[j, i]). */
  function ConjTrans(m: Mat<Complex>): (h: Mat<Complex>)
    requires Valid(m)
    ensures Valid(h) && h.rows == m.cols && h.cols == m.rows
    ensures forall i: nat, j: nat :: i < h.rows && j < h.cols ==> At(h, i, j) == C.Conj(At(m, j, i))
  {
    Build(m.cols, m.rows, (i: nat, j: nat) requires i < m.cols && j < m.rows => C.Conj(At(m, j, i)))
  }

  /** The conjugate transpose is the transpose of the conjugate, and the conjugate of the transpose. */
  lemma ConjTransSplits(m: Mat<Complex>)
    requires Valid(m)
    ensures ConjTrans(m) == Transpose(Conjugate(m)) == Conjugate(Transpose(m))
  {
    Extensionality(ConjTrans(m), Transpose(Conjugate(m)));
    Extensionality(ConjTrans(m), Conjugate(Transpose(m)));
  }

  /** Taking the conjugate transpose twice gives back the matrix. */
  lemma ConjTransTwice(m: Mat<Complex>)
    requires Valid(m)
    ensures ConjTrans(ConjTrans(m)) == m
  {
    forall i: nat, j: nat | i < m.rows && j < m.cols
      ensures At(ConjTrans(ConjTrans(m)), i, j) == At(m, i, j)
    {
      C.ConjInvolutive(At(m, i, j));
    }
    Extensionality(ConjTrans(ConjTrans(m)), m);
  }

  /** On a real matrix made complex the conjugate transpose is the plain transpose. */
  lemma ConjTransOfReal(m: Mat<real>)
    requires Valid(m)
    ensures ConjTrans(Embed(m)) == Embed(Transpose(m))
  {
    Extensionality(ConjTrans(Embed(m)), Embed(Transpose(m)));
  }
}
