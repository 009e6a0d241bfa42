/**
 * The arithmetic of `Matrix` over exact reals: the inner product that every
 * `var sum` loop accumulates, the matrix product `times`, the element-wise
 * and scalar operations the algorithms use, `addRow`, `identityMatrix` and
 * `rowSwitchingMatrix`, and permutation matrices with the fact that makes
 * them useful: multiplying by one permutes rows.
 */
module RealMatrices {
  import opened Wrappers
  import opened Dense
  import RowMajor

  /**
   * The product of two reals.  Naming it lets the solver see that equal
   * factors give equal products without arithmetic reasoning.
   */
  function Prod(x: real, y: real): real {
    x * y
  }

  /**
   * Σ a[i]·b[i], summed left to right as the `for (i in 0 until length)`
   * loops do.
   */
  function Dot(a: seq<real>, b: seq<real>): real
    requires |a| == |b|
  {
    if |a| == 0 then 0.0 else Dot(a[..|a| - 1], b[..|b| - 1]) + Prod(a[|a| - 1], b[|b| - 1])
  }

  /** The same sum peeled from the front. */
  lemma {:induction false} DotFirst(a: seq<real>, b: seq<real>)
    requires |a| == |b| >= 1
    ensures Dot(a, b) == Prod(a[0], b[0]) + Dot(a[1..], b[1..])
    decreases |a|
  {
    if |a| > 1 {
      var n := |a| - 1;
      DotFirst(a[..n], b[..n]);
      assert a[..n][1..] == a[1..][..n - 1];
      assert b[..n][1..] == b[1..][..n - 1];
    }
  }

  /** A sum whose left factors are all zero except at `p` is that one product. */
  lemma {:induction false} DotUnit(a: seq<real>, b: seq<real>, p: nat)
    requires |a| == |b| && p < |a|
    requires forall k :: 0 <= k < |a| && k != p ==> a[k] == 0.0
    ensures Dot(a, b) == Prod(a[p], b[p])
    decreases |a|
  {
    var n := |a| - 1;
    if p < n {
      DotUnit(a[..n], b[..n], p);
    } else {
      DotZero(a[..n], b[..n]);
    }
  }

  /** A sum whose left factors are all zero is zero. */
  lemma {:induction false} DotZero(a: seq<real>, b: seq<real>)
    requires |a| == |b|
    requires forall k :: 0 <= k < |a| ==> a[k] == 0.0
    ensures Dot(a, b) == 0.0
    decreases |a|
  {
    if |a| > 0 {
      DotZero(a[..|a| - 1], b[..|b| - 1]);
    }
  }

  lemma {:induction false} DotComm(a: seq<real>, b: seq<real>)
    requires |a| == |b|
    ensures Dot(a, b) == Dot(b, a)
    decreases |a|
  {
    if |a| > 0 {
      DotComm(a[..|a| - 1], b[..|b| - 1]);
    }
  }

  /** The running sum of the first `i` products, as the loops hold it. */
  lemma DotPrefixStep(a: seq<real>, b: seq<real>, i: nat)
    requires |a| == |b| && i < |a|
    ensures Dot(a[..i + 1], b[..i + 1]) == Dot(a[..i], b[..i]) + Prod(a[i], b[i])
  {
    assert a[..i + 1][..i] == a[..i];
    assert b[..i + 1][..i] == b[..i];
  }

  /** The matrix product: entry (i, j) is row i of `a` against column j of `b`. */
  function MatMul(a: Mat<real>, b: Mat<real>): (p: Mat<real>)
    requires Valid(a) && Valid(b) && a.cols == b.rows
    ensures Valid(p) && p.rows == a.rows && p.cols == b.cols
    ensures forall i: nat, j: nat :: i < p.rows && j < p.cols ==> At(p, i, j) == Dot(Row(a, i), Column(b, j))
  {
    Build(a.rows, b.cols, (i: nat, j: nat) requires i < a.rows && j < b.cols => Dot(Row(a, i), Column(b, j)))
  }

  /** The `var sum` loop of `times`: row r of `a` against column c of `b`. */
  method RowTimesColumn(a: Mat<real>, b: Mat<real>, r: nat, c: nat) returns (sum: real)
    requires Valid(a) && Valid(b) && a.cols == b.rows && r < a.rows && c < b.cols
    ensures sum == Dot(Row(a, r), Column(b, c))
  {
    ghost var x, y := Row(a, r), Column(b, c);
    sum := 0.0;
    var i: nat := 0;
    while i < a.cols
      invariant i <= a.cols
      invariant sum == Dot(x[..i], y[..i])
    {
      DotPrefixStep(x, y, i);
      sum := sum + At(a, r, i) * At(b, i, c);
      i := i + 1;
    }
    assert x[..i] == x && y[..i] == y;
  }

  /** Offset k of the product holds the entry of cell (r, c) when k = r·cols + c. */
  lemma MatMulOffset(a: Mat<real>, b: Mat<real>, k: nat, r: nat, c: nat)
    requires Valid(a) && Valid(b) && a.cols == b.rows && r < a.rows && c < b.cols
    requires k == r * b.cols + c && k < a.rows * b.cols
    ensures k < |MatMul(a, b).data|
    ensures MatMul(a, b).data[k] == Dot(Row(a, r), Column(b, c))
  {
    assert At(MatMul(a, b), r, c) == Dot(Row(a, r), Column(b, c));
  }

  /**
   * `times(other)`: offset `k` of the product is the `var sum` loop over
   * row k / other.cols of `a` and column k % other.cols of `b`.
   */
  method Times(a: Mat<real>, b: Mat<real>) returns (res: Result<Mat<real>>)
    requires Valid(a) && Valid(b)
    ensures res.Ok? <==> a.cols == b.rows
    ensures res.Err? ==> res.error == IllegalArgument
    ensures res.Ok? ==> res.value == MatMul(a, b)
  {
    if a.cols != b.rows {
      return Err(IllegalArgument);
    }
    ghost var p := MatMul(a, b);
    var n: nat := a.rows * b.cols;
    var data := new real[n];
    var k: nat := 0;
    while k < n
      invariant k <= n == |p.data| == data.Length
      invariant forall k' :: 0 <= k' < k ==> data[k'] == p.data[k']
    {
      RowMajor.OffsetOfCell(k, a.rows, b.cols);
      var r: nat, c: nat := k / b.cols, k % b.cols;
      var sum := RowTimesColumn(a, b, r, c);
      MatMulOffset(a, b, k, r, c);
      data[k] := sum;
      k := k + 1;
    }
    assert data[..] == p.data;
    return Ok(Mat(a.rows, b.cols, data[..]));
  }

  /** Entry-wise sum of two matrices of one shape (`plus`). */
  function Add(a: Mat<real>, b: Mat<real>): (r: Mat<real>)
    requires Valid(a) && Valid(b) && a.rows == b.rows && a.cols == b.cols
    ensures Valid(r) && r.rows == a.rows && r.cols == a.cols
    ensures forall i: nat, j: nat :: i < r.rows && j < r.cols ==> At(r, i, j) == At(a, i, j) + At(b, i, j)
  {
    Build(a.rows, a.cols, (i: nat, j: nat) requires i < a.rows && j < a.cols => At(a, i, j) + At(b, i, j))
  }

  /** Entry-wise difference (`minus`): what must be added to `b` to get `a`. */
  function Sub(a: Mat<real>, b: Mat<real>): (r: Mat<real>)
    requires Valid(a) && Valid(b) && a.rows == b.rows && a.cols == b.cols
    ensures Valid(r) && r.rows == a.rows && r.cols == a.cols
    ensures forall i: nat, j: nat :: i < r.rows && j < r.cols ==> At(r, i, j) == At(a, i, j) - At(b, i, j)
    ensures Add(r, b) == a
  {
    var r := Build(a.rows, a.cols, (i: nat, j: nat) requires i < a.rows && j < a.cols => At(a, i, j) - At(b, i, j));
    Extensionality(Add(r, b), a);
    r
  }

  /** Multiplication by a scalar (`times(Number)` on either side). */
  function Scale(m: Mat<real>, f: real): (r: Mat<real>)
    requires Valid(m)
    ensures Valid(r) && r.rows == m.rows && r.cols == m.cols
    ensures forall i: nat, j: nat :: i < r.rows && j < r.cols ==> At(r, i, j) == Prod(f, At(m, i, j))
  {
    Build(m.rows, m.cols, (i: nat, j: nat) requires i < m.rows && j < m.cols => Prod(f, At(m, i, j)))
  }

  /**
   * `addRow(src, dst, f)`: row dst becomes dst + f·src, every other row is
   * kept.  Both indices must be rows and must differ.
   */
  function AddRow(m: Mat<real>, src: int, dst: int, f: real): (res: Result<Mat<real>>)
    requires Valid(m)
    ensures res.Ok? <==> 0 <= src < m.rows && 0 <= dst < m.rows && src != dst
    ensures res.Err? ==> res.error == IllegalArgument
    ensures res.Ok? ==> Valid(res.value) && res.value.rows == m.rows && res.value.cols == m.cols
    ensures res.Ok? ==> forall i: nat, j: nat :: i < m.rows && j < m.cols ==>
      At(res.value, i, j) == if i == dst then At(m, dst, j) + Prod(f, At(m, src, j)) else At(m, i, j)
  {
    if src < 0 || dst < 0 || src >= m.rows || dst >= m.rows then Err(IllegalArgument)
    else if src == dst then Err(IllegalArgument)
    else Ok(Build(m.rows, m.cols, (i: nat, j: nat) requires i < m.rows && j < m.cols =>
      if i == dst then At(m, dst, j) + Prod(f, At(m, src, j)) else At(m, i, j)))
  }

  /** Adding −f times the same row afterwards undoes `addRow`. */
  lemma AddRowUndo(m: Mat<real>, src: nat, dst: nat, f: real)
    requires Valid(m) && src < m.rows && dst < m.rows && src != dst
    ensures AddRow(AddRow(m, src, dst, f).value, src, dst, -f) == Ok(m)
  {
    var once := AddRow(m, src, dst, f).value;
    var twice := AddRow(once, src, dst, -f).value;
    forall i: nat, j: nat | i < m.rows && j < m.cols
      ensures At(twice, i, j) == At(m, i, j)
    {
      AddRowUndoCell(m, once, twice, src, dst, f, i, j);
    }
    Extensionality(twice, m);
  }

  /** One cell of `AddRowUndo`. */
  lemma AddRowUndoCell(m: Mat<real>, once: Mat<real>, twice: Mat<real>, src: nat, dst: nat, f: real, i: nat, j: nat)
    requires Valid(m) && src < m.rows && dst < m.rows && src != dst && i < m.rows && j < m.cols
    requires AddRow(m, src, dst, f) == Ok(once) && AddRow(once, src, dst, -f) == Ok(twice)
    ensures At(twice, i, j) == At(m, i, j)
  {
    if i == dst {
      var x, y := At(m, dst, j), At(m, src, j);
      assert At(once, src, j) == y && At(once, dst, j) == x + Prod(f, y);
      assert At(twice, i, j) == (x + Prod(f, y)) + Prod(-f, y);
    } else {
      assert At(twice, i, j) == At(once, i, j);
    }
  }

  /** The identity of order n ≥ 1. */
  function Eye(n: nat): (e: Mat<real>)
    requires n >= 1
    ensures Valid(e) && e.rows == n && e.cols == n
    ensures forall i: nat, j: nat :: i < n && j < n ==> At(e, i, j) == if i == j then 1.0 else 0.0
  {
    Build(n, n, (i: nat, j: nat) requires i < n && j < n => if i == j then 1.0 else 0.0)
  }

  /**
   * `identityMatrix(n)`; a non-positive order makes the shape check of the
   * constructor throw.
   */
  function IdentityMatrix(n: int): (res: Result<Mat<real>>)
    ensures res.Ok? <==> n >= 1
    ensures res.Err? ==> res.error == IllegalArgument
    ensures res.Ok? ==> res.value == Eye(n)
  {
    if n < 1 then Err(IllegalArgument) else Ok(Eye(n))
  }

  /**
   * `rowSwitchingMatrix(n, i, j)`: the identity with rows i and j exchanged.
   * An index ≥ n is rejected up front, a negative one by `switchRow`.
   */
  function RowSwitchingMatrix(n: int, i: int, j: int): (res: Result<Mat<real>>)
    ensures res.Ok? <==> 0 <= i < n && 0 <= j < n
    ensures res.Err? ==> res.error == IllegalArgument
    ensures res.Ok? ==> Valid(res.value) && res.value.rows == n && res.value.cols == n
    ensures res.Ok? ==> forall r: nat, c: nat :: r < n && c < n ==>
      At(res.value, r, c) == if c == Swapped(r, i, j) then 1.0 else 0.0
  {
    if i >= n || j >= n then Err(IllegalArgument)
    else if n < 1 then Err(IllegalArgument)
    else SwitchRow(Eye(n), i, j)
  }

  /** Rows of `sigma` index the columns holding a 1: the permutation matrix of `sigma`. */
  function PermMatrix(sigma: seq<nat>): (p: Mat<real>)
    requires |sigma| >= 1 && forall i :: 0 <= i < |sigma| ==> sigma[i] < |sigma|
    ensures Valid(p) && p.rows == |sigma| && p.cols == |sigma|
    ensures forall i: nat, j: nat :: i < p.rows && j < p.cols ==> At(p, i, j) == if j == sigma[i] then 1.0 else 0.0
  {
    var n := |sigma|;
    Build(n, n, (i: nat, j: nat) requires i < n && j < n => if j == sigma[i] then 1.0 else 0.0)
  }

  /** `sigma` maps [0, n) into itself; it is a permutation when it is also injective. */
  predicate InRange(sigma: seq<nat>, n: nat) {
    |sigma| == n && forall i :: 0 <= i < n ==> sigma[i] < n
  }

  predicate IsPermutation(sigma: seq<nat>, n: nat) {
    InRange(sigma, n) && forall i, j :: 0 <= i < j < n ==> sigma[i] != sigma[j]
  }

  /** Multiplying by a 0/1 matrix with one 1 per row, at column sigma[i], reads row sigma[i]. */
  lemma PermTimes(sigma: seq<nat>, m: Mat<real>)
    requires |sigma| >= 1 && InRange(sigma, |sigma|) && Valid(m) && m.rows == |sigma|
    ensures forall i: nat, j: nat :: i < m.rows && j < m.cols ==>
      At(MatMul(PermMatrix(sigma), m), i, j) == At(m, sigma[i], j)
  {
    var p := PermMatrix(sigma);
    forall i: nat, j: nat | i < m.rows && j < m.cols
      ensures At(MatMul(p, m), i, j) == At(m, sigma[i], j)
    {
      DotUnit(Row(p, i), Column(m, j), sigma[i]);
    }
  }

  /** The identity is the permutation matrix of the identity permutation, and is neutral. */
  lemma EyeTimes(m: Mat<real>)
    requires Valid(m)
    ensures MatMul(Eye(m.rows), m) == m
  {
    var id := seq(m.rows, i requires 0 <= i < m.rows => i as nat);
    assert Eye(m.rows) == PermMatrix(id) by {
      Extensionality(Eye(m.rows), PermMatrix(id));
    }
    PermTimes(id, m);
    Extensionality(MatMul(Eye(m.rows), m), m);
  }

  /** Multiplying by `rowSwitchingMatrix(n, i, j)` on the left switches rows i and j. */
  lemma RowSwitchingTimes(m: Mat<real>, i: nat, j: nat)
    requires Valid(m) && i < m.rows && j < m.rows
    ensures MatMul(RowSwitchingMatrix(m.rows, i, j).value, m) == SwitchRow(m, i, j).value
  {
    var n := m.rows;
    var tau := seq(n, r requires 0 <= r < n => Swapped(r, i, j));
    assert RowSwitchingMatrix(n, i, j).value == PermMatrix(tau) by {
      Extensionality(RowSwitchingMatrix(n, i, j).value, PermMatrix(tau));
    }
    PermTimes(tau, m);
    Extensionality(MatMul(RowSwitchingMatrix(n, i, j).value, m), SwitchRow(m, i, j).value);
  }
}
