/**
 * The real `determinant()`: for order 1 and 2 the closed forms, otherwise
 * the first nonzero entry `a` of column 0 is switched to the top and the
 * determinant is sign·a·det(A′ − (v·wᵀ)·(1/a)) of order n − 1, with sign −1
 * exactly when a row switch happened.  A column of zeros gives 0.
 */
module RealDeterminant {
  import opened Wrappers
  import opened Dense
  import opened RealMatrices
  import opened Pivoting
  import opened RealPivot

  /** The value the recursion of `determinant()` computes. */
  function Det(m: Mat<real>): real
    requires Valid(m) && m.rows == m.cols
    decreases m.rows, 1
  {
    if m.rows == 1 then At(m, 0, 0)
    else if m.rows == 2 then Prod(At(m, 0, 0), At(m, 1, 1)) - Prod(At(m, 0, 1), At(m, 1, 0))
    else PivotStep(m)
  }

  /** The closed form of order 2, as a fact for callers with much else in view. */
  lemma DetOfOrder2(m: Mat<real>)
    requires Valid(m) && m.rows == m.cols == 2
    ensures Det(m) == Prod(At(m, 0, 0), At(m, 1, 1)) - Prod(At(m, 0, 1), At(m, 1, 0))
  {}

  /**
   * Order n ≥ 3: 0 for a zero column 0, otherwise sign·a·det of the reduced
   * matrix, row s = `FirstNonzero` switched to the top.
   */
  function PivotStep(m: Mat<real>): real
    requires Valid(m) && m.rows == m.cols >= 2
    decreases m.rows, 0
  {
    var s := FirstNonzero(Column(m, 0), 0.0);
    if s == m.rows then 0.0
    else
      var p := PivotOnTop(m, s);
      assert At(p, 0, 0) == Column(m, 0)[s];
      Prod(Prod(SwitchSign(s), At(m, s, 0)), Det(Reduced(p)))
  }

  /**
   * `Matrix.determinant()`: a non-square matrix is rejected; otherwise the
   * pivot loop, the row switch, the three blocks and the product v·wᵀ are
   * computed as the source does and the method recurses on order n − 1.
   */
  method Determinant(m: Mat<real>) returns (res: Result<real>)
    requires Valid(m)
    ensures res.Ok? <==> m.rows == m.cols
    ensures res.Err? ==> res.error == IllegalArgument
    ensures res.Ok? ==> res.value == Det(m)
    decreases m.rows
  {
    if m.rows != m.cols {
      return Err(IllegalArgument);
    }
    if m.rows == 1 {
      return Ok(At(m, 0, 0));
    }
    if m.rows == 2 {
      return Ok(At(m, 0, 0) * At(m, 1, 1) - At(m, 0, 1) * At(m, 1, 0));
    }
    var switchIndex, a := PivotSearch(m);
    if a == 0.0 {
      return Ok(0.0);
    }
    var sign := 1.0;
    if switchIndex != 0 {
      sign := -1.0;
    }
    var matP1A := SwitchRow(m, 0, switchIndex).value;
    assert matP1A == PivotOnTop(m, switchIndex);
    var v := GetSubmatrix(matP1A, 1, m.rows, 0, 1).value;
    var wT := GetSubmatrix(matP1A, 0, 1, 1, m.cols).value;
    var c := 1.0 / a;
    var matAPrime := GetSubmatrix(matP1A, 1, m.rows, 1, m.cols).value;
    var vw := Times(v, wT);
    assert At(matP1A, 0, 0) == a;
    assert Sub(matAPrime, Scale(vw.value, c)) == Reduced(matP1A);
    var sub := Determinant(Sub(matAPrime, Scale(vw.value, c)));
    return Ok(Prod(Prod(sign, a), sub.value));
  }

  /** The entries of the main diagonal from position k on. */
  function DiagonalFrom(m: Mat<real>, k: nat): (d: seq<real>)
    requires Valid(m) && m.rows == m.cols && k <= m.rows
    ensures |d| == m.rows - k && forall i :: 0 <= i < |d| ==> d[i] == At(m, k + i, k + i)
  {
    seq(m.rows - k, i requires 0 <= i < m.rows - k => At(m, k + i, k + i))
  }

  /** The product of a sequence of reals. */
  function Product(s: seq<real>): real {
    if |s| == 0 then 1.0 else Prod(s[0], Product(s[1..]))
  }

  /** A factor 0 anywhere makes the product 0. */
  lemma {:induction false} ProductZero(s: seq<real>, k: nat)
    requires k < |s| && s[k] == 0.0
    ensures Product(s) == 0.0
  {
    if k > 0 {
      ProductZero(s[1..], k - 1);
    }
  }

  /** Every entry below the main diagonal is zero. */
  predicate UpperTriangular(m: Mat<real>)
    requires Valid(m)
  {
    forall i: nat, j: nat :: j < i < m.rows && j < m.cols ==> At(m, i, j) == 0.0
  }

  /**
   * With a zero column under the pivot, the reduced matrix is the trailing
   * block: nothing is subtracted.
   */
  lemma ReducedOfZeroColumn(p: Mat<real>)
    requires Valid(p) && p.rows == p.cols >= 2 && At(p, 0, 0) != 0.0
    requires forall i: nat :: 1 <= i < p.rows ==> At(p, i, 0) == 0.0
    ensures forall i: nat, j: nat :: i < p.rows - 1 && j < p.rows - 1 ==> At(Reduced(p), i, j) == At(p, i + 1, j + 1)
  {
    var r := Reduced(p);
    forall i: nat, j: nat | i < r.rows && j < r.cols
      ensures At(r, i, j) == At(p, i + 1, j + 1)
    {
      assert At(p, i + 1, 0) == 0.0;
      assert Prod(At(p, i + 1, 0), At(p, 0, j + 1)) == 0.0;
    }
  }

  /**
   * The determinant of an upper triangular matrix is the product of its
   * diagonal: the pivot is the top-left entry (no switch), or column 0 is
   * zero and so is the product.
   */
  lemma {:induction false} DetUpperTriangular(m: Mat<real>)
    requires Valid(m) && m.rows == m.cols && UpperTriangular(m)
    ensures Det(m) == Product(DiagonalFrom(m, 0))
    decreases m.rows
  {
    var d := DiagonalFrom(m, 0);
    if m.rows == 1 {
      assert d[1..] == [];
    } else if m.rows == 2 {
      assert d[1..][1..] == [];
      assert At(m, 1, 0) == 0.0 && Prod(At(m, 0, 1), At(m, 1, 0)) == 0.0;
      assert Product(d[1..]) == Prod(d[1], 1.0) == At(m, 1, 1);
    } else {
      var col := Column(m, 0);
      if At(m, 0, 0) == 0.0 {
        FirstNonzeroUnique(col, 0.0, m.rows);
        ProductZero(d, 0);
      } else {
        FirstNonzeroUnique(col, 0.0, 0);
        var p := PivotOnTop(m, 0);
        assert p == m;
        ReducedOfZeroColumn(m);
        var r := Reduced(m);
        assert UpperTriangular(r);
        DetUpperTriangular(r);
        assert DiagonalFrom(r, 0) == d[1..];
      }
    }
  }

  /** The identity has determinant 1. */
  lemma DetEye(n: nat)
    requires n >= 1
    ensures Det(Eye(n)) == 1.0
  {
    var e := Eye(n);
    DetUpperTriangular(e);
    ProductOfOnes(DiagonalFrom(e, 0));
  }

  lemma {:induction false} ProductOfOnes(s: seq<real>)
    requires forall i :: 0 <= i < |s| ==> s[i] == 1.0
    ensures Product(s) == 1.0
  {
    if |s| > 0 {
      ProductOfOnes(s[1..]);
    }
  }

  /** A matrix whose column 0 is zero has determinant 0, in every order. */
  lemma DetZeroColumn(m: Mat<real>)
    requires Valid(m) && m.rows == m.cols
    requires forall i: nat :: i < m.rows ==> At(m, i, 0) == 0.0
    ensures Det(m) == 0.0
  {
    if m.rows == 2 {
      assert At(m, 0, 0) == 0.0 && At(m, 1, 0) == 0.0;
    } else if m.rows > 2 {
      FirstNonzeroUnique(Column(m, 0), 0.0, m.rows);
    }
  }

  /** Past the pivot of the identity nothing is subtracted: the identity of order n − 1 remains. */
  lemma ReducedOfEye(n: nat)
    requires n >= 2
    ensures Reduced(Eye(n)) == Eye(n - 1)
  {
    ReducedOfZeroColumn(Eye(n));
    Extensionality(Reduced(Eye(n)), Eye(n - 1));
  }

  /**
   * `rowSwitchingMatrix(n, 0, s)` with s ≠ 0 has determinant −1: the pivot
   * search stops at row s, the switch restores the identity, and the sign
   * of the single switch is −1.
   */
  lemma DetRowSwitching(n: nat, s: nat)
    requires 1 <= s < n
    ensures Det(RowSwitchingMatrix(n, 0, s).value) == -1.0
  {
    var r := RowSwitchingMatrix(n, 0, s).value;
    if n == 2 {
      DetSwitchOfOrder2(r);
    } else {
      DetSwitchStep(r, s);
    }
  }

  /** Order 2: the closed form on [[0, 1], [1, 0]]. */
  lemma DetSwitchOfOrder2(r: Mat<real>)
    requires Valid(r) && r.rows == r.cols == 2
    requires forall i: nat, j: nat :: i < 2 && j < 2 ==> At(r, i, j) == if j == Swapped(i, 0, 1) then 1.0 else 0.0
    ensures Det(r) == -1.0
  {
    DetOfOrder2(r);
    assert At(r, 0, 0) == 0.0 && At(r, 1, 1) == 0.0 && At(r, 0, 1) == 1.0 && At(r, 1, 0) == 1.0;
  }

  /** Order n ≥ 3: one switch, then the identity. */
  lemma DetSwitchStep(r: Mat<real>, s: nat)
    requires Valid(r) && r.rows == r.cols >= 3 && 1 <= s < r.rows
    requires forall i: nat, j: nat :: i < r.rows && j < r.cols ==> At(r, i, j) == if j == Swapped(i, 0, s) then 1.0 else 0.0
    ensures Det(r) == -1.0
  {
    var n := r.rows;
    FirstNonzeroUnique(Column(r, 0), 0.0, s);
    SwitchBackToEye(r, s);
    ReducedOfEye(n);
    DetEye(n - 1);
    var d := Det(Reduced(PivotOnTop(r, s)));
    assert d == 1.0;
    assert At(r, s, 0) == 1.0 && SwitchSign(s) == -1.0;
    assert PivotStep(r) == Prod(Prod(SwitchSign(s), At(r, s, 0)), d);
    assert Det(r) == PivotStep(r);
  }

  /** Switching rows 0 and s of the row-switching matrix gives back the identity. */
  lemma SwitchBackToEye(r: Mat<real>, s: nat)
    requires Valid(r) && r.rows == r.cols && s < r.rows
    requires forall i: nat, j: nat :: i < r.rows && j < r.cols ==> At(r, i, j) == if j == Swapped(i, 0, s) then 1.0 else 0.0
    ensures PivotOnTop(r, s) == Eye(r.rows)
  {
    Extensionality(PivotOnTop(r, s), Eye(r.rows));
  }
}
