/**
 * `Matrix.plu()` step by step: the pivot loop, the row-switching matrix,
 * the three blocks, the recursive call on A′ − (v·wᵀ)·c, and the three
 * result matrices built in place on fresh identity matrices with `set` and
 * `setSubmatrix`.  The method computes exactly `RealPlu.Plu`.
 */
module RealPluMethod {
  import opened Wrappers
  import opened Dense
  import opened RealMatrices
  import opened Pivoting
  import opened RealPivot
  import opened RealPlu
  import Storage

  /** `Matrix.plu()`: the same factors as `Plu`, or the same error. */
  method PluMethod(m: Mat<real>) returns (res: Result<Factors>)
    requires Valid(m)
    ensures res == Plu(m)
    decreases m.rows
  {
    if m.rows != m.cols {
      return Err(IllegalArgument);
    }
    var n := m.rows;
    if n == 1 {
      return Ok(Factors(Eye(1), Eye(1), m));
    }
    var switchIndex, a := PivotSearch(m);
    var matP1 := RowSwitchingMatrix(n, 0, switchIndex);
    if matP1.Err? {
      return Err(matP1.error);
    }
    var matP1A := SwitchRow(m, 0, switchIndex).value;
    assert matP1A == PivotOnTop(m, switchIndex);
    var v := GetSubmatrix(matP1A, 1, n, 0, 1).value;
    var wT := GetSubmatrix(matP1A, 0, 1, 1, n).value;
    var c := if a != 0.0 then 1.0 / a else 0.0;
    var matAPrime := GetSubmatrix(matP1A, 1, n, 1, n).value;
    var vw := Times(v, wT);
    assert At(matP1A, 0, 0) == a;
    assert Sub(matAPrime, Scale(vw.value, c)) == Reduced(matP1A);
    var pluPrime := PluMethod(Sub(matAPrime, Scale(vw.value, c)));
    if pluPrime.Err? {
      return Err(pluPrime.error);
    }
    var f := pluPrime.value;
    var cvPrime := Times(Scale(f.p, c), v);

    var matP := BuildP(f.p, matP1.value);
    var matL := BuildL(f.l, cvPrime.value);
    var matU := BuildU(a, wT, f.u);
    assert Plu(m) == Ok(Assemble(m, switchIndex, f));
    return Ok(Factors(matP, matL, matU));
  }

  /** `matP = matPprime * matP1`, with P′ written into the trailing block of a fresh identity. */
  method BuildP(pp: Mat<real>, p1: Mat<real>) returns (matP: Mat<real>)
    requires Valid(pp) && pp.rows == pp.cols && Valid(p1) && p1.rows == pp.rows + 1 && p1.cols == pp.rows + 1
    ensures matP == MatMul(Bordered(pp), p1)
  {
    var n := pp.rows + 1;
    var matPprime := new Storage.Matrix(Eye(n));
    var blockP := new Storage.Matrix(pp);
    var o := matPprime.SetSubmatrix(1, n, 1, n, blockP);
    var r := Times(matPprime.Value(), p1);
    matP := r.value;
  }

  /** `matL`: L′ into the trailing block, then cv′ into column 0 below the diagonal. */
  method BuildL(lp: Mat<real>, cv: Mat<real>) returns (matL: Mat<real>)
    requires Valid(lp) && lp.rows == lp.cols && Valid(cv) && cv.rows == lp.rows && cv.cols == 1
    ensures matL == Lower(lp, cv)
  {
    var n := lp.rows + 1;
    var l := new Storage.Matrix(Eye(n));
    var blockL := new Storage.Matrix(lp);
    var blockCv := new Storage.Matrix(cv);
    var o := l.SetSubmatrix(1, n, 1, n, blockL);
    o := l.SetSubmatrix(1, n, 0, 1, blockCv);
    matL := l.Value();
  }

  /** `matU`: a at (0, 0), wᵀ beside it, U′ into the trailing block. */
  method BuildU(a: real, w: Mat<real>, up: Mat<real>) returns (matU: Mat<real>)
    requires Valid(up) && up.rows == up.cols && Valid(w) && w.rows == 1 && w.cols == up.rows
    ensures matU == Upper(a, w, up)
  {
    var n := up.rows + 1;
    var u := new Storage.Matrix(Eye(n));
    var blockW := new Storage.Matrix(w);
    var blockU := new Storage.Matrix(up);
    var o := u.Set(0, 0, a);
    o := u.SetSubmatrix(0, 1, 1, n, blockW);
    o := u.SetSubmatrix(1, n, 1, n, blockU);
    matU := u.Value();
  }
}
