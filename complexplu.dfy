/**
 * The complex `plu()`: the real recursion over complex entries.  An entry
 * is zero when both parts are; c = 1/a is the complex reciprocal; the
 * row-switching matrix and the identities are real ones made complex.
 * P is again the (real) permutation matrix of `Sigma`, L is unit lower
 * triangular and U is upper triangular.
 */
module ComplexPlu {
  import opened Wrappers
  import opened Dense
  import C = ComplexNumbers
  import opened ComplexMatrices
  import opened Pivoting
  import opened ComplexPivot
  import RealMatrices
  import RealPlu

  /** The array `{P, L, U}` that the complex `plu` returns. */
  datatype Factors = Factors(p: Mat<Complex>, l: Mat<Complex>, u: Mat<Complex>)

  /** All three factors are n×n. */
  predicate Square(f: Factors, n: nat) {
    Valid(f.p) && Valid(f.l) && Valid(f.u)
    && f.p.rows == n && f.p.cols == n && f.l.rows == n && f.l.cols == n && f.u.rows == n && f.u.cols == n
  }

  /** diag(1, x): the identity made complex, with x written into its trailing block. */
  function Bordered(x: Mat<Complex>): (b: Mat<Complex>)
    requires Valid(x) && x.rows == x.cols
    ensures Valid(b) && b.rows == x.rows + 1 && b.cols == x.rows + 1
  {
    Overwrite(Eye(x.rows + 1), 1, 1, x)
  }

  /** `matL`: the identity with L′ in the trailing block and cv below the diagonal in column 0. */
  function Lower(lp: Mat<Complex>, cv: Mat<Complex>): (l: Mat<Complex>)
    requires Valid(lp) && lp.rows == lp.cols && Valid(cv) && cv.rows == lp.rows && cv.cols == 1
    ensures Valid(l) && l.rows == lp.rows + 1 && l.cols == lp.rows + 1
  {
    Overwrite(Overwrite(Eye(lp.rows + 1), 1, 1, lp), 1, 0, cv)
  }

  /** `matU`: the identity with a at (0, 0), wᵀ beside it and U′ in the trailing block. */
  function Upper(a: Complex, w: Mat<Complex>, up: Mat<Complex>): (u: Mat<Complex>)
    requires Valid(up) && up.rows == up.cols && Valid(w) && w.rows == 1 && w.cols == up.rows
    ensures Valid(u) && u.rows == up.rows + 1 && u.cols == up.rows + 1
  {
    Overwrite(Overwrite(Update(Eye(up.rows + 1), 0, 0, a).value, 0, 1, w), 1, 1, up)
  }

  /** The factors of order n assembled from pivot row s and the factors f of the reduced matrix. */
  function Assemble(m: Mat<Complex>, s: nat, f: Factors): (g: Factors)
    requires Valid(m) && m.rows == m.cols >= 2 && s < m.rows && At(m, s, 0) != C.Zero
    requires Square(f, m.rows - 1)
    ensures Square(g, m.rows)
  {
    var b := PivotOnTop(m, s);
    var cv := MatMul(Scale(f.p, Reciprocal(At(m, s, 0))), Below(b));
    Factors(MatMul(Bordered(f.p), Embed(RealMatrices.RowSwitchingMatrix(m.rows, 0, s).value)),
            Lower(f.l, cv),
            Upper(At(m, s, 0), Beside(b), f.u))
  }

  /**
   * The value of the complex `plu()`.  A non-square matrix is rejected; so
   * is a zero column 0 at any level of the recursion, where `switchIndex`
   * reaches `rows` and `rowSwitchingMatrix(rows, 0, rows)` throws.
   */
  function Plu(m: Mat<Complex>): (res: Result<Factors>)
    requires Valid(m)
    ensures res.Err? ==> res.error == IllegalArgument
    ensures res.Ok? ==> m.rows == m.cols && Square(res.value, m.rows)
    ensures m.rows != m.cols ==> res.Err?
    decreases m.rows
  {
    if m.rows != m.cols then Err(IllegalArgument)
    else if m.rows == 1 then Ok(Factors(Eye(1), Eye(1), m))
    else
      var s := FirstNonzero(Column(m, 0), C.Zero);
      if s == m.rows then Err(IllegalArgument)
      else
        var b := PivotOnTop(m, s);
        assert At(b, 0, 0) == Column(m, 0)[s];
        var r := Plu(Reduced(b));
        if r.Err? then Err(r.error) else Ok(Assemble(m, s, r.value))
  }

  /** One level of the recursion: the pivot row exists and the reduced matrix decomposes. */
  lemma Unfold(m: Mat<Complex>)
    requires Valid(m) && Plu(m).Ok? && m.rows >= 2
    ensures FirstNonzero(Column(m, 0), C.Zero) < m.rows
    ensures At(PivotOnTop(m, FirstNonzero(Column(m, 0), C.Zero)), 0, 0) != C.Zero
    ensures Plu(Reduced(PivotOnTop(m, FirstNonzero(Column(m, 0), C.Zero)))).Ok?
    ensures Plu(m).value == Assemble(m, FirstNonzero(Column(m, 0), C.Zero), Plu(Reduced(PivotOnTop(m, FirstNonzero(Column(m, 0), C.Zero)))).value)
  {
    var s := FirstNonzero(Column(m, 0), C.Zero);
    assert At(PivotOnTop(m, s), 0, 0) == Column(m, 0)[s];
  }

  /** A zero column 0 of order n ≥ 2 makes `rowSwitchingMatrix(n, 0, n)` throw. */
  lemma PluZeroColumn(m: Mat<Complex>)
    requires Valid(m) && m.rows == m.cols >= 2
    requires forall i: nat :: i < m.rows ==> At(m, i, 0) == C.Zero
    ensures Plu(m) == Err(IllegalArgument)
  {
    FirstNonzeroUnique(Column(m, 0), C.Zero, m.rows);
  }

  /** The row order that P applies: P = the permutation matrix of `Sigma`, made complex. */
  function Sigma(m: Mat<Complex>): (sigma: seq<nat>)
    requires Valid(m) && Plu(m).Ok?
    ensures |sigma| == m.rows
    decreases m.rows
  {
    if m.rows == 1 then [0]
    else
      Unfold(m);
      var s := FirstNonzero(Column(m, 0), C.Zero);
      RealPlu.Lift(Sigma(Reduced(PivotOnTop(m, s))), s)
  }

  /** The inverse of `Sigma`, built the other way round. */
  function Rho(m: Mat<Complex>): (rho: seq<nat>)
    requires Valid(m) && Plu(m).Ok?
    ensures |rho| == m.rows
    decreases m.rows
  {
    if m.rows == 1 then [0]
    else
      Unfold(m);
      var s := FirstNonzero(Column(m, 0), C.Zero);
      RealPlu.LiftInverse(Rho(Reduced(PivotOnTop(m, s))), s)
  }

  /** `Sigma` is a permutation of [0, n), with inverse `Rho`. */
  lemma {:induction false} SigmaIsPermutation(m: Mat<Complex>)
    requires Valid(m) && Plu(m).Ok?
    ensures RealPlu.Inverses(Sigma(m), Rho(m), m.rows)
    ensures RealMatrices.IsPermutation(Sigma(m), m.rows)
    decreases m.rows
  {
    if m.rows > 1 {
      Unfold(m);
      var s := FirstNonzero(Column(m, 0), C.Zero);
      var r := Reduced(PivotOnTop(m, s));
      SigmaIsPermutation(r);
      RealPlu.LiftInverses(Sigma(r), Rho(r), s);
    }
    RealPlu.InversesArePermutations(Sigma(m), Rho(m), m.rows);
  }

  /** Bordering commutes with making a real matrix complex. */
  lemma BorderedOfEmbed(x: Mat<real>)
    requires Valid(x) && x.rows == x.cols
    ensures Bordered(Embed(x)) == Embed(RealPlu.Bordered(x))
  {
    Extensionality(Bordered(Embed(x)), Embed(RealPlu.Bordered(x)));
  }

  /** diag(1, P′)·P₁ for a permutation matrix P′ is the permutation matrix of the lifted permutation. */
  lemma AssembledPerm(m: Mat<Complex>, s: nat, f: Factors, t: seq<nat>)
    requires Valid(m) && m.rows == m.cols >= 2 && s < m.rows && At(m, s, 0) != C.Zero
    requires Square(f, m.rows - 1) && RealMatrices.InRange(t, m.rows - 1) && f.p == Embed(RealMatrices.PermMatrix(t))
    ensures RealMatrices.InRange(RealPlu.Lift(t, s), m.rows)
    ensures Assemble(m, s, f).p == Embed(RealMatrices.PermMatrix(RealPlu.Lift(t, s)))
  {
    var pt := RealMatrices.PermMatrix(t);
    var sw := RealMatrices.RowSwitchingMatrix(m.rows, 0, s).value;
    BorderedOfEmbed(pt);
    EmbedMatMul(RealPlu.Bordered(pt), sw);
    RealPlu.BorderedPerm(t, s);
  }

  /** P is the permutation matrix of `Sigma`, made complex. */
  lemma {:induction false} PIsPermMatrix(m: Mat<Complex>)
    requires Valid(m) && Plu(m).Ok?
    ensures RealMatrices.InRange(Sigma(m), m.rows)
    ensures Plu(m).value.p == Embed(RealMatrices.PermMatrix(Sigma(m)))
    decreases m.rows
  {
    if m.rows == 1 {
      Extensionality(Eye(1), Embed(RealMatrices.PermMatrix(Sigma(m))));
    } else {
      Unfold(m);
      var s := FirstNonzero(Column(m, 0), C.Zero);
      var r := Reduced(PivotOnTop(m, s));
      PIsPermMatrix(r);
      AssembledPerm(m, s, Plu(r).value, Sigma(r));
    }
  }

  /** Every entry above the main diagonal is zero and every diagonal entry is one. */
  predicate UnitLowerTriangular(m: Mat<Complex>)
    requires Valid(m) && m.rows == m.cols
  {
    forall i: nat, j: nat :: i <= j < m.rows ==> At(m, i, j) == if i == j then C.One else C.Zero
  }

  /** Every entry below the main diagonal is zero. */
  predicate UpperTriangular(m: Mat<Complex>)
    requires Valid(m)
  {
    forall i: nat, j: nat :: j < i < m.rows && j < m.cols ==> At(m, i, j) == C.Zero
  }

  /** L is unit lower triangular and U is upper triangular, in every order. */
  lemma {:induction false} Triangular(m: Mat<Complex>)
    requires Valid(m) && Plu(m).Ok?
    ensures UnitLowerTriangular(Plu(m).value.l)
    ensures UpperTriangular(Plu(m).value.u)
    decreases m.rows
  {
    if m.rows > 1 {
      Unfold(m);
      var s := FirstNonzero(Column(m, 0), C.Zero);
      var r := Reduced(PivotOnTop(m, s));
      Triangular(r);
      AssembledTriangular(m, s, Plu(r).value);
    }
  }

  /** Bordering keeps the shapes: row 0 of L is e₀, column 0 of U is a·e₀. */
  lemma AssembledTriangular(m: Mat<Complex>, s: nat, f: Factors)
    requires Valid(m) && m.rows == m.cols >= 2 && s < m.rows && At(m, s, 0) != C.Zero
    requires Square(f, m.rows - 1) && UnitLowerTriangular(f.l) && UpperTriangular(f.u)
    ensures UnitLowerTriangular(Assemble(m, s, f).l)
    ensures UpperTriangular(Assemble(m, s, f).u)
  {
    var g := Assemble(m, s, f);
    forall i: nat, j: nat | i <= j < m.rows
      ensures At(g.l, i, j) == if i == j then C.One else C.Zero
    {
      if i >= 1 {
        assert At(g.l, i, j) == At(f.l, i - 1, j - 1);
      }
    }
    forall i: nat, j: nat | j < i < m.rows
      ensures At(g.u, i, j) == C.Zero
    {
      if j >= 1 {
        assert At(g.u, i, j) == At(f.u, i - 1, j - 1);
      }
    }
  }

  /**
   * What the complex `plu` delivers when it returns: P is a real
   * permutation matrix made complex, L is unit lower triangular and U is
   * upper triangular.
   */
  lemma PluShapes(m: Mat<Complex>)
    requires Valid(m) && Plu(m).Ok?
    ensures RealMatrices.IsPermutation(Sigma(m), m.rows) && Plu(m).value.p == Embed(RealMatrices.PermMatrix(Sigma(m)))
    ensures UnitLowerTriangular(Plu(m).value.l) && UpperTriangular(Plu(m).value.u)
  {
    SigmaIsPermutation(m);
    PIsPermMatrix(m);
    Triangular(m);
  }
}

/**
 * The complex `ComplexMatrix.plu()` step by step, as in `RealPluMethod`,
 * with the pivot loop of the complex determinant and the real
 * row-switching matrix made complex with `toComplex()`.
 */
module ComplexPluMethod {
  import opened Wrappers
  import opened Dense
  import C = ComplexNumbers
  import opened ComplexMatrices
  import opened Pivoting
  import opened ComplexPivot
  import RealMatrices
  import opened ComplexPlu
  import Storage

  /** `ComplexMatrix.plu()`: the same factors as `Plu`, or the same error. */
  method PluMethod(m: Mat<Complex>) returns (res: Result<Factors>)
    requires Valid(m)
    ensures res == Plu(m)
    decreases m.rows
  {
    if m.rows != m.cols {
      return Err(IllegalArgument);
    }
    var n := m.rows;
    if n == 1 {
      EmbedEye(1);
      return Ok(Factors(Embed(RealMatrices.Eye(1)), Embed(RealMatrices.Eye(1)), m));
    }
    var _, switchIndex, a := PivotSearch(m);
    var p1 := RealMatrices.RowSwitchingMatrix(n, 0, switchIndex);
    if p1.Err? {
      return Err(p1.error);
    }
    var matP1 := Embed(p1.value);
    var matP1A := SwitchRow(m, 0, switchIndex).value;
    assert matP1A == PivotOnTop(m, switchIndex);
    var v := GetSubmatrix(matP1A, 1, n, 0, 1).value;
    var wT := GetSubmatrix(matP1A, 0, 1, 1, n).value;
    var c := if a != C.Zero then Reciprocal(a) else C.Zero;
    var matAPrime := GetSubmatrix(matP1A, 1, n, 1, n).value;
    var vw := Times(v, wT);
    assert At(matP1A, 0, 0) == a;
    assert Sub(matAPrime, Scale(vw.value, c)) == Reduced(matP1A);
    var pluPrime := PluMethod(Sub(matAPrime, Scale(vw.value, c)));
    if pluPrime.Err? {
      return Err(pluPrime.error);
    }
    var f := pluPrime.value;
    var cvPrime := Times(Scale(f.p, c), v);
    var matP := BuildP(f.p, matP1);
    var matL := BuildL(f.l, cvPrime.value);
    var matU := BuildU(a, wT, f.u);
    assert Plu(m) == Ok(Assemble(m, switchIndex, f));
    return Ok(Factors(matP, matL, matU));
  }

  /** `matP = matPprime * matP1`, with P′ written into the trailing block of a fresh identity. */
  method BuildP(pp: Mat<Complex>, p1: Mat<Complex>) returns (matP: Mat<Complex>)
    requires Valid(pp) && pp.rows == pp.cols && Valid(p1) && p1.rows == pp.rows + 1 && p1.cols == pp.rows + 1
    ensures matP == MatMul(Bordered(pp), p1)
  {
    var n := pp.rows + 1;
    var matPprime := new Storage.Matrix(Eye(n));
    var blockP := new Storage.Matrix(pp);
    var o := matPprime.SetSubmatrix(1, n, 1, n, blockP);
    var r := Times(matPprime.Value(), p1);
    matP := r.value;
  }

  /** `matL`: L′ into the trailing block, then cv′ into column 0 below the diagonal. */
  method BuildL(lp: Mat<Complex>, cv: Mat<Complex>) returns (matL: Mat<Complex>)
    requires Valid(lp) && lp.rows == lp.cols && Valid(cv) && cv.rows == lp.rows && cv.cols == 1
    ensures matL == Lower(lp, cv)
  {
    var n := lp.rows + 1;
    var l := new Storage.Matrix(Eye(n));
    var blockL := new Storage.Matrix(lp);
    var blockCv := new Storage.Matrix(cv);
    var o := l.SetSubmatrix(1, n, 1, n, blockL);
    o := l.SetSubmatrix(1, n, 0, 1, blockCv);
    matL := l.Value();
  }

  /** `matU`: a at (0, 0), wᵀ beside it, U′ into the trailing block. */
  method BuildU(a: Complex, w: Mat<Complex>, up: Mat<Complex>) returns (matU: Mat<Complex>)
    requires Valid(up) && up.rows == up.cols && Valid(w) && w.rows == 1 && w.cols == up.rows
    ensures matU == Upper(a, w, up)
  {
    var n := up.rows + 1;
    var u := new Storage.Matrix(Eye(n));
    var blockW := new Storage.Matrix(w);
    var blockU := new Storage.Matrix(up);
    var o := u.Set(0, 0, a);
    o := u.SetSubmatrix(0, 1, 1, n, blockW);
    o := u.SetSubmatrix(1, n, 1, n, blockU);
    matU := u.Value();
  }
}
