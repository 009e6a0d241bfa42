/**
 * The complex `determinant()`.  Its recursion is the real one over complex
 * entries, but the sign it applies is (−1)^switchIndex, flipped once per
 * zero passed in column 0, where a single switch of rows 0 and switchIndex
 * calls for −1 whenever switchIndex ≠ 0.  `DetAsWritten` is the value the
 * source computes; `Det` is the value with the real variant's sign rule,
 * which agrees with the real determinant on real matrices.
 */
module ComplexDeterminant {
  import opened Wrappers
  import opened Dense
  import C = ComplexNumbers
  import opened ComplexMatrices
  import opened Pivoting
  import opened ComplexPivot
  import RealMatrices
  import RealPivot
  import RealDeterminant

  /** The closed form for order 2. */
  function Det2(m: Mat<Complex>): Complex
    requires Valid(m) && m.rows == 2 && m.cols == 2
  {
    C.Sub(C.Mul(At(m, 0, 0), At(m, 1, 1)), C.Mul(At(m, 0, 1), At(m, 1, 0)))
  }

  /** The recursion of the complex `determinant()` as written: sign (−1)^switchIndex. */
  function DetAsWritten(m: Mat<Complex>): Complex
    requires Valid(m) && m.rows == m.cols
    decreases m.rows, 1
  {
    if m.rows == 1 then At(m, 0, 0)
    else if m.rows == 2 then Det2(m)
    else StepAsWritten(m)
  }

  function StepAsWritten(m: Mat<Complex>): Complex
    requires Valid(m) && m.rows == m.cols >= 2
    decreases m.rows, 0
  {
    var s := FirstNonzero(Column(m, 0), C.Zero);
    if s == m.rows then C.Zero
    else
      var p := PivotOnTop(m, s);
      assert At(p, 0, 0) == Column(m, 0)[s];
      C.Mul(C.Scale(At(m, s, 0), AlternatingSign(s) as real), DetAsWritten(Reduced(p)))
  }

  /** The same recursion with sign −1 exactly when a row switch happened. */
  function Det(m: Mat<Complex>): Complex
    requires Valid(m) && m.rows == m.cols
    decreases m.rows, 1
  {
    if m.rows == 1 then At(m, 0, 0)
    else if m.rows == 2 then Det2(m)
    else PivotStep(m)
  }

  function PivotStep(m: Mat<Complex>): Complex
    requires Valid(m) && m.rows == m.cols >= 2
    decreases m.rows, 0
  {
    var s := FirstNonzero(Column(m, 0), C.Zero);
    if s == m.rows then C.Zero
    else
      var p := PivotOnTop(m, s);
      assert At(p, 0, 0) == Column(m, 0)[s];
      C.Mul(C.Scale(At(m, s, 0), SwitchSign(s)), Det(Reduced(p)))
  }

  /**
   * `ComplexMatrix.determinant()`: a non-square matrix is rejected; the
   * pivot loop with its running sign, the row switch, the three blocks and
   * v·wᵀ are computed as in the source, then the method recurses.
   */
  method Determinant(m: Mat<Complex>) returns (res: Result<Complex>)
    requires Valid(m)
    ensures res.Ok? <==> m.rows == m.cols
    ensures res.Err? ==> res.error == IllegalArgument
    ensures res.Ok? ==> res.value == DetAsWritten(m)
    decreases m.rows
  {
    if m.rows != m.cols {
      return Err(IllegalArgument);
    }
    if m.rows == 1 {
      return Ok(At(m, 0, 0));
    }
    if m.rows == 2 {
      return Ok(C.Sub(C.Mul(At(m, 0, 0), At(m, 1, 1)), C.Mul(At(m, 0, 1), At(m, 1, 0))));
    }
    var sign, switchIndex, a := PivotSearch(m);
    if a == C.Zero {
      return Ok(C.Zero);
    }
    var matP1A := SwitchRow(m, 0, switchIndex).value;
    assert matP1A == PivotOnTop(m, switchIndex);
    var v := GetSubmatrix(matP1A, 1, m.rows, 0, 1).value;
    var wT := GetSubmatrix(matP1A, 0, 1, 1, m.cols).value;
    var c := C.Div(C.One, a);
    var matAPrime := GetSubmatrix(matP1A, 1, m.rows, 1, m.cols).value;
    var vw := Times(v, wT);
    assert At(matP1A, 0, 0) == a;
    assert Sub(matAPrime, Scale(vw.value, c)) == Reduced(matP1A);
    var sub := Determinant(Sub(matAPrime, Scale(vw.value, c)));
    return Ok(C.Mul(C.Scale(a, sign as real), sub.value));
  }

  /** A real entry is zero as a complex number exactly when it is zero. */
  lemma FirstNonzeroOfEmbed(col: seq<real>, ccol: seq<Complex>)
    requires |ccol| == |col| && forall i :: 0 <= i < |col| ==> ccol[i] == C.FromReal(col[i])
    ensures FirstNonzero(ccol, C.Zero) == FirstNonzero(col, 0.0)
  {
    var k := FirstNonzero(col, 0.0);
    FirstNonzeroUnique(ccol, C.Zero, k);
  }

  /** The complex pivot step of a real matrix is the real pivot step made complex. */
  lemma ReducedOfEmbed(p: Mat<real>)
    requires Valid(p) && p.rows == p.cols >= 2 && At(p, 0, 0) != 0.0
    ensures At(Embed(p), 0, 0) != C.Zero
    ensures Reduced(Embed(p)) == Embed(RealPivot.Reduced(p))
  {
    var e := Embed(p);
    var r, q := Reduced(e), Embed(RealPivot.Reduced(p));
    forall i: nat, j: nat | i < r.rows && j < r.cols
      ensures At(r, i, j) == At(q, i, j)
    {
      SchurEntryOfReals(At(p, i + 1, j + 1), At(p, i + 1, 0), At(p, 0, j + 1), At(p, 0, 0));
    }
    Extensionality(r, q);
  }

  /** One entry of the Schur complement computed on reals made complex. */
  lemma SchurEntryOfReals(x: real, y: real, z: real, a: real)
    requires a != 0.0
    ensures C.FromReal(a) != C.Zero
    ensures C.Sub(C.FromReal(x), C.Mul(C.Mul(C.FromReal(y), C.FromReal(z)), Reciprocal(C.FromReal(a))))
      == C.FromReal(x - RealMatrices.Prod(1.0 / a, RealMatrices.Prod(y, z)))
  {
    var c := 1.0 / a;
    ReciprocalOfReal(a);
    var yz := y * z;
    assert C.Mul(C.FromReal(y), C.FromReal(z)) == C.FromReal(yz);
    assert C.Mul(C.FromReal(yz), C.FromReal(c)) == C.FromReal(yz * c);
    assert yz * c == RealMatrices.Prod(c, RealMatrices.Prod(y, z));
  }

  /** 1/a computed on complex numbers is the real 1/a. */
  lemma ReciprocalOfReal(a: real)
    requires a != 0.0
    ensures C.FromReal(a) != C.Zero && Reciprocal(C.FromReal(a)) == C.FromReal(1.0 / a)
  {
    var r := Reciprocal(C.FromReal(a));
    assert C.Mul(r, C.FromReal(a)) == C.One;
    assert r.re * a == 1.0 && r.im * a == 0.0;
    C.Cancel(r.re, 1.0 / a, a);
    C.Cancel(r.im, 0.0, a);
  }

  /** Row switching commutes with making a matrix complex. */
  lemma PivotOnTopOfEmbed(m: Mat<real>, s: nat)
    requires Valid(m) && s < m.rows
    ensures PivotOnTop(Embed(m), s) == Embed(PivotOnTop(m, s))
  {
    Extensionality(PivotOnTop(Embed(m), s), Embed(PivotOnTop(m, s)));
  }

  /**
   * With the corrected sign, the complex determinant of a real matrix is its
   * real determinant.
   */
  lemma {:induction false} DetOfEmbed(m: Mat<real>)
    requires Valid(m) && m.rows == m.cols
    ensures Det(Embed(m)) == C.FromReal(RealDeterminant.Det(m))
    decreases m.rows, 1
  {
    if m.rows <= 2 {
      SmallDetOfEmbed(m);
    } else {
      PivotStepOfEmbed(m);
      assert Det(Embed(m)) == PivotStep(Embed(m)) && RealDeterminant.Det(m) == RealDeterminant.PivotStep(m);
    }
  }

  /** Orders 1 and 2, where both determinants take their closed forms. */
  lemma SmallDetOfEmbed(m: Mat<real>)
    requires Valid(m) && m.rows == m.cols <= 2
    ensures Det(Embed(m)) == C.FromReal(RealDeterminant.Det(m))
  {
    if m.rows == 2 {
      Order2OfEmbed(Embed(m), m);
    }
  }

  /** Order 2: the closed forms agree entry by entry. */
  lemma Order2OfEmbed(e: Mat<Complex>, m: Mat<real>)
    requires Valid(m) && Valid(e) && m.rows == m.cols == 2 && e.rows == e.cols == 2
    requires forall i: nat, j: nat :: i < 2 && j < 2 ==> At(e, i, j) == C.FromReal(At(m, i, j))
    ensures Det(e) == C.FromReal(RealDeterminant.Det(m))
  {
    RealDeterminant.DetOfOrder2(m);
    Det2OfReals(At(m, 0, 0), At(m, 1, 1), At(m, 0, 1), At(m, 1, 0));
    assert Det(e) == Det2(e);
  }

  /** The pivot step of order n ≥ 3 on a real matrix made complex. */
  lemma {:induction false} PivotStepOfEmbed(m: Mat<real>)
    requires Valid(m) && m.rows == m.cols >= 3
    ensures PivotStep(Embed(m)) == C.FromReal(RealDeterminant.PivotStep(m))
    decreases m.rows, 0
  {
    var e := Embed(m);
    var s := FirstNonzero(Column(m, 0), 0.0);
    FirstNonzeroOfEmbed(Column(m, 0), Column(e, 0));
    if s < m.rows {
      var p := PivotOnTop(m, s);
      assert At(p, 0, 0) == Column(m, 0)[s];
      PivotOnTopOfEmbed(m, s);
      ReducedOfEmbed(p);
      var d := RealDeterminant.Det(RealPivot.Reduced(p));
      DetOfEmbed(RealPivot.Reduced(p));
      SignedProductOfReals(SwitchSign(s), At(m, s, 0), d);
      assert Det(Reduced(PivotOnTop(e, s))) == C.FromReal(d);
      assert At(e, s, 0) == C.FromReal(At(m, s, 0));
      assert PivotStep(e) == C.Mul(C.Scale(At(e, s, 0), SwitchSign(s)), Det(Reduced(PivotOnTop(e, s))));
      assert RealDeterminant.PivotStep(m) == RealMatrices.Prod(RealMatrices.Prod(SwitchSign(s), At(m, s, 0)), d);
    } else {
      assert PivotStep(e) == C.Zero;
      assert RealDeterminant.PivotStep(m) == 0.0;
    }
  }

  lemma Det2OfReals(a: real, b: real, c: real, d: real)
    ensures C.Sub(C.Mul(C.FromReal(a), C.FromReal(b)), C.Mul(C.FromReal(c), C.FromReal(d)))
      == C.FromReal(RealMatrices.Prod(a, b) - RealMatrices.Prod(c, d))
  {
    assert C.Mul(C.FromReal(a), C.FromReal(b)) == C.FromReal(a * b);
    assert C.Mul(C.FromReal(c), C.FromReal(d)) == C.FromReal(c * d);
  }

  lemma SignedProductOfReals(sign: real, a: real, d: real)
    ensures C.Mul(C.Scale(C.FromReal(a), sign), C.FromReal(d))
      == C.FromReal(RealMatrices.Prod(RealMatrices.Prod(sign, a), d))
  {
    var sa := sign * a;
    assert C.Scale(C.FromReal(a), sign) == C.FromReal(sa);
    assert C.Mul(C.FromReal(sa), C.FromReal(d)) == C.FromReal(sa * d);
  }

  /** Scaling by 1 and by −1 gives opposite products. */
  lemma OppositeSigns(a: Complex, d: Complex)
    ensures C.Mul(C.Scale(a, 1.0), d) == C.Neg(C.Mul(C.Scale(a, -1.0), d))
  {
    assert C.Scale(a, -1.0) == C.Neg(C.Scale(a, 1.0));
  }

  /** In order 2 both recursions take the closed form. */
  lemma Order2Agree(m: Mat<Complex>)
    requires Valid(m) && m.rows == m.cols == 2
    ensures DetAsWritten(m) == Det(m)
  {
    assert DetAsWritten(m) == Det2(m) && Det(m) == Det2(m);
  }

  /** Both steps once the pivot row s is known. */
  lemma Steps(e: Mat<Complex>, s: nat)
    requires Valid(e) && e.rows == e.cols >= 3 && s == FirstNonzero(Column(e, 0), C.Zero) && s < e.rows
    ensures At(PivotOnTop(e, s), 0, 0) != C.Zero
    ensures PivotStep(e) == C.Mul(C.Scale(At(e, s, 0), SwitchSign(s)), Det(Reduced(PivotOnTop(e, s))))
    ensures StepAsWritten(e) == C.Mul(C.Scale(At(e, s, 0), AlternatingSign(s) as real), DetAsWritten(Reduced(PivotOnTop(e, s))))
  {
    assert At(PivotOnTop(e, s), 0, 0) == Column(e, 0)[s];
  }

  /**
   * A pivot in an even row s ≥ 2 gets sign (−1)^s = 1 as written where its
   * single switch calls for −1: when the two recursions agree one order
   * down, as they do in order 2, the value as written is the negated
   * determinant.
   */
  lemma {:induction false} AsWrittenOfEvenPivot(e: Mat<Complex>, s: nat)
    requires Valid(e) && e.rows == e.cols >= 3 && s == FirstNonzero(Column(e, 0), C.Zero) && 2 <= s < e.rows && s % 2 == 0
    requires At(PivotOnTop(e, s), 0, 0) != C.Zero
    requires DetAsWritten(Reduced(PivotOnTop(e, s))) == Det(Reduced(PivotOnTop(e, s)))
    ensures DetAsWritten(e) == C.Neg(Det(e))
  {
    Steps(e, s);
    AlternatingSignParity(s);
    OppositeSigns(At(e, s, 0), Det(Reduced(PivotOnTop(e, s))));
    assert DetAsWritten(e) == StepAsWritten(e);
    assert Det(e) == PivotStep(e);
  }

  /** In order 3 with the pivot in row 2, the value as written is the negated determinant. */
  lemma {:induction false} AsWrittenOfOrder3(e: Mat<Complex>)
    requires Valid(e) && 3 <= e.rows == e.cols <= 3 && FirstNonzero(Column(e, 0), C.Zero) == 2
    ensures DetAsWritten(e) == C.Neg(Det(e))
  {
    Steps(e, 2);
    ReducedAgree(e);
    AsWrittenOfEvenPivot(e, 2);
  }

  /** Below an order-3 pivot both recursions meet in the closed form of order 2. */
  lemma ReducedAgree(e: Mat<Complex>)
    requires Valid(e) && 3 <= e.rows == e.cols <= 3 && 2 < e.rows && At(PivotOnTop(e, 2), 0, 0) != C.Zero
    ensures DetAsWritten(Reduced(PivotOnTop(e, 2))) == Det(Reduced(PivotOnTop(e, 2)))
  {
    Order2Agree(Reduced(PivotOnTop(e, 2)));
  }

  /** The same for a real matrix of order 3 made complex, against its real determinant. */
  lemma {:induction false} AsWrittenOfRealOrder3(m: Mat<real>)
    requires Valid(m) && 3 <= m.rows == m.cols <= 3 && FirstNonzero(Column(m, 0), 0.0) == 2
    ensures DetAsWritten(Embed(m)) == C.Neg(C.FromReal(RealDeterminant.Det(m)))
  {
    var e := Embed(m);
    FirstNonzeroOfEmbed(Column(m, 0), Column(e, 0));
    AsWrittenOfOrder3(e);
    DetOfEmbed(m);
  }

  /**
   * The antidiagonal matrix of order 3, `rowSwitchingMatrix(3, 0, 2)`, made
   * complex: its determinant is −1, the value the corrected `Det` gives, but
   * the source computes 1.
   */
  lemma AsWrittenSignIsWrong(j: Mat<real>)
    requires Valid(j) && 3 <= j.rows == j.cols <= 3
    requires forall r: nat, c: nat :: r < j.rows && c < j.cols ==> At(j, r, c) == if c == Swapped(r, 0, 2) then 1.0 else 0.0
    ensures RealDeterminant.Det(j) == -1.0
    ensures Det(Embed(j)) == C.FromReal(-1.0)
    ensures DetAsWritten(Embed(j)) == C.One
  {
    assert At(j, 0, 0) == 0.0 && At(j, 1, 0) == 0.0 && At(j, 2, 0) == 1.0;
    FirstNonzeroUnique(Column(j, 0), 0.0, 2);
    RealDeterminant.DetSwitchStep(j, 2);
    AsWrittenOfRealOrder3(j);
    DetOfEmbed(j);
  }
}
