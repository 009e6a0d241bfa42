/**
 * `Matrix.rowEchelonForm()` on real matrices, as written and as evidently
 * intended.  As written, a column is skipped only when its largest entry is
 * exactly 0.0, but afterwards every entry within 10⁻⁴ of zero is snapped to
 * zero: a pivot smaller than 10⁻⁴ is then wiped out and the result is no
 * longer in echelon form.  The complex version tests the column with the
 * same tolerance it snaps with, and so does the corrected real one here.
 */
module RealEchelon {
  import opened Dense
  import E = Echelon

  /** `abs` on reals. */
  function Abs(x: real): (r: real)
    ensures r >= 0.0 && (r == x || r == -x)
  {
    if x < 0.0 then -x else x
  }

  /** The tolerance of `pseudoEquals`, 10⁻⁴. */
  const Tolerance: real := 1.0 / 10000.0

  /** `pseudoEquals(x, 0.0)`. */
  predicate Negligible(x: real)
  {
    Abs(x - 0.0) < Tolerance
  }

  /**
   * The division of the pivot step.  It is only ever applied to a pivot
   * that failed the column test, which is never 0.0.
   */
  function Quotient(x: real, y: real): real
  {
    if y == 0.0 then 0.0 else x / y
  }

  /** The real version as written: an exact column test, a tolerant snap, an exact zero-row test. */
  const AsWritten: E.Scalars<real> := E.Scalars(
    0.0,
    (x: real, y: real) => x - y,
    (x: real, y: real) => x * y,
    Quotient,
    Abs,
    (x: real) => x == 0.0,
    Negligible,
    (x: real) => x == 0.0)

  /** The corrected version: the column is tested with the tolerance it is snapped with. */
  const Corrected: E.Scalars<real> := E.Scalars(
    0.0,
    (x: real, y: real) => x - y,
    (x: real, y: real) => x * y,
    Quotient,
    Abs,
    Negligible,
    Negligible,
    (x: real) => x == 0.0)

  lemma AsWrittenSound()
    ensures E.Sound(AsWritten)
  {
    forall x: real, y: real | AsWritten.pivotZero(x) && AsWritten.magnitude(y) <= AsWritten.magnitude(x)
      ensures AsWritten.pivotZero(y)
    {
      assert Abs(y) <= Abs(x) == 0.0;
    }
  }

  lemma CorrectedSound()
    ensures E.Sound(Corrected)
  {
    forall x: real, y: real | Corrected.pivotZero(x) && Corrected.magnitude(y) <= Corrected.magnitude(x)
      ensures Corrected.pivotZero(y)
    {
      assert Abs(y - 0.0) <= Abs(x - 0.0) < Tolerance;
    }
  }

  lemma CorrectedConsistent()
    ensures E.Consistent(Corrected)
  {
    assert Corrected.entryZero(0.0);
    forall x: real | Corrected.entryZero(x)
      ensures Corrected.pivotZero(x)
    {
      assert Abs(x - 0.0) == 0.0;
    }
  }

  /**
   * As written, the elimination itself is exact: before the snap it leaves
   * an echelon form whose pivots are nonzero and whose other entries in
   * pivot columns are exactly zero.
   */
  lemma AsWrittenEliminationIsExact(m: Mat<real>)
    requires Valid(m)
    ensures E.InEchelonForm(E.Eliminate(AsWritten, m, 0, 0), 0.0, E.PivotColumns(AsWritten, m))
  {
    AsWrittenSound();
    E.EliminationSettles(AsWritten, m);
    E.SettledIsEchelon(AsWritten, E.Eliminate(AsWritten, m, 0, 0), E.PivotColumns(AsWritten, m));
  }

  // ---------------------------------------------------------------------
  // A matrix whose echelon form the snap breaks

  /** The pivot of row 0 of the example, 10⁻⁵, below the tolerance. */
  const Tiny: real := 1.0 / 100000.0

  /** The 2×3 matrix with rows (a, b, c) and (d, e, f). */
  predicate Cells(m: Mat<real>, a: real, b: real, c: real, d: real, e: real, f: real)
  {
    Valid(m) && 2 <= m.rows <= 2 && 3 <= m.cols <= 3 &&
    At(m, 0, 0) == a && At(m, 0, 1) == b && At(m, 0, 2) == c &&
    At(m, 1, 0) == d && At(m, 1, 1) == e && At(m, 1, 2) == f
  }

  /** Two matrices of the same shape with the same six cells are equal. */
  lemma SameCells(x: Mat<real>, y: Mat<real>, a: real, b: real, c: real, d: real, e: real, f: real)
    requires Cells(x, a, b, c, d, e, f) && Cells(y, a, b, c, d, e, f)
    ensures x == y
  {
    forall i: nat, j: nat | i < x.rows && j < x.cols
      ensures At(x, i, j) == At(y, i, j)
    {
      assert i == 0 || i == 1;
      assert j == 0 || j == 1 || j == 2;
    }
    Extensionality(x, y);
  }

  /** The pivot step on column 0 of ((10⁻⁵, 0, 5), (0, 1, 3)) changes nothing. */
  lemma FirstStep(m: Mat<real>) returns (n: Mat<real>)
    requires Cells(m, Tiny, 0.0, 5.0, 0.0, 1.0, 3.0)
    ensures Cells(n, Tiny, 0.0, 5.0, 0.0, 1.0, 3.0)
    ensures E.Eliminate(AsWritten, m, 0, 0) == E.Eliminate(AsWritten, n, 1, 1)
  {
    var iMax := E.ArgMax(AsWritten, m, 0, 0);
    assert Abs(At(m, 1, 0)) < Abs(At(m, 0, 0));
    assert iMax == 0;
    assert !AsWritten.pivotZero(At(m, iMax, 0));
    n := E.Eliminated(AsWritten, SwitchRow(m, 0, iMax).value, 0, 0);
    E.UnfoldPivot(AsWritten, m, 0, 0, n);
    assert At(n, 1, 1) == 1.0 - 0.0 * Quotient(0.0, Tiny);
    assert At(n, 1, 2) == 3.0 - 5.0 * Quotient(0.0, Tiny);
  }

  /** The pivot step on column 1 changes nothing either, and the loop ends. */
  lemma SecondStep(m: Mat<real>)
    requires Cells(m, Tiny, 0.0, 5.0, 0.0, 1.0, 3.0)
    ensures E.Eliminate(AsWritten, m, 1, 1) == m
  {
    var iMax := E.ArgMax(AsWritten, m, 1, 1);
    assert iMax == 1;
    assert !AsWritten.pivotZero(At(m, iMax, 1));
    var n := E.Eliminated(AsWritten, SwitchRow(m, 1, iMax).value, 1, 1);
    E.UnfoldPivot(AsWritten, m, 1, 1, n);
    assert At(n, 0, 2) == 5.0 - 3.0 * Quotient(0.0, 1.0);
    E.Finished(AsWritten, n, 2, 2);
    SameCells(n, m, Tiny, 0.0, 5.0, 0.0, 1.0, 3.0);
  }

  /** Snapping turns the pivot 10⁻⁵ into zero. */
  lemma SnapWipesPivot(m: Mat<real>)
    requires Cells(m, Tiny, 0.0, 5.0, 0.0, 1.0, 3.0)
    ensures Cells(E.Snap(AsWritten, m), 0.0, 0.0, 5.0, 0.0, 1.0, 3.0)
  {
    assert Negligible(At(m, 0, 0));
    assert !Negligible(At(m, 0, 2)) && !Negligible(At(m, 1, 1)) && !Negligible(At(m, 1, 2));
  }

  /** Neither row of ((0, 0, 5), (0, 1, 3)) is a zero row, so the compaction moves nothing. */
  lemma CompactKeeps(s: Mat<real>)
    requires Cells(s, 0.0, 0.0, 5.0, 0.0, 1.0, 3.0)
    ensures E.Compact(AsWritten, s) == s
  {
    forall i: nat | i < s.rows
      ensures !E.ZeroRow(AsWritten, s, i)
    {
      if i == 0 {
        assert !AsWritten.entryZero(At(s, 0, 2));
      } else {
        assert !AsWritten.entryZero(At(s, 1, 1));
      }
    }
    E.CompactWithoutZeroRows(AsWritten, s);
  }

  /**
   * ((0, 0, 5), (0, 1, 3)) is in echelon form for no choice of pivot
   * columns: row 1 is not zero, so both rows need a pivot, the pivot of
   * row 0 can only be column 2, and column 2 is the last.
   */
  lemma NotEchelon(r: Mat<real>)
    requires Cells(r, 0.0, 0.0, 5.0, 0.0, 1.0, 3.0)
    ensures forall pc :: !E.InEchelonForm(r, 0.0, pc)
  {
    forall pc
      ensures !E.InEchelonForm(r, 0.0, pc)
    {
      if |pc| < 2 {
        assert At(r, 1, 1) != 0.0;
      } else if |pc| == 2 && pc[0] < pc[1] < 3 {
        assert At(r, 0, pc[0]) == 0.0;
      }
    }
  }

  /**
   * As written, `rowEchelonForm()` of ((10⁻⁵, 0, 5), (0, 1, 3)) is
   * ((0, 0, 5), (0, 1, 3)), which is not in echelon form.
   */
  lemma AsWrittenLosesSmallPivot(m: Mat<real>)
    requires Cells(m, Tiny, 0.0, 5.0, 0.0, 1.0, 3.0)
    ensures Cells(E.RowEchelon(AsWritten, m), 0.0, 0.0, 5.0, 0.0, 1.0, 3.0)
    ensures forall pc :: !E.InEchelonForm(E.RowEchelon(AsWritten, m), 0.0, pc)
  {
    var n := FirstStep(m);
    SecondStep(n);
    SameCells(n, m, Tiny, 0.0, 5.0, 0.0, 1.0, 3.0);
    var s := E.Snap(AsWritten, m);
    SnapWipesPivot(m);
    CompactKeeps(s);
    NotEchelon(s);
  }

  /**
   * Corrected, `rowEchelonForm()` returns the snapped elimination, and it
   * is an exact echelon form on the pivot columns the elimination finds.
   */
  lemma CorrectedIsEchelon(m: Mat<real>)
    requires Valid(m)
    ensures E.RowEchelon(Corrected, m) == E.Snap(Corrected, E.Eliminate(Corrected, m, 0, 0))
    ensures E.InEchelonForm(E.RowEchelon(Corrected, m), 0.0, E.PivotColumns(Corrected, m))
  {
    CorrectedSound();
    CorrectedConsistent();
    E.RowEchelonIsEchelon(Corrected, m);
  }

  // ---------------------------------------------------------------------
  // The methods

  /** `Matrix<Double>.rowEchelonForm()` as written. */
  method RowEchelonFormAsWritten(m: Mat<real>) returns (r: Mat<real>)
    requires Valid(m)
    ensures r == E.RowEchelon(AsWritten, m)
  {
    r := E.RowEchelonForm(AsWritten, m);
  }

  /** `Matrix<Double>.rowEchelonForm()` corrected: its result is in echelon form. */
  method RowEchelonForm(m: Mat<real>) returns (r: Mat<real>)
    requires Valid(m)
    ensures r == E.RowEchelon(Corrected, m)
    ensures E.InEchelonForm(r, 0.0, E.PivotColumns(Corrected, m))
  {
    r := E.RowEchelonForm(Corrected, m);
    CorrectedIsEchelon(m);
  }
}
