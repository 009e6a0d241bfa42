/**
 * `ComplexMatrix.rowEchelonForm()`: the column test, the snap and the
 * zero-row test are all `pseudoEquals(x, 0.R)`, that is |x − 0| < 10⁻⁴, so
 * the result is always in echelon form.  The modulus enters only through
 * comparisons, so it is modelled by its square: the pivot search has the
 * same first maximum, and |x| < 10⁻⁴ exactly when |x|² < 10⁻⁸.
 */
module ComplexEchelon {
  import opened Dense
  import C = ComplexNumbers
  import E = Echelon

  /** The square of the tolerance of `pseudoEquals`, (10⁻⁴)². */
  const SquaredTolerance: real := 1.0 / 100000000.0

  /** `pseudoEquals(x, 0.R)`, where x − 0 is x. */
  predicate Negligible(x: C.Complex)
  {
    C.NormSq(x) < SquaredTolerance
  }

  /**
   * The division of the pivot step.  It is only ever applied to a pivot
   * that is not negligible, which is never zero.
   */
  function Quotient(x: C.Complex, y: C.Complex): C.Complex
  {
    if y == C.Zero then C.Zero else C.Div(x, y)
  }

  const Ops: E.Scalars<C.Complex> := E.Scalars(
    C.Zero,
    C.Sub,
    C.Mul,
    Quotient,
    C.NormSq,
    Negligible,
    Negligible,
    Negligible)

  lemma OpsSound()
    ensures E.Sound(Ops)
  {
    C.NormSqPositive(C.Zero);
  }

  lemma OpsConsistent()
    ensures E.Consistent(Ops)
  {
    OpsSound();
    E.OneTestConsistent(Ops);
  }

  /**
   * `rowEchelonForm()` returns the snapped elimination, and it is an exact
   * echelon form on the pivot columns the elimination finds.
   */
  lemma RowEchelonIsEchelon(m: Mat<C.Complex>)
    requires Valid(m)
    ensures E.RowEchelon(Ops, m) == E.Snap(Ops, E.Eliminate(Ops, m, 0, 0))
    ensures E.InEchelonForm(E.RowEchelon(Ops, m), C.Zero, E.PivotColumns(Ops, m))
  {
    OpsSound();
    OpsConsistent();
    E.RowEchelonIsEchelon(Ops, m);
  }

  /** `ComplexMatrix.rowEchelonForm()`: its result is in echelon form. */
  method RowEchelonForm(m: Mat<C.Complex>) returns (r: Mat<C.Complex>)
    requires Valid(m)
    ensures r == E.RowEchelon(Ops, m)
    ensures E.InEchelonForm(r, C.Zero, E.PivotColumns(Ops, m))
  {
    r := E.RowEchelonForm(Ops, m);
    RowEchelonIsEchelon(m);
  }
}
