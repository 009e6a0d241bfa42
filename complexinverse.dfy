/**
 * The complex `adjoint()` and `inverse()`: the same construction over the
 * complex determinant as the source computes it (`DetAsWritten`), with the
 * real sign (−1)^(i+j) scaling each cofactor and the division by det done
 * entry by entry.
 */
module ComplexInverse {
  import opened Wrappers
  import opened Dense
  import C = ComplexNumbers
  import opened ComplexMatrices
  import opened ComplexDeterminant
  import RealInverse

  /** The signed cofactor `sign * minorMatrix(i, j).determinant()`. */
  function Cofactor(m: Mat<Complex>, i: nat, j: nat): Complex
    requires Valid(m) && m.rows == m.cols >= 2 && i < m.rows && j < m.cols
  {
    C.Scale(DetAsWritten(MinorMatrix(m, i, j).value), RealInverse.PowSign(i + j))
  }

  /**
   * `adjoint()`: a non-square matrix is rejected, and so is order 1, where
   * `minorMatrix` throws; entry (i, j) is the cofactor of (j, i).
   */
  function Adjoint(m: Mat<Complex>): (res: Result<Mat<Complex>>)
    requires Valid(m)
    ensures res.Ok? <==> m.rows == m.cols >= 2
    ensures res.Err? ==> res.error == IllegalArgument
    ensures res.Ok? ==> Valid(res.value) && res.value.rows == m.rows && res.value.cols == m.cols
    ensures res.Ok? ==> forall i: nat, j: nat :: i < m.rows && j < m.cols ==> At(res.value, i, j) == Cofactor(m, j, i)
  {
    if m.rows != m.cols || m.rows < 2 then Err(IllegalArgument)
    else
      var n := m.rows;
      Ok(Transpose(Build(n, n, (i: nat, j: nat) requires i < n && j < n => Cofactor(m, i, j))))
  }

  /**
   * `inverse()`: a non-square matrix is rejected; a zero determinant gives
   * the identity; otherwise the adjoint divided by det, which fails for a
   * nonsingular matrix of order 1.
   */
  function Inverse(m: Mat<Complex>): (res: Result<Mat<Complex>>)
    requires Valid(m)
    ensures res.Ok? <==> m.rows == m.cols && (m.rows >= 2 || DetAsWritten(m) == C.Zero)
    ensures res.Err? ==> res.error == IllegalArgument
    ensures res.Ok? ==> Valid(res.value) && res.value.rows == m.rows && res.value.cols == m.cols
    ensures res.Ok? && DetAsWritten(m) == C.Zero ==> res.value == Eye(m.rows)
    ensures res.Ok? && DetAsWritten(m) != C.Zero ==> Scale(res.value, DetAsWritten(m)) == Adjoint(m).value
  {
    if m.rows != m.cols then Err(IllegalArgument)
    else
      var det := DetAsWritten(m);
      if det == C.Zero then Ok(Eye(m.rows))
      else
        var adj := Adjoint(m);
        if adj.Err? then Err(adj.error) else Ok(DivideBy(adj.value, det))
  }

  /** A nonsingular matrix of order 1 has no adjoint, so `inverse` throws. */
  lemma InverseOfOrder1(m: Mat<Complex>)
    requires Valid(m) && m.rows == m.cols == 1 && At(m, 0, 0) != C.Zero
    ensures Inverse(m) == Err(IllegalArgument)
  {}
}
