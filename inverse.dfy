/**
 * The real `adjoint()` and `inverse()`.  The adjoint is the transposed
 * matrix of signed cofactors (−1)^(i+j)·det(minor(i, j)); the inverse is
 * the adjoint times det⁻¹, or the identity when the determinant is exactly
 * zero.  Order 1 has no minor, so a nonsingular 1×1 matrix is rejected.
 */
module RealInverse {
  import opened Wrappers
  import opened Dense
  import opened RealMatrices
  import opened RealDeterminant
  import RealPivot

  /** `(-1.0).pow(k)`. */
  function PowSign(k: nat): (s: real)
    ensures s == 1.0 || s == -1.0
  {
    if k % 2 == 0 then 1.0 else -1.0
  }

  /** The signed cofactor (−1)^(i+j)·det(minor(i, j)). */
  function Cofactor(m: Mat<real>, i: nat, j: nat): real
    requires Valid(m) && m.rows == m.cols >= 2 && i < m.rows && j < m.cols
  {
    Prod(PowSign(i + j), Det(MinorMatrix(m, i, j).value))
  }

  /**
   * `adjoint()`: a non-square matrix is rejected, and so is order 1, where
   * `minorMatrix` throws; entry (i, j) is the cofactor of (j, i).
   */
  function Adjoint(m: Mat<real>): (res: Result<Mat<real>>)
    requires Valid(m)
    ensures res.Ok? <==> m.rows == m.cols >= 2
    ensures res.Err? ==> res.error == IllegalArgument
    ensures res.Ok? ==> Valid(res.value) && res.value.rows == m.rows && res.value.cols == m.cols
    ensures res.Ok? ==> forall i: nat, j: nat :: i < m.rows && j < m.cols ==> At(res.value, i, j) == Cofactor(m, j, i)
  {
    if m.rows != m.cols || m.rows < 2 then Err(IllegalArgument)
    else
      var n := m.rows;
      Ok(Transpose(Build(n, n, (i: nat, j: nat) requires i < n && j < n => Cofactor(m, i, j))))
  }

  /**
   * `inverse()`: a non-square matrix is rejected; a zero determinant gives
   * the identity; otherwise the adjoint scaled by 1/det, which fails for a
   * nonsingular matrix of order 1.
   */
  function Inverse(m: Mat<real>): (res: Result<Mat<real>>)
    requires Valid(m)
    ensures res.Ok? <==> m.rows == m.cols && (m.rows >= 2 || Det(m) == 0.0)
    ensures res.Err? ==> res.error == IllegalArgument
    ensures res.Ok? ==> Valid(res.value) && res.value.rows == m.rows && res.value.cols == m.cols
    ensures res.Ok? && Det(m) == 0.0 ==> res.value == Eye(m.rows)
  {
    if m.rows != m.cols then Err(IllegalArgument)
    else
      var det := Det(m);
      if det == 0.0 then Ok(Eye(m.rows))
      else
        var adj := Adjoint(m);
        if adj.Err? then Err(adj.error) else Ok(Scale(adj.value, 1.0 / det))
  }

  /** A nonsingular matrix of order 1 has no adjoint, so `inverse` throws. */
  lemma InverseOfOrder1(m: Mat<real>)
    requires Valid(m) && m.rows == m.cols == 1 && At(m, 0, 0) != 0.0
    ensures Inverse(m) == Err(IllegalArgument)
  {}

  /** Past the identity fallback, entry (i, j) of the inverse is cofactor (j, i) over det. */
  lemma InverseCell(m: Mat<real>, i: nat, j: nat)
    requires Valid(m) && m.rows == m.cols >= 2 && Det(m) != 0.0 && i < m.rows && j < m.cols
    ensures Inverse(m).Ok? && At(Inverse(m).value, i, j) == Prod(1.0 / Det(m), Cofactor(m, j, i))
  {}

  /** Scaling the inverse back by det recovers the adjoint. */
  lemma InverseUndoesScale(m: Mat<real>)
    requires Valid(m) && m.rows == m.cols >= 2 && Det(m) != 0.0
    ensures Inverse(m).Ok? && Adjoint(m).Ok?
    ensures Scale(Inverse(m).value, Det(m)) == Adjoint(m).value
  {
    var d := Det(m);
    var inv := Inverse(m).value;
    var adj := Adjoint(m).value;
    var back := Scale(inv, d);
    forall i: nat, j: nat | i < m.rows && j < m.cols
      ensures At(back, i, j) == At(adj, i, j)
    {
      InverseCell(m, i, j);
      UndoScale(d, Cofactor(m, j, i), At(inv, i, j));
    }
    Extensionality(back, adj);
  }

  lemma UndoScale(d: real, x: real, y: real)
    requires d != 0.0 && y == Prod(1.0 / d, x)
    ensures Prod(d, y) == x
  {
    assert d * (1.0 / d) == 1.0;
  }

  /** A sum over two entries. */
  lemma Dot2(x: seq<real>, y: seq<real>)
    requires |x| == 2 && |y| == 2
    ensures Dot(x, y) == Prod(x[0], y[0]) + Prod(x[1], y[1])
  {
    RealPivot.DotSingle(x[..1], y[..1]);
  }

  /** The cofactors of order 2 are the entries of the other diagonal, signed. */
  lemma CofactorsOfOrder2(m: Mat<real>)
    requires Valid(m) && 2 <= m.rows == m.cols <= 2
    ensures Cofactor(m, 0, 0) == At(m, 1, 1) && Cofactor(m, 1, 1) == At(m, 0, 0)
    ensures Cofactor(m, 0, 1) == -At(m, 1, 0) && Cofactor(m, 1, 0) == -At(m, 0, 1)
  {
    assert At(MinorMatrix(m, 0, 0).value, 0, 0) == At(m, 1, 1);
    assert At(MinorMatrix(m, 1, 1).value, 0, 0) == At(m, 0, 0);
    assert At(MinorMatrix(m, 0, 1).value, 0, 0) == At(m, 1, 0);
    assert At(MinorMatrix(m, 1, 0).value, 0, 0) == At(m, 0, 1);
  }

  /** In order 2 the inverse is two-sided: M·M⁻¹ = M⁻¹·M = I whenever det M ≠ 0. */
  lemma InverseOfOrder2(m: Mat<real>)
    requires Valid(m) && 2 <= m.rows == m.cols <= 2 && Det(m) != 0.0
    ensures Inverse(m).Ok?
    ensures MatMul(m, Inverse(m).value) == Eye(m.rows)
    ensures MatMul(Inverse(m).value, m) == Eye(m.rows)
  {
    Order2Entries(m);
    AdjugateInverts(m, Inverse(m).value, Det(m));
  }

  /**
   * A matrix [[a, b], [c, e]] with d = ae − bc ≠ 0 and the adjugate
   * [[e, −b], [−c, a]] over d are inverse to each other on both sides.
   */
  lemma AdjugateInverts(x: Mat<real>, y: Mat<real>, d: real)
    requires Valid(x) && Valid(y) && 2 <= x.rows == x.cols <= 2 && y.rows == y.cols == 2
    requires d == Prod(At(x, 0, 0), At(x, 1, 1)) - Prod(At(x, 0, 1), At(x, 1, 0)) && d != 0.0
    requires At(y, 0, 0) == Prod(1.0 / d, At(x, 1, 1)) && At(y, 0, 1) == Prod(1.0 / d, -At(x, 0, 1))
    requires At(y, 1, 0) == Prod(1.0 / d, -At(x, 1, 0)) && At(y, 1, 1) == Prod(1.0 / d, At(x, 0, 0))
    ensures MatMul(x, y) == Eye(2) && MatMul(y, x) == Eye(2)
  {
    RightProducts(At(x, 0, 0), At(x, 0, 1), At(x, 1, 0), At(x, 1, 1), d,
      At(y, 0, 0), At(y, 0, 1), At(y, 1, 0), At(y, 1, 1));
    ProductIsEye(x, y);
    LeftProducts(At(x, 0, 0), At(x, 0, 1), At(x, 1, 0), At(x, 1, 1), d,
      At(y, 0, 0), At(y, 0, 1), At(y, 1, 0), At(y, 1, 1));
    ProductIsEye(y, x);
  }

  /** The four entries of an inverse of order 2: the adjugate [[e, −b], [−c, a]] over det. */
  lemma Order2Entries(m: Mat<real>)
    requires Valid(m) && 2 <= m.rows == m.cols <= 2 && Det(m) != 0.0
    ensures Det(m) == Prod(At(m, 0, 0), At(m, 1, 1)) - Prod(At(m, 0, 1), At(m, 1, 0))
    ensures Inverse(m).Ok?
    ensures At(Inverse(m).value, 0, 0) == Prod(1.0 / Det(m), At(m, 1, 1))
    ensures At(Inverse(m).value, 0, 1) == Prod(1.0 / Det(m), -At(m, 0, 1))
    ensures At(Inverse(m).value, 1, 0) == Prod(1.0 / Det(m), -At(m, 1, 0))
    ensures At(Inverse(m).value, 1, 1) == Prod(1.0 / Det(m), At(m, 0, 0))
  {
    DetOfOrder2(m);
    Order2Diagonal(m);
    Order2OffDiagonal(m);
  }

  lemma Order2Diagonal(m: Mat<real>)
    requires Valid(m) && 2 <= m.rows == m.cols <= 2 && Det(m) != 0.0
    ensures Inverse(m).Ok?
    ensures At(Inverse(m).value, 0, 0) == Prod(1.0 / Det(m), At(m, 1, 1))
    ensures At(Inverse(m).value, 1, 1) == Prod(1.0 / Det(m), At(m, 0, 0))
  {
    CofactorsOfOrder2(m);
    InverseCell(m, 0, 0);
    InverseCell(m, 1, 1);
  }

  lemma Order2OffDiagonal(m: Mat<real>)
    requires Valid(m) && 2 <= m.rows == m.cols <= 2 && Det(m) != 0.0
    ensures Inverse(m).Ok?
    ensures At(Inverse(m).value, 0, 1) == Prod(1.0 / Det(m), -At(m, 0, 1))
    ensures At(Inverse(m).value, 1, 0) == Prod(1.0 / Det(m), -At(m, 1, 0))
  {
    CofactorsOfOrder2(m);
    InverseCell(m, 0, 1);
    InverseCell(m, 1, 0);
  }

  /** A product of order 2 whose four sums are those of the identity is the identity. */
  lemma ProductIsEye(x: Mat<real>, y: Mat<real>)
    requires Valid(x) && Valid(y) && 2 <= x.rows == x.cols <= 2 && y.rows == y.cols == x.rows
    requires Prod(At(x, 0, 0), At(y, 0, 0)) + Prod(At(x, 0, 1), At(y, 1, 0)) == 1.0
    requires Prod(At(x, 0, 0), At(y, 0, 1)) + Prod(At(x, 0, 1), At(y, 1, 1)) == 0.0
    requires Prod(At(x, 1, 0), At(y, 0, 0)) + Prod(At(x, 1, 1), At(y, 1, 0)) == 0.0
    requires Prod(At(x, 1, 0), At(y, 0, 1)) + Prod(At(x, 1, 1), At(y, 1, 1)) == 1.0
    ensures MatMul(x, y) == Eye(x.rows)
  {
    var p := MatMul(x, y);
    ProductEntry(x, y, 0, 0);
    ProductEntry(x, y, 0, 1);
    ProductEntry(x, y, 1, 0);
    ProductEntry(x, y, 1, 1);
    forall i: nat, j: nat | i < x.rows && j < x.rows
      ensures At(p, i, j) == At(Eye(x.rows), i, j)
    {
      assert i == 0 || i == 1;
      assert j == 0 || j == 1;
    }
    Extensionality(p, Eye(x.rows));
  }

  /** An entry of a product of order 2 as a sum of two products. */
  lemma ProductEntry(x: Mat<real>, y: Mat<real>, i: nat, j: nat)
    requires Valid(x) && Valid(y) && 2 <= x.rows == x.cols <= 2 && y.rows == y.cols == x.rows && i < 2 && j < 2
    ensures At(MatMul(x, y), i, j) == Prod(At(x, i, 0), At(y, 0, j)) + Prod(At(x, i, 1), At(y, 1, j))
  {
    Dot2(Row(x, i), Column(y, j));
  }

  /** The scalar identities behind M·M⁻¹ = I in `AdjugateInverts`. */
  lemma RightProducts(a: real, b: real, c: real, e: real, d: real, p: real, q: real, r: real, s: real)
    requires d == Prod(a, e) - Prod(b, c) && d != 0.0
    requires p == Prod(1.0 / d, e) && q == Prod(1.0 / d, -b) && r == Prod(1.0 / d, -c) && s == Prod(1.0 / d, a)
    ensures Prod(a, p) + Prod(b, r) == 1.0 && Prod(a, q) + Prod(b, s) == 0.0
    ensures Prod(c, p) + Prod(e, r) == 0.0 && Prod(c, q) + Prod(e, s) == 1.0
  {
    var k := 1.0 / d;
    assert k * d == 1.0;
    assert Prod(a, p) + Prod(b, r) == k * (a * e - b * c);
    assert Prod(c, q) + Prod(e, s) == k * (a * e - b * c);
  }

  /** The scalar identities behind M⁻¹·M = I in `AdjugateInverts`. */
  lemma LeftProducts(a: real, b: real, c: real, e: real, d: real, p: real, q: real, r: real, s: real)
    requires d == Prod(a, e) - Prod(b, c) && d != 0.0
    requires p == Prod(1.0 / d, e) && q == Prod(1.0 / d, -b) && r == Prod(1.0 / d, -c) && s == Prod(1.0 / d, a)
    ensures Prod(p, a) + Prod(q, c) == 1.0 && Prod(p, b) + Prod(q, e) == 0.0
    ensures Prod(r, a) + Prod(s, c) == 0.0 && Prod(r, b) + Prod(s, e) == 1.0
  {
    var k := 1.0 / d;
    assert k * d == 1.0;
    assert Prod(p, a) + Prod(q, c) == k * (a * e - b * c);
    assert Prod(r, b) + Prod(s, e) == k * (a * e - b * c);
  }
}
