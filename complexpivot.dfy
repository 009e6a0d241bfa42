/**
 * The pivot step of the complex `determinant` and `plu`: the same scan of
 * column 0 (an entry is zero when both parts are), here also flipping
 * `sign` on every zero passed, and the complex Schur complement
 * A′ − (v·wᵀ)·(1/a).
 */
module ComplexPivot {
  import opened Wrappers
  import opened Dense
  import C = ComplexNumbers
  import opened ComplexMatrices
  import opened Pivoting

  /** (−1)^k, the value `sign *= -1` reaches after k steps from 1. */
  function AlternatingSign(k: nat): int {
    if k == 0 then 1 else -AlternatingSign(k - 1)
  }

  /** An even number of flips leaves the sign at 1, an odd number at −1. */
  lemma {:induction false} AlternatingSignParity(k: nat)
    ensures AlternatingSign(k) == if k % 2 == 0 then 1 else -1
  {
    if k > 0 {
      AlternatingSignParity(k - 1);
    }
  }

  /**
   * The `for (elem in firstColumn)` loop of the complex `determinant`:
   * `switchIndex` counts the zeros passed and `sign` is negated on each;
   * `a` is the first nonzero entry or stays 0 when there is none.
   */
  method PivotSearch(m: Mat<Complex>) returns (sign: int, switchIndex: nat, a: Complex)
    requires Valid(m)
    ensures switchIndex == FirstNonzero(Column(m, 0), C.Zero)
    ensures a == C.Zero <==> switchIndex == m.rows
    ensures switchIndex < m.rows ==> a == At(m, switchIndex, 0)
    ensures sign == AlternatingSign(switchIndex)
  {
    ghost var col := Column(m, 0);
    sign, switchIndex, a := 1, 0, C.Zero;
    while switchIndex < m.rows
      invariant switchIndex <= m.rows && a == C.Zero
      invariant forall i :: 0 <= i < switchIndex ==> col[i] == C.Zero
      invariant sign == AlternatingSign(switchIndex)
    {
      var elem := At(m, switchIndex, 0);
      if elem != C.Zero {
        a := elem;
        break;
      }
      sign := sign * -1;
      switchIndex := switchIndex + 1;
    }
    FirstNonzeroUnique(col, C.Zero, switchIndex);
  }

  /** A sum over one entry is that one product. */
  lemma DotSingle(x: seq<Complex>, y: seq<Complex>)
    requires |x| == 1 && |y| == 1
    ensures Dot(x, y) == C.Mul(x[0], y[0])
  {
    assert x[..0] == [] && y[..0] == [];
  }

  /** A column times a row, cell by cell: the outer product. */
  lemma OuterProductCell(v: Mat<Complex>, w: Mat<Complex>, i: nat, j: nat)
    requires Valid(v) && Valid(w) && v.cols == 1 && w.rows == 1 && i < v.rows && j < w.cols
    ensures At(MatMul(v, w), i, j) == C.Mul(At(v, i, 0), At(w, 0, j))
  {
    DotSingle(Row(v, i), Column(w, j));
  }

  /** `1 / a` with the integer 1 made complex. */
  function Reciprocal(a: Complex): (c: Complex)
    requires a != C.Zero
    ensures C.Mul(c, a) == C.One
  {
    C.Div(C.One, a)
  }

  /**
   * `matAPrime - (v * wT) * c` once the pivot row is on top, c = 1/a with
   * a = p[0, 0]: cell (i, j) is p[i+1, j+1] − (p[i+1, 0]·p[0, j+1])·c.
   */
  function Reduced(p: Mat<Complex>): (r: Mat<Complex>)
    requires Valid(p) && p.rows == p.cols >= 2 && At(p, 0, 0) != C.Zero
    ensures Valid(r) && r.rows == p.rows - 1 && r.cols == p.rows - 1
    ensures forall i: nat, j: nat :: i < r.rows && j < r.cols ==>
      At(r, i, j) == C.Sub(At(p, i + 1, j + 1), C.Mul(C.Mul(At(p, i + 1, 0), At(p, 0, j + 1)), Reciprocal(At(p, 0, 0))))
  {
    ReducedCells(p);
    Sub(Trailing(p), Scale(MatMul(Below(p), Beside(p)), Reciprocal(At(p, 0, 0))))
  }

  lemma ReducedCells(p: Mat<Complex>)
    requires Valid(p) && p.rows == p.cols >= 2 && At(p, 0, 0) != C.Zero
    ensures var r := Sub(Trailing(p), Scale(MatMul(Below(p), Beside(p)), Reciprocal(At(p, 0, 0))));
      forall i: nat, j: nat :: i < r.rows && j < r.cols ==>
        At(r, i, j) == C.Sub(At(p, i + 1, j + 1), C.Mul(C.Mul(At(p, i + 1, 0), At(p, 0, j + 1)), Reciprocal(At(p, 0, 0))))
  {
    var v, w := Below(p), Beside(p);
    var r := Sub(Trailing(p), Scale(MatMul(v, w), Reciprocal(At(p, 0, 0))));
    forall i: nat, j: nat | i < r.rows && j < r.cols
      ensures At(r, i, j) ==
        C.Sub(At(p, i + 1, j + 1), C.Mul(C.Mul(At(p, i + 1, 0), At(p, 0, j + 1)), Reciprocal(At(p, 0, 0))))
    {
      OuterProductCell(v, w, i, j);
    }
  }
}
