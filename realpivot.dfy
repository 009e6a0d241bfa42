/**
 * The pivot step of the real `determinant` and `plu`: scan column 0 from
 * the top for the first nonzero entry `a`, switch its row to the top, and
 * descend into the Schur complement A′ − (v·wᵀ)·(1/a) of order n − 1.
 */
module RealPivot {
  import opened Wrappers
  import opened Dense
  import opened RealMatrices
  import opened Pivoting

  /**
   * The `for (elem in firstColumn)` loop: `switchIndex` counts the zero
   * entries passed, `a` is the first nonzero entry, or stays 0 when there is
   * none (then `switchIndex` ends at `rows`).
   */
  method PivotSearch(m: Mat<real>) returns (switchIndex: nat, a: real)
    requires Valid(m)
    ensures switchIndex == FirstNonzero(Column(m, 0), 0.0)
    ensures a == 0.0 <==> switchIndex == m.rows
    ensures switchIndex < m.rows ==> a == At(m, switchIndex, 0)
  {
    ghost var col := Column(m, 0);
    switchIndex, a := 0, 0.0;
    while switchIndex < m.rows
      invariant switchIndex <= m.rows && a == 0.0
      invariant forall i :: 0 <= i < switchIndex ==> col[i] == 0.0
    {
      var elem := At(m, switchIndex, 0);
      if elem != 0.0 {
        a := elem;
        break;
      }
      switchIndex := switchIndex + 1;
    }
    FirstNonzeroUnique(col, 0.0, switchIndex);
  }

  /** A sum over one entry is that one product. */
  lemma DotSingle(x: seq<real>, y: seq<real>)
    requires |x| == 1 && |y| == 1
    ensures Dot(x, y) == Prod(x[0], y[0])
  {
    assert x[..0] == [] && y[..0] == [];
  }

  /** A column times a row, cell by cell: the outer product. */
  lemma OuterProductCell(v: Mat<real>, w: Mat<real>, i: nat, j: nat)
    requires Valid(v) && Valid(w) && v.cols == 1 && w.rows == 1 && i < v.rows && j < w.cols
    ensures At(MatMul(v, w), i, j) == Prod(At(v, i, 0), At(w, 0, j))
  {
    DotSingle(Row(v, i), Column(w, j));
  }

  /**
   * The matrix the recursion descends into once the pivot row is on top
   * (`matAPrime - (v * wT) * c` with c = 1/a, a = p[0, 0]): cell (i, j) is
   * p[i+1, j+1] − c·(p[i+1, 0]·p[0, j+1]), the Schur complement of the pivot.
   */
  function Reduced(p: Mat<real>): (r: Mat<real>)
    requires Valid(p) && p.rows == p.cols >= 2 && At(p, 0, 0) != 0.0
    ensures Valid(r) && r.rows == p.rows - 1 && r.cols == p.rows - 1
    ensures forall i: nat, j: nat :: i < r.rows && j < r.cols ==>
      At(r, i, j) == At(p, i + 1, j + 1) - Prod(1.0 / At(p, 0, 0), Prod(At(p, i + 1, 0), At(p, 0, j + 1)))
  {
    ReducedCells(p);
    Sub(Trailing(p), Scale(MatMul(Below(p), Beside(p)), 1.0 / At(p, 0, 0)))
  }

  lemma ReducedCells(p: Mat<real>)
    requires Valid(p) && p.rows == p.cols >= 2 && At(p, 0, 0) != 0.0
    ensures var r := Sub(Trailing(p), Scale(MatMul(Below(p), Beside(p)), 1.0 / At(p, 0, 0)));
      forall i: nat, j: nat :: i < r.rows && j < r.cols ==>
        At(r, i, j) == At(p, i + 1, j + 1) - Prod(1.0 / At(p, 0, 0), Prod(At(p, i + 1, 0), At(p, 0, j + 1)))
  {
    var v, w := Below(p), Beside(p);
    var r := Sub(Trailing(p), Scale(MatMul(v, w), 1.0 / At(p, 0, 0)));
    forall i: nat, j: nat | i < r.rows && j < r.cols
      ensures At(r, i, j) ==
        At(p, i + 1, j + 1) - Prod(1.0 / At(p, 0, 0), Prod(At(p, i + 1, 0), At(p, 0, j + 1)))
    {
      OuterProductCell(v, w, i, j);
    }
  }
}
