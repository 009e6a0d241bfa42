/**
 * Integer facts behind row-major addressing: cell (r, c) of a rows×cols grid
 * lives at offset r*cols + c, and offset k holds cell (k / cols, k % cols).
 */
module RowMajor {

  lemma CellInRange(r: nat, c: nat, rows: nat, cols: nat)
    requires r < rows && c < cols
    ensures r * cols + c < rows * cols
  {
    MulMonotone(r, rows - 1, cols);
    assert (rows - 1) * cols == rows * cols - cols;
  }

  lemma MulMonotone(a: nat, b: nat, n: nat)
    requires a <= b
    ensures a * n <= b * n
  {}

  /** The offset of a cell gives the cell back. */
  lemma CellOfOffset(r: nat, c: nat, cols: nat)
    requires c < cols
    ensures (r * cols + c) / cols == r
    ensures (r * cols + c) % cols == c
  {
    DivModUnique(r * cols + c, r, c, cols);
  }

  /** Every offset of the grid is the offset of a cell in it. */
  lemma OffsetOfCell(k: nat, rows: nat, cols: nat)
    requires k < rows * cols
    ensures cols > 0
    ensures 0 <= k / cols < rows && 0 <= k % cols < cols
    ensures (k / cols) * cols + k % cols == k
  {
    if k / cols >= rows {
      MulMonotone(rows, k / cols, cols);
    }
  }

  lemma DivModUnique(k: int, q: int, r: int, n: int)
    requires n > 0 && 0 <= r < n && k == q * n + r
    ensures k / n == q && k % n == r
  {
    var q', r' := k / n, k % n;
    assert k == q' * n + r';
    if q' > q {
      MulMonotone2(q + 1, q', n);
    } else if q' < q {
      MulMonotone2(q' + 1, q, n);
    }
  }

  lemma MulMonotone2(a: int, b: int, n: int)
    requires a <= b && n > 0
    ensures a * n <= b * n
  {}

  /** Distinct cells have distinct offsets. */
  lemma OffsetInjective(i: nat, j: nat, i': nat, j': nat, cols: nat)
    requires j < cols && j' < cols && i * cols + j == i' * cols + j'
    ensures i == i' && j == j'
  {
    CellOfOffset(i, j, cols);
    CellOfOffset(i', j', cols);
  }
}
