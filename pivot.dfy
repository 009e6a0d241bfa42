/**
 * What the pivot step of `determinant` and `plu`, real and complex, shares:
 * the scan of column 0 for the first nonzero entry and the three blocks
 * around the pivot once its row is on top.
 */
module Pivoting {
  import opened Wrappers
  import opened Dense

  /** The first index holding an entry other than `zero`, or |col| when there is none. */
  function FirstNonzero<T(==)>(col: seq<T>, zero: T): (k: nat)
    ensures k <= |col|
    ensures forall i :: 0 <= i < k ==> col[i] == zero
    ensures k < |col| ==> col[k] != zero
  {
    if |col| == 0 then 0
    else if col[0] != zero then 0
    else 1 + FirstNonzero(col[1..], zero)
  }

  /** The three properties of `FirstNonzero` single it out. */
  lemma {:induction false} FirstNonzeroUnique<T>(col: seq<T>, zero: T, k: nat)
    requires k <= |col|
    requires forall i :: 0 <= i < k ==> col[i] == zero
    requires k < |col| ==> col[k] != zero
    ensures FirstNonzero(col, zero) == k
  {
    if k > 0 {
      assert col[0] == zero;
      FirstNonzeroUnique(col[1..], zero, k - 1);
    }
  }

  /** `if (switchIndex != 0) sign = -1`: a single row switch flips the sign. */
  function SwitchSign(s: nat): real {
    if s != 0 then -1.0 else 1.0
  }

  /** `matP1A = switchRow(0, s)`: row s on top, row 0 in its place. */
  function PivotOnTop<T>(m: Mat<T>, s: nat): (p: Mat<T>)
    requires Valid(m) && s < m.rows
    ensures Valid(p) && p.rows == m.rows && p.cols == m.cols
    ensures forall i: nat, j: nat :: i < p.rows && j < p.cols ==> At(p, i, j) == At(m, Swapped(i, 0, s), j)
  {
    SwitchRow(m, 0, s).value
  }

  /** The column v = `getSubmatrix(1, rows, 0, 1)` below the pivot. */
  function Below<T>(p: Mat<T>): (v: Mat<T>)
    requires Valid(p) && p.rows >= 2
    ensures Valid(v) && v.rows == p.rows - 1 && v.cols == 1
    ensures forall i: nat :: i < v.rows ==> At(v, i, 0) == At(p, i + 1, 0)
  {
    GetSubmatrix(p, 1, p.rows, 0, 1).value
  }

  /** The row wᵀ = `getSubmatrix(0, 1, 1, cols)` beside the pivot. */
  function Beside<T>(p: Mat<T>): (w: Mat<T>)
    requires Valid(p) && p.cols >= 2
    ensures Valid(w) && w.rows == 1 && w.cols == p.cols - 1
    ensures forall j: nat :: j < w.cols ==> At(w, 0, j) == At(p, 0, j + 1)
  {
    GetSubmatrix(p, 0, 1, 1, p.cols).value
  }

  /** The trailing block A′ = `getSubmatrix(1, rows, 1, cols)`. */
  function Trailing<T>(p: Mat<T>): (t: Mat<T>)
    requires Valid(p) && p.rows >= 2 && p.cols >= 2
    ensures Valid(t) && t.rows == p.rows - 1 && t.cols == p.cols - 1
    ensures forall i: nat, j: nat :: i < t.rows && j < t.cols ==> At(t, i, j) == At(p, i + 1, j + 1)
  {
    GetSubmatrix(p, 1, p.rows, 1, p.cols).value
  }

}
