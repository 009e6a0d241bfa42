/**
 * The mutable storage behind `Matrix`/`ComplexMatrix` and the four vector
 * classes: a fixed shape and a flat array that `set`, `setSubmatrix` and
 * `setSubvector` overwrite in place.  Every other operation builds a new
 * object and is modelled on values (`Dense`, `Vectors`); `Value()` is the
 * bridge from an object to its value.
 */
module Storage {
  import opened Wrappers
  import opened Dense
  import RowMajor
  import Vectors

  class Matrix<T> {
    const rows: nat
    const cols: nat
    const data: array<T>

    /**
     * The shape `Matrix(rows, cols, data)` accepts: at least one column and
     * rows·cols entries.  A matrix with no rows is accepted too; it has no
     * cell, so every `get`, `set` and `setSubmatrix` on it throws.
     */
    predicate Valid()
      reads this
    {
      cols >= 1 && data.Length == rows * cols
    }

    /** The matrix this object currently holds. */
    function Value(): (m: Mat<T>)
      requires Valid()
      reads this, data
      ensures m.rows == rows && m.cols == cols && m.data == data[..]
      ensures rows >= 1 ==> Dense.Valid(m)
    {
      Mat(rows, cols, data[..])
    }

    /** A fresh object holding `m`, for every `m` the constructor as written accepts. */
    constructor (m: Mat<T>)
      requires Vectors.NewMatrixAsWritten(m.rows, m.cols, m.data).Ok?
      ensures Valid() && Value() == m && fresh(data)
    {
      rows, cols := m.rows, m.cols;
      data := new T[|m.data|](k requires 0 <= k < |m.data| => m.data[k]);
    }

    /** `get(r, c)`: `data[r * cols + c]`, or an error outside [0, rows) × [0, cols). */
    method Get(r: int, c: int) returns (res: Result<T>)
      requires Valid()
      ensures res.Ok? <==> 0 <= r < rows && 0 <= c < cols
      ensures res.Err? ==> res.error == IllegalArgument
      ensures res.Ok? ==> r * cols + c < data.Length && res.value == data[r * cols + c]
      ensures res.Ok? ==> res.value == At(Value(), r, c)
    {
      if r < 0 || c < 0 || r >= rows || c >= cols {
        return Err(IllegalArgument);
      }
      RowMajor.CellInRange(r, c, rows, cols);
      return Ok(data[r * cols + c]);
    }

    /** `set(r, c, x)`: only cell (r, c) changes; outside the shape nothing changes. */
    method Set(r: int, c: int, x: T) returns (o: Outcome)
      requires Valid()
      modifies data
      ensures o.Pass? <==> 0 <= r < rows && 0 <= c < cols
      ensures o.Fail? ==> o.error == IllegalArgument && data[..] == old(data[..])
      ensures o.Pass? ==> Value() == Update(old(Value()), r, c, x).value
    {
      if r < 0 || c < 0 || r >= rows || c >= cols {
        return Fail(IllegalArgument);
      }
      RowMajor.CellInRange(r, c, rows, cols);
      data[r * cols + c] := x;
      return Pass;
    }

    /**
     * `setSubmatrix(rs, re, cs, ce, other)`: on success the block
     * [rs, re) × [cs, ce) holds `other` and every other cell is unchanged; a
     * block outside the shape, or one whose shape differs from `other`'s,
     * changes nothing.  `other` may be this very object.
     */
    method SetSubmatrix(rs: int, re: int, cs: int, ce: int, other: Matrix<T>) returns (o: Outcome)
      requires Valid() && other.Valid()
      modifies data
      ensures o.Pass? <==> SubmatrixFits(old(Value()), rs, re, cs, ce, old(other.Value()))
      ensures o.Fail? ==> o.error == IllegalArgument && data[..] == old(data[..])
      ensures o.Pass? ==> Value() == Overwrite(old(Value()), rs, cs, old(other.Value()))
    {
      if rs < 0 || cs < 0 || rs >= re || cs >= ce || re > rows || ce > cols
        || re - rs != other.rows || ce - cs != other.cols
      {
        return Fail(IllegalArgument);
      }
      ghost var m0, b := Value(), other.Value();
      ghost var aliased := other.data == data;
      if aliased {
        FullBlock(rows, cols, other.rows, other.cols);
      }
      WrittenStart(m0, b, rs, cs);
      var k: nat := 0;
      while k < other.data.Length
        invariant 0 <= k <= other.data.Length == |b.data|
        invariant aliased ==> rs == 0 && cs == 0 && other.cols == cols
        invariant forall k' :: k <= k' < other.data.Length ==> other.data[k'] == b.data[k']
        invariant Written(Value(), m0, b, rs, cs, k)
      {
        RowMajor.OffsetOfCell(k, other.rows, other.cols);
        var bi: nat, bj: nat := k / other.cols, k % other.cols;
        RowMajor.CellInRange(rs + bi, cs + bj, rows, cols);
        var p: nat := (rs + bi) * cols + (cs + bj);
        ghost var before := Value();
        var x := other.data[k];
        data[p] := x;
        assert data[..] == before.data[p := b.data[k]];
        WriteStep(before, Value(), m0, b, rs, cs, k, bi, bj, p);
        if aliased {
          assert p == k;
        }
        k := k + 1;
      }
      WrittenAll(Value(), m0, b, rs, cs);
      return Pass;
    }
  }

  /** Whether block cell (bi, bj) of a block with `bcols` columns comes before offset `k`. */
  predicate Before(bi: nat, bj: nat, bcols: nat, k: nat) {
    bi * bcols + bj < k
  }

  /** Cell (i, j) of `m` holds `b`'s entry if it is a block cell before offset `k`, else `m0`'s. */
  ghost predicate WrittenCell<T>(m: Mat<T>, m0: Mat<T>, b: Mat<T>, rs: nat, cs: nat, k: nat, i: nat, j: nat)
    requires Dense.Valid(m) && Dense.Valid(m0) && Dense.Valid(b) && m.rows == m0.rows && m.cols == m0.cols
    requires i < m.rows && j < m.cols
  {
    At(m, i, j) == if rs <= i < rs + b.rows && cs <= j < cs + b.cols && Before(i - rs, j - cs, b.cols, k)
                   then At(b, i - rs, j - cs) else At(m0, i, j)
  }

  /** The state of `setSubmatrix` after the first `k` entries of `b` are written. */
  ghost predicate Written<T>(m: Mat<T>, m0: Mat<T>, b: Mat<T>, rs: nat, cs: nat, k: nat)
    requires Dense.Valid(m) && Dense.Valid(m0) && Dense.Valid(b)
  {
    m.rows == m0.rows && m.cols == m0.cols &&
    rs + b.rows <= m.rows && cs + b.cols <= m.cols &&
    forall i: nat, j: nat :: i < m.rows && j < m.cols ==> WrittenCell(m, m0, b, rs, cs, k, i, j)
  }

  /**
   * Writing the `k`-th block entry, block cell (bi, bj), to its target offset
   * `p` extends `Written` by one.
   */
  lemma WriteStep<T>(before: Mat<T>, after: Mat<T>, m0: Mat<T>, b: Mat<T>, rs: nat, cs: nat,
                     k: nat, bi: nat, bj: nat, p: nat)
    requires Dense.Valid(before) && Dense.Valid(after) && Dense.Valid(m0) && Dense.Valid(b)
    requires Written(before, m0, b, rs, cs, k)
    requires bi < b.rows && bj < b.cols && k == bi * b.cols + bj && k < |b.data|
    requires after.rows == before.rows && after.cols == before.cols
    requires p == (rs + bi) * before.cols + (cs + bj) && p < |before.data|
    requires after.data == before.data[p := b.data[k]]
    ensures Written(after, m0, b, rs, cs, k + 1)
  {
    var k1 := k + 1;
    forall i: nat, j: nat | i < after.rows && j < after.cols
      ensures WrittenCell(after, m0, b, rs, cs, k1, i, j)
    {
      assert WrittenCell(before, m0, b, rs, cs, k, i, j);
      if i == rs + bi && j == cs + bj {
        WriteTargetCell(before, after, m0, b, rs, cs, k, bi, bj, p);
      } else {
        WriteOtherCell(before, after, m0, b, rs, cs, k, bi, bj, p, i, j);
      }
    }
  }

  /** The cell just written holds its block entry. */
  lemma WriteTargetCell<T>(before: Mat<T>, after: Mat<T>, m0: Mat<T>, b: Mat<T>, rs: nat, cs: nat,
                           k: nat, bi: nat, bj: nat, p: nat)
    requires Dense.Valid(before) && Dense.Valid(after) && Dense.Valid(m0) && Dense.Valid(b)
    requires before.rows == m0.rows && before.cols == m0.cols
    requires after.rows == before.rows && after.cols == before.cols
    requires rs + b.rows <= before.rows && cs + b.cols <= before.cols
    requires bi < b.rows && bj < b.cols && k == bi * b.cols + bj && k < |b.data|
    requires p == (rs + bi) * before.cols + (cs + bj) && p < |before.data|
    requires after.data == before.data[p := b.data[k]]
    ensures WrittenCell(after, m0, b, rs, cs, k + 1, rs + bi, cs + bj)
  {
    assert At(after, rs + bi, cs + bj) == after.data[p];
    assert At(b, bi, bj) == b.data[k];
    assert Before(bi, bj, b.cols, k + 1);
  }

  /** Every other cell keeps what it held, and is before offset k + 1 exactly when before k. */
  lemma WriteOtherCell<T>(before: Mat<T>, after: Mat<T>, m0: Mat<T>, b: Mat<T>, rs: nat, cs: nat,
                          k: nat, bi: nat, bj: nat, p: nat, i: nat, j: nat)
    requires Dense.Valid(before) && Dense.Valid(after) && Dense.Valid(m0) && Dense.Valid(b)
    requires before.rows == m0.rows && before.cols == m0.cols
    requires after.rows == before.rows && after.cols == before.cols
    requires rs + b.rows <= before.rows && cs + b.cols <= before.cols
    requires bi < b.rows && bj < b.cols && k == bi * b.cols + bj && k < |b.data|
    requires p == (rs + bi) * before.cols + (cs + bj) && p < |before.data|
    requires after.data == before.data[p := b.data[k]]
    requires i < before.rows && j < before.cols && (i != rs + bi || j != cs + bj)
    requires WrittenCell(before, m0, b, rs, cs, k, i, j)
    ensures WrittenCell(after, m0, b, rs, cs, k + 1, i, j)
  {
    WriteKeepsCell(before, after, p, b.data[k], i, j, rs + bi, cs + bj);
    if rs <= i < rs + b.rows && cs <= j < cs + b.cols {
      BeforeStep(i - rs, j - cs, bi, bj, b.cols, k);
    }
  }

  /** A write to the offset of cell (ti, tj) leaves every other cell alone. */
  lemma WriteKeepsCell<T>(before: Mat<T>, after: Mat<T>, p: nat, x: T, i: nat, j: nat, ti: nat, tj: nat)
    requires Dense.Valid(before) && Dense.Valid(after)
    requires after.rows == before.rows && after.cols == before.cols
    requires i < before.rows && j < before.cols && tj < before.cols && (i != ti || j != tj)
    requires p == ti * before.cols + tj && p < |before.data|
    requires after.data == before.data[p := x]
    ensures At(after, i, j) == At(before, i, j)
  {
    RowMajor.CellInRange(i, j, before.rows, before.cols);
    if i * before.cols + j == p {
      RowMajor.OffsetInjective(i, j, ti, tj, before.cols);
    }
  }

  /** Only block cell (bi, bj), the one at offset k, changes from "after k" to "before k + 1". */
  lemma BeforeStep(ii: nat, jj: nat, bi: nat, bj: nat, bcols: nat, k: nat)
    requires jj < bcols && bj < bcols && k == bi * bcols + bj && (ii != bi || jj != bj)
    ensures Before(ii, jj, bcols, k + 1) == Before(ii, jj, bcols, k)
  {
    if ii * bcols + jj == k {
      RowMajor.OffsetInjective(ii, jj, bi, bj, bcols);
    }
  }

  /** Before the first write every cell holds its original entry. */
  lemma WrittenStart<T>(m0: Mat<T>, b: Mat<T>, rs: nat, cs: nat)
    requires Dense.Valid(m0) && Dense.Valid(b) && rs + b.rows <= m0.rows && cs + b.cols <= m0.cols
    ensures Written(m0, m0, b, rs, cs, 0)
  {}

  /** Once every block offset is written, the matrix is the overwritten one. */
  lemma WrittenAll<T>(m: Mat<T>, m0: Mat<T>, b: Mat<T>, rs: nat, cs: nat)
    requires Dense.Valid(m) && Dense.Valid(m0) && Dense.Valid(b)
    requires Written(m, m0, b, rs, cs, b.rows * b.cols)
    ensures m == Overwrite(m0, rs, cs, b)
  {
    var o := Overwrite(m0, rs, cs, b);
    forall i: nat, j: nat | i < m.rows && j < m.cols
      ensures At(m, i, j) == At(o, i, j)
    {
      assert WrittenCell(m, m0, b, rs, cs, b.rows * b.cols, i, j);
      if rs <= i < rs + b.rows && cs <= j < cs + b.cols {
        RowMajor.CellInRange(i - rs, j - cs, b.rows, b.cols);
      }
    }
    Extensionality(m, o);
  }

  /** A block as large as the whole grid (by entry count) is the whole grid. */
  lemma FullBlock(rows: nat, cols: nat, brows: nat, bcols: nat)
    requires 1 <= brows <= rows && 1 <= bcols <= cols && brows * bcols == rows * cols
    ensures brows == rows && bcols == cols
  {
    if brows < rows {
      RowMajor.MulMonotone(brows + 1, rows, bcols);
      RowMajor.MulMonotone(bcols, cols, rows);
    } else if bcols < cols {
      RowMajor.MulMonotone(bcols + 1, cols, rows);
    }
  }

  /**
   * The storage of the four vector classes: `length` entries, both for a
   * column vector (a length×1 matrix) and a row vector (1×length).
   */
  class Vector<T> {
    const length: nat
    const column: bool
    const data: array<T>

    /** `length` entries; an empty vector is a column vector with no rows. */
    predicate Valid()
      reads this
    {
      data.Length == length && (length == 0 ==> column)
    }

    /**
     * A fresh column or row vector holding `v`, for every `v` its constructor
     * as written accepts: any length for `ColumnVector`, a positive one for
     * `RowVector`.
     */
    constructor (v: seq<T>, column: bool)
      requires (if column then Vectors.NewColumnVectorAsWritten(|v|, v) else Vectors.NewVector(|v|, v)).Ok?
      ensures Valid() && data[..] == v && this.column == column && fresh(data)
    {
      length := |v|;
      this.column := column;
      data := new T[|v|](k requires 0 <= k < |v| => v[k]);
    }

    /** `get(index)`: `data[index]`, or an error outside [0, length). */
    method Get(index: int) returns (res: Result<T>)
      requires Valid()
      ensures res.Ok? <==> 0 <= index < length
      ensures res.Err? ==> res.error == IllegalArgument
      ensures res.Ok? ==> res.value == data[index]
    {
      if index < 0 || index >= length {
        return Err(IllegalArgument);
      }
      return Ok(data[index]);
    }

    /** `set(index, x)`: exactly one entry changes; outside the range nothing does. */
    method Set(index: int, x: T) returns (o: Outcome)
      requires Valid()
      modifies data
      ensures o.Pass? <==> 0 <= index < length
      ensures o.Fail? ==> o.error == IllegalArgument && data[..] == old(data[..])
      ensures o.Pass? ==> data[..] == old(data[..])[index := x]
    {
      if index < 0 || index >= length {
        return Fail(IllegalArgument);
      }
      data[index] := x;
      return Pass;
    }

    /**
     * `setSubvector(s, e, other)`: on success [s, e) holds `other` and the
     * rest is unchanged; a bad range or a length mismatch changes nothing.
     * `other` may be this very object.
     */
    method SetSubvector(s: int, e: int, other: Vector<T>) returns (o: Outcome)
      requires Valid() && other.Valid()
      modifies data
      ensures o.Pass? <==> Vectors.SpliceFits(old(data[..]), s, e, old(other.data[..]))
      ensures o.Fail? ==> o.error == IllegalArgument && data[..] == old(data[..])
      ensures o.Pass? ==> data[..] == Vectors.Splice(old(data[..]), s, e, old(other.data[..])).value
    {
      if s < 0 || s >= e || e > length || e - s != other.length {
        return Fail(IllegalArgument);
      }
      ghost var v0, w := data[..], other.data[..];
      var k: nat := 0;
      while k < other.data.Length
        invariant 0 <= k <= other.data.Length
        invariant forall k' :: k <= k' < other.data.Length ==> other.data[k'] == w[k']
        invariant forall p :: 0 <= p < data.Length ==>
          data[p] == if s <= p < s + k then w[p - s] else v0[p]
      {
        data[s + k] := other.data[k];
        k := k + 1;
      }
      assert data[..] == v0[..s] + w + v0[e..];
      return Pass;
    }
  }
}
