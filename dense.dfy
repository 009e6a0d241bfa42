/**
 * The dense two-dimensional container shared by `Matrix` and `ComplexMatrix`:
 * a rows×cols grid stored row-major, `data[r * cols + c]`, and the structural
 * operations that only move entries around.  Every operation here is
 * generic in the entry type; the arithmetic ones live in `RealMatrices` and
 * `ComplexMatrices`.
 */
module Dense {
  import opened Wrappers
  import RowMajor

  datatype Mat<T> = Mat(rows: nat, cols: nat, data: seq<T>)

  /**
   * A well-formed matrix: both dimensions positive (what the tensor
   * constructor is meant to demand of the shape `[rows, cols]`) and exactly
   * rows·cols entries.
   */
  predicate Valid<T>(m: Mat<T>) {
    m.rows >= 1 && m.cols >= 1 && |m.data| == m.rows * m.cols
  }

  /** The entry in row `i`, column `j`: `data[i * cols + j]`. */
  function At<T>(m: Mat<T>, i: nat, j: nat): T
    requires Valid(m) && i < m.rows && j < m.cols
  {
    RowMajor.CellInRange(i, j, m.rows, m.cols);
    m.data[i * m.cols + j]
  }

  /** `f` is defined on every cell of a rows×cols grid. */
  ghost predicate Total<T>(rows: nat, cols: nat, f: (nat, nat) --> T) {
    forall i: nat, j: nat :: i < rows && j < cols ==> f.requires(i, j)
  }

  /** The row-major data of the grid whose cell (k / cols, k % cols) is `f` there. */
  function Cells<T>(rows: nat, cols: nat, f: (nat, nat) --> T): (s: seq<T>)
    requires cols >= 1 && Total(rows, cols, f)
    ensures |s| == rows * cols
  {
    seq(rows * cols, k requires 0 <= k < rows * cols =>
      RowMajor.OffsetOfCell(k, rows, cols);
      f(k / cols, k % cols))
  }

  /**
   * The matrix built from an index function, as the `Matrix(rows, cols) { i, j -> … }`
   * constructor does: offset `k` holds `f(k / cols, k % cols)`.
   */
  function Build<T>(rows: nat, cols: nat, f: (nat, nat) --> T): (m: Mat<T>)
    requires rows >= 1 && cols >= 1 && Total(rows, cols, f)
    ensures Valid(m) && m.rows == rows && m.cols == cols
    ensures forall i: nat, j: nat :: i < rows && j < cols ==> At(m, i, j) == f(i, j)
  {
    var m := Mat(rows, cols, Cells(rows, cols, f));
    BuildAt(m, f);
    m
  }

  lemma BuildAt<T>(m: Mat<T>, f: (nat, nat) --> T)
    requires m.rows >= 1 && m.cols >= 1 && Total(m.rows, m.cols, f)
    requires m.data == Cells(m.rows, m.cols, f)
    ensures Valid(m)
    ensures forall i: nat, j: nat :: i < m.rows && j < m.cols ==> At(m, i, j) == f(i, j)
  {
    forall i: nat, j: nat | i < m.rows && j < m.cols
      ensures At(m, i, j) == f(i, j)
    {
      RowMajor.CellInRange(i, j, m.rows, m.cols);
      RowMajor.CellOfOffset(i, j, m.cols);
    }
  }

  /** Two matrices of one shape that agree in every cell are the same matrix. */
  lemma Extensionality<T>(a: Mat<T>, b: Mat<T>)
    requires Valid(a) && Valid(b) && a.rows == b.rows && a.cols == b.cols
    requires forall i: nat, j: nat :: i < a.rows && j < a.cols ==> At(a, i, j) == At(b, i, j)
    ensures a == b
  {
    forall k | 0 <= k < |a.data|
      ensures a.data[k] == b.data[k]
    {
      RowMajor.OffsetOfCell(k, a.rows, a.cols);
      assert At(a, k / a.cols, k % a.cols) == At(b, k / a.cols, k % a.cols);
    }
  }

  /** Row `i` as a sequence of `cols` entries. */
  function Row<T>(m: Mat<T>, i: nat): (r: seq<T>)
    requires Valid(m) && i < m.rows
    ensures |r| == m.cols && forall j :: 0 <= j < m.cols ==> r[j] == At(m, i, j)
  {
    seq(m.cols, j requires 0 <= j < m.cols => At(m, i, j))
  }

  /** Column `j` as a sequence of `rows` entries. */
  function Column<T>(m: Mat<T>, j: nat): (c: seq<T>)
    requires Valid(m) && j < m.cols
    ensures |c| == m.rows && forall i :: 0 <= i < m.rows ==> c[i] == At(m, i, j)
  {
    seq(m.rows, i requires 0 <= i < m.rows => At(m, i, j))
  }

  /** The value `set(rowIndex, colIndex, x)` leaves behind: one offset replaced. */
  function Update<T>(m: Mat<T>, r: int, c: int, x: T): (res: Result<Mat<T>>)
    requires Valid(m)
    ensures res.Ok? <==> 0 <= r < m.rows && 0 <= c < m.cols
    ensures res.Err? ==> res.error == IllegalArgument
    ensures res.Ok? ==> Valid(res.value) && res.value.rows == m.rows && res.value.cols == m.cols
    ensures res.Ok? ==> forall i: nat, j: nat :: i < m.rows && j < m.cols ==>
      At(res.value, i, j) == if i == r && j == c then x else At(m, i, j)
  {
    if r < 0 || c < 0 || r >= m.rows || c >= m.cols then Err(IllegalArgument)
    else
      RowMajor.CellInRange(r, c, m.rows, m.cols);
      var u := Mat(m.rows, m.cols, m.data[r * m.cols + c := x]);
      UpdateCells(m, r, c, x, u);
      Ok(u)
  }

  lemma UpdateCells<T>(m: Mat<T>, r: nat, c: nat, x: T, u: Mat<T>)
    requires Valid(m) && r < m.rows && c < m.cols
    requires r * m.cols + c < |m.data|
    requires u == Mat(m.rows, m.cols, m.data[r * m.cols + c := x])
    ensures Valid(u)
    ensures forall i: nat, j: nat :: i < m.rows && j < m.cols ==>
      At(u, i, j) == if i == r && j == c then x else At(m, i, j)
  {
    forall i: nat, j: nat | i < m.rows && j < m.cols
      ensures At(u, i, j) == if i == r && j == c then x else At(m, i, j)
    {
      RowMajor.CellInRange(i, j, m.rows, m.cols);
      if i * m.cols + j == r * m.cols + c {
        RowMajor.CellOfOffset(i, j, m.cols);
        RowMajor.CellOfOffset(r, c, m.cols);
      }
    }
  }

  /** `transpose()`: the cols×rows matrix T with T[i, j] = M[j, i]. */
  function Transpose<T>(m: Mat<T>): (t: Mat<T>)
    requires Valid(m)
    ensures Valid(t) && t.rows == m.cols && t.cols == m.rows
    ensures forall i: nat, j: nat :: i < t.rows && j < t.cols ==> At(t, i, j) == At(m, j, i)
  {
    Build(m.cols, m.rows, (i: nat, j: nat) requires i < m.cols && j < m.rows => At(m, j, i))
  }

  /** Transposing twice gives back the matrix. */
  lemma TransposeTwice<T>(m: Mat<T>)
    requires Valid(m)
    ensures Transpose(Transpose(m)) == m
  {
    Extensionality(Transpose(Transpose(m)), m);
  }

  /** The half-open block [rs, re) × [cs, ce) lies inside the shape and is not empty. */
  predicate BlockInside<T>(m: Mat<T>, rs: int, re: int, cs: int, ce: int) {
    0 <= rs < re <= m.rows && 0 <= cs < ce <= m.cols
  }

  /** `getSubmatrix(rs, re, cs, ce)`: the block with S[i, j] = M[rs + i, cs + j]. */
  function GetSubmatrix<T>(m: Mat<T>, rs: int, re: int, cs: int, ce: int): (res: Result<Mat<T>>)
    requires Valid(m)
    ensures res.Ok? <==> BlockInside(m, rs, re, cs, ce)
    ensures res.Err? ==> res.error == IllegalArgument
    ensures res.Ok? ==> Valid(res.value) && res.value.rows == re - rs && res.value.cols == ce - cs
    ensures res.Ok? ==> forall i: nat, j: nat :: i < re - rs && j < ce - cs ==>
      At(res.value, i, j) == At(m, rs + i, cs + j)
  {
    if rs < 0 || cs < 0 || rs >= re || cs >= ce || re > m.rows || ce > m.cols then Err(IllegalArgument)
    else Ok(Build(re - rs, ce - cs, (i: nat, j: nat) requires i < re - rs && j < ce - cs => At(m, rs + i, cs + j)))
  }

  /**
   * What `setSubmatrix` leaves in `this` when it succeeds: the block at
   * (rs, cs) holds `b`, every other cell keeps its entry.
   */
  function Overwrite<T>(m: Mat<T>, rs: nat, cs: nat, b: Mat<T>): (r: Mat<T>)
    requires Valid(m) && Valid(b) && rs + b.rows <= m.rows && cs + b.cols <= m.cols
    ensures Valid(r) && r.rows == m.rows && r.cols == m.cols
    ensures forall i: nat, j: nat :: i < m.rows && j < m.cols ==>
      At(r, i, j) == if rs <= i < rs + b.rows && cs <= j < cs + b.cols then At(b, i - rs, j - cs) else At(m, i, j)
  {
    Build(m.rows, m.cols, (i: nat, j: nat) requires i < m.rows && j < m.cols =>
      if rs <= i < rs + b.rows && cs <= j < cs + b.cols then At(b, i - rs, j - cs) else At(m, i, j))
  }

  /** The guard of `setSubmatrix`: the block is inside the shape and has the shape of `b`. */
  predicate SubmatrixFits<T>(m: Mat<T>, rs: int, re: int, cs: int, ce: int, b: Mat<T>) {
    BlockInside(m, rs, re, cs, ce) && re - rs == b.rows && ce - cs == b.cols
  }

  /** `setSubmatrix` as a value: the overwritten matrix, or the error it throws. */
  function SetSubmatrix<T>(m: Mat<T>, rs: int, re: int, cs: int, ce: int, b: Mat<T>): (res: Result<Mat<T>>)
    requires Valid(m) && Valid(b)
    ensures res.Ok? <==> SubmatrixFits(m, rs, re, cs, ce, b)
    ensures res.Err? ==> res.error == IllegalArgument
    ensures res.Ok? ==> res.value == Overwrite(m, rs, cs, b)
  {
    if SubmatrixFits(m, rs, re, cs, ce, b) then Ok(Overwrite(m, rs, cs, b)) else Err(IllegalArgument)
  }

  /** Reading back a block just written gives what was written. */
  lemma GetAfterSet<T>(m: Mat<T>, rs: int, re: int, cs: int, ce: int, b: Mat<T>)
    requires Valid(m) && Valid(b) && SubmatrixFits(m, rs, re, cs, ce, b)
    ensures GetSubmatrix(Overwrite(m, rs, cs, b), rs, re, cs, ce) == Ok(b)
  {
    var s := GetSubmatrix(Overwrite(m, rs, cs, b), rs, re, cs, ce).value;
    Extensionality(s, b);
  }

  /** Writing back a block just read changes nothing. */
  lemma SetAfterGet<T>(m: Mat<T>, rs: int, re: int, cs: int, ce: int)
    requires Valid(m) && BlockInside(m, rs, re, cs, ce)
    ensures SetSubmatrix(m, rs, re, cs, ce, GetSubmatrix(m, rs, re, cs, ce).value) == Ok(m)
  {
    var b := GetSubmatrix(m, rs, re, cs, ce).value;
    Extensionality(Overwrite(m, rs, cs, b), m);
  }

  /** The index of the original row (or column) that position `i` of a minor reads. */
  function Skip(i: nat, removed: int): nat {
    if i >= removed then i + 1 else i
  }

  /**
   * `minorMatrix(r, c)`: row r and column c removed.  Negative indices are not
   * rejected; with r < 0 every row index is shifted, so row 0 is the one
   * removed (see `MinorNegativeRow`).
   */
  function MinorMatrix<T>(m: Mat<T>, r: int, c: int): (res: Result<Mat<T>>)
    requires Valid(m)
    ensures res.Ok? <==> m.rows >= 2 && m.cols >= 2 && r < m.rows && c < m.cols
    ensures res.Err? ==> res.error == IllegalArgument
    ensures res.Ok? ==> Valid(res.value) && res.value.rows == m.rows - 1 && res.value.cols == m.cols - 1
    ensures res.Ok? ==> forall i: nat, j: nat :: i < m.rows - 1 && j < m.cols - 1 ==>
      At(res.value, i, j) == At(m, Skip(i, r), Skip(j, c))
  {
    if m.rows < 2 || m.cols < 2 || r >= m.rows || c >= m.cols then Err(IllegalArgument)
    else Ok(Build(m.rows - 1, m.cols - 1, (i: nat, j: nat) requires i < m.rows - 1 && j < m.cols - 1 =>
      At(m, Skip(i, r), Skip(j, c))))
  }

  /**
   * The minor keeps every cell outside row r and column c, each at its
   * position shifted up past r and left past c.
   */
  lemma MinorKeepsOtherCells<T>(m: Mat<T>, r: nat, c: nat, i: nat, j: nat)
    requires Valid(m) && m.rows >= 2 && m.cols >= 2 && r < m.rows && c < m.cols
    requires i < m.rows && j < m.cols && i != r && j != c
    ensures At(MinorMatrix(m, r, c).value, if i > r then i - 1 else i, if j > c then j - 1 else j) == At(m, i, j)
  {}

  /** A negative row index removes row 0, exactly as index 0 does. */
  lemma MinorNegativeRow<T>(m: Mat<T>, r: int, c: int)
    requires Valid(m) && m.rows >= 2 && m.cols >= 2 && r < 0 && c < m.cols
    ensures MinorMatrix(m, r, c) == MinorMatrix(m, 0, c)
  {
    Extensionality(MinorMatrix(m, r, c).value, MinorMatrix(m, 0, c).value);
  }

  /** The row that position `i` reads after rows r1 and r2 are exchanged. */
  function Swapped(i: nat, r1: nat, r2: nat): nat {
    if i == r1 then r2 else if i == r2 then r1 else i
  }

  /**
   * `switchRow(r1, r2)`: rows r1 and r2 exchanged; the matrix itself when the
   * two indices are equal.
   */
  function SwitchRow<T>(m: Mat<T>, r1: int, r2: int): (res: Result<Mat<T>>)
    requires Valid(m)
    ensures res.Ok? <==> 0 <= r1 < m.rows && 0 <= r2 < m.rows
    ensures res.Err? ==> res.error == IllegalArgument
    ensures res.Ok? && r1 == r2 ==> res.value == m
    ensures res.Ok? ==> Valid(res.value) && res.value.rows == m.rows && res.value.cols == m.cols
    ensures res.Ok? ==> forall i: nat, j: nat :: i < m.rows && j < m.cols ==>
      At(res.value, i, j) == At(m, Swapped(i, r1, r2), j)
  {
    if r1 < 0 || r2 < 0 || r1 >= m.rows || r2 >= m.rows then Err(IllegalArgument)
    else if r1 == r2 then Ok(m)
    else Ok(Build(m.rows, m.cols, (i: nat, j: nat) requires i < m.rows && j < m.cols =>
      At(m, Swapped(i, r1, r2), j)))
  }

  /** Switching the same two rows twice restores the matrix. */
  lemma SwitchRowTwice<T>(m: Mat<T>, r1: nat, r2: nat)
    requires Valid(m) && r1 < m.rows && r2 < m.rows
    ensures SwitchRow(SwitchRow(m, r1, r2).value, r1, r2) == Ok(m)
  {
    Extensionality(SwitchRow(SwitchRow(m, r1, r2).value, r1, r2).value, m);
  }

  /** The order of the two indices does not matter. */
  lemma SwitchRowSymmetric<T>(m: Mat<T>, r1: nat, r2: nat)
    requires Valid(m) && r1 < m.rows && r2 < m.rows
    ensures SwitchRow(m, r1, r2) == SwitchRow(m, r2, r1)
  {
    Extensionality(SwitchRow(m, r1, r2).value, SwitchRow(m, r2, r1).value);
  }

  /**
   * `concat(other, dim)`: dim 0 puts `b` below `a` (equal column counts), dim 1
   * puts `b` to the right of `a` (equal row counts); any other dim is an error.
   */
  function Concat<T>(a: Mat<T>, b: Mat<T>, dim: int): (res: Result<Mat<T>>)
    requires Valid(a) && Valid(b)
    ensures res.Ok? <==> (dim == 0 && a.cols == b.cols) || (dim == 1 && a.rows == b.rows)
    ensures res.Err? ==> res.error == IllegalArgument
    ensures res.Ok? ==> Valid(res.value)
    ensures res.Ok? && dim == 0 ==> res.value.rows == a.rows + b.rows && res.value.cols == a.cols
    ensures res.Ok? && dim == 1 ==> res.value.rows == a.rows && res.value.cols == a.cols + b.cols
  {
    if dim == 0 then
      if a.cols != b.cols then Err(IllegalArgument)
      else Ok(Build(a.rows + b.rows, a.cols, (i: nat, j: nat) requires i < a.rows + b.rows && j < a.cols =>
        if i < a.rows then At(a, i, j) else At(b, i - a.rows, j)))
    else if dim == 1 then
      if a.rows != b.rows then Err(IllegalArgument)
      else Ok(Build(a.rows, a.cols + b.cols, (i: nat, j: nat) requires i < a.rows && j < a.cols + b.cols =>
        if j < a.cols then At(a, i, j) else At(b, i, j - a.cols)))
    else Err(IllegalArgument)
  }

  /** Concatenating below: slicing the result at the seam gives back both operands. */
  lemma ConcatRowsSplits<T>(a: Mat<T>, b: Mat<T>)
    requires Valid(a) && Valid(b) && a.cols == b.cols
    ensures var c := Concat(a, b, 0).value;
      GetSubmatrix(c, 0, a.rows, 0, a.cols) == Ok(a) &&
      GetSubmatrix(c, a.rows, a.rows + b.rows, 0, a.cols) == Ok(b)
  {
    var c := Concat(a, b, 0).value;
    Extensionality(GetSubmatrix(c, 0, a.rows, 0, a.cols).value, a);
    Extensionality(GetSubmatrix(c, a.rows, a.rows + b.rows, 0, a.cols).value, b);
  }

  /** Concatenating to the right: slicing the result at the seam gives back both operands. */
  lemma ConcatColumnsSplits<T>(a: Mat<T>, b: Mat<T>)
    requires Valid(a) && Valid(b) && a.rows == b.rows
    ensures var c := Concat(a, b, 1).value;
      GetSubmatrix(c, 0, a.rows, 0, a.cols) == Ok(a) &&
      GetSubmatrix(c, 0, a.rows, a.cols, a.cols + b.cols) == Ok(b)
  {
    var c := Concat(a, b, 1).value;
    Extensionality(GetSubmatrix(c, 0, a.rows, 0, a.cols).value, a);
    Extensionality(GetSubmatrix(c, 0, a.rows, a.cols, a.cols + b.cols).value, b);
  }

  /** Concatenation keeps the cells' values: the top/left part is `a`, the rest is `b` shifted. */
  lemma ConcatCells<T>(a: Mat<T>, b: Mat<T>, dim: int)
    requires Valid(a) && Valid(b) && Concat(a, b, dim).Ok?
    ensures var c := Concat(a, b, dim).value;
      forall i: nat, j: nat :: i < c.rows && j < c.cols ==>
        At(c, i, j) == if dim == 0 then (if i < a.rows then At(a, i, j) else At(b, i - a.rows, j))
                       else (if j < a.cols then At(a, i, j) else At(b, i, j - a.cols))
  {}
}
