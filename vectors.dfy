/**
 * What the four vector classes (`ColumnVector`, `RowVector` and their
 * complex counterparts) share: a vector is its `length` entries, a column
 * vector is the length×1 matrix over them and a row vector the 1×length
 * matrix over the same data.  The operations here only move entries
 * around, so they are generic in the entry type.
 */
module Vectors {
  import opened Wrappers
  import opened Dense
  import Tensors
  import RowMajor

  /** The length×1 matrix a column vector is. */
  function ColumnMatrix<T>(v: seq<T>): (m: Mat<T>)
    ensures m.rows == |v| && m.cols == 1 && (|v| >= 1 ==> Valid(m))
  {
    Mat(|v|, 1, v)
  }

  /** The 1×length matrix a row vector is. */
  function RowMatrix<T>(v: seq<T>): (m: Mat<T>)
    ensures m.rows == 1 && m.cols == |v| && (|v| >= 1 ==> Valid(m))
  {
    Mat(1, |v|, v)
  }

  /**
   * `Matrix(rows, cols, data)` as written: the tensor constructor as written
   * on shape [rows, cols], which leaves `rows` unchecked, so a matrix with
   * no rows constructs.
   */
  function NewMatrixAsWritten<T>(rows: int, cols: int, data: seq<T>): (res: Result<Mat<T>>)
    ensures res.Ok? <==> rows >= 0 && cols >= 1 && |data| == rows * cols
    ensures res.Err? ==> res.error == IllegalArgument
    ensures res.Ok? ==> res.value == Mat(rows, cols, data) && (rows >= 1 ==> Valid(res.value))
  {
    assert Tensors.Product([rows, cols]) == Tensors.Product([rows]) * cols;
    var t := Tensors.NewTensorAsWritten([rows, cols], data);
    if t.Err? then Err(t.error) else Ok(Mat(rows, cols, data))
  }

  /**
   * `ColumnVector(length, data)` as written: the length×1 matrix, which
   * `NewMatrixAsWritten` accepts with no rows, then `data.size == length`.
   */
  function NewColumnVectorAsWritten<T>(length: int, data: seq<T>): (res: Result<seq<T>>)
    ensures res.Ok? <==> length >= 0 && |data| == length
    ensures res.Err? ==> res.error == IllegalArgument
    ensures res.Ok? ==> res.value == data
  {
    var m := NewMatrixAsWritten(length, 1, data);
    if m.Err? then Err(m.error) else if |data| != length then Err(IllegalArgument) else Ok(data)
  }

  /** As written, an empty column vector constructs; an empty row vector does not. */
  lemma EmptyColumnVector<T>()
    ensures NewColumnVectorAsWritten<T>(0, []) == Ok([])
    ensures NewVector<T>(0, []) == Err(IllegalArgument)
  {}

  /** The two column vector constructors agree on every nonzero length. */
  lemma ColumnVectorAgrees<T>(length: int, data: seq<T>)
    requires length != 0
    ensures NewColumnVectorAsWritten(length, data) == NewVector(length, data)
  {}

  /**
   * `RowVector(length, data)`, the 1×length matrix, whose shape check does
   * test `length`, and `ColumnVector(length, data)` corrected the same way:
   * the matrix superclass checks the shape and the data length, then the
   * vector checks `data.size == length` once more.
   */
  function NewVector<T>(length: int, data: seq<T>): (res: Result<seq<T>>)
    ensures res.Ok? <==> length >= 1 && |data| == length
    ensures res.Err? ==> res.error == IllegalArgument
    ensures res.Ok? ==> res.value == data && Valid(ColumnMatrix(data)) && Valid(RowMatrix(data))
  {
    if length < 1 || |data| != length then Err(IllegalArgument) else Ok(data)
  }

  /** `RowVector(length, data)` as written, the 1×length matrix and the length check, is `NewVector`. */
  lemma RowVectorAsWritten<T>(length: int, data: seq<T>)
    ensures NewVector(length, data) == (
      var m := NewMatrixAsWritten(1, length, data);
      if m.Err? then Err(m.error) else if |data| != length then Err(IllegalArgument) else Ok(data))
  {}

  /** A vector is accepted exactly when the tensor of shape [length, 1], or [1, length], is. */
  lemma NewVectorIsTensor<T>(length: int, data: seq<T>)
    ensures NewVector(length, data) == (
      var t := Tensors.NewTensor([length, 1], data);
      if t.Ok? then Ok(data) else Err(t.error))
    ensures NewVector(length, data) == (
      var t := Tensors.NewTensor([1, length], data);
      if t.Ok? then Ok(data) else Err(t.error))
  {
    assert Tensors.Product([length, 1]) == length * Tensors.Product([1]);
    assert Tensors.Product([1, length]) == Tensors.Product([length]);
  }

  /** The block [s, e) lies inside a vector of the given length and is not empty. */
  predicate RangeInside(length: int, s: int, e: int) {
    0 <= s < e <= length
  }

  /** `getSubvector(s, e)`: the entries s, …, e − 1, as a new vector. */
  function GetSubvector<T>(v: seq<T>, s: int, e: int): (res: Result<seq<T>>)
    ensures res.Ok? <==> RangeInside(|v|, s, e)
    ensures res.Err? ==> res.error == IllegalArgument
    ensures res.Ok? ==> |res.value| == e - s && forall i :: 0 <= i < e - s ==> res.value[i] == v[s + i]
  {
    if s < 0 || s >= e || e > |v| then Err(IllegalArgument)
    else Ok(seq(e - s, i requires 0 <= i < e - s => v[s + i]))
  }

  /** A subvector of a column vector is the block of rows [s, e) of the length×1 matrix. */
  lemma SubvectorIsSubmatrix<T>(v: seq<T>, s: int, e: int)
    requires |v| >= 1
    ensures GetSubvector(v, s, e).Ok? <==> GetSubmatrix(ColumnMatrix(v), s, e, 0, 1).Ok?
    ensures GetSubvector(v, s, e).Ok? ==>
      GetSubmatrix(ColumnMatrix(v), s, e, 0, 1).value == ColumnMatrix(GetSubvector(v, s, e).value)
  {
    if RangeInside(|v|, s, e) {
      var b := GetSubmatrix(ColumnMatrix(v), s, e, 0, 1).value;
      var w := ColumnMatrix(GetSubvector(v, s, e).value);
      forall i: nat, j: nat | i < b.rows && j < b.cols
        ensures At(b, i, j) == At(w, i, j)
      {
        assert At(ColumnMatrix(v), s + i, 0) == v[s + i];
      }
      Extensionality(b, w);
    }
  }

  /** The guard of `setSubvector`: the block is inside and has the length of `w`. */
  predicate SpliceFits<T>(v: seq<T>, s: int, e: int, w: seq<T>) {
    RangeInside(|v|, s, e) && e - s == |w|
  }

  /**
   * What `setSubvector(s, e, other)` leaves behind: positions [s, e) hold
   * `other`, the rest keep their entries.
   */
  function Splice<T>(v: seq<T>, s: int, e: int, w: seq<T>): (res: Result<seq<T>>)
    ensures res.Ok? <==> SpliceFits(v, s, e, w)
    ensures res.Err? ==> res.error == IllegalArgument
    ensures res.Ok? ==> |res.value| == |v|
    ensures res.Ok? ==> forall p :: 0 <= p < |v| ==> res.value[p] == if s <= p < e then w[p - s] else v[p]
  {
    if s < 0 || s >= e || e > |v| || e - s != |w| then Err(IllegalArgument)
    else Ok(v[..s] + w + v[e..])
  }

  /** Reading back a block just written gives what was written. */
  lemma SubvectorAfterSplice<T>(v: seq<T>, s: int, e: int, w: seq<T>)
    requires SpliceFits(v, s, e, w)
    ensures GetSubvector(Splice(v, s, e, w).value, s, e) == Ok(w)
  {
    var r := GetSubvector(Splice(v, s, e, w).value, s, e).value;
    assert r == w;
  }

  /** Writing back a block just read changes nothing. */
  lemma SpliceAfterSubvector<T>(v: seq<T>, s: int, e: int)
    requires RangeInside(|v|, s, e)
    ensures Splice(v, s, e, GetSubvector(v, s, e).value) == Ok(v)
  {
    var r := Splice(v, s, e, GetSubvector(v, s, e).value).value;
    assert r == v;
  }

  /**
   * `ColumnVector.replicate(n)`: the length×n matrix whose offset k holds
   * entry k / n, that is, n copies of the vector side by side.
   */
  function ReplicateColumns<T>(v: seq<T>, n: int): (res: Result<Mat<T>>)
    requires |v| >= 1
    ensures res.Ok? <==> n >= 1
    ensures res.Err? ==> res.error == IllegalArgument
    ensures res.Ok? ==> Valid(res.value) && res.value.rows == |v| && res.value.cols == n
    ensures res.Ok? ==> forall j: nat :: j < n ==> Column(res.value, j) == v
  {
    if n < 1 then Err(IllegalArgument)
    else
      var m := Mat(|v|, n, seq(|v| * n, k requires 0 <= k < |v| * n =>
        RowMajor.OffsetOfCell(k, |v|, n);
        v[k / n]));
      ReplicatedColumns(v, m);
      Ok(m)
  }

  lemma ReplicatedColumns<T>(v: seq<T>, m: Mat<T>)
    requires |v| >= 1 && m.rows == |v| && m.cols >= 1 && |m.data| == |v| * m.cols
    requires forall k :: 0 <= k < |v| * m.cols ==> 0 <= k / m.cols < |v| && m.data[k] == v[k / m.cols]
    ensures Valid(m) && forall j: nat :: j < m.cols ==> Column(m, j) == v
  {
    forall i: nat, j: nat | i < m.rows && j < m.cols
      ensures At(m, i, j) == v[i]
    {
      RowMajor.CellInRange(i, j, m.rows, m.cols);
      RowMajor.CellOfOffset(i, j, m.cols);
    }
  }

  /**
   * `RowVector.replicate(n)`: the n×length matrix whose offset k holds entry
   * k % length, that is, n copies of the vector stacked.
   */
  function ReplicateRows<T>(v: seq<T>, n: int): (res: Result<Mat<T>>)
    requires |v| >= 1
    ensures res.Ok? <==> n >= 1
    ensures res.Err? ==> res.error == IllegalArgument
    ensures res.Ok? ==> Valid(res.value) && res.value.rows == n && res.value.cols == |v|
    ensures res.Ok? ==> forall i: nat :: i < n ==> Row(res.value, i) == v
  {
    if n < 1 then Err(IllegalArgument)
    else
      var m := Mat(n, |v|, seq(n * |v|, k requires 0 <= k < n * |v| =>
        RowMajor.OffsetOfCell(k, n, |v|);
        v[k % |v|]));
      ReplicatedRows(v, m);
      Ok(m)
  }

  lemma ReplicatedRows<T>(v: seq<T>, m: Mat<T>)
    requires |v| >= 1 && m.cols == |v| && m.rows >= 1 && |m.data| == m.rows * |v|
    requires forall k :: 0 <= k < m.rows * |v| ==> m.data[k] == v[k % |v|]
    ensures Valid(m) && forall i: nat :: i < m.rows ==> Row(m, i) == v
  {
    forall i: nat, j: nat | i < m.rows && j < m.cols
      ensures At(m, i, j) == v[j]
    {
      RowMajor.CellInRange(i, j, m.rows, m.cols);
      RowMajor.CellOfOffset(i, j, m.cols);
    }
  }

  /** Replicating is concatenating copies: for n ≥ 2 the last column splits off. */
  lemma ReplicateColumnsConcat<T>(v: seq<T>, n: nat)
    requires |v| >= 1 && n >= 2
    ensures Concat(ReplicateColumns(v, n - 1).value, ColumnMatrix(v), 1) == ReplicateColumns(v, n)
  {
    var a, m := ReplicateColumns(v, n - 1).value, ReplicateColumns(v, n).value;
    var c := Concat(a, ColumnMatrix(v), 1).value;
    forall i: nat, j: nat | i < m.rows && j < m.cols
      ensures At(c, i, j) == At(m, i, j)
    {
      ConcatCells(a, ColumnMatrix(v), 1);
      assert Column(m, j)[i] == v[i];
      if j < n - 1 {
        assert Column(a, j)[i] == v[i];
      } else {
        assert At(ColumnMatrix(v), i, 0) == v[i];
      }
    }
    Extensionality(c, m);
  }

  /**
   * `transpose()` of a column vector is the row vector over the same data
   * array: the matrix transpose of a length×1 matrix keeps its data.
   */
  lemma TransposeColumn<T>(v: seq<T>)
    requires |v| >= 1
    ensures Transpose(ColumnMatrix(v)) == RowMatrix(v)
  {
    var t := Transpose(ColumnMatrix(v));
    forall i: nat, j: nat | i < 1 && j < |v|
      ensures At(t, i, j) == At(RowMatrix(v), i, j)
    {
      assert At(ColumnMatrix(v), j, 0) == v[j];
    }
    Extensionality(t, RowMatrix(v));
  }

  /** `transpose()` of a row vector likewise is the column vector over its data. */
  lemma TransposeRow<T>(v: seq<T>)
    requires |v| >= 1
    ensures Transpose(RowMatrix(v)) == ColumnMatrix(v)
  {
    TransposeColumn(v);
    TransposeTwice(ColumnMatrix(v));
  }
}
