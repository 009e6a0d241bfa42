/**
 * `Tensor` and `ComplexTensor`: an N-dimensional shape and a flat row-major
 * data array.  Both classes share every structural operation, so the model
 * is generic in the entry type: the size check of the constructor, the two
 * private index maps, `get` by an index array and by a leading index,
 * `concat`, `stackSuppl` and `stack`, and `equals`.
 */
module Tensors {
  import opened Wrappers
  import RowMajor

  datatype Tensor<T> = Tensor(shape: seq<int>, data: seq<T>)

  /** The product of a shape's entries, folded from the left as `reduce` does. */
  function Product(s: seq<int>): int {
    if |s| == 0 then 1 else Product(s[..|s| - 1]) * s[|s| - 1]
  }

  /** Every dimension of the shape is positive. */
  predicate AllPositive(s: seq<int>) {
    forall i :: 0 <= i < |s| ==> s[i] >= 1
  }

  /** A shape the corrected constructor accepts: at least one dimension, all positive. */
  predicate ValidShape(s: seq<int>) {
    |s| >= 1 && AllPositive(s)
  }

  predicate Valid<T>(t: Tensor<T>) {
    ValidShape(t.shape) && |t.data| == Product(t.shape)
  }

  lemma {:induction false} ProductPositive(s: seq<int>)
    requires AllPositive(s)
    ensures Product(s) >= 1
    decreases |s|
  {
    if |s| > 0 {
      ProductPositive(s[..|s| - 1]);
      var p := Product(s[..|s| - 1]);
      RowMajor.MulMonotone(1, p, s[|s| - 1]);
    }
  }

  /** The same product peeled from the front. */
  lemma {:induction false} ProductCons(s: seq<int>)
    requires |s| >= 1
    ensures Product(s) == s[0] * Product(s[1..])
    decreases |s|
  {
    if |s| > 1 {
      var n := |s| - 1;
      ProductCons(s[..n]);
      assert s[..n][1..] == s[1..][..n - 1];
      assert Product(s[1..]) == Product(s[1..][..n - 1]) * s[n];
      assert Product(s) == (s[0] * Product(s[1..][..n - 1])) * s[n];
    }
  }

  lemma ProductAppend(s: seq<int>, x: int)
    ensures Product(s + [x]) == Product(s) * x
  {
    assert (s + [x])[..|s|] == s;
  }

  /**
   * `calculateSize` as written: a `reduce` whose first element seeds the fold
   * unchecked, so only dimensions 1, 2, … must be positive.  An empty shape
   * makes `reduce` throw.
   */
  function CalculateSizeAsWritten(shape: seq<int>): (res: Result<int>)
    ensures res.Ok? <==> |shape| >= 1 && forall i :: 1 <= i < |shape| ==> shape[i] >= 1
    ensures res.Err? ==> res.error == if |shape| == 0 then EmptyReduce else IllegalArgument
    ensures res.Ok? ==> res.value == Product(shape)
    decreases |shape|
  {
    if |shape| == 0 then Err(EmptyReduce)
    else if |shape| == 1 then Ok(shape[0])
    else
      var n := |shape| - 1;
      var prefix := CalculateSizeAsWritten(shape[..n]);
      assert forall i :: 1 <= i < n ==> shape[..n][i] == shape[i];
      if prefix.Err? then prefix
      else if shape[n] <= 0 then Err(IllegalArgument)
      else Ok(prefix.value * shape[n])
  }

  /** `calculateSize` with the first dimension checked like the others. */
  function CalculateSize(shape: seq<int>): (res: Result<int>)
    ensures res.Ok? <==> ValidShape(shape)
    ensures res.Err? ==> res.error == if |shape| == 0 then EmptyReduce else IllegalArgument
    ensures res.Ok? ==> res.value == Product(shape) && res.value >= 1
  {
    if |shape| >= 1 && shape[0] <= 0 then Err(IllegalArgument)
    else
      var r := CalculateSizeAsWritten(shape);
      if r.Ok? then ProductPositive(shape); r else r
  }

  /** The two agree on every shape whose first dimension is positive. */
  lemma CalculateSizeAgrees(shape: seq<int>)
    requires |shape| >= 1 && shape[0] >= 1
    ensures CalculateSize(shape) == CalculateSizeAsWritten(shape)
  {}

  /** As written, a shape with a zero leading dimension is accepted with size 0. */
  lemma CalculateSizeAcceptsZeroLeading()
    ensures CalculateSizeAsWritten([0, 3]) == Ok(0)
    ensures CalculateSize([0, 3]) == Err(IllegalArgument)
  {
    assert CalculateSizeAsWritten([0, 3][..1]) == Ok(0);
  }

  /** The constructor: the data length must be the size of the shape. */
  function NewTensor<T>(shape: seq<int>, data: seq<T>): (res: Result<Tensor<T>>)
    ensures res.Ok? <==> ValidShape(shape) && |data| == Product(shape)
    ensures res.Err? ==> res.error == if |shape| == 0 then EmptyReduce else IllegalArgument
    ensures res.Ok? ==> Valid(res.value) && res.value == Tensor(shape, data)
  {
    var size := CalculateSize(shape);
    if size.Err? then Err(size.error)
    else if |data| != size.value then Err(IllegalArgument)
    else Ok(Tensor(shape, data))
  }

  /**
   * The constructor as written: `calculateSize` leaves the first dimension
   * unchecked, so a leading 0 passes with size 0, while a negative leading
   * dimension gives a negative size that no data length matches.
   */
  function NewTensorAsWritten<T>(shape: seq<int>, data: seq<T>): (res: Result<Tensor<T>>)
    ensures res.Ok? <==> (|shape| >= 1 && shape[0] >= 0 &&
                          (forall i :: 1 <= i < |shape| ==> shape[i] >= 1) && |data| == Product(shape))
    ensures res.Err? ==> res.error == if |shape| == 0 then EmptyReduce else IllegalArgument
    ensures res.Ok? ==> res.value == Tensor(shape, data)
  {
    var size := CalculateSizeAsWritten(shape);
    if size.Err? then Err(size.error)
    else
      LeadingSign(shape);
      if |data| != size.value then Err(IllegalArgument)
      else Ok(Tensor(shape, data))
  }

  /** With every later dimension positive, the product has the sign of the first dimension. */
  lemma LeadingSign(shape: seq<int>)
    requires |shape| >= 1 && forall i :: 1 <= i < |shape| ==> shape[i] >= 1
    ensures shape[0] < 0 ==> Product(shape) < 0
    ensures shape[0] >= 0 ==> Product(shape) >= 0
  {
    ProductCons(shape);
    ProductPositive(shape[1..]);
    var p := Product(shape[1..]);
    if shape[0] < 0 {
      RowMajor.MulMonotone(1, -shape[0], p);
      assert shape[0] * p == -((-shape[0]) * p);
    } else {
      RowMajor.MulMonotone(0, shape[0], p);
    }
  }

  /** The two constructors differ only on a zero leading dimension. */
  lemma NewTensorAgrees<T>(shape: seq<int>, data: seq<T>)
    requires |shape| == 0 || shape[0] != 0
    ensures NewTensor(shape, data) == NewTensorAsWritten(shape, data)
  {
    if |shape| >= 1 && shape[0] < 0 && forall i :: 1 <= i < |shape| ==> shape[i] >= 1 {
      LeadingSign(shape);
    }
  }

  /** As written, shape [0, 3] with no data constructs; corrected, it is rejected. */
  lemma NewTensorAcceptsZeroLeading<T>()
    ensures NewTensorAsWritten<T>([0, 3], []) == Ok(Tensor([0, 3], []))
    ensures NewTensor<T>([0, 3], []) == Err(IllegalArgument)
  {
    CalculateSizeAcceptsZeroLeading();
  }

  /** A full index of a shape: one entry per dimension, each in [0, shape[i]). */
  predicate InBounds(shape: seq<int>, idx: seq<int>) {
    |idx| == |shape| && forall i :: 0 <= i < |idx| ==> 0 <= idx[i] < shape[i]
  }

  /** The row-major offset of an index: the fold acc·shape[i] + idx[i]. */
  function Offset(shape: seq<int>, idx: seq<int>): (o: int)
    requires |idx| == |shape|
    ensures InBounds(shape, idx) ==> 0 <= o < Product(shape)
  {
    if |idx| == 0 then 0
    else
      var n := |idx| - 1;
      var prefix := Offset(shape[..n], idx[..n]);
      if InBounds(shape, idx) then
        assert InBounds(shape[..n], idx[..n]);
        RowMajor.CellInRange(prefix, idx[n], Product(shape[..n]), shape[n]);
        prefix * shape[n] + idx[n]
      else prefix * shape[n] + idx[n]
  }

  /**
   * `dataIndexToTensorIndices`: the digits of `d` in the mixed radix of the
   * shape, produced from the last dimension to the first.
   */
  function Digits(shape: seq<int>, d: nat): (idx: seq<int>)
    requires AllPositive(shape)
    ensures |idx| == |shape|
  {
    if |shape| == 0 then []
    else
      var n := |shape| - 1;
      Digits(shape[..n], d / shape[n]) + [d % shape[n]]
  }

  /** The digits of an offset in [0, size) are an index in bounds. */
  lemma {:induction false} DigitsInBounds(shape: seq<int>, d: nat)
    requires AllPositive(shape) && d < Product(shape)
    ensures InBounds(shape, Digits(shape, d))
    decreases |shape|
  {
    if |shape| > 0 {
      var n := |shape| - 1;
      ProductPositive(shape[..n]);
      RowMajor.OffsetOfCell(d, Product(shape[..n]), shape[n]);
      DigitsInBounds(shape[..n], d / shape[n]);
    }
  }

  /** Mapping the digits of `d` back gives `d`. */
  lemma {:induction false} OffsetOfDigits(shape: seq<int>, d: nat)
    requires AllPositive(shape) && d < Product(shape)
    ensures Offset(shape, Digits(shape, d)) == d
    decreases |shape|
  {
    if |shape| > 0 {
      var n := |shape| - 1;
      ProductPositive(shape[..n]);
      RowMajor.OffsetOfCell(d, Product(shape[..n]), shape[n]);
      OffsetOfDigits(shape[..n], d / shape[n]);
      var idx := Digits(shape, d);
      assert idx[..n] == Digits(shape[..n], d / shape[n]);
    }
  }

  /** Taking the digits of the offset of an index in bounds gives the index back. */
  lemma {:induction false} DigitsOfOffset(shape: seq<int>, idx: seq<int>)
    requires InBounds(shape, idx)
    ensures AllPositive(shape) && Digits(shape, Offset(shape, idx)) == idx
    decreases |idx|
  {
    if |idx| > 0 {
      var n := |idx| - 1;
      DigitsOfOffset(shape[..n], idx[..n]);
      assert InBounds(shape[..n], idx[..n]);
      var o: nat := Offset(shape[..n], idx[..n]);
      RowMajor.CellOfOffset(o, idx[n], shape[n]);
      assert idx == idx[..n] + [idx[n]];
    }
  }

  /** Distinct indices in bounds have distinct offsets. */
  lemma OffsetInjective(shape: seq<int>, idx: seq<int>, idx': seq<int>)
    requires InBounds(shape, idx) && InBounds(shape, idx') && Offset(shape, idx) == Offset(shape, idx')
    ensures idx == idx'
  {
    DigitsOfOffset(shape, idx);
    DigitsOfOffset(shape, idx');
  }

  /**
   * `tensorIndicesToDataIndex` as written: a `reduceIndexed` over the
   * indices, so index 0 seeds the fold unchecked and indices 1, 2, … are
   * checked only against their upper bound.  Reading `shape[i]` past the
   * shape's end throws; an empty index array makes `reduce` throw.
   */
  function IndicesToDataIndex(shape: seq<int>, idx: seq<int>): (res: Result<int>)
    ensures res.Ok? <==> (|idx| >= 1 && (|idx| == 1 || |idx| <= |shape|) &&
                          forall i :: 1 <= i < |idx| && i < |shape| ==> idx[i] < shape[i])
    ensures |idx| == 0 ==> res == Err(EmptyReduce)
    ensures res.Ok? && |idx| <= |shape| ==> res.value == Offset(shape[..|idx|], idx)
    decreases |idx|
  {
    if |idx| == 0 then Err(EmptyReduce)
    else if |idx| == 1 then
      assert idx[0] == Offset(shape[..0], idx[..0]) * 0 + idx[0];
      if |shape| >= 1 then
        assert Offset(shape[..1], idx) == Offset(shape[..1][..0], idx[..0]) * shape[0] + idx[0];
        Ok(idx[0])
      else Ok(idx[0])
    else
      var n := |idx| - 1;
      var prefix := IndicesToDataIndex(shape, idx[..n]);
      assert forall i :: 1 <= i < n ==> idx[..n][i] == idx[i];
      if prefix.Err? then prefix
      else if n >= |shape| then Err(IndexOutOfBounds)
      else if idx[n] >= shape[n] then Err(IllegalArgument)
      else
        assert shape[..n + 1][..n] == shape[..n];
        Ok(prefix.value * shape[n] + idx[n])
  }

  /** The entry at an index in bounds. */
  function CellAt<T>(t: Tensor<T>, idx: seq<int>): T
    requires Valid(t) && InBounds(t.shape, idx)
  {
    t.data[Offset(t.shape, idx)]
  }

  /**
   * `get(indices)` (the `IntArray` overload) as written: the index count must
   * equal the dimension; the offset comes from the unchecked fold and the
   * array access throws if it falls outside the data.
   */
  function GetCellAsWritten<T>(t: Tensor<T>, idx: seq<int>): (res: Result<T>)
    requires Valid(t)
    ensures |idx| != |t.shape| ==> res == Err(IllegalArgument)
    ensures InBounds(t.shape, idx) ==> res == Ok(CellAt(t, idx))
  {
    if |idx| != |t.shape| then Err(IllegalArgument)
    else
      var k := IndicesToDataIndex(t.shape, idx);
      assert t.shape[..|idx|] == t.shape;
      if k.Err? then Err(k.error)
      else if 0 <= k.value < |t.data| then Ok(t.data[k.value])
      else Err(IndexOutOfBounds)
  }

  /** A negative index in a later dimension reads another cell instead of failing. */
  lemma NegativeIndexReadsAnotherCell()
    ensures var t := Tensor([2, 3], [10, 11, 12, 13, 14, 15]);
      Valid(t) && GetCellAsWritten(t, [1, -1]) == Ok(12) && CellAt(t, [0, 2]) == 12
  {
    var t := Tensor([2, 3], [10, 11, 12, 13, 14, 15]);
    assert Product([2, 3]) == Product([2, 3][..1]) * 3;
    assert Product([2, 3][..1]) == Product([2, 3][..1][..0]) * 2;
    assert IndicesToDataIndex([2, 3], [1, -1][..1]) == Ok(1);
    assert IndicesToDataIndex([2, 3], [1, -1]) == Ok(2);
    assert Offset([2, 3][..1], [0, 2][..1]) == 0;
    assert Offset([2, 3], [0, 2]) == 2;
  }

  /** `get(indices)` with every index checked against [0, shape[i]), as `set` does. */
  function GetCell<T>(t: Tensor<T>, idx: seq<int>): (res: Result<T>)
    requires Valid(t)
    ensures res.Ok? <==> InBounds(t.shape, idx)
    ensures res.Ok? ==> res.value == CellAt(t, idx)
    ensures res.Err? ==> res.error == IllegalArgument
  {
    if InBounds(t.shape, idx) then Ok(CellAt(t, idx)) else Err(IllegalArgument)
  }

  /** The two readings agree on every index in bounds. */
  lemma GetCellAgrees<T>(t: Tensor<T>, idx: seq<int>)
    requires Valid(t) && InBounds(t.shape, idx)
    ensures GetCellAsWritten(t, idx) == GetCell(t, idx)
  {}

  /** The offset of [i] + idx peels off the leading index: i·size(shape[1..]) + the rest. */
  lemma {:induction false} OffsetCons(shape: seq<int>, i: int, idx: seq<int>)
    requires |shape| >= 1 && |idx| == |shape| - 1
    ensures Offset(shape, [i] + idx) == i * Product(shape[1..]) + Offset(shape[1..], idx)
    decreases |idx|
  {
    if |idx| == 0 {
      assert ([i] + idx)[..0] == [];
    } else {
      var n := |idx| - 1;
      var full := [i] + idx;
      var head, tail := shape[..n + 1], shape[1..];
      assert full[..n + 1] == [i] + idx[..n];
      assert head[1..] == tail[..n];
      OffsetCons(head, i, idx[..n]);
      var p', o' := Product(tail[..n]), Offset(tail[..n], idx[..n]);
      var last := shape[n + 1];
      assert Offset(head, full[..n + 1]) == i * p' + o';
      assert Offset(shape, full) == Offset(head, full[..n + 1]) * last + idx[n];
      assert Product(tail) == p' * last;
      assert Offset(tail, idx) == o' * last + idx[n];
      Distribute(i, p', o', last);
    }
  }

  lemma Distribute(i: int, p: int, o: int, l: int)
    ensures (i * p + o) * l == i * (p * l) + o * l
  {}

  /** An index in bounds splits into its leading entry and an index of the rest of the shape. */
  lemma SplitIndex(shape: seq<int>, idx: seq<int>)
    requires InBounds(shape, idx) && |shape| >= 2
    ensures InBounds(shape[1..], idx[1..]) && idx == [idx[0]] + idx[1..]
    ensures Offset(shape, idx) == idx[0] * Product(shape[1..]) + Offset(shape[1..], idx[1..])
  {
    assert idx == [idx[0]] + idx[1..];
    OffsetCons(shape, idx[0], idx[1..]);
  }

  /**
   * `get(index)` (the `Long` overload): the sub-tensor at leading index
   * `index`, which is the contiguous block data[index·s, (index + 1)·s) where
   * s is the size of shape[1..].  An index ≥ shape[0] is rejected; a
   * one-dimensional tensor has no sub-shape to reduce; a negative index reads
   * before the start of the data.
   */
  function Slice<T>(t: Tensor<T>, index: int): (res: Result<Tensor<T>>)
    requires Valid(t)
    ensures res.Ok? <==> 0 <= index < t.shape[0] && |t.shape| >= 2
    ensures res.Err? ==>
      res.error == if index >= t.shape[0] then IllegalArgument else if |t.shape| == 1 then EmptyReduce else IndexOutOfBounds
    ensures res.Ok? ==> Valid(res.value) && res.value.shape == t.shape[1..]
    ensures res.Ok? ==> var s := Product(t.shape[1..]);
      0 <= index * s <= (index + 1) * s <= |t.data| && res.value.data == t.data[index * s .. (index + 1) * s]
  {
    if index >= t.shape[0] then Err(IllegalArgument)
    else if |t.shape| == 1 then Err(EmptyReduce)
    else if index < 0 then Err(IndexOutOfBounds)
    else
      var rest := t.shape[1..];
      var s := Product(rest);
      ProductCons(t.shape);
      ProductPositive(rest);
      RowMajor.MulMonotone(index + 1, t.shape[0], s);
      RowMajor.MulMonotone(index, index + 1, s);
      Ok(Tensor(rest, t.data[index * s .. (index + 1) * s]))
  }

  /** Cell idx of the sub-tensor at `i` is cell [i] + idx of the tensor. */
  lemma SliceCell<T>(t: Tensor<T>, i: int, idx: seq<int>)
    requires Valid(t) && |t.shape| >= 2 && 0 <= i < t.shape[0] && InBounds(t.shape[1..], idx)
    ensures InBounds(t.shape, [i] + idx)
    ensures CellAt(Slice(t, i).value, idx) == CellAt(t, [i] + idx)
  {
    var full := [i] + idx;
    assert forall k :: 1 <= k < |full| ==> full[k] == idx[k - 1];
    OffsetCons(t.shape, i, idx);
  }

  /** `concat(other, d)` can succeed: equal dimension, d a dimension, equal sizes off d. */
  predicate ConcatFits<T>(a: Tensor<T>, b: Tensor<T>, d: int) {
    |a.shape| == |b.shape| && 0 <= d < |a.shape| &&
    forall i :: 0 <= i < |a.shape| && i != d ==> a.shape[i] == b.shape[i]
  }

  /** The entry `concat` writes at offset k of the new shape. */
  function ConcatEntry<T>(a: Tensor<T>, b: Tensor<T>, d: nat, shape: seq<int>, k: nat): T
    requires Valid(a) && Valid(b) && ConcatFits(a, b, d)
    requires shape == a.shape[d := a.shape[d] + b.shape[d]] && k < Product(shape)
  {
    DigitsInBounds(shape, k);
    var idx := Digits(shape, k);
    if idx[d] < a.shape[d] then CellAt(a, idx) else CellAt(b, idx[d := idx[d] - a.shape[d]])
  }

  /** The shape `concat` builds. */
  function ConcatShape<T>(a: Tensor<T>, b: Tensor<T>, d: nat): (shape: seq<int>)
    requires Valid(a) && Valid(b) && ConcatFits(a, b, d)
    ensures ValidShape(shape) && Product(shape) >= 1
  {
    var shape := a.shape[d := a.shape[d] + b.shape[d]];
    assert AllPositive(shape);
    ProductPositive(shape);
    shape
  }

  /**
   * `concat(other, d)`: cells whose index along d is below shape[d] come from
   * `a`, the others from `b` shifted back by shape[d].  A mismatch of the
   * dimension, of d, or of a size off d is rejected; a negative d passes the
   * checks only when the shapes are equal and then indexes before the start
   * of the index array.
   */
  function Concat<T>(a: Tensor<T>, b: Tensor<T>, d: int): (res: Result<Tensor<T>>)
    requires Valid(a) && Valid(b)
    ensures res.Ok? <==> ConcatFits(a, b, d)
    ensures res.Err? ==> res.error == if d < 0 && a.shape == b.shape then IndexOutOfBounds else IllegalArgument
    ensures res.Ok? ==> Valid(res.value) && res.value.shape == a.shape[d := a.shape[d] + b.shape[d]]
    ensures res.Ok? ==> forall idx :: InBounds(res.value.shape, idx) ==>
      CellAt(res.value, idx) == if idx[d] < a.shape[d] then CellAt(a, idx) else CellAt(b, idx[d := idx[d] - a.shape[d]])
  {
    if |a.shape| != |b.shape| || d >= |a.shape| then Err(IllegalArgument)
    else if exists i :: 0 <= i < |a.shape| && i != d && a.shape[i] != b.shape[i] then Err(IllegalArgument)
    else if d < 0 then
      assert a.shape == b.shape;
      Err(IndexOutOfBounds)
    else
      var shape := ConcatShape(a, b, d);
      var size := Product(shape);
      var t := Tensor(shape, seq(size, k requires 0 <= k < size => ConcatEntry(a, b, d, shape, k)));
      ConcatCells(a, b, d, t);
      Ok(t)
  }

  lemma ConcatCells<T>(a: Tensor<T>, b: Tensor<T>, d: nat, t: Tensor<T>)
    requires Valid(a) && Valid(b) && ConcatFits(a, b, d)
    requires t.shape == ConcatShape(a, b, d)
    requires t.data == seq(Product(t.shape), k requires 0 <= k < Product(t.shape) => ConcatEntry(a, b, d, t.shape, k))
    ensures Valid(t)
    ensures forall idx :: InBounds(t.shape, idx) ==>
      CellAt(t, idx) == if idx[d] < a.shape[d] then CellAt(a, idx) else CellAt(b, idx[d := idx[d] - a.shape[d]])
  {
    forall idx | InBounds(t.shape, idx)
      ensures CellAt(t, idx) == if idx[d] < a.shape[d] then CellAt(a, idx) else CellAt(b, idx[d := idx[d] - a.shape[d]])
    {
      ConcatCell(a, b, d, t, idx);
    }
  }

  /** One cell of `ConcatCells`: offset k of the index holds the entry written for its digits. */
  lemma ConcatCell<T>(a: Tensor<T>, b: Tensor<T>, d: nat, t: Tensor<T>, idx: seq<int>)
    requires Valid(a) && Valid(b) && ConcatFits(a, b, d)
    requires t.shape == ConcatShape(a, b, d)
    requires t.data == seq(Product(t.shape), k requires 0 <= k < Product(t.shape) => ConcatEntry(a, b, d, t.shape, k))
    requires InBounds(t.shape, idx)
    ensures Valid(t)
    ensures CellAt(t, idx) == if idx[d] < a.shape[d] then CellAt(a, idx) else CellAt(b, idx[d := idx[d] - a.shape[d]])
  {
    DigitsOfOffset(t.shape, idx);
    var k := Offset(t.shape, idx);
    assert t.data[k] == ConcatEntry(a, b, d, t.shape, k);
  }

  /**
   * `stackSuppl(other)`: two tensors of one shape stack into shape
   * [2] ++ shape; a tensor one dimension lower is appended along the leading
   * dimension.  Either way the data is this.data ++ other.data.
   */
  function StackSuppl<T>(a: Tensor<T>, b: Tensor<T>): (res: Result<Tensor<T>>)
    ensures res.Ok? <==> a.shape == b.shape || (|a.shape| == |b.shape| + 1 && a.shape[1..] == b.shape)
    ensures res.Err? ==> res.error == IllegalArgument
    ensures res.Ok? ==> res.value.data == a.data + b.data
    ensures res.Ok? && |a.shape| == |b.shape| ==> res.value.shape == [2] + b.shape
    ensures res.Ok? && |a.shape| == |b.shape| + 1 ==> res.value.shape == [a.shape[0] + 1] + b.shape
  {
    if |a.shape| == |b.shape| then
      if exists i :: 0 <= i < |b.shape| && a.shape[i] != b.shape[i] then Err(IllegalArgument)
      else
        assert a.shape == b.shape;
        Ok(Tensor([2] + b.shape, a.data + b.data))
    else if |a.shape| == |b.shape| + 1 then
      if exists i :: 0 <= i < |b.shape| && a.shape[i + 1] != b.shape[i] then Err(IllegalArgument)
      else
        assert a.shape[1..] == b.shape;
        Ok(Tensor([a.shape[0] + 1] + b.shape, a.data + b.data))
    else Err(IllegalArgument)
  }

  /** Stacking valid tensors gives a valid tensor: the sizes add up. */
  lemma StackSupplValid<T>(a: Tensor<T>, b: Tensor<T>)
    requires Valid(a) && Valid(b) && StackSuppl(a, b).Ok?
    ensures Valid(StackSuppl(a, b).value)
  {
    var r := StackSuppl(a, b).value;
    ProductCons(r.shape);
    assert r.shape[1..] == b.shape;
    if |a.shape| == |b.shape| + 1 {
      ProductCons(a.shape);
    }
  }

  /** Stacking two tensors of one shape: the leading index picks one of them back. */
  lemma StackSlices<T>(a: Tensor<T>, b: Tensor<T>)
    requires Valid(a) && Valid(b) && a.shape == b.shape
    ensures StackSuppl(a, b).Ok? && Valid(StackSuppl(a, b).value)
    ensures Slice(StackSuppl(a, b).value, 0) == Ok(a)
    ensures Slice(StackSuppl(a, b).value, 1) == Ok(b)
  {
    StackSupplValid(a, b);
    var r := StackSuppl(a, b).value;
    var s := Product(a.shape);
    assert r.shape[1..] == a.shape;
    assert r.data[0 * s .. 1 * s] == a.data;
    assert r.data[1 * s .. 2 * s] == b.data;
  }

  /** Appending a lower tensor: the old slices stay, the new last slice is the appended tensor. */
  lemma AppendSlices<T>(a: Tensor<T>, b: Tensor<T>, i: int)
    requires Valid(a) && Valid(b) && |a.shape| == |b.shape| + 1 && a.shape[1..] == b.shape
    requires 0 <= i < a.shape[0]
    ensures StackSuppl(a, b).Ok? && Valid(StackSuppl(a, b).value)
    ensures Slice(StackSuppl(a, b).value, i) == Slice(a, i)
    ensures Slice(StackSuppl(a, b).value, a.shape[0]) == Ok(b)
  {
    StackSupplValid(a, b);
    var r := StackSuppl(a, b).value;
    var s := Product(b.shape);
    assert r.shape[1..] == b.shape;
    ProductCons(a.shape);
    RowMajor.MulMonotone(i + 1, a.shape[0], s);
    assert r.data[i * s .. (i + 1) * s] == a.data[i * s .. (i + 1) * s];
    assert r.data[a.shape[0] * s .. (a.shape[0] + 1) * s] == b.data;
  }

  /** `fold { acc, t -> acc.stackSuppl(t) }` over `ts`, stopping at the first exception. */
  function StackFold<T>(acc: Result<Tensor<T>>, ts: seq<Tensor<T>>): Result<Tensor<T>>
    decreases |ts|
  {
    if |ts| == 0 || acc.Err? then acc
    else StackFold(StackSuppl(acc.value, ts[0]), ts[1..])
  }

  /** Folding valid tensors into a valid accumulator keeps it valid. */
  lemma {:induction false} StackFoldValid<T>(acc: Result<Tensor<T>>, ts: seq<Tensor<T>>)
    requires acc.Ok? ==> Valid(acc.value)
    requires forall i :: 0 <= i < |ts| ==> Valid(ts[i])
    ensures StackFold(acc, ts).Ok? ==> Valid(StackFold(acc, ts).value)
    decreases |ts|
  {
    if |ts| > 0 && acc.Ok? {
      var next := StackSuppl(acc.value, ts[0]);
      if next.Ok? {
        StackSupplValid(acc.value, ts[0]);
      }
      StackFoldValid(next, ts[1..]);
    }
  }

  /** All the entries of a list of tensors, one after the other. */
  function Flatten<T>(ts: seq<Tensor<T>>): seq<T> {
    if |ts| == 0 then [] else ts[0].data + Flatten(ts[1..])
  }

  /** Every tensor of the list has the shape `s`. */
  predicate AllShaped<T>(ts: seq<Tensor<T>>, s: seq<int>) {
    forall i :: 0 <= i < |ts| ==> ts[i].shape == s
  }

  /**
   * Folding tensors of shape s into an accumulator of shape [m] ++ s appends
   * each of them along the leading dimension.
   */
  lemma {:induction false} StackFoldAppends<T>(s: seq<int>, m: int, acc: seq<T>, ts: seq<Tensor<T>>)
    requires AllShaped(ts, s)
    ensures StackFold(Ok(Tensor([m] + s, acc)), ts) == Ok(Tensor([m + |ts|] + s, acc + Flatten(ts)))
    decreases |ts|
  {
    if |ts| == 0 {
      assert acc + Flatten(ts) == acc;
    } else {
      var d0, rest := ts[0].data, ts[1..];
      FoldStep(s, m, acc, ts);
      StackFoldAppends(s, m + 1, acc + d0, rest);
      FlattenCons(acc, ts);
      var k := m + 1 + |rest|;
      assert k == m + |ts|;
    }
  }

  lemma FlattenCons<T>(acc: seq<T>, ts: seq<Tensor<T>>)
    requires |ts| >= 1
    ensures acc + ts[0].data + Flatten(ts[1..]) == acc + Flatten(ts)
  {}

  lemma FoldStep<T>(s: seq<int>, m: int, acc: seq<T>, ts: seq<Tensor<T>>)
    requires AllShaped(ts, s) && |ts| >= 1
    ensures AllShaped(ts[1..], s)
    ensures StackFold(Ok(Tensor([m] + s, acc)), ts) == StackFold(Ok(Tensor([m + 1] + s, acc + ts[0].data)), ts[1..])
  {
    AppendStep(s, m, acc, ts[0]);
    assert AllShaped(ts[1..], s);
  }

  /** One step of the fold: a tensor of shape s is appended as slice m. */
  lemma AppendStep<T>(s: seq<int>, m: int, acc: seq<T>, t: Tensor<T>)
    requires t.shape == s
    ensures StackSuppl(Tensor([m] + s, acc), t) == Ok(Tensor([m + 1] + s, acc + t.data))
  {
    assert ([m] + s)[1..] == s;
  }

  /**
   * `stack(tensors)` as written: the fold starts from the first tensor and
   * then visits every tensor, the first one included.
   */
  function StackAsWritten<T>(ts: seq<Tensor<T>>): (res: Result<Tensor<T>>)
    ensures |ts| == 0 ==> res == Err(IndexOutOfBounds)
  {
    if |ts| == 0 then Err(IndexOutOfBounds) else StackFold(Ok(ts[0]), ts)
  }

  /** As written, the first tensor is stacked twice: n tensors give n + 1 slices. */
  lemma StackAsWrittenRepeatsFirst<T>(ts: seq<Tensor<T>>, s: seq<int>)
    requires |ts| >= 1 && AllShaped(ts, s)
    ensures StackAsWritten(ts) == Ok(Tensor([|ts| + 1] + s, ts[0].data + Flatten(ts)))
  {
    var d0, rest := ts[0].data, ts[1..];
    StackFirstWithItself(ts, s);
    StackFoldAppends(s, 2, d0 + d0, rest);
    FlattenCons(d0, ts);
    assert 2 + |rest| == |ts| + 1;
  }

  /** The fold starts by stacking the first tensor onto itself. */
  lemma StackFirstWithItself<T>(ts: seq<Tensor<T>>, s: seq<int>)
    requires |ts| >= 1 && AllShaped(ts, s)
    ensures AllShaped(ts[1..], s)
    ensures StackAsWritten(ts) == StackFold(Ok(Tensor([2] + s, ts[0].data + ts[0].data)), ts[1..])
  {
    assert ts[0].shape == s;
    assert StackSuppl(ts[0], ts[0]) == Ok(Tensor([2] + s, ts[0].data + ts[0].data));
    assert AllShaped(ts[1..], s);
  }


  /**
   * `stack` as its documentation describes it: the first tensor becomes the
   * first slice of a tensor one dimension higher, and each further one is
   * appended after it.
   */
  function Stack<T>(ts: seq<Tensor<T>>): (res: Result<Tensor<T>>)
    ensures |ts| == 0 ==> res == Err(IndexOutOfBounds)
  {
    if |ts| == 0 then Err(IndexOutOfBounds)
    else StackFold(Ok(Tensor([1] + ts[0].shape, ts[0].data)), ts[1..])
  }

  /** Stacking valid tensors gives a valid tensor. */
  lemma StackValid<T>(ts: seq<Tensor<T>>)
    requires forall i :: 0 <= i < |ts| ==> Valid(ts[i])
    ensures Stack(ts).Ok? ==> Valid(Stack(ts).value)
  {
    if |ts| > 0 {
      var first := Tensor([1] + ts[0].shape, ts[0].data);
      ProductCons(first.shape);
      assert first.shape[1..] == ts[0].shape;
      assert Valid(ts[0]);
      StackFoldValid(Ok(first), ts[1..]);
    }
  }

  /** n tensors of one shape s stack into shape [n] ++ s, their data in order. */
  lemma StackShape<T>(ts: seq<Tensor<T>>, s: seq<int>)
    requires |ts| >= 1 && AllShaped(ts, s)
    ensures Stack(ts) == Ok(Tensor([|ts|] + s, Flatten(ts)))
  {
    assert AllShaped(ts[1..], s);
    StackFoldAppends(s, 1, ts[0].data, ts[1..]);
  }

  /** The first index below `n` at which `a` and `b` differ, or `n` when they agree up to there. */
  function FirstMismatch<T(==)>(a: seq<T>, b: seq<T>, n: nat): (k: nat)
    requires n <= |a| && n <= |b|
    ensures k <= n && (forall i :: 0 <= i < k ==> a[i] == b[i]) && (k < n ==> a[k] != b[k])
  {
    if n == 0 then 0
    else
      var k := FirstMismatch(a, b, n - 1);
      if k < n - 1 then k else if a[n - 1] != b[n - 1] then n - 1 else n
  }

  /**
   * `Tensor.equals` on real tensors: `this.data` is walked by index and each
   * entry compared with `other.data` at the same index (its `abs` clause only
   * equates −0.0 with 0.0, which exact reals do not tell apart).  The first
   * difference returns false, walking past the end of `other.data` throws,
   * and otherwise the shapes decide.
   */
  function RealEquals<T(==)>(a: Tensor<T>, b: Tensor<T>): (r: Result<bool>)
    ensures r.Err? <==> |b.data| < |a.data| && a.data[..|b.data|] == b.data
    ensures r.Err? ==> r.error == IndexOutOfBounds
    ensures r == Ok(true) <==> a.shape == b.shape && |a.data| <= |b.data| && b.data[..|a.data|] == a.data
    ensures |a.data| == |b.data| ==> r == Ok(Equals(a, b))
  {
    var n := if |a.data| <= |b.data| then |a.data| else |b.data|;
    var k := FirstMismatch(a.data, b.data, n);
    if k < n then
      assert a.data[..n][k] != b.data[..n][k];
      Ok(false)
    else
      assert a.data[..n] == b.data[..n];
      if |a.data| > |b.data| then Err(IndexOutOfBounds)
      else Ok(a.shape == b.shape)
  }

  /**
   * A tensor of shape [3] compared with one of shape [2] holding its first
   * two entries throws; the other way round the comparison is false.
   */
  lemma RealEqualsOverruns()
    ensures RealEquals(Tensor([3], [1.0, 2.0, 3.0]), Tensor([2], [1.0, 2.0])) == Err(IndexOutOfBounds)
    ensures RealEquals(Tensor([2], [1.0, 2.0]), Tensor([3], [1.0, 2.0, 3.0])) == Ok(false)
  {
    assert [1.0, 2.0, 3.0][..2] == [1.0, 2.0];
  }

  /** `ComplexTensor.equals`: equal shapes entry by entry and equal data entry by entry. */
  function Equals<T(==)>(a: Tensor<T>, b: Tensor<T>): (r: bool)
    ensures r <==> a == b
  {
    var shapeEq := |a.shape| == |b.shape| && forall i :: 0 <= i < |a.shape| ==> a.shape[i] == b.shape[i];
    var dataEq := |a.data| == |b.data| && forall i :: 0 <= i < |a.data| ==> a.data[i] == b.data[i];
    assert shapeEq ==> a.shape == b.shape;
    assert dataEq ==> a.data == b.data;
    shapeEq && dataEq
  }
}
