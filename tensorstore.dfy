/**
 * A tensor object: a shape and a data array that `set` writes in place, and
 * whose `reshape` builds a second tensor over the same array after writing
 * the inferred shape into the caller's `newShape` array.
 */
module TensorStorage {
  import opened Wrappers
  import opened Tensors
  import opened TensorUpdates

  class TensorStore<T> {
    const shape: seq<int>
    const data: array<T>

    /** The tensor the object currently holds. */
    function Value(): Tensor<T>
      reads data
    {
      Tensor(shape, data[..])
    }

    /** The constructor keeps the array it is given; the shape check is `Tensors.NewTensor`. */
    constructor(shape: seq<int>, data: array<T>)
      requires Valid(Tensor(shape, data[..]))
      ensures this.shape == shape && this.data == data
    {
      this.shape := shape;
      this.data := data;
    }

    /**
     * `set(indices, x)`: every given index is checked in order against its
     * dimension, then one cell is written.
     */
    method Set(idx: seq<int>, x: T) returns (out: Outcome)
      requires Valid(Value())
      modifies data
      ensures var r := Assign(old(Value()), idx, x);
        (out.Pass? <==> r.Ok?) && (r.Err? ==> out == Fail(r.error)) &&
        Value() == if r.Ok? then r.value else old(Value())
    {
      var i := 0;
      while i < |idx|
        invariant 0 <= i <= |idx|
        invariant IndexCheck(shape, idx[..i]).Pass?
      {
        assert idx[..i + 1][..i] == idx[..i];
        if idx[i] < 0 {
          assert IndexCheck(shape, idx[..i + 1]) == Fail(IllegalArgument);
          PrefixFailure(shape, idx, i + 1);
          return Fail(IllegalArgument);
        }
        if i >= |shape| {
          assert IndexCheck(shape, idx[..i + 1]) == Fail(IndexOutOfBounds);
          PrefixFailure(shape, idx, i + 1);
          return Fail(IndexOutOfBounds);
        }
        if idx[i] >= shape[i] {
          assert IndexCheck(shape, idx[..i + 1]) == Fail(IllegalArgument);
          PrefixFailure(shape, idx, i + 1);
          return Fail(IllegalArgument);
        }
        i := i + 1;
      }
      assert idx[..i] == idx;
      if |idx| == 0 {
        return Fail(EmptyReduce);
      }
      var o := SetOffset(shape, idx);
      data[o] := x;
      return Pass;
    }

    /**
     * `reshape(newShape)`: the counters of the scan are updated entry by
     * entry; a -1 entry gets size / acc written into `newShape`, and the
     * result shares this tensor's data array.
     */
    method Reshape(newShape: array<int>) returns (res: Result<TensorStore<T>>)
      modifies newShape
      ensures newShape[..] == ShapeAfter(data.Length, old(newShape[..]))
      ensures var r := TensorUpdates.Reshape(old(Value()), old(newShape[..]));
        (res.Ok? <==> r.Ok?) && (r.Err? ==> res == Err(r.error)) &&
        (res.Ok? ==> res.value.data == data && res.value.shape == newShape[..] == r.value.shape)
    {
      ghost var s := newShape[..];
      var size := data.Length;
      var negOneIndex, negOneCount, acc := -1, 0, 1;
      var i := 0;
      while i < newShape.Length
        invariant 0 <= i <= newShape.Length && newShape[..] == s
        invariant ReshapeScan(size, s[..i]) == Ok(Scan(negOneIndex, negOneCount, acc))
      {
        assert s[..i + 1][..i] == s[..i];
        var it := newShape[i];
        if it == -1 {
          negOneCount := negOneCount + 1;
          negOneIndex := i;
        } else if it > 0 {
          acc := acc * it;
          if size % acc != 0 {
            assert ReshapeScan(size, s[..i + 1]).Err?;
            ScanPrefixFailure(size, s, i + 1);
            return Err(IllegalArgument);
          }
        } else {
          assert ReshapeScan(size, s[..i + 1]).Err?;
          ScanPrefixFailure(size, s, i + 1);
          return Err(IllegalArgument);
        }
        i := i + 1;
      }
      assert s[..i] == s;
      if negOneCount > 0 {
        newShape[negOneIndex] := size / acc;
      }
      var shape' := newShape[..];
      var size' := CalculateSize(shape');
      if size'.Err? {
        return Err(size'.error);
      }
      if size'.value != size {
        return Err(IllegalArgument);
      }
      var t := new TensorStore(shape', data);
      return Ok(t);
    }
  }

  /** Once the index check of a prefix fails, the check of the whole index fails the same way. */
  lemma {:induction false} PrefixFailure(shape: seq<int>, idx: seq<int>, m: nat)
    requires m <= |idx| && IndexCheck(shape, idx[..m]).Fail?
    ensures IndexCheck(shape, idx) == IndexCheck(shape, idx[..m])
    decreases |idx| - m
  {
    if m < |idx| {
      assert idx[..m + 1][..m] == idx[..m];
      PrefixFailure(shape, idx, m + 1);
    } else {
      assert idx[..m] == idx;
    }
  }

  /** Once the scan of a prefix throws, the scan of the whole shape throws. */
  lemma {:induction false} ScanPrefixFailure(size: nat, s: seq<int>, m: nat)
    requires m <= |s| && ReshapeScan(size, s[..m]).Err?
    ensures ReshapeScan(size, s).Err?
    decreases |s| - m
  {
    if m < |s| {
      assert s[..m + 1][..m] == s[..m];
      ScanPrefixFailure(size, s, m + 1);
    } else {
      assert s[..m] == s;
    }
  }
}
