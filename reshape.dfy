/**
 * The two tensor operations that change state: `set`, which checks its
 * indices and writes one cell, and `reshape`, which scans the new shape with
 * running counters, writes the inferred size of a `-1` entry back into the
 * caller's array and builds a tensor over the same data.  This module gives
 * their meaning on values; `TensorStorage` runs them on arrays.
 */
module TensorUpdates {
  import opened Wrappers
  import opened Tensors
  import RowMajor

  /* ---------------------------------------------------------------- set */

  /**
   * The index check of `set`: entry i is tested with `it < 0 || it >= shape[i]`
   * in order, so the first offending entry decides the exception.  The
   * operands are evaluated left to right: a negative entry throws
   * IllegalArgument before shape[i] is read, a non-negative entry past the
   * end of the shape throws IndexOutOfBounds when shape[i] is read, and one
   * beyond its dimension throws IllegalArgument.
   */
  function IndexCheck(shape: seq<int>, idx: seq<int>): (r: Outcome)
    ensures r.Pass? <==> |idx| <= |shape| && forall i :: 0 <= i < |idx| ==> 0 <= idx[i] < shape[i]
    ensures r == Fail(IndexOutOfBounds) <==>
      (|idx| > |shape| && (forall i :: 0 <= i < |shape| ==> 0 <= idx[i] < shape[i]) && idx[|shape|] >= 0)
    ensures r.Fail? ==> r.error != EmptyReduce
    decreases |idx|
  {
    if |idx| == 0 then Pass
    else
      var n := |idx| - 1;
      var prefix := IndexCheck(shape, idx[..n]);
      assert forall i :: 0 <= i < n ==> idx[..n][i] == idx[i];
      if prefix.Fail? then prefix
      else if idx[n] < 0 then Fail(IllegalArgument)
      else if n >= |shape| then Fail(IndexOutOfBounds)
      else if idx[n] >= shape[n] then Fail(IllegalArgument)
      else Pass
  }

  /**
   * Past the end of the shape the sign of the entry decides the exception:
   * on shape [2], `set([0, -1])` throws IllegalArgument and `set([0, 1])`
   * throws IndexOutOfBounds.
   */
  lemma ErrorPastShape()
    ensures IndexCheck([2], [0, -1]) == Fail(IllegalArgument)
    ensures IndexCheck([2], [0, 1]) == Fail(IndexOutOfBounds)
  {
    assert [0, -1][..1] == [0] && [0, 1][..1] == [0];
  }

  /** The indices `set` accepts: one to dim of them, each in range of its dimension. */
  predicate SetAccepts(shape: seq<int>, idx: seq<int>) {
    1 <= |idx| <= |shape| && forall i :: 0 <= i < |idx| ==> 0 <= idx[i] < shape[i]
  }

  /**
   * The cell `set` writes: the fold of tensorIndicesToDataIndex over the
   * given indices, which for fewer indices than dimensions is the offset in
   * the leading dimensions only.
   */
  function SetOffset(shape: seq<int>, idx: seq<int>): (o: int)
    requires AllPositive(shape) && SetAccepts(shape, idx)
    ensures 0 <= o < Product(shape)
  {
    var lead := shape[..|idx|];
    assert InBounds(lead, idx);
    PrefixProductBound(shape, |idx|);
    Offset(lead, idx)
  }

  /** The product of a prefix of a positive shape is at most the product of the shape. */
  lemma {:induction false} PrefixProductBound(shape: seq<int>, m: nat)
    requires AllPositive(shape) && m <= |shape|
    ensures Product(shape[..m]) <= Product(shape)
    decreases |shape|
  {
    if m < |shape| {
      var n := |shape| - 1;
      assert shape[..n][..m] == shape[..m];
      PrefixProductBound(shape[..n], m);
      ProductPositive(shape[..n]);
      RowMajor.MulMonotone(1, shape[n], Product(shape[..n]));
    } else {
      assert shape[..m] == shape;
    }
  }

  /** `set(indices, x)` on a tensor value. */
  function Assign<T>(t: Tensor<T>, idx: seq<int>, x: T): (res: Result<Tensor<T>>)
    requires Valid(t)
    ensures res.Ok? <==> SetAccepts(t.shape, idx)
    ensures res.Err? ==> res.error == if IndexCheck(t.shape, idx).Fail? then IndexCheck(t.shape, idx).error else EmptyReduce
    ensures res.Ok? ==> res.value.shape == t.shape && Valid(res.value)
  {
    var check := IndexCheck(t.shape, idx);
    if check.Fail? then Err(check.error)
    else if |idx| == 0 then Err(EmptyReduce)
    else Ok(Tensor(t.shape, t.data[SetOffset(t.shape, idx) := x]))
  }

  /** After `set` with a full index, `get` at that index reads the value written. */
  lemma AssignThenGet<T>(t: Tensor<T>, idx: seq<int>, x: T)
    requires Valid(t) && InBounds(t.shape, idx)
    ensures Assign(t, idx, x).Ok? && GetCell(Assign(t, idx, x).value, idx) == Ok(x)
  {
    assert t.shape[..|idx|] == t.shape;
  }

  /** `set` with a full index leaves every other cell as it was. */
  lemma AssignKeepsOthers<T>(t: Tensor<T>, idx: seq<int>, x: T, other: seq<int>)
    requires Valid(t) && InBounds(t.shape, idx) && InBounds(t.shape, other) && other != idx
    ensures Assign(t, idx, x).Ok? && GetCell(Assign(t, idx, x).value, other) == GetCell(t, other)
  {
    assert t.shape[..|idx|] == t.shape;
    if Offset(t.shape, other) == Offset(t.shape, idx) {
      OffsetInjective(t.shape, other, idx);
    }
  }

  /** `set` changes at most one entry of the data, whatever indices it accepts. */
  lemma AssignChangesOneCell<T>(t: Tensor<T>, idx: seq<int>, x: T)
    requires Valid(t) && SetAccepts(t.shape, idx)
    ensures var u := Assign(t, idx, x).value; var o := SetOffset(t.shape, idx);
      u.data[o] == x && forall k :: 0 <= k < |t.data| && k != o ==> u.data[k] == t.data[k]
  {}

  /**
   * A prefix of the indices is accepted and writes a cell of the leading
   * dimensions: on shape [2, 3] the single index [1] writes the cell [0, 1].
   */
  lemma PrefixIndexWritesCell()
    ensures var t := Tensor([2, 3], [0, 0, 0, 0, 0, 0]);
      Valid(t) && Assign(t, [1], 7) == Ok(Tensor([2, 3], [0, 7, 0, 0, 0, 0])) &&
      CellAt(Assign(t, [1], 7).value, [0, 1]) == 7
  {
    assert Product([2, 3]) == Product([2, 3][..1]) * 3;
    assert Product([2, 3][..1]) == Product([2, 3][..1][..0]) * 2;
    assert [2, 3][..1] == [2];
    assert Offset([2][..0], [1][..0]) == 0;
    assert Offset([2], [1]) == Offset([2][..0], [1][..0]) * 2 + 1;
    assert SetOffset([2, 3], [1]) == 1;
    assert [0, 0, 0, 0, 0, 0][1 := 7] == [0, 7, 0, 0, 0, 0];
    assert Offset([2, 3][..1], [0, 1][..1]) == 0;
    assert Offset([2, 3], [0, 1]) == 1;
  }

  /* ------------------------------------------------------------ reshape */

  /** The running counters of the `forEachIndexed` pass of `reshape`. */
  datatype Scan = Scan(negOneIndex: int, negOneCount: nat, acc: int)

  /** Every entry of the new shape is -1 or positive. */
  predicate Admissible(s: seq<int>) {
    forall i :: 0 <= i < |s| ==> s[i] == -1 || s[i] >= 1
  }

  /** The product of the positive entries of the new shape. */
  function KnownProduct(s: seq<int>): (p: int)
    ensures p >= 1
  {
    if |s| == 0 then 1
    else
      var q := KnownProduct(s[..|s| - 1]);
      var x := s[|s| - 1];
      if x >= 1 then RowMajor.MulMonotone(1, x, q); q * x else q
  }

  /** How many entries of the new shape are -1. */
  function Wildcards(s: seq<int>): (c: nat)
    ensures c <= |s|
  {
    if |s| == 0 then 0 else Wildcards(s[..|s| - 1]) + if s[|s| - 1] == -1 then 1 else 0
  }

  /** The last entry of the new shape that is -1, or -1 when there is none. */
  function LastWildcard(s: seq<int>): (i: int)
    ensures -1 <= i < |s|
    ensures i >= 0 ==> s[i] == -1
    ensures i == -1 <==> Wildcards(s) == 0
  {
    if |s| == 0 then -1
    else if s[|s| - 1] == -1 then |s| - 1
    else
      var i := LastWildcard(s[..|s| - 1]);
      assert i >= 0 ==> s[..|s| - 1][i] == s[i];
      i
  }

  /**
   * The pass over the new shape: -1 entries are counted and the last one
   * remembered, positive entries multiply the accumulator, which must divide
   * the size after every step, and any other entry is rejected.
   */
  function ReshapeScan(size: nat, s: seq<int>): (r: Result<Scan>)
    ensures r.Ok? ==> r.value == Scan(LastWildcard(s), Wildcards(s), KnownProduct(s))
    ensures r.Err? ==> r.error == IllegalArgument
    decreases |s|
  {
    if |s| == 0 then Ok(Scan(-1, 0, 1))
    else
      var n := |s| - 1;
      var p := ReshapeScan(size, s[..n]);
      if p.Err? then p
      else if s[n] == -1 then Ok(Scan(n, p.value.negOneCount + 1, p.value.acc))
      else if s[n] > 0 then
        var acc := p.value.acc * s[n];
        if size % acc != 0 then Err(IllegalArgument) else Ok(p.value.(acc := acc))
      else Err(IllegalArgument)
  }

  /** Checking divisibility after every step is the same as checking it once at the end. */
  lemma {:induction false} ReshapeScanAccepts(size: nat, s: seq<int>)
    ensures ReshapeScan(size, s).Ok? <==> Admissible(s) && size % KnownProduct(s) == 0
    decreases |s|
  {
    if |s| > 0 {
      var n := |s| - 1;
      ReshapeScanAccepts(size, s[..n]);
      assert forall i :: 0 <= i < n ==> s[..n][i] == s[i];
      var q := KnownProduct(s[..n]);
      if s[n] >= 1 && size % (q * s[n]) == 0 {
        FactorDivides(size, q, s[n]);
      }
    }
  }

  /** A number divisible by q·x is divisible by q. */
  lemma FactorDivides(size: nat, q: int, x: int)
    requires q >= 1 && x >= 1 && size % (q * x) == 0
    ensures size % q == 0
  {
    RowMajor.MulMonotone(1, x, q);
    var m := size / (q * x);
    assert size == m * (q * x);
    assert size == (m * x) * q + 0;
    RowMajor.DivModUnique(size, m * x, 0, q);
  }

  /**
   * The new shape as the caller's array holds it afterwards: unchanged when
   * the scan throws, otherwise with the last -1 entry replaced by
   * size / acc.
   */
  function InferShape(size: nat, s: seq<int>): (r: Result<seq<int>>)
    ensures r.Err? <==> ReshapeScan(size, s).Err?
    ensures r.Err? ==> r.error == IllegalArgument
    ensures r.Ok? ==> |r.value| == |s|
  {
    var scan :- ReshapeScan(size, s);
    if scan.negOneCount > 0 then Ok(s[scan.negOneIndex := size / scan.acc]) else Ok(s)
  }

  /** The array `newShape` after the call: written only when the scan passes. */
  function ShapeAfter(size: nat, s: seq<int>): (r: seq<int>)
    ensures |r| == |s|
  {
    var inferred := InferShape(size, s);
    if inferred.Ok? then inferred.value else s
  }

  /** `reshape(newShape)`: the inferred shape over the same data, through the constructor's check. */
  function Reshape<T>(t: Tensor<T>, s: seq<int>): (res: Result<Tensor<T>>)
    ensures res.Ok? ==> Valid(res.value) && res.value.data == t.data && res.value.shape == ShapeAfter(|t.data|, s)
    ensures res.Err? ==> res.error == if ReshapeScan(|t.data|, s).Ok? && |s| == 0 then EmptyReduce else IllegalArgument
  {
    var shape :- InferShape(|t.data|, s);
    NewTensor(shape, t.data)
  }

  /** The condition under which `reshape` succeeds. */
  predicate ReshapeAccepts(size: nat, s: seq<int>) {
    |s| >= 1 && Admissible(s) &&
    ((Wildcards(s) == 0 && KnownProduct(s) == size) ||
     (Wildcards(s) == 1 && size >= 1 && size % KnownProduct(s) == 0))
  }

  /**
   * `reshape` succeeds exactly when every entry is -1 or positive, and either
   * there is no -1 and the entries multiply to the size, or there is one -1
   * and the other entries divide the size.  Two or more -1 entries are
   * rejected by the constructor, which still sees a -1.
   */
  lemma ReshapeSucceeds<T>(t: Tensor<T>, s: seq<int>)
    ensures Reshape(t, s).Ok? <==> ReshapeAccepts(|t.data|, s)
  {
    var size := |t.data|;
    ReshapeScanAccepts(size, s);
    if ReshapeScan(size, s).Ok? && |s| >= 1 {
      var p := KnownProduct(s);
      var w := LastWildcard(s);
      if Wildcards(s) == 0 {
        NoWildcardProduct(s);
      } else {
        var v := size / p;
        var s' := s[w := v];
        if Wildcards(s) == 1 {
          if size >= 1 {
            RowMajor.DivModUnique(size, v, 0, p);
            PositiveFactor(v, p, size);
          }
          ReplacedProduct(s, w, v);
          if size >= 1 {
            assert ValidShape(s');
            assert Product(s') == p * v;
          } else {
            assert v == 0 && s'[w] == 0;
          }
        } else {
          OtherWildcard(s);
          var j :| 0 <= j < |s| && j != w && s[j] == -1;
          assert s'[j] == -1;
        }
      }
    }
  }

  lemma PositiveFactor(v: int, p: int, size: int)
    requires p >= 1 && size >= 1 && size == v * p + 0
    ensures v >= 1
  {
    if v <= 0 {
      RowMajor.MulMonotone2(v, 0, p);
    }
  }

  /** A -1 entry is counted. */
  lemma {:induction false} WildcardCounted(s: seq<int>, w: int)
    requires 0 <= w < |s| && s[w] == -1
    ensures Wildcards(s) >= 1
    decreases |s|
  {
    var n := |s| - 1;
    if w < n {
      assert s[..n][w] == -1;
      WildcardCounted(s[..n], w);
    }
  }

  /** With no -1 entry, the known product is the product. */
  lemma {:induction false} NoWildcardProduct(s: seq<int>)
    requires Admissible(s) && Wildcards(s) == 0
    ensures AllPositive(s) && KnownProduct(s) == Product(s)
    decreases |s|
  {
    if |s| > 0 {
      var n := |s| - 1;
      assert forall i :: 0 <= i < n ==> s[..n][i] == s[i];
      NoWildcardProduct(s[..n]);
    }
  }

  /** Replacing the only -1 entry by v makes the product v times the known product. */
  lemma {:induction false} ReplacedProduct(s: seq<int>, w: int, v: int)
    requires Admissible(s) && Wildcards(s) == 1 && 0 <= w < |s| && s[w] == -1
    ensures Product(s[w := v]) == KnownProduct(s) * v
    ensures v >= 1 ==> AllPositive(s[w := v])
    decreases |s|
  {
    var n := |s| - 1;
    var s' := s[w := v];
    var init := s[..n];
    assert forall i :: 0 <= i < n ==> init[i] == s[i];
    if w == n {
      assert s'[..n] == init;
      assert Wildcards(init) == 0;
      NoWildcardProduct(init);
    } else {
      WildcardCounted(init, w);
      assert s[n] >= 1;
      ReplacedProduct(init, w, v);
      ReplacedProductStep(s, w, v);
      assert s'[..n] == init[w := v];
    }
  }

  /** The step of `ReplacedProduct` when the -1 entry is not the last one. */
  lemma ReplacedProductStep(s: seq<int>, w: int, v: int)
    requires |s| >= 1 && 0 <= w < |s| - 1 && s[|s| - 1] >= 1
    requires Product(s[..|s| - 1][w := v]) == KnownProduct(s[..|s| - 1]) * v
    ensures Product(s[w := v]) == KnownProduct(s) * v
  {
    var n := |s| - 1;
    var init := s[..n];
    assert s[w := v][..n] == init[w := v];
    var p, k, x := Product(init[w := v]), KnownProduct(init), s[n];
    assert Product(s[w := v]) == p * x;
    assert KnownProduct(s) == k * x;
    MulRotate(p, k, v, x, Product(s[w := v]), KnownProduct(s));
  }

  /** From p = k·v, a = p·x and b = k·x follows a = b·v. */
  lemma MulRotate(p: int, k: int, v: int, x: int, a: int, b: int)
    requires p == k * v && a == p * x && b == k * x
    ensures a == b * v
  {
    assert (k * v) * x == (k * x) * v;
  }

  /** Two or more -1 entries: besides the last one there is another. */
  lemma {:induction false} OtherWildcard(s: seq<int>)
    requires Wildcards(s) >= 2
    ensures exists j :: 0 <= j < |s| && j != LastWildcard(s) && s[j] == -1
    decreases |s|
  {
    var n := |s| - 1;
    var init := s[..n];
    if s[n] == -1 {
      var j := LastWildcard(init);
      assert init[j] == s[j];
    } else {
      OtherWildcard(init);
      var j :| 0 <= j < |init| && j != LastWildcard(init) && init[j] == -1;
      assert s[j] == -1;
    }
  }

  /** A -1 entry takes the value size / (product of the others), and the element count is kept. */
  lemma ReshapeInfers<T>(t: Tensor<T>, s: seq<int>)
    requires ReshapeAccepts(|t.data|, s) && Wildcards(s) == 1
    ensures Reshape(t, s).Ok?
    ensures Reshape(t, s).value.shape == s[LastWildcard(s) := |t.data| / KnownProduct(s)]
    ensures Product(Reshape(t, s).value.shape) == |t.data|
  {
    ReshapeSucceeds(t, s);
    ReshapeScanAccepts(|t.data|, s);
  }
}
