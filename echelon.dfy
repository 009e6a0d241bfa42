/**
 * Gaussian elimination as `rowEchelonForm()` performs it, once for both
 * scalar types.  The real and the complex variants differ only in their
 * scalars: the arithmetic, the magnitude the pivot search maximises, and
 * three zero tests (the one that skips a column, the one that snaps an entry
 * to zero, the one that recognises a zero row).  `Scalars` carries those;
 * `RealEchelon` and `ComplexEchelon` supply them.
 *
 * The computation has three phases: elimination column by column
 * (`Eliminate`), snapping negligible entries to zero (`Snap`), and moving
 * the zero rows to the bottom while the others keep their order
 * (`Compact`).  Pivot rows are never divided by their pivot.
 */
module Echelon {
  import opened Wrappers
  import opened Dense
  import Storage

  /** The scalar operations and tests the elimination uses. */
  datatype Scalars<!T> = Scalars(
    zero: T,
    sub: (T, T) -> T,
    mul: (T, T) -> T,
    div: (T, T) -> T,
    magnitude: T -> real,  // what the pivot search maximises
    pivotZero: T -> bool,  // a column whose largest entry passes this is skipped
    snapZero: T -> bool,   // an entry that passes this is replaced by zero
    entryZero: T -> bool)  // a row all of whose entries pass this is a zero row

  /**
   * What the structure of the result rests on: zero passes the column test,
   * and an entry no larger than one that passes it passes it too.
   */
  ghost predicate Sound<T(!new)>(ops: Scalars<T>) {
    ops.pivotZero(ops.zero) &&
    forall x: T, y: T :: ops.pivotZero(x) && ops.magnitude(y) <= ops.magnitude(x) ==> ops.pivotZero(y)
  }

  /**
   * The column test and the snapping test agree, and an entry the zero-row
   * test accepts also passes the column test.
   */
  ghost predicate Consistent<T(!new)>(ops: Scalars<T>) {
    ops.entryZero(ops.zero) &&
    (forall x: T :: ops.snapZero(x) == ops.pivotZero(x)) &&
    (forall x: T :: ops.entryZero(x) ==> ops.pivotZero(x))
  }

  /** One test used for all three purposes is consistent. */
  lemma OneTestConsistent<T(!new)>(ops: Scalars<T>)
    requires ops.snapZero == ops.pivotZero && ops.entryZero == ops.pivotZero && ops.pivotZero(ops.zero)
    ensures Consistent(ops)
  {}

  // ---------------------------------------------------------------------
  // The pivot search

  /**
   * Row i is the first row in [h, n) whose entry in column k has the largest
   * magnitude: none there is larger, and every row before it is smaller.
   */
  ghost predicate IsFirstMax<T>(ops: Scalars<T>, m: Mat<T>, h: nat, n: nat, k: nat, i: nat)
    requires Valid(m) && n <= m.rows && k < m.cols
  {
    h <= i < n &&
    (forall t: nat :: h <= t < n ==> ops.magnitude(At(m, t, k)) <= ops.magnitude(At(m, i, k))) &&
    (forall t: nat :: h <= t < i ==> ops.magnitude(At(m, t, k)) < ops.magnitude(At(m, i, k)))
  }

  /** The first maximum is unique. */
  lemma FirstMaxUnique<T>(ops: Scalars<T>, m: Mat<T>, h: nat, n: nat, k: nat, i: nat, i': nat)
    requires Valid(m) && n <= m.rows && k < m.cols
    requires IsFirstMax(ops, m, h, n, k, i) && IsFirstMax(ops, m, h, n, k, i')
    ensures i == i'
  {
    var a, a' := ops.magnitude(At(m, i, k)), ops.magnitude(At(m, i', k));
    assert a <= a' && a' <= a;
    assert (i < i' ==> a < a') && (i' < i ==> a' < a);
  }

  /** `(h until rows).maxByOrNull { |newMat[it, k]| }`. */
  function ArgMax<T>(ops: Scalars<T>, m: Mat<T>, h: nat, k: nat): (i: nat)
    requires Valid(m) && h < m.rows && k < m.cols
    ensures IsFirstMax(ops, m, h, m.rows, k, i)
    decreases m.rows - h
  {
    if h == m.rows - 1 then h
    else
      var b := ArgMax(ops, m, h + 1, k);
      if ops.magnitude(At(m, b, k)) > ops.magnitude(At(m, h, k)) then b else h
  }

  /**
   * The search as `maxByOrNull` runs it: the first row is the candidate, and
   * a later row replaces it only when strictly larger.
   */
  method MaxRow<T>(ops: Scalars<T>, a: Storage.Matrix<T>, h: nat, k: nat) returns (iMax: nat)
    requires a.Valid() && h < a.rows && k < a.cols
    ensures iMax == ArgMax(ops, a.Value(), h, k)
  {
    ghost var m := a.Value();
    iMax := h;
    var first := a.Get(h, k);
    var best := ops.magnitude(first.value);
    var i := h + 1;
    while i < a.rows
      invariant h + 1 <= i <= a.rows
      invariant IsFirstMax(ops, m, h, i, k, iMax) && best == ops.magnitude(At(m, iMax, k))
    {
      var x := a.Get(i, k);
      var v := ops.magnitude(x.value);
      if v > best {
        iMax, best := i, v;
      }
      i := i + 1;
    }
    FirstMaxUnique(ops, m, h, m.rows, k, iMax, ArgMax(ops, m, h, k));
  }

  // ---------------------------------------------------------------------
  // One pivot step

  /**
   * Entry (i, j) after the step on column k with the pivot in row h: row h
   * and the columns before k keep their entries, the rest of column k
   * becomes zero, and to the right of it row i loses f times row h, where
   * f = m[i, k] / m[h, k].
   */
  function EliminatedCell<T>(ops: Scalars<T>, m: Mat<T>, h: nat, k: nat, i: nat, j: nat): T
    requires Valid(m) && h < m.rows && k < m.cols && i < m.rows && j < m.cols
  {
    if i == h || j < k then At(m, i, j)
    else if j == k then ops.zero
    else ops.sub(At(m, i, j), ops.mul(At(m, h, j), ops.div(At(m, i, k), At(m, h, k))))
  }

  /** The matrix after one pivot step; row h is not divided by its pivot. */
  function Eliminated<T>(ops: Scalars<T>, m: Mat<T>, h: nat, k: nat): (r: Mat<T>)
    requires Valid(m) && h < m.rows && k < m.cols
    ensures Valid(r) && r.rows == m.rows && r.cols == m.cols
    ensures forall i: nat, j: nat :: i < m.rows && j < m.cols ==> At(r, i, j) == EliminatedCell(ops, m, h, k, i, j)
  {
    Build(m.rows, m.cols, (i: nat, j: nat) requires i < m.rows && j < m.cols => EliminatedCell(ops, m, h, k, i, j))
  }

  /**
   * What a pivot step promises: every row but h has zero in column k, row h
   * is unchanged, and so are the columns before k.
   */
  lemma EliminatedClearsColumn<T>(ops: Scalars<T>, m: Mat<T>, h: nat, k: nat)
    requires Valid(m) && h < m.rows && k < m.cols
    ensures forall i: nat :: i < m.rows && i != h ==> At(Eliminated(ops, m, h, k), i, k) == ops.zero
    ensures forall j: nat :: j < m.cols ==> At(Eliminated(ops, m, h, k), h, j) == At(m, h, j)
    ensures forall i: nat, j: nat :: i < m.rows && j < k ==> At(Eliminated(ops, m, h, k), i, j) == At(m, i, j)
  {}

  /**
   * Row i of the `for (i in (0 until h) + (h + 1 until rows))` loop: the
   * factor is read, entry (i, k) set to zero, then the entries right of k
   * updated one by one.  Only row i changes.
   */
  method EliminateRow<T>(ops: Scalars<T>, a: Storage.Matrix<T>, h: nat, k: nat, i: nat)
    requires a.Valid() && h < a.rows && k < a.cols && i < a.rows && i != h
    modifies a.data
    ensures a.Valid()
    ensures forall i': nat, j: nat :: i' < a.rows && j < a.cols ==>
      At(a.Value(), i', j) == if i' == i then EliminatedCell(ops, old(a.Value()), h, k, i, j) else At(old(a.Value()), i', j)
  {
    ghost var m0 := a.Value();
    var xik := a.Get(i, k);
    var xhk := a.Get(h, k);
    var f := ops.div(xik.value, xhk.value);
    var o := a.Set(i, k, ops.zero);
    var j := k + 1;
    while j < a.cols
      invariant k + 1 <= j <= a.cols
      invariant forall i': nat, j': nat :: i' < a.rows && j' < a.cols ==>
        At(a.Value(), i', j') == if i' == i && k <= j' < j then EliminatedCell(ops, m0, h, k, i, j') else At(m0, i', j')
    {
      var xij := a.Get(i, j);
      var xhj := a.Get(h, j);
      o := a.Set(i, j, ops.sub(xij.value, ops.mul(xhj.value, f)));
      j := j + 1;
    }
  }

  /** The whole pivot step on column k, in place. */
  method EliminateColumn<T>(ops: Scalars<T>, a: Storage.Matrix<T>, h: nat, k: nat)
    requires a.Valid() && h < a.rows && k < a.cols
    modifies a.data
    ensures a.Valid() && a.Value() == Eliminated(ops, old(a.Value()), h, k)
  {
    ghost var m0 := a.Value();
    var i := 0;
    while i < a.rows
      invariant i <= a.rows
      invariant forall i': nat, j: nat :: i' < a.rows && j < a.cols ==>
        At(a.Value(), i', j) == if i' < i then EliminatedCell(ops, m0, h, k, i', j) else At(m0, i', j)
    {
      if i != h {
        EliminateRow(ops, a, h, k, i);
      }
      i := i + 1;
    }
    Extensionality(a.Value(), Eliminated(ops, m0, h, k));
  }

  /**
   * `newMat = newMat.switchRow(h, iMax)`, which is a new matrix unless the
   * two rows are the same, followed by the pivot step in place.
   */
  method SwitchAndEliminate<T>(ops: Scalars<T>, a: Storage.Matrix<T>, h: nat, k: nat, iMax: nat) returns (b: Storage.Matrix<T>)
    requires a.Valid() && h < a.rows && k < a.cols && iMax < a.rows
    modifies a.data
    ensures b.Valid() && b.rows == a.rows && b.cols == a.cols && (b == a || fresh(b.data))
    ensures b.Value() == Eliminated(ops, SwitchRow(old(a.Value()), h, iMax).value, h, k)
  {
    b := a;
    if h != iMax {
      b := new Storage.Matrix(SwitchRow(a.Value(), h, iMax).value);
    }
    EliminateColumn(ops, b, h, k);
  }

  // ---------------------------------------------------------------------
  // The elimination loop

  /**
   * The `while (h < rows && k < cols)` loop from pivot row h and column k:
   * a column whose largest entry passes the zero test is skipped; otherwise
   * that row is switched up to row h and the pivot step is taken.
   */
  function Eliminate<T>(ops: Scalars<T>, m: Mat<T>, h: nat, k: nat): (r: Mat<T>)
    requires Valid(m) && h <= m.rows && k <= m.cols
    ensures Valid(r) && r.rows == m.rows && r.cols == m.cols
    decreases m.cols - k
  {
    if h == m.rows || k == m.cols then m
    else
      var iMax := ArgMax(ops, m, h, k);
      if ops.pivotZero(At(m, iMax, k)) then Eliminate(ops, m, h, k + 1)
      else Eliminate(ops, Eliminated(ops, SwitchRow(m, h, iMax).value, h, k), h + 1, k + 1)
  }

  /**
   * The columns in which `Eliminate` from (h, k) finds its pivots, after
   * the pivot columns pc found before.
   */
  ghost function PivotsFrom<T>(ops: Scalars<T>, m: Mat<T>, h: nat, k: nat, pc: seq<nat>): (r: seq<nat>)
    requires Valid(m) && h <= m.rows && k <= m.cols
    decreases m.cols - k
  {
    if h == m.rows || k == m.cols then pc
    else
      var iMax := ArgMax(ops, m, h, k);
      if ops.pivotZero(At(m, iMax, k)) then PivotsFrom(ops, m, h, k + 1, pc)
      else PivotsFrom(ops, Eliminated(ops, SwitchRow(m, h, iMax).value, h, k), h + 1, k + 1, pc + [k])
  }

  /** The columns in which the elimination finds its pivots, in order. */
  ghost function PivotColumns<T>(ops: Scalars<T>, m: Mat<T>): seq<nat>
    requires Valid(m)
  {
    PivotsFrom(ops, m, 0, 0, [])
  }

  /** A column whose largest entry passes the zero test is skipped. */
  lemma UnfoldSkip<T>(ops: Scalars<T>, m: Mat<T>, h: nat, k: nat)
    requires Valid(m) && h < m.rows && k < m.cols
    requires ops.pivotZero(At(m, ArgMax(ops, m, h, k), k))
    ensures Eliminate(ops, m, h, k) == Eliminate(ops, m, h, k + 1)
  {}

  lemma PivotsSkip<T>(ops: Scalars<T>, m: Mat<T>, h: nat, k: nat, pc: seq<nat>)
    requires Valid(m) && h < m.rows && k < m.cols
    requires ops.pivotZero(At(m, ArgMax(ops, m, h, k), k))
    ensures PivotsFrom(ops, m, h, k, pc) == PivotsFrom(ops, m, h, k + 1, pc)
  {}

  /** Otherwise the loop goes on from the switched and eliminated matrix e. */
  lemma UnfoldPivot<T>(ops: Scalars<T>, m: Mat<T>, h: nat, k: nat, e: Mat<T>)
    requires Valid(m) && h < m.rows && k < m.cols
    requires !ops.pivotZero(At(m, ArgMax(ops, m, h, k), k))
    requires e == Eliminated(ops, SwitchRow(m, h, ArgMax(ops, m, h, k)).value, h, k)
    ensures Eliminate(ops, m, h, k) == Eliminate(ops, e, h + 1, k + 1)
  {}

  lemma PivotsPivot<T>(ops: Scalars<T>, m: Mat<T>, h: nat, k: nat, e: Mat<T>, pc: seq<nat>)
    requires Valid(m) && h < m.rows && k < m.cols
    requires !ops.pivotZero(At(m, ArgMax(ops, m, h, k), k))
    requires e == Eliminated(ops, SwitchRow(m, h, ArgMax(ops, m, h, k)).value, h, k)
    ensures PivotsFrom(ops, m, h, k, pc) == PivotsFrom(ops, e, h + 1, k + 1, pc + [k])
  {}

  /**
   * The state between two iterations, with pivot columns pc for rows
   * [0, h): the pivot of row t is at column pc[t] < k and passes no zero
   * test, the rest of its column is zero, the row is negligible left of it,
   * and rows h onwards are negligible in every column before k.
   */
  ghost predicate Staircase<T>(ops: Scalars<T>, m: Mat<T>, h: nat, k: nat, pc: seq<nat>)
    requires Valid(m)
  {
    |pc| == h <= m.rows && k <= m.cols &&
    (forall t :: 0 <= t < |pc| ==> pc[t] < k) &&
    Pivoted(ops, m, pc) &&
    (forall i: nat, j: nat :: h <= i < m.rows && j < k ==> ops.pivotZero(At(m, i, j)))
  }

  /** The clauses about the pivot rows, shared by `Staircase` and `Settled`. */
  ghost predicate Pivoted<T>(ops: Scalars<T>, m: Mat<T>, pc: seq<nat>)
    requires Valid(m)
  {
    |pc| <= m.rows &&
    (forall t :: 0 <= t < |pc| ==> pc[t] < m.cols) &&
    (forall s, t :: 0 <= s < t < |pc| ==> pc[s] < pc[t]) &&
    (forall t :: 0 <= t < |pc| ==> !ops.pivotZero(At(m, t, pc[t]))) &&
    (forall t, i: nat :: 0 <= t < |pc| && i < m.rows && i != t ==> At(m, i, pc[t]) == ops.zero) &&
    (forall t, j: nat :: 0 <= t < |pc| && j < pc[t] ==> ops.pivotZero(At(m, t, j)))
  }

  /** The state the loop ends in: every row past the pivot rows is negligible. */
  ghost predicate Settled<T>(ops: Scalars<T>, m: Mat<T>, pc: seq<nat>)
    requires Valid(m)
  {
    Pivoted(ops, m, pc) &&
    forall i: nat, j: nat :: |pc| <= i < m.rows && j < m.cols ==> ops.pivotZero(At(m, i, j))
  }

  /** A skipped column is negligible from row h down. */
  lemma SkipKeeps<T(!new)>(ops: Scalars<T>, m: Mat<T>, h: nat, k: nat, pc: seq<nat>)
    requires Valid(m) && Sound(ops) && h < m.rows && k < m.cols && Staircase(ops, m, h, k, pc)
    requires ops.pivotZero(At(m, ArgMax(ops, m, h, k), k))
    ensures Staircase(ops, m, h, k + 1, pc)
  {
    var iMax := ArgMax(ops, m, h, k);
    forall i: nat | h <= i < m.rows
      ensures ops.pivotZero(At(m, i, k))
    {
      assert ops.magnitude(At(m, i, k)) <= ops.magnitude(At(m, iMax, k));
    }
  }

  /** After the switch, rows h onwards are still negligible before column k. */
  lemma SwitchKeeps<T>(ops: Scalars<T>, m: Mat<T>, h: nat, k: nat, pc: seq<nat>, iMax: nat)
    requires Valid(m) && h < m.rows && k < m.cols && Staircase(ops, m, h, k, pc) && h <= iMax < m.rows
    ensures Staircase(ops, SwitchRow(m, h, iMax).value, h, k, pc)
  {
    var w := SwitchRow(m, h, iMax).value;
    forall t, i: nat | 0 <= t < |pc| && i < m.rows && i != t
      ensures At(w, i, pc[t]) == ops.zero
    {
      assert At(w, i, pc[t]) == At(m, Swapped(i, h, iMax), pc[t]);
    }
    forall t, j: nat | 0 <= t < |pc| && j < pc[t]
      ensures ops.pivotZero(At(w, t, j))
    {
      assert At(w, t, j) == At(m, t, j);
    }
    forall t | 0 <= t < |pc|
      ensures !ops.pivotZero(At(w, t, pc[t]))
    {
      assert At(w, t, pc[t]) == At(m, t, pc[t]);
    }
    forall i: nat, j: nat | h <= i < m.rows && j < k
      ensures ops.pivotZero(At(w, i, j))
    {
      assert At(w, i, j) == At(m, Swapped(i, h, iMax), j);
    }
  }

  /** The pivot step on a pivot that passes no zero test adds row h to the pivot rows. */
  lemma StepKeeps<T(!new)>(ops: Scalars<T>, w: Mat<T>, h: nat, k: nat, pc: seq<nat>)
    requires Valid(w) && Sound(ops) && h < w.rows && k < w.cols && Staircase(ops, w, h, k, pc)
    requires !ops.pivotZero(At(w, h, k))
    ensures Staircase(ops, Eliminated(ops, w, h, k), h + 1, k + 1, pc + [k])
  {
    var e := Eliminated(ops, w, h, k);
    var pc' := pc + [k];
    forall t, i: nat | 0 <= t < |pc'| && i < w.rows && i != t
      ensures At(e, i, pc'[t]) == ops.zero
    {
      if t < |pc| {
        assert At(e, i, pc[t]) == At(w, i, pc[t]);
      }
    }
    forall t, j: nat | 0 <= t < |pc'| && j < pc'[t]
      ensures ops.pivotZero(At(e, t, j))
    {
      assert At(e, t, j) == At(w, t, j);
    }
    forall t | 0 <= t < |pc'|
      ensures !ops.pivotZero(At(e, t, pc'[t]))
    {
      assert At(e, t, pc'[t]) == At(w, t, pc'[t]);
    }
    forall i: nat, j: nat | h + 1 <= i < w.rows && j < k + 1
      ensures ops.pivotZero(At(e, i, j))
    {
      if j < k {
        assert At(e, i, j) == At(w, i, j);
      }
    }
  }

  /** A loop that has run out of rows or columns is settled. */
  lemma StaircaseSettles<T>(ops: Scalars<T>, m: Mat<T>, h: nat, k: nat, pc: seq<nat>, e: Mat<T>, p: seq<nat>)
    requires Valid(m) && Staircase(ops, m, h, k, pc) && (h == m.rows || k == m.cols)
    requires e == Eliminate(ops, m, h, k) && p == PivotsFrom(ops, m, h, k, pc)
    ensures Valid(e) && Settled(ops, e, p)
  {
    assert e == m && p == pc;
  }

  /** The switch and the step together add row h to the pivot rows. */
  lemma PivotStepKeeps<T(!new)>(ops: Scalars<T>, m: Mat<T>, h: nat, k: nat, pc: seq<nat>, iMax: nat, w: Mat<T>, e: Mat<T>)
    requires Valid(m) && Sound(ops) && h < m.rows && k < m.cols && Staircase(ops, m, h, k, pc)
    requires iMax == ArgMax(ops, m, h, k) && !ops.pivotZero(At(m, iMax, k))
    requires w == SwitchRow(m, h, iMax).value && e == Eliminated(ops, w, h, k)
    ensures Staircase(ops, e, h + 1, k + 1, pc + [k])
  {
    SwitchKeeps(ops, m, h, k, pc, iMax);
    assert At(w, h, k) == At(m, iMax, k);
    StepKeeps(ops, w, h, k, pc);
  }

  /**
   * From any state of the loop, `Eliminate` ends settled on the pivot
   * columns it finds; e and p name that result and those columns.
   */
  lemma {:induction false} EliminateSettles<T(!new)>(ops: Scalars<T>, m: Mat<T>, h: nat, k: nat, pc: seq<nat>, e: Mat<T>, p: seq<nat>)
    requires Valid(m) && Sound(ops) && h <= m.rows && k <= m.cols && Staircase(ops, m, h, k, pc)
    requires e == Eliminate(ops, m, h, k) && p == PivotsFrom(ops, m, h, k, pc)
    ensures Valid(e) && Settled(ops, e, p)
    decreases m.cols - k, 1
  {
    if h == m.rows || k == m.cols {
      StaircaseSettles(ops, m, h, k, pc, e, p);
    } else if ops.pivotZero(At(m, ArgMax(ops, m, h, k), k)) {
      SettlesAfterSkip(ops, m, h, k, pc, e, p);
    } else {
      SettlesAfterPivot(ops, m, h, k, pc, e, p);
    }
  }

  lemma {:induction false} SettlesAfterSkip<T(!new)>(ops: Scalars<T>, m: Mat<T>, h: nat, k: nat, pc: seq<nat>, e: Mat<T>, p: seq<nat>)
    requires Valid(m) && Sound(ops) && h < m.rows && k < m.cols && Staircase(ops, m, h, k, pc)
    requires ops.pivotZero(At(m, ArgMax(ops, m, h, k), k))
    requires e == Eliminate(ops, m, h, k) && p == PivotsFrom(ops, m, h, k, pc)
    ensures Valid(e) && Settled(ops, e, p)
    decreases m.cols - k, 0
  {
    UnfoldSkip(ops, m, h, k);
    PivotsSkip(ops, m, h, k, pc);
    SkipKeeps(ops, m, h, k, pc);
    EliminateSettles(ops, m, h, k + 1, pc, e, p);
  }

  lemma {:induction false} SettlesAfterPivot<T(!new)>(ops: Scalars<T>, m: Mat<T>, h: nat, k: nat, pc: seq<nat>, e: Mat<T>, p: seq<nat>)
    requires Valid(m) && Sound(ops) && h < m.rows && k < m.cols && Staircase(ops, m, h, k, pc)
    requires !ops.pivotZero(At(m, ArgMax(ops, m, h, k), k))
    requires e == Eliminate(ops, m, h, k) && p == PivotsFrom(ops, m, h, k, pc)
    ensures Valid(e) && Settled(ops, e, p)
    decreases m.cols - k, 0
  {
    var next := PivotNext(ops, m, h, k, pc);
    EliminateSettles(ops, next, h + 1, k + 1, pc + [k], e, p);
  }

  /** A pivot step leaves the loop in the next state of the staircase. */
  lemma PivotNext<T(!new)>(ops: Scalars<T>, m: Mat<T>, h: nat, k: nat, pc: seq<nat>) returns (next: Mat<T>)
    requires Valid(m) && Sound(ops) && h < m.rows && k < m.cols && Staircase(ops, m, h, k, pc)
    requires !ops.pivotZero(At(m, ArgMax(ops, m, h, k), k))
    ensures Valid(next) && next.rows == m.rows && next.cols == m.cols
    ensures Staircase(ops, next, h + 1, k + 1, pc + [k])
    ensures Eliminate(ops, m, h, k) == Eliminate(ops, next, h + 1, k + 1)
    ensures PivotsFrom(ops, m, h, k, pc) == PivotsFrom(ops, next, h + 1, k + 1, pc + [k])
  {
    var iMax := ArgMax(ops, m, h, k);
    var w := SwitchRow(m, h, iMax).value;
    next := Eliminated(ops, w, h, k);
    UnfoldPivot(ops, m, h, k, next);
    PivotsPivot(ops, m, h, k, next, pc);
    PivotStepKeeps(ops, m, h, k, pc, iMax, w, next);
  }

  /**
   * The elimination from the top-left corner ends with its pivots, in
   * strictly increasing columns, on rows 0, 1, …; each pivot column is zero
   * except at its pivot; each pivot row is negligible left of its pivot; and
   * every row past the pivot rows is negligible.
   */
  lemma EliminationSettles<T(!new)>(ops: Scalars<T>, m: Mat<T>)
    requires Valid(m) && Sound(ops)
    ensures Settled(ops, Eliminate(ops, m, 0, 0), PivotColumns(ops, m))
  {
    EliminateSettles(ops, m, 0, 0, [], Eliminate(ops, m, 0, 0), PivotColumns(ops, m));
  }

  // ---------------------------------------------------------------------
  // Snapping and zero rows

  /** `data.map { if (pseudoEquals(it, 0)) 0 else it }`. */
  function Snap<T>(ops: Scalars<T>, m: Mat<T>): (r: Mat<T>)
    requires Valid(m)
    ensures Valid(r) && r.rows == m.rows && r.cols == m.cols
    ensures forall i: nat, j: nat :: i < m.rows && j < m.cols ==>
      At(r, i, j) == if ops.snapZero(At(m, i, j)) then ops.zero else At(m, i, j)
  {
    Build(m.rows, m.cols, (i: nat, j: nat) requires i < m.rows && j < m.cols =>
      if ops.snapZero(At(m, i, j)) then ops.zero else At(m, i, j))
  }

  /** Snapping twice snaps nothing more. */
  lemma SnapIdempotent<T>(ops: Scalars<T>, m: Mat<T>)
    requires Valid(m)
    ensures Snap(ops, Snap(ops, m)) == Snap(ops, m)
  {
    Extensionality(Snap(ops, Snap(ops, m)), Snap(ops, m));
  }

  /** Every entry of row i passes the zero-row test. */
  predicate ZeroRow<T>(ops: Scalars<T>, m: Mat<T>, i: nat)
    requires Valid(m) && i < m.rows
  {
    forall j: nat :: j < m.cols ==> ops.entryZero(At(m, i, j))
  }

  /** Which rows pass the zero-row test. */
  ghost function ZeroFlags<T>(ops: Scalars<T>, m: Mat<T>): (z: seq<bool>)
    requires Valid(m)
    ensures |z| == m.rows && forall i :: 0 <= i < m.rows ==> z[i] == ZeroRow(ops, m, i)
  {
    seq(m.rows, i requires 0 <= i < m.rows => ZeroRow(ops, m, i))
  }

  /** The indices below n whose flag is down, in increasing order. */
  function Unflagged(z: seq<bool>, n: nat): (ks: seq<nat>)
    requires n <= |z|
    ensures |ks| <= n
    ensures forall t :: 0 <= t < |ks| ==> ks[t] < n && !z[ks[t]]
    ensures forall s, t :: 0 <= s < t < |ks| ==> ks[s] < ks[t]
  {
    if n == 0 then []
    else
      var ks := Unflagged(z, n - 1);
      if z[n - 1] then ks else ks + [n - 1]
  }

  /** The rows below n that are not zero rows, in increasing order. */
  ghost function KeptRows<T>(ops: Scalars<T>, m: Mat<T>, n: nat): (ks: seq<nat>)
    requires Valid(m) && n <= m.rows
    ensures |ks| <= n
    ensures forall t :: 0 <= t < |ks| ==> ks[t] < n && !ZeroRow(ops, m, ks[t])
    ensures forall s, t :: 0 <= s < t < |ks| ==> ks[s] < ks[t]
  {
    Unflagged(ZeroFlags(ops, m), n)
  }

  /** No index whose flag is down is left out. */
  lemma {:induction false} UnflaggedComplete(z: seq<bool>, n: nat, i: nat)
    requires n <= |z| && i < n && !z[i]
    ensures i in Unflagged(z, n)
  {
    if i < n - 1 {
      UnflaggedComplete(z, n - 1, i);
    }
  }

  /** Every row below n that is not a zero row is kept. */
  lemma KeptRowsComplete<T>(ops: Scalars<T>, m: Mat<T>, n: nat)
    requires Valid(m) && n <= m.rows
    ensures forall i: nat :: i < n && !ZeroRow(ops, m, i) ==> i in KeptRows(ops, m, n)
  {
    forall i: nat | i < n && !ZeroRow(ops, m, i)
      ensures i in KeptRows(ops, m, n)
    {
      UnflaggedComplete(ZeroFlags(ops, m), n, i);
    }
  }

  /**
   * The kept rows below n gathered at the top, in their order, above zero
   * rows: row i is the i-th kept row, or zero once they run out.
   */
  ghost function Gathered<T>(ops: Scalars<T>, m: Mat<T>, n: nat): (r: Mat<T>)
    requires Valid(m) && n <= m.rows
    ensures Valid(r) && r.rows == m.rows && r.cols == m.cols
  {
    var ks := KeptRows(ops, m, n);
    Build(m.rows, m.cols, (i: nat, j: nat) requires i < m.rows && j < m.cols =>
      if i < |ks| then At(m, ks[i], j) else ops.zero)
  }

  /** The rows that are not zero rows, in their order, followed by zero rows. */
  ghost function Compact<T>(ops: Scalars<T>, m: Mat<T>): (r: Mat<T>)
    requires Valid(m)
    ensures Valid(r) && r.rows == m.rows && r.cols == m.cols
  {
    Gathered(ops, m, m.rows)
  }

  /** What `rowEchelonForm()` returns. */
  ghost function RowEchelon<T>(ops: Scalars<T>, m: Mat<T>): (r: Mat<T>)
    requires Valid(m)
    ensures Valid(r) && r.rows == m.rows && r.cols == m.cols
  {
    Compact(ops, Snap(ops, Eliminate(ops, m, 0, 0)))
  }

  /**
   * Row echelon form with every pivot column cleared: row t < |pc| has its
   * first nonzero entry at column pc[t], the columns increase strictly, the
   * rest of each pivot column is zero, and the rows past |pc| are zero.
   */
  ghost predicate InEchelonForm<T>(m: Mat<T>, zero: T, pc: seq<nat>)
    requires Valid(m)
  {
    |pc| <= m.rows &&
    (forall t :: 0 <= t < |pc| ==> pc[t] < m.cols) &&
    (forall s, t :: 0 <= s < t < |pc| ==> pc[s] < pc[t]) &&
    (forall t :: 0 <= t < |pc| ==> At(m, t, pc[t]) != zero) &&
    (forall t, i: nat :: 0 <= t < |pc| && i < m.rows && i != t ==> At(m, i, pc[t]) == zero) &&
    (forall t, j: nat :: 0 <= t < |pc| && j < pc[t] ==> At(m, t, j) == zero) &&
    (forall i: nat, j: nat :: |pc| <= i < m.rows && j < m.cols ==> At(m, i, j) == zero)
  }

  /**
   * When the snapping test is the column test, snapping a settled
   * elimination leaves an exact echelon form whose pivots are untouched.
   */
  lemma SnapSettled<T(!new)>(ops: Scalars<T>, e: Mat<T>, pc: seq<nat>)
    requires Valid(e) && Sound(ops) && Consistent(ops) && Settled(ops, e, pc)
    ensures InEchelonForm(Snap(ops, e), ops.zero, pc)
    ensures forall t :: 0 <= t < |pc| ==> At(Snap(ops, e), t, pc[t]) == At(e, t, pc[t])
  {
    var s := Snap(ops, e);
    forall t | 0 <= t < |pc|
      ensures At(s, t, pc[t]) == At(e, t, pc[t]) && At(s, t, pc[t]) != ops.zero
    {
      assert !ops.snapZero(At(e, t, pc[t]));
    }
    forall t, j: nat | 0 <= t < |pc| && j < pc[t]
      ensures At(s, t, j) == ops.zero
    {
      assert ops.snapZero(At(e, t, j));
    }
    forall i: nat, j: nat | |pc| <= i < e.rows && j < e.cols
      ensures At(s, i, j) == ops.zero
    {
      assert ops.snapZero(At(e, i, j));
    }
  }

  /** When zero passes no test, a settled elimination is already an exact echelon form. */
  lemma SettledIsEchelon<T(!new)>(ops: Scalars<T>, e: Mat<T>, pc: seq<nat>)
    requires Valid(e) && Settled(ops, e, pc) && ops.pivotZero(ops.zero)
    requires forall x: T :: ops.pivotZero(x) ==> x == ops.zero
    ensures InEchelonForm(e, ops.zero, pc)
  {
    forall t | 0 <= t < |pc|
      ensures At(e, t, pc[t]) != ops.zero
    {
      assert !ops.pivotZero(At(e, t, pc[t]));
    }
    forall t, j: nat | 0 <= t < |pc| && j < pc[t]
      ensures At(e, t, j) == ops.zero
    {
      assert ops.pivotZero(At(e, t, j));
    }
    forall i: nat, j: nat | |pc| <= i < e.rows && j < e.cols
      ensures At(e, i, j) == ops.zero
    {
      assert ops.pivotZero(At(e, i, j));
    }
  }

  /** The numbers 0, 1, …, n − 1. */
  function Range(n: nat): (s: seq<nat>)
    ensures |s| == n && forall i :: 0 <= i < n ==> s[i] == i
  {
    if n == 0 then [] else Range(n - 1) + [n - 1]
  }

  /** When exactly the first q flags are down, they are the indices 0, 1, …, q − 1. */
  lemma {:induction false} UnflaggedLeading(z: seq<bool>, q: nat, n: nat)
    requires q <= |z| && n <= |z|
    requires forall i :: 0 <= i < q ==> !z[i]
    requires forall i :: q <= i < |z| ==> z[i]
    ensures n <= q ==> Unflagged(z, n) == Range(n)
    ensures q <= n ==> Unflagged(z, n) == Range(q)
  {
    if n == 0 {
    } else if n - 1 < q {
      UnflaggedLeading(z, q, n - 1);
      assert Unflagged(z, n) == Unflagged(z, n - 1) + [n - 1];
    } else {
      UnflaggedLeading(z, q, n - 1);
      assert Unflagged(z, n) == Unflagged(z, n - 1);
    }
  }

  /** Compacting an echelon form whose pivots fail the zero-row test moves nothing. */
  lemma CompactEchelon<T>(ops: Scalars<T>, x: Mat<T>, pc: seq<nat>)
    requires Valid(x) && InEchelonForm(x, ops.zero, pc) && ops.entryZero(ops.zero)
    requires forall t :: 0 <= t < |pc| ==> !ops.entryZero(At(x, t, pc[t]))
    ensures Compact(ops, x) == x
  {
    forall i: nat | i < |pc|
      ensures !ZeroRow(ops, x, i)
    {
      assert !ops.entryZero(At(x, i, pc[i]));
    }
    forall i: nat | |pc| <= i < x.rows
      ensures ZeroRow(ops, x, i)
    {
      forall j: nat | j < x.cols
        ensures ops.entryZero(At(x, i, j))
      {
        assert At(x, i, j) == ops.zero;
      }
    }
    UnflaggedLeading(ZeroFlags(ops, x), |pc|, x.rows);
    Extensionality(Compact(ops, x), x);
  }

  /** A matrix without zero rows is left as it is by the compaction. */
  lemma CompactWithoutZeroRows<T>(ops: Scalars<T>, x: Mat<T>)
    requires Valid(x) && forall i: nat :: i < x.rows ==> !ZeroRow(ops, x, i)
    ensures Compact(ops, x) == x
  {
    UnflaggedLeading(ZeroFlags(ops, x), x.rows, x.rows);
    Extensionality(Compact(ops, x), x);
  }

  /**
   * With consistent tests, `rowEchelonForm()` returns the snapped
   * elimination unchanged by the compaction, and it is an exact echelon
   * form on the pivot columns the elimination finds.
   */
  lemma RowEchelonIsEchelon<T(!new)>(ops: Scalars<T>, m: Mat<T>)
    requires Valid(m) && Sound(ops) && Consistent(ops)
    ensures RowEchelon(ops, m) == Snap(ops, Eliminate(ops, m, 0, 0))
    ensures InEchelonForm(RowEchelon(ops, m), ops.zero, PivotColumns(ops, m))
  {
    var e := Eliminate(ops, m, 0, 0);
    var pc := PivotColumns(ops, m);
    EliminationSettles(ops, m);
    SnapSettled(ops, e, pc);
    var s := Snap(ops, e);
    forall t | 0 <= t < |pc|
      ensures !ops.entryZero(At(s, t, pc[t]))
    {
      assert !ops.pivotZero(At(e, t, pc[t]));
    }
    CompactEchelon(ops, s, pc);
  }

  // ---------------------------------------------------------------------
  // The method

  /** The zero matrix `Matrix(rows, cols)` starts from. */
  function Zeros<T>(zero: T, rows: nat, cols: nat): (z: Mat<T>)
    requires rows >= 1 && cols >= 1
    ensures Valid(z) && z.rows == rows && z.cols == cols
    ensures forall i: nat, j: nat :: i < rows && j < cols ==> At(z, i, j) == zero
  {
    Build(rows, cols, (i: nat, j: nat) => zero)
  }

  /** The `isZeroRowVec` loop, which stops at the first entry that fails the test. */
  method IsZeroRow<T>(ops: Scalars<T>, m: Mat<T>, i: nat) returns (isZero: bool)
    requires Valid(m) && i < m.rows
    ensures isZero == ZeroRow(ops, m, i)
  {
    isZero := true;
    var j := 0;
    while j < m.cols
      invariant j <= m.cols
      invariant isZero <==> forall j': nat :: j' < j ==> ops.entryZero(At(m, i, j'))
      invariant !isZero ==> !ZeroRow(ops, m, i)
    {
      if !ops.entryZero(At(m, i, j)) {
        isZero := false;
        break;
      }
      j := j + 1;
    }
  }

  /** Before any row, nothing is gathered. */
  lemma GatherNone<T>(ops: Scalars<T>, m: Mat<T>)
    requires Valid(m)
    ensures Gathered(ops, m, 0) == Zeros(ops.zero, m.rows, m.cols)
  {
    assert KeptRows(ops, m, 0) == [];
    Extensionality(Gathered(ops, m, 0), Zeros(ops.zero, m.rows, m.cols));
  }

  /** A zero row is passed over. */
  lemma GatherSkip<T>(ops: Scalars<T>, m: Mat<T>, n: nat)
    requires Valid(m) && n < m.rows && ZeroRow(ops, m, n)
    ensures Gathered(ops, m, n + 1) == Gathered(ops, m, n)
  {
    assert KeptRows(ops, m, n + 1) == KeptRows(ops, m, n);
  }

  /** Any other row is copied into the first free row. */
  lemma GatherCopy<T>(ops: Scalars<T>, m: Mat<T>, n: nat)
    requires Valid(m) && n < m.rows && !ZeroRow(ops, m, n)
    ensures |KeptRows(ops, m, n + 1)| == |KeptRows(ops, m, n)| + 1
    ensures Gathered(ops, m, n + 1) ==
      Overwrite(Gathered(ops, m, n), |KeptRows(ops, m, n)|, 0, GetSubmatrix(m, n, n + 1, 0, m.cols).value)
  {
    var ks := KeptRows(ops, m, n);
    var p := |ks|;
    assert KeptRows(ops, m, n + 1) == ks + [n];
    var b := GetSubmatrix(m, n, n + 1, 0, m.cols).value;
    var s := Gathered(ops, m, n);
    var s' := Overwrite(s, p, 0, b);
    forall i: nat, j: nat | i < m.rows && j < m.cols
      ensures At(s', i, j) == At(Gathered(ops, m, n + 1), i, j)
    {
      if i == p {
        assert At(s', i, j) == At(b, 0, j);
      } else {
        assert At(s', i, j) == At(s, i, j);
      }
    }
    Extensionality(s', Gathered(ops, m, n + 1));
  }

  /**
   * The `rowPointer` loop: each row that is not a zero row is copied with
   * `setSubmatrix` into the next free row of a zero matrix.
   */
  method SortRows<T>(ops: Scalars<T>, reduced: Mat<T>) returns (r: Mat<T>)
    requires Valid(reduced)
    ensures r == Compact(ops, reduced)
  {
    var sortedMat := new Storage.Matrix(Zeros(ops.zero, reduced.rows, reduced.cols));
    GatherNone(ops, reduced);
    GatherRows(ops, reduced, sortedMat);
    r := sortedMat.Value();
  }

  /** The loop itself, on a matrix that starts out as zeros. */
  method GatherRows<T>(ops: Scalars<T>, reduced: Mat<T>, sortedMat: Storage.Matrix<T>)
    requires Valid(reduced)
    requires sortedMat.Valid() && sortedMat.rows == reduced.rows && sortedMat.cols == reduced.cols
    requires sortedMat.Value() == Gathered(ops, reduced, 0)
    modifies sortedMat.data
    ensures sortedMat.Value() == Compact(ops, reduced)
  {
    var rowPointer := 0;
    var rowIndex := 0;
    while rowIndex < reduced.rows
      invariant rowIndex <= reduced.rows
      invariant rowPointer == |KeptRows(ops, reduced, rowIndex)|
      invariant sortedMat.Value() == Gathered(ops, reduced, rowIndex)
    {
      rowPointer := GatherRow(ops, reduced, sortedMat, rowIndex, rowPointer);
      rowIndex := rowIndex + 1;
    }
  }

  /** One pass of the `rowPointer` loop: row n is copied into row p unless it is a zero row. */
  method GatherRow<T>(ops: Scalars<T>, reduced: Mat<T>, sortedMat: Storage.Matrix<T>, n: nat, p: nat) returns (p': nat)
    requires Valid(reduced) && n < reduced.rows
    requires sortedMat.Valid() && sortedMat.rows == reduced.rows && sortedMat.cols == reduced.cols
    requires p == |KeptRows(ops, reduced, n)| && sortedMat.Value() == Gathered(ops, reduced, n)
    modifies sortedMat.data
    ensures p' == |KeptRows(ops, reduced, n + 1)| && sortedMat.Value() == Gathered(ops, reduced, n + 1)
  {
    var isZero := IsZeroRow(ops, reduced, n);
    if isZero {
      GatherSkip(ops, reduced, n);
      p' := p;
    } else {
      GatherCopy(ops, reduced, n);
      var block := new Storage.Matrix(GetSubmatrix(reduced, n, n + 1, 0, reduced.cols).value);
      var o := sortedMat.SetSubmatrix(p, p + 1, 0, reduced.cols, block);
      p' := p + 1;
    }
  }

  /** One pass of the `while (h < rows && k < cols)` loop, leaving the rest of the work unchanged. */
  method Iteration<T>(ops: Scalars<T>, a: Storage.Matrix<T>, h: nat, k: nat) returns (b: Storage.Matrix<T>, h': nat, k': nat)
    requires a.Valid() && h < a.rows && k < a.cols
    modifies a.data
    ensures b.Valid() && b.rows == a.rows && b.cols == a.cols && (b == a || fresh(b.data))
    ensures k' == k + 1 && (h' == h || h' == h + 1)
    ensures Eliminate(ops, b.Value(), h', k') == Eliminate(ops, old(a.Value()), h, k)
  {
    ghost var before := a.Value();
    var iMax := MaxRow(ops, a, h, k);
    var x := a.Get(iMax, k);
    if ops.pivotZero(x.value) {
      UnfoldSkip(ops, before, h, k);
      b, h', k' := a, h, k + 1;
    } else {
      b := SwitchAndEliminate(ops, a, h, k, iMax);
      UnfoldPivot(ops, before, h, k, b.Value());
      h', k' := h + 1, k + 1;
    }
  }

  /** A loop out of rows or columns has nothing left to do. */
  lemma Finished<T>(ops: Scalars<T>, m: Mat<T>, h: nat, k: nat)
    requires Valid(m) && h <= m.rows && k <= m.cols && (h == m.rows || k == m.cols)
    ensures Eliminate(ops, m, h, k) == m
  {}

  /**
   * `rowEchelonForm()`: elimination on a copy, then the snap, then the
   * compaction.  The input is a value and so is never changed.
   */
  method RowEchelonForm<T>(ops: Scalars<T>, m: Mat<T>) returns (r: Mat<T>)
    requires Valid(m)
    ensures r == RowEchelon(ops, m)
  {
    ghost var eliminated := Eliminate(ops, m, 0, 0);
    var newMat := new Storage.Matrix(m);
    var h: nat, k: nat := 0, 0;
    while h < newMat.rows && k < newMat.cols
      invariant newMat.Valid() && newMat.rows == m.rows && newMat.cols == m.cols && fresh(newMat.data)
      invariant h <= k <= m.cols && h <= m.rows
      invariant Eliminate(ops, newMat.Value(), h, k) == eliminated
      decreases m.cols - k
    {
      newMat, h, k := Iteration(ops, newMat, h, k);
    }
    Finished(ops, newMat.Value(), h, k);
    var reducedMat := Snap(ops, newMat.Value());
    r := SortRows(ops, reducedMat);
  }
}
