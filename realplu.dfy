/**
 * The real `plu()`.  Order 1 gives {I, I, M}.  Otherwise the first nonzero
 * entry a of column 0 is switched to the top by P₁, the Schur complement of
 * order n − 1 is decomposed into {P′, L′, U′}, and the three factors are
 * P = diag(1, P′)·P₁, L = [[1, 0], [c·P′·v, L′]] and U = [[a, wᵀ], [0, U′]]
 * with c = 1/a.  What comes out satisfies P·A = L·U: P is the permutation
 * matrix of `Sigma`, and the corrected `PluCorrected` returns its transpose,
 * the P with A = P·L·U.
 */
module RealPlu {
  import opened Wrappers
  import opened Dense
  import opened RealMatrices
  import opened Pivoting
  import opened RealPivot
  import RealDeterminant

  /** The array `{P, L, U}` that `plu` returns. */
  datatype Factors = Factors(p: Mat<real>, l: Mat<real>, u: Mat<real>)

  /** All three factors are n×n. */
  predicate Square(f: Factors, n: nat) {
    Valid(f.p) && Valid(f.l) && Valid(f.u)
    && f.p.rows == n && f.p.cols == n && f.l.rows == n && f.l.cols == n && f.u.rows == n && f.u.cols == n
  }

  /** diag(1, x): `identityMatrix(n)` with x written into its trailing block. */
  function Bordered(x: Mat<real>): (b: Mat<real>)
    requires Valid(x) && x.rows == x.cols
    ensures Valid(b) && b.rows == x.rows + 1 && b.cols == x.rows + 1
  {
    Overwrite(Eye(x.rows + 1), 1, 1, x)
  }

  /** `matL`: the identity with L′ in the trailing block and cv below the diagonal in column 0. */
  function Lower(lp: Mat<real>, cv: Mat<real>): (l: Mat<real>)
    requires Valid(lp) && lp.rows == lp.cols && Valid(cv) && cv.rows == lp.rows && cv.cols == 1
    ensures Valid(l) && l.rows == lp.rows + 1 && l.cols == lp.rows + 1
  {
    Overwrite(Overwrite(Eye(lp.rows + 1), 1, 1, lp), 1, 0, cv)
  }

  /** `matU`: the identity with a at (0, 0), wᵀ beside it and U′ in the trailing block. */
  function Upper(a: real, w: Mat<real>, up: Mat<real>): (u: Mat<real>)
    requires Valid(up) && up.rows == up.cols && Valid(w) && w.rows == 1 && w.cols == up.rows
    ensures Valid(u) && u.rows == up.rows + 1 && u.cols == up.rows + 1
  {
    Overwrite(Overwrite(Update(Eye(up.rows + 1), 0, 0, a).value, 0, 1, w), 1, 1, up)
  }

  /** The factors of order n assembled from pivot row s and the factors f of the reduced matrix. */
  function Assemble(m: Mat<real>, s: nat, f: Factors): (g: Factors)
    requires Valid(m) && m.rows == m.cols >= 2 && s < m.rows && At(m, s, 0) != 0.0
    requires Square(f, m.rows - 1)
    ensures Square(g, m.rows)
  {
    var b := PivotOnTop(m, s);
    var cv := MatMul(Scale(f.p, 1.0 / At(m, s, 0)), Below(b));
    Factors(MatMul(Bordered(f.p), RowSwitchingMatrix(m.rows, 0, s).value),
            Lower(f.l, cv),
            Upper(At(m, s, 0), Beside(b), f.u))
  }

  /**
   * The value of `plu()`.  A non-square matrix is rejected; so is a zero
   * column 0 at any level of the recursion, where `switchIndex` reaches
   * `rows` and `rowSwitchingMatrix(rows, 0, rows)` throws.
   */
  function Plu(m: Mat<real>): (res: Result<Factors>)
    requires Valid(m)
    ensures res.Err? ==> res.error == IllegalArgument
    ensures res.Ok? ==> m.rows == m.cols && Square(res.value, m.rows)
    ensures m.rows != m.cols ==> res.Err?
    decreases m.rows
  {
    if m.rows != m.cols then Err(IllegalArgument)
    else if m.rows == 1 then Ok(Factors(Eye(1), Eye(1), m))
    else
      var s := FirstNonzero(Column(m, 0), 0.0);
      if s == m.rows then Err(IllegalArgument)
      else
        var b := PivotOnTop(m, s);
        assert At(b, 0, 0) == Column(m, 0)[s];
        var r := Plu(Reduced(b));
        if r.Err? then Err(r.error) else Ok(Assemble(m, s, r.value))
  }

  /** One level of the recursion: the pivot row exists and the reduced matrix decomposes. */
  lemma Unfold(m: Mat<real>)
    requires Valid(m) && Plu(m).Ok? && m.rows >= 2
    ensures FirstNonzero(Column(m, 0), 0.0) < m.rows
    ensures At(PivotOnTop(m, FirstNonzero(Column(m, 0), 0.0)), 0, 0) != 0.0
    ensures Plu(Reduced(PivotOnTop(m, FirstNonzero(Column(m, 0), 0.0)))).Ok?
    ensures Plu(m).value == Assemble(m, FirstNonzero(Column(m, 0), 0.0), Plu(Reduced(PivotOnTop(m, FirstNonzero(Column(m, 0), 0.0)))).value)
  {
    var s := FirstNonzero(Column(m, 0), 0.0);
    assert At(PivotOnTop(m, s), 0, 0) == Column(m, 0)[s];
  }

  /** Position i of the permutation t of order n − 1, lifted to order n with 0 fixed. */
  function Shift(t: seq<nat>, i: nat): nat
    requires i <= |t|
  {
    if i == 0 then 0 else t[i - 1] + 1
  }

  /** diag(1, t) followed by the switch of rows 0 and s. */
  function Lift(t: seq<nat>, s: nat): (sigma: seq<nat>)
    ensures |sigma| == |t| + 1
    ensures s <= |t| && InRange(t, |t|) ==> InRange(sigma, |t| + 1)
  {
    seq(|t| + 1, i requires 0 <= i < |t| + 1 => Swapped(Shift(t, i), 0, s))
  }

  /** The inverse of `Lift`: the switch first, then diag(1, u). */
  function LiftInverse(u: seq<nat>, s: nat): (rho: seq<nat>)
    requires s <= |u|
    ensures |rho| == |u| + 1
  {
    seq(|u| + 1, i requires 0 <= i < |u| + 1 => Shift(u, Swapped(i, 0, s)))
  }

  /** The permutation whose matrix is P: row i of P·A is row Sigma[i] of A. */
  function Sigma(m: Mat<real>): (sigma: seq<nat>)
    requires Valid(m) && Plu(m).Ok?
    ensures |sigma| == m.rows
    decreases m.rows
  {
    if m.rows == 1 then [0]
    else
      Unfold(m);
      var s := FirstNonzero(Column(m, 0), 0.0);
      Lift(Sigma(Reduced(PivotOnTop(m, s))), s)
  }

  /** The inverse of `Sigma`, built the other way round. */
  function Rho(m: Mat<real>): (rho: seq<nat>)
    requires Valid(m) && Plu(m).Ok?
    ensures |rho| == m.rows
    decreases m.rows
  {
    if m.rows == 1 then [0]
    else
      Unfold(m);
      var s := FirstNonzero(Column(m, 0), 0.0);
      LiftInverse(Rho(Reduced(PivotOnTop(m, s))), s)
  }

  /** `sigma` and `rho` map [0, n) into itself and undo each other. */
  predicate Inverses(sigma: seq<nat>, rho: seq<nat>, n: nat) {
    InRange(sigma, n) && InRange(rho, n)
    && (forall i :: 0 <= i < n ==> rho[sigma[i]] == i)
    && (forall i :: 0 <= i < n ==> sigma[rho[i]] == i)
  }

  lemma SwappedTwice(x: nat, s: nat)
    ensures Swapped(Swapped(x, 0, s), 0, s) == x
  {}

  /** Lifting two inverse permutations of order n − 1, with the same switch, keeps them inverse. */
  lemma LiftInverses(t: seq<nat>, u: seq<nat>, s: nat)
    requires s <= |t| && Inverses(t, u, |t|)
    ensures Inverses(Lift(t, s), LiftInverse(u, s), |t| + 1)
  {
    var n, sigma, rho := |t| + 1, Lift(t, s), LiftInverse(u, s);
    forall i | 0 <= i < n
      ensures sigma[i] < n && rho[i] < n && rho[sigma[i]] == i && sigma[rho[i]] == i
    {
      SwappedTwice(Shift(t, i), s);
      SwappedTwice(i, s);
      assert rho[sigma[i]] == Shift(u, Shift(t, i));
      assert sigma[rho[i]] == Swapped(Shift(t, Shift(u, Swapped(i, 0, s))), 0, s);
    }
  }

  /** A map of [0, n) into itself with an inverse is a permutation. */
  lemma InversesArePermutations(sigma: seq<nat>, rho: seq<nat>, n: nat)
    requires Inverses(sigma, rho, n)
    ensures IsPermutation(sigma, n) && IsPermutation(rho, n)
  {
    forall i, j | 0 <= i < j < n
      ensures sigma[i] != sigma[j] && rho[i] != rho[j]
    {
      assert rho[sigma[i]] == i && rho[sigma[j]] == j;
      assert sigma[rho[i]] == i && sigma[rho[j]] == j;
    }
  }

  /** `Sigma` is a permutation of [0, n), with `Rho` its inverse. */
  lemma {:induction false} SigmaIsPermutation(m: Mat<real>)
    requires Valid(m) && Plu(m).Ok?
    ensures Inverses(Sigma(m), Rho(m), m.rows)
    ensures IsPermutation(Sigma(m), m.rows)
    decreases m.rows
  {
    if m.rows > 1 {
      Unfold(m);
      var s := FirstNonzero(Column(m, 0), 0.0);
      var r := Reduced(PivotOnTop(m, s));
      SigmaIsPermutation(r);
      LiftInverses(Sigma(r), Rho(r), s);
    }
    InversesArePermutations(Sigma(m), Rho(m), m.rows);
  }

  /** diag(1, P′)·P₁ for a permutation matrix P′ is the permutation matrix of the lifted permutation. */
  lemma AssembledPerm(m: Mat<real>, s: nat, f: Factors, t: seq<nat>)
    requires Valid(m) && m.rows == m.cols >= 2 && s < m.rows && At(m, s, 0) != 0.0
    requires Square(f, m.rows - 1) && InRange(t, m.rows - 1) && f.p == PermMatrix(t)
    ensures InRange(Lift(t, s), m.rows)
    ensures Assemble(m, s, f).p == PermMatrix(Lift(t, s))
  {
    BorderedPerm(t, s);
  }

  /** diag(1, P_t)·P₁ with P₁ switching rows 0 and s is the permutation matrix of `Lift(t, s)`. */
  lemma BorderedPerm(t: seq<nat>, s: nat)
    requires |t| >= 1 && InRange(t, |t|) && s <= |t|
    ensures InRange(Lift(t, s), |t| + 1)
    ensures MatMul(Bordered(PermMatrix(t)), RowSwitchingMatrix(|t| + 1, 0, s).value) == PermMatrix(Lift(t, s))
  {
    var n := |t| + 1;
    var lifted := seq(n, i requires 0 <= i < n => Shift(t, i));
    Extensionality(Bordered(PermMatrix(t)), PermMatrix(lifted));
    var sw := RowSwitchingMatrix(n, 0, s).value;
    PermTimes(lifted, sw);
    var p := MatMul(PermMatrix(lifted), sw);
    Extensionality(p, PermMatrix(Lift(t, s)));
  }

  /** P is the permutation matrix of `Sigma`, so P·A reads row Sigma[i] of A into row i. */
  lemma {:induction false} PIsPermMatrix(m: Mat<real>)
    requires Valid(m) && Plu(m).Ok?
    ensures InRange(Sigma(m), m.rows)
    ensures Plu(m).value.p == PermMatrix(Sigma(m))
    decreases m.rows
  {
    if m.rows == 1 {
      Extensionality(Eye(1), PermMatrix(Sigma(m)));
    } else {
      Unfold(m);
      var s := FirstNonzero(Column(m, 0), 0.0);
      var r := Reduced(PivotOnTop(m, s));
      PIsPermMatrix(r);
      AssembledPerm(m, s, Plu(r).value, Sigma(r));
    }
  }

  /** Every entry above the main diagonal is zero and every diagonal entry is one. */
  predicate UnitLowerTriangular(m: Mat<real>)
    requires Valid(m) && m.rows == m.cols
  {
    forall i: nat, j: nat :: i <= j < m.rows ==> At(m, i, j) == if i == j then 1.0 else 0.0
  }

  /** L is unit lower triangular and U is upper triangular, by induction on the order. */
  lemma {:induction false} Triangular(m: Mat<real>)
    requires Valid(m) && Plu(m).Ok?
    ensures UnitLowerTriangular(Plu(m).value.l)
    ensures RealDeterminant.UpperTriangular(Plu(m).value.u)
    decreases m.rows
  {
    if m.rows > 1 {
      Unfold(m);
      var s := FirstNonzero(Column(m, 0), 0.0);
      var r := Reduced(PivotOnTop(m, s));
      Triangular(r);
      AssembledTriangular(m, s, Plu(r).value);
    }
  }

  /** Bordering keeps the shapes: row 0 of L is e₀, column 0 of U is a·e₀. */
  lemma AssembledTriangular(m: Mat<real>, s: nat, f: Factors)
    requires Valid(m) && m.rows == m.cols >= 2 && s < m.rows && At(m, s, 0) != 0.0
    requires Square(f, m.rows - 1) && UnitLowerTriangular(f.l) && RealDeterminant.UpperTriangular(f.u)
    ensures UnitLowerTriangular(Assemble(m, s, f).l)
    ensures RealDeterminant.UpperTriangular(Assemble(m, s, f).u)
  {
    var g := Assemble(m, s, f);
    forall i: nat, j: nat | i <= j < m.rows
      ensures At(g.l, i, j) == if i == j then 1.0 else 0.0
    {
      if i >= 1 {
        assert At(g.l, i, j) == At(f.l, i - 1, j - 1);
      }
    }
    forall i: nat, j: nat | j < i < m.rows
      ensures At(g.u, i, j) == 0.0
    {
      if j >= 1 {
        assert At(g.u, i, j) == At(f.u, i - 1, j - 1);
      }
    }
  }

  /**
   * L·U reproduces the rows of A in the order `Sigma`: row i of L·U is row
   * Sigma[i] of A, which is P·A.
   */
  lemma {:induction false} LuIsPermutedInput(m: Mat<real>)
    requires Valid(m) && Plu(m).Ok?
    ensures InRange(Sigma(m), m.rows)
    ensures forall i: nat, j: nat :: i < m.rows && j < m.cols ==>
      At(MatMul(Plu(m).value.l, Plu(m).value.u), i, j) == At(m, Sigma(m)[i], j)
    decreases m.rows, 1
  {
    PIsPermMatrix(m);
    if m.rows == 1 {
      LuOfOrder1(m);
    } else {
      LuStep(m);
    }
  }

  /** Order 1: L = U₀₀ = 1, so L·U is M itself. */
  lemma LuOfOrder1(m: Mat<real>)
    requires Valid(m) && m.rows == m.cols == 1
    ensures Plu(m).Ok? && Sigma(m) == [0]
    ensures At(MatMul(Plu(m).value.l, Plu(m).value.u), 0, 0) == At(m, 0, 0)
  {
    var f := Plu(m).value;
    assert Row(f.l, 0) == [1.0] && Column(f.u, 0) == [At(m, 0, 0)];
    RealPivot.DotSingle(Row(f.l, 0), Column(f.u, 0));
  }

  /** Order n ≥ 2: the step, with the claim for the reduced matrix as induction hypothesis. */
  lemma {:induction false} LuStep(m: Mat<real>)
    requires Valid(m) && Plu(m).Ok? && m.rows >= 2
    ensures InRange(Sigma(m), m.rows)
    ensures forall i: nat, j: nat :: i < m.rows && j < m.cols ==>
      At(MatMul(Plu(m).value.l, Plu(m).value.u), i, j) == At(m, Sigma(m)[i], j)
    decreases m.rows, 0
  {
    Unfold(m);
    var s := FirstNonzero(Column(m, 0), 0.0);
    var r := Reduced(PivotOnTop(m, s));
    LuIsPermutedInput(r);
    PIsPermMatrix(r);
    AssembledProduct(m, s, Plu(r).value, Sigma(r), r, Plu(m).value);
  }

  /** The step of `LuIsPermutedInput`: from P′·R = L′·U′ to P·A = L·U. */
  lemma AssembledProduct(m: Mat<real>, s: nat, f: Factors, t: seq<nat>, r: Mat<real>, g: Factors)
    requires Valid(m) && m.rows == m.cols >= 2 && s < m.rows && At(m, s, 0) != 0.0
    requires Square(f, m.rows - 1) && InRange(t, m.rows - 1) && f.p == PermMatrix(t)
    requires At(PivotOnTop(m, s), 0, 0) != 0.0 && r == Reduced(PivotOnTop(m, s))
    requires forall i: nat, j: nat :: i < m.rows - 1 && j < m.rows - 1 ==> At(MatMul(f.l, f.u), i, j) == At(r, t[i], j)
    requires g == Assemble(m, s, f)
    ensures forall i: nat, j: nat :: i < m.rows && j < m.cols ==> At(MatMul(g.l, g.u), i, j) == At(m, Lift(t, s)[i], j)
  {
    var b := PivotOnTop(m, s);
    var a := At(m, s, 0);
    var x, w := AssembleCells(m, s, f);
    forall i: nat | i < m.rows - 1
      ensures x[i] == Prod(1.0 / a, At(b, t[i] + 1, 0))
    {
      ScaledPermTimes(t, 1.0 / a, Below(b), i);
    }
    LuCells(b, t, g.l, f.l, x, g.u, f.u, w);
    forall i: nat, j: nat | i < m.rows && j < m.cols
      ensures At(MatMul(g.l, g.u), i, j) == At(m, Lift(t, s)[i], j)
    {
      assert At(b, Shift(t, i), j) == At(m, Lift(t, s)[i], j);
    }
  }

  /** Every cell of L·U, by `LuCell`. */
  lemma LuCells(b: Mat<real>, t: seq<nat>, l: Mat<real>, lp: Mat<real>, x: seq<real>, u: Mat<real>, up: Mat<real>, w: seq<real>)
    requires Valid(b) && b.rows == b.cols >= 2 && At(b, 0, 0) != 0.0 && InRange(t, b.rows - 1)
    requires Valid(l) && Valid(lp) && l.rows == l.cols == b.rows && lp.rows == lp.cols == |x| == b.rows - 1
    requires Valid(u) && Valid(up) && u.rows == u.cols == b.rows && up.rows == up.cols == |w| == b.rows - 1
    requires LowerCells(l, lp, x) && UpperCells(u, up, At(b, 0, 0), w)
    requires forall k :: 0 <= k < |x| ==> x[k] == Prod(1.0 / At(b, 0, 0), At(b, t[k] + 1, 0))
    requires forall k :: 0 <= k < |w| ==> w[k] == At(b, 0, k + 1)
    requires forall i: nat, j: nat :: i < b.rows - 1 && j < b.rows - 1 ==> At(MatMul(lp, up), i, j) == At(Reduced(b), t[i], j)
    ensures forall i: nat, j: nat :: i < b.rows && j < b.rows ==> At(MatMul(l, u), i, j) == At(b, Shift(t, i), j)
  {
    forall i: nat, j: nat | i < b.rows && j < b.rows
      ensures At(MatMul(l, u), i, j) == At(b, Shift(t, i), j)
    {
      LuCell(b, t, l, lp, x, u, up, w, i, j);
    }
  }

  /** (c·P)·v for the permutation matrix P of t: entry i is c·v[t[i]]. */
  lemma ScaledPermTimes(t: seq<nat>, c: real, v: Mat<real>, i: nat)
    requires |t| >= 1 && InRange(t, |t|) && Valid(v) && v.rows == |t| && v.cols == 1 && i < |t|
    ensures At(MatMul(Scale(PermMatrix(t), c), v), i, 0) == Prod(c, At(v, t[i], 0))
  {
    var row := Row(Scale(PermMatrix(t), c), i);
    assert row[t[i]] == c;
    DotUnit(row, Column(v, 0), t[i]);
  }

  /** One cell of L·U: the row of the pivoted matrix that `t` lifted to order n selects. */
  lemma LuCell(b: Mat<real>, t: seq<nat>, l: Mat<real>, lp: Mat<real>, x: seq<real>, u: Mat<real>, up: Mat<real>, w: seq<real>, i: nat, j: nat)
    requires Valid(b) && b.rows == b.cols >= 2 && At(b, 0, 0) != 0.0 && InRange(t, b.rows - 1)
    requires Valid(l) && Valid(lp) && l.rows == l.cols == b.rows && lp.rows == lp.cols == |x| == b.rows - 1
    requires Valid(u) && Valid(up) && u.rows == u.cols == b.rows && up.rows == up.cols == |w| == b.rows - 1
    requires LowerCells(l, lp, x) && UpperCells(u, up, At(b, 0, 0), w)
    requires forall k :: 0 <= k < |x| ==> x[k] == Prod(1.0 / At(b, 0, 0), At(b, t[k] + 1, 0))
    requires forall k :: 0 <= k < |w| ==> w[k] == At(b, 0, k + 1)
    requires forall i: nat, j: nat :: i < b.rows - 1 && j < b.rows - 1 ==> At(MatMul(lp, up), i, j) == At(Reduced(b), t[i], j)
    requires i < b.rows && j < b.rows
    ensures At(MatMul(l, u), i, j) == At(b, Shift(t, i), j)
  {
    if i == 0 {
      BorderedProductTop(l, lp, x, u, up, At(b, 0, 0), w, j);
    } else if j == 0 {
      LuCellLeft(b, t, l, lp, x, u, up, w, i);
    } else {
      LuCellInner(b, t, l, lp, x, u, up, w, i, j);
    }
  }

  /** Column 0 of L·U below the top: the multiplier times the pivot. */
  lemma LuCellLeft(b: Mat<real>, t: seq<nat>, l: Mat<real>, lp: Mat<real>, x: seq<real>, u: Mat<real>, up: Mat<real>, w: seq<real>, i: nat)
    requires Valid(b) && b.rows == b.cols >= 2 && At(b, 0, 0) != 0.0 && InRange(t, b.rows - 1)
    requires Valid(l) && Valid(lp) && l.rows == l.cols == b.rows && lp.rows == lp.cols == |x| == b.rows - 1
    requires Valid(u) && Valid(up) && u.rows == u.cols == b.rows && up.rows == up.cols == |w| == b.rows - 1
    requires LowerCells(l, lp, x) && UpperCells(u, up, At(b, 0, 0), w)
    requires forall k :: 0 <= k < |x| ==> x[k] == Prod(1.0 / At(b, 0, 0), At(b, t[k] + 1, 0))
    requires 1 <= i < b.rows
    ensures At(MatMul(l, u), i, 0) == At(b, t[i - 1] + 1, 0)
  {
    BorderedProductLeft(l, lp, x, u, up, At(b, 0, 0), w, i);
    PivotCancels(At(b, 0, 0), At(b, t[i - 1] + 1, 0));
  }

  /** The trailing block of L·U: multiplier times pivot row plus the reduced entry. */
  lemma LuCellInner(b: Mat<real>, t: seq<nat>, l: Mat<real>, lp: Mat<real>, x: seq<real>, u: Mat<real>, up: Mat<real>, w: seq<real>, i: nat, j: nat)
    requires Valid(b) && b.rows == b.cols >= 2 && At(b, 0, 0) != 0.0 && InRange(t, b.rows - 1)
    requires Valid(l) && Valid(lp) && l.rows == l.cols == b.rows && lp.rows == lp.cols == |x| == b.rows - 1
    requires Valid(u) && Valid(up) && u.rows == u.cols == b.rows && up.rows == up.cols == |w| == b.rows - 1
    requires LowerCells(l, lp, x) && UpperCells(u, up, At(b, 0, 0), w)
    requires forall k :: 0 <= k < |x| ==> x[k] == Prod(1.0 / At(b, 0, 0), At(b, t[k] + 1, 0))
    requires forall k :: 0 <= k < |w| ==> w[k] == At(b, 0, k + 1)
    requires forall i: nat, j: nat :: i < b.rows - 1 && j < b.rows - 1 ==> At(MatMul(lp, up), i, j) == At(Reduced(b), t[i], j)
    requires 1 <= i < b.rows && 1 <= j < b.rows
    ensures At(MatMul(l, u), i, j) == At(b, t[i - 1] + 1, j)
  {
    var k := t[i - 1] + 1;
    BorderedProductInner(l, lp, x, u, up, At(b, 0, 0), w, i, j);
    SchurCancels(At(b, k, j), At(b, k, 0), At(b, 0, j), 1.0 / At(b, 0, 0));
  }

  /** The cells of the assembled L and U: column 0 of L below the diagonal, and row 0 of U right of it. */
  lemma AssembleCells(m: Mat<real>, s: nat, f: Factors) returns (x: seq<real>, w: seq<real>)
    requires Valid(m) && m.rows == m.cols >= 2 && s < m.rows && At(m, s, 0) != 0.0
    requires Square(f, m.rows - 1)
    ensures x == Column(MatMul(Scale(f.p, 1.0 / At(m, s, 0)), Below(PivotOnTop(m, s))), 0)
    ensures |x| == |w| == m.rows - 1 && forall j :: 0 <= j < |w| ==> w[j] == At(PivotOnTop(m, s), 0, j + 1)
    ensures LowerCells(Assemble(m, s, f).l, f.l, x)
    ensures UpperCells(Assemble(m, s, f).u, f.u, At(m, s, 0), w)
  {
    var b := PivotOnTop(m, s);
    x := Column(MatMul(Scale(f.p, 1.0 / At(m, s, 0)), Below(b)), 0);
    w := Row(Beside(b), 0);
  }

  /** a·((1/a)·x) = x. */
  lemma PivotCancels(a: real, x: real)
    requires a != 0.0
    ensures Prod(Prod(1.0 / a, x), a) == x
  {}

  /** (c·y)·z + (x − c·(y·z)) = x. */
  lemma SchurCancels(x: real, y: real, z: real, c: real)
    ensures Prod(Prod(c, y), z) + (x - Prod(c, Prod(y, z))) == x
  {
    assert Prod(Prod(c, y), z) == Prod(c, Prod(y, z));
  }

  /** `l` is [[1, 0], [x, lp]]: e₀ on top, x below the diagonal in column 0, lp in the trailing block. */
  predicate LowerCells(l: Mat<real>, lp: Mat<real>, x: seq<real>)
    requires Valid(l) && Valid(lp) && l.rows == l.cols == lp.rows + 1 && lp.rows == lp.cols == |x|
  {
    forall i: nat, j: nat :: i < l.rows && j < l.cols ==>
      At(l, i, j) == if i == 0 then (if j == 0 then 1.0 else 0.0) else if j == 0 then x[i - 1] else At(lp, i - 1, j - 1)
  }

  /** `u` is [[a, w], [0, up]]. */
  predicate UpperCells(u: Mat<real>, up: Mat<real>, a: real, w: seq<real>)
    requires Valid(u) && Valid(up) && u.rows == u.cols == up.rows + 1 && up.rows == up.cols == |w|
  {
    forall i: nat, j: nat :: i < u.rows && j < u.cols ==>
      At(u, i, j) == if i == 0 then (if j == 0 then a else w[j - 1]) else if j == 0 then 0.0 else At(up, i - 1, j - 1)
  }

  /** The product of the two bordered factors in row 0: row 0 of `u`. */
  lemma BorderedProductTop(l: Mat<real>, lp: Mat<real>, x: seq<real>, u: Mat<real>, up: Mat<real>, a: real, w: seq<real>, j: nat)
    requires Valid(l) && Valid(lp) && l.rows == l.cols == lp.rows + 1 && lp.rows == lp.cols == |x|
    requires Valid(u) && Valid(up) && u.rows == u.cols == up.rows + 1 && up.rows == up.cols == |w|
    requires |x| == |w| && LowerCells(l, lp, x) && UpperCells(u, up, a, w) && j < u.cols
    ensures At(MatMul(l, u), 0, j) == if j == 0 then a else w[j - 1]
  {
    DotUnit(Row(l, 0), Column(u, j), 0);
  }

  /** In column 0 below row 0: x times the pivot. */
  lemma BorderedProductLeft(l: Mat<real>, lp: Mat<real>, x: seq<real>, u: Mat<real>, up: Mat<real>, a: real, w: seq<real>, i: nat)
    requires Valid(l) && Valid(lp) && l.rows == l.cols == lp.rows + 1 && lp.rows == lp.cols == |x|
    requires Valid(u) && Valid(up) && u.rows == u.cols == up.rows + 1 && up.rows == up.cols == |w|
    requires |x| == |w| && LowerCells(l, lp, x) && UpperCells(u, up, a, w) && 1 <= i < l.rows
    ensures At(MatMul(l, u), i, 0) == Prod(x[i - 1], a)
  {
    var y := x[i - 1];
    assert Row(l, i)[0] == y && Column(u, 0)[0] == a;
    DotComm(Row(l, i), Column(u, 0));
    DotUnit(Column(u, 0), Row(l, i), 0);
    assert Prod(a, y) == Prod(y, a);
  }

  /** In the trailing block: x·w plus the product of the trailing blocks. */
  lemma BorderedProductInner(l: Mat<real>, lp: Mat<real>, x: seq<real>, u: Mat<real>, up: Mat<real>, a: real, w: seq<real>, i: nat, j: nat)
    requires Valid(l) && Valid(lp) && l.rows == l.cols == lp.rows + 1 && lp.rows == lp.cols == |x|
    requires Valid(u) && Valid(up) && u.rows == u.cols == up.rows + 1 && up.rows == up.cols == |w|
    requires |x| == |w| && LowerCells(l, lp, x) && UpperCells(u, up, a, w) && 1 <= i < l.rows && 1 <= j < u.cols
    ensures At(MatMul(l, u), i, j) == Prod(x[i - 1], w[j - 1]) + At(MatMul(lp, up), i - 1, j - 1)
  {
    DotFirst(Row(l, i), Column(u, j));
    assert Row(l, i)[1..] == Row(lp, i - 1);
    assert Column(u, j)[1..] == Column(up, j - 1);
  }
}

module RealPluTheorems {
  import opened Wrappers
  import opened Dense
  import opened RealMatrices
  import opened Pivoting
  import opened RealPivot
  import RealDeterminant
  import opened RealPlu

  /**
   * What `plu` delivers when it returns: P is a permutation matrix, L is
   * unit lower triangular, U is upper triangular, and P·A = L·U.
   */
  lemma PluIsDecomposition(m: Mat<real>)
    requires Valid(m) && Plu(m).Ok?
    ensures IsPermutation(Sigma(m), m.rows) && Plu(m).value.p == PermMatrix(Sigma(m))
    ensures UnitLowerTriangular(Plu(m).value.l) && RealDeterminant.UpperTriangular(Plu(m).value.u)
    ensures MatMul(Plu(m).value.p, m) == MatMul(Plu(m).value.l, Plu(m).value.u)
  {
    var f := Plu(m).value;
    SigmaIsPermutation(m);
    PIsPermMatrix(m);
    Triangular(m);
    LuIsPermutedInput(m);
    PermTimes(Sigma(m), m);
    Extensionality(MatMul(f.p, m), MatMul(f.l, f.u));
  }

  /** A zero column 0 of order n ≥ 2 makes `rowSwitchingMatrix(n, 0, n)` throw. */
  lemma PluZeroColumn(m: Mat<real>)
    requires Valid(m) && m.rows == m.cols >= 2
    requires forall i: nat :: i < m.rows ==> At(m, i, 0) == 0.0
    ensures Plu(m) == Err(IllegalArgument)
  {
    FirstNonzeroUnique(Column(m, 0), 0.0, m.rows);
  }

  /** A matrix with nonzero determinant always decomposes: every pivot search succeeds. */
  lemma {:induction false} PluOfNonsingular(m: Mat<real>)
    requires Valid(m) && m.rows == m.cols && RealDeterminant.Det(m) != 0.0
    ensures Plu(m).Ok?
    decreases m.rows
  {
    if m.rows == 2 {
      PluOfNonsingular2(m);
    } else if m.rows > 2 {
      var s := FirstNonzero(Column(m, 0), 0.0);
      assert RealDeterminant.Det(m) == RealDeterminant.PivotStep(m);
      var b := PivotOnTop(m, s);
      assert At(b, 0, 0) == Column(m, 0)[s];
      var d := RealDeterminant.Det(Reduced(b));
      assert RealDeterminant.PivotStep(m) == Prod(Prod(SwitchSign(s), At(m, s, 0)), d);
      PluOfNonsingular(Reduced(b));
    }
  }

  /** Order 2: a nonzero determinant leaves a nonzero entry in column 0, and order 1 always decomposes. */
  lemma PluOfNonsingular2(m: Mat<real>)
    requires Valid(m) && m.rows == m.cols == 2 && RealDeterminant.Det(m) != 0.0
    ensures Plu(m).Ok?
  {
    RealDeterminant.DetOfOrder2(m);
    var s := FirstNonzero(Column(m, 0), 0.0);
    assert s < m.rows;
    var b := PivotOnTop(m, s);
    assert At(b, 0, 0) == Column(m, 0)[s];
    PluOfOrder1(Reduced(b));
    Fold(m, s);
  }

  /** Order 1 always decomposes. */
  lemma PluOfOrder1(m: Mat<real>)
    requires Valid(m) && m.rows == m.cols && m.rows <= 1
    ensures Plu(m).Ok?
  {}

  /** One level of the recursion, read backwards: a pivot and a reduced matrix that decomposes suffice. */
  lemma Fold(m: Mat<real>, s: nat)
    requires Valid(m) && m.rows == m.cols >= 2
    requires s == FirstNonzero(Column(m, 0), 0.0) < m.rows
    requires At(PivotOnTop(m, s), 0, 0) != 0.0 && Plu(Reduced(PivotOnTop(m, s))).Ok?
    ensures Plu(m).Ok?
  {}

  /** Pᵀ of a permutation matrix is the permutation matrix of the inverse permutation. */
  lemma TransposePerm(sigma: seq<nat>, rho: seq<nat>, n: nat)
    requires n >= 1 && Inverses(sigma, rho, n)
    ensures Transpose(PermMatrix(sigma)) == PermMatrix(rho)
  {
    var p, q := Transpose(PermMatrix(sigma)), PermMatrix(rho);
    forall i: nat, j: nat | i < n && j < n
      ensures At(p, i, j) == At(q, i, j)
    {
      assert At(p, i, j) == At(PermMatrix(sigma), j, i);
      if sigma[j] == i {
        assert rho[i] == j;
      }
      if rho[i] == j {
        assert sigma[j] == i;
      }
    }
    Extensionality(p, q);
  }

  /**
   * The factors the documentation and the test ask for: with Pᵀ in place of
   * P, A = Pᵀ·L·U.
   */
  function PluCorrected(m: Mat<real>): (res: Result<Factors>)
    requires Valid(m)
    ensures res.Ok? <==> Plu(m).Ok?
    ensures res.Ok? ==> res.value.l == Plu(m).value.l && res.value.u == Plu(m).value.u
  {
    match Plu(m)
    case Ok(f) => Ok(Factors(Transpose(f.p), f.l, f.u))
    case Err(e) => Err(e)
  }

  /** The corrected factors multiply back to the input: A = P·L·U. */
  lemma CorrectedReproducesInput(m: Mat<real>)
    requires Valid(m) && PluCorrected(m).Ok?
    ensures IsPermutation(Rho(m), m.rows) && PluCorrected(m).value.p == PermMatrix(Rho(m))
    ensures MatMul(PluCorrected(m).value.p, MatMul(PluCorrected(m).value.l, PluCorrected(m).value.u)) == m
  {
    var f := Plu(m).value;
    var sigma, rho := Sigma(m), Rho(m);
    SigmaIsPermutation(m);
    InversesArePermutations(sigma, rho, m.rows);
    PIsPermMatrix(m);
    TransposePerm(sigma, rho, m.rows);
    LuIsPermutedInput(m);
    UndoPermutation(sigma, rho, MatMul(f.l, f.u), m);
  }

  /** Rows permuted by σ come back in order under the permutation matrix of σ⁻¹. */
  lemma UndoPermutation(sigma: seq<nat>, rho: seq<nat>, lu: Mat<real>, m: Mat<real>)
    requires Valid(lu) && Valid(m) && lu.rows == lu.cols == m.rows == m.cols >= 1
    requires Inverses(sigma, rho, m.rows) && InRange(sigma, m.rows)
    requires forall i: nat, j: nat :: i < m.rows && j < m.cols ==> At(lu, i, j) == At(m, sigma[i], j)
    ensures MatMul(PermMatrix(rho), lu) == m
  {
    InversesArePermutations(sigma, rho, m.rows);
    PermTimes(rho, lu);
    Extensionality(MatMul(PermMatrix(rho), lu), m);
  }

  /**
   * The factors of `plu` do not multiply back to A.  For the cyclic
   * permutation matrix A = [[0, 0, 1], [1, 0, 0], [0, 1, 0]] the pivot rows
   * are 1 and then 1 again, σ = (1, 2, 0), so P·A = L·U holds but the
   * product P·L·U that the documentation and the test compare with A is
   * P·P·A, whose entry (0, 1) is 1 where A has 0.
   */
  lemma AsWrittenProductIsNotInput(a: Mat<real>)
    requires Valid(a) && 3 <= a.rows == a.cols <= 3
    requires forall i: nat, j: nat :: i < a.rows && j < a.cols ==> At(a, i, j) == if j == (i + 2) % 3 then 1.0 else 0.0
    ensures Plu(a).Ok?
    ensures At(MatMul(Plu(a).value.p, MatMul(Plu(a).value.l, Plu(a).value.u)), 0, 1) == 1.0
    ensures MatMul(Plu(a).value.p, MatMul(Plu(a).value.l, Plu(a).value.u)) != a
  {
    CycleReduced(a);
    PivotsOneAndOne(a);
    PermutedTwice(a);
    assert At(a, 2, 1) == 1.0 && At(a, 0, 1) == 0.0;
  }

  /** The cycle: pivot row 1, and below it column 0 of the reduced matrix is (0, 1). */
  lemma CycleReduced(a: Mat<real>)
    requires Valid(a) && 3 <= a.rows == a.cols <= 3
    requires forall i: nat, j: nat :: i < a.rows && j < a.cols ==> At(a, i, j) == if j == (i + 2) % 3 then 1.0 else 0.0
    ensures FirstNonzero(Column(a, 0), 0.0) == 1
    ensures At(PivotOnTop(a, 1), 0, 0) == 1.0
    ensures At(Reduced(PivotOnTop(a, 1)), 0, 0) == 0.0 && At(Reduced(PivotOnTop(a, 1)), 1, 0) == 1.0
  {
    assert At(a, 0, 0) == 0.0 && At(a, 1, 0) == 1.0;
    FirstNonzeroUnique(Column(a, 0), 0.0, 1);
    var b := PivotOnTop(a, 1);
    assert At(b, 0, 0) == 1.0 && At(b, 0, 1) == 0.0;
    assert At(b, 1, 1) == 0.0 && At(b, 2, 1) == 1.0;
    ReducedUnderZero(b, 0, 0);
    ReducedUnderZero(b, 1, 0);
  }

  /** Where the pivot row has a zero above column j + 1, nothing is subtracted in column j. */
  lemma ReducedUnderZero(p: Mat<real>, i: nat, j: nat)
    requires Valid(p) && p.rows == p.cols >= 2 && At(p, 0, 0) != 0.0
    requires i < p.rows - 1 && j < p.rows - 1 && At(p, 0, j + 1) == 0.0
    ensures At(Reduced(p), i, j) == At(p, i + 1, j + 1)
  {
    assert Prod(At(p, i + 1, 0), At(p, 0, j + 1)) == 0.0;
  }

  /**
   * Order 3 with pivot row 1 and, below it, pivot row 1 again: both pivot
   * searches succeed and σ begins 1, 2.
   */
  lemma PivotsOneAndOne(a: Mat<real>)
    requires Valid(a) && 3 <= a.rows == a.cols <= 3
    requires FirstNonzero(Column(a, 0), 0.0) == 1 && At(PivotOnTop(a, 1), 0, 0) != 0.0
    requires At(Reduced(PivotOnTop(a, 1)), 0, 0) == 0.0 && At(Reduced(PivotOnTop(a, 1)), 1, 0) != 0.0
    ensures Plu(a).Ok? && Sigma(a)[0] == 1 && Sigma(a)[1] == 2
  {
    var r := Reduced(PivotOnTop(a, 1));
    PivotRowOne(r);
    PivotOneDecomposes(a, r);
    SigmaAt(r, 0);
    assert Sigma(r)[0] == 1;
    SigmaAt(a, 0);
    SigmaAt(a, 1);
  }

  /** Column 0 beginning 0, x with x ≠ 0 puts the pivot in row 1. */
  lemma PivotRowOne(r: Mat<real>)
    requires Valid(r) && r.rows >= 2 && r.cols >= 1 && At(r, 0, 0) == 0.0 && At(r, 1, 0) != 0.0
    ensures FirstNonzero(Column(r, 0), 0.0) == 1
  {
    FirstNonzeroUnique(Column(r, 0), 0.0, 1);
  }

  /** Both pivot searches succeed when row 1 is the pivot and then row 1 of the reduced matrix. */
  lemma PivotOneDecomposes(a: Mat<real>, r: Mat<real>)
    requires Valid(a) && 3 <= a.rows == a.cols <= 3
    requires FirstNonzero(Column(a, 0), 0.0) == 1 && At(PivotOnTop(a, 1), 0, 0) != 0.0
    requires r == Reduced(PivotOnTop(a, 1)) && FirstNonzero(Column(r, 0), 0.0) == 1
    ensures Plu(r).Ok? && Plu(a).Ok?
  {
    assert At(PivotOnTop(r, 1), 0, 0) == Column(r, 0)[1];
    PluOfOrder1(Reduced(PivotOnTop(r, 1)));
    Fold(r, 1);
    Fold(a, 1);
  }

  /** Entry i of σ: the pivot row for i = 0, otherwise entry i − 1 of the reduced σ lifted and switched. */
  lemma SigmaAt(m: Mat<real>, i: nat)
    requires Valid(m) && Plu(m).Ok? && m.rows >= 2 && i < m.rows
    ensures FirstNonzero(Column(m, 0), 0.0) < m.rows
    ensures At(PivotOnTop(m, FirstNonzero(Column(m, 0), 0.0)), 0, 0) != 0.0
    ensures Plu(Reduced(PivotOnTop(m, FirstNonzero(Column(m, 0), 0.0)))).Ok?
    ensures Sigma(m)[i] == Swapped(Shift(Sigma(Reduced(PivotOnTop(m, FirstNonzero(Column(m, 0), 0.0)))), i), 0, FirstNonzero(Column(m, 0), 0.0))
  {
    SigmaStep(m);
  }

  /** One level of `Sigma`. */
  lemma SigmaStep(m: Mat<real>)
    requires Valid(m) && Plu(m).Ok? && m.rows >= 2
    ensures FirstNonzero(Column(m, 0), 0.0) < m.rows
    ensures At(PivotOnTop(m, FirstNonzero(Column(m, 0), 0.0)), 0, 0) != 0.0
    ensures Plu(Reduced(PivotOnTop(m, FirstNonzero(Column(m, 0), 0.0)))).Ok?
    ensures Sigma(m) == Lift(Sigma(Reduced(PivotOnTop(m, FirstNonzero(Column(m, 0), 0.0)))), FirstNonzero(Column(m, 0), 0.0))
  {
    var s := FirstNonzero(Column(m, 0), 0.0);
    assert At(PivotOnTop(m, s), 0, 0) == Column(m, 0)[s];
  }

  /** With σ beginning 1, 2, entry (0, 1) of P·(L·U) = P·P·A is A[2, 1]. */
  lemma PermutedTwice(a: Mat<real>)
    requires Valid(a) && Plu(a).Ok? && a.rows >= 3 && Sigma(a)[0] == 1 && Sigma(a)[1] == 2
    ensures At(MatMul(Plu(a).value.p, MatMul(Plu(a).value.l, Plu(a).value.u)), 0, 1) == At(a, 2, 1)
  {
    var k, j := 0, 1;
    PermutedTwiceAt(a, k, j);
  }

  /** Entry (i, j) of P·(L·U) = P·P·A is A[σ(σ(i)), j]. */
  lemma PermutedTwiceAt(a: Mat<real>, i: nat, j: nat)
    requires Valid(a) && Plu(a).Ok? && i < a.rows && j < a.cols
    ensures InRange(Sigma(a), a.rows)
    ensures At(MatMul(Plu(a).value.p, MatMul(Plu(a).value.l, Plu(a).value.u)), i, j) == At(a, Sigma(a)[Sigma(a)[i]], j)
  {
    var f := Plu(a).value;
    var sigma := Sigma(a);
    PIsPermMatrix(a);
    LuIsPermutedInput(a);
    var lu := MatMul(f.l, f.u);
    PermTimes(sigma, lu);
  }
}
