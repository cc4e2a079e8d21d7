/** Gauss-Jordan inversion with partial pivoting, in place on two flat row-major buffers. */
module Inversion {
  import Records
  import opened FlatIndex
  import opened Matrices

  /** Pivots smaller than this are refused. */
  const PIVOT_MIN := 0.000000000001

  function Abs(x: real): real {
    if x < 0.0 then -x else x
  }

  // ---------------------------------------------------------------------
  // A flat buffer seen as rows
  // ---------------------------------------------------------------------

  function At(s: seq<real>, d: nat, i: nat, j: nat): real
    requires |s| == d * d && i < d && j < d
  {
    CellBound(d, d, i, j);
    s[Cell(d, i, j)]
  }

  function Rows(s: seq<real>, d: nat): (m: Matrix)
    requires |s| == d * d
    ensures Square(m, d)
  {
    seq(d, i requires 0 <= i < d => seq(d, j requires 0 <= j < d => At(s, d, i, j)))
  }

  method Put(a: array<real>, d: nat, i: nat, j: nat, v: real)
    requires a.Length == d * d && i < d && j < d
    modifies a
    ensures Rows(a[..], d) == old(Rows(a[..], d))[i := old(Rows(a[..], d))[i][j := v]]
  {
    CellBound(d, d, i, j);
    ghost var was := a[..];
    a[Cell(d, i, j)] := v;
    assert a[..] == was[Cell(d, i, j) := v];
    PutRows(was, a[..], d, i, j, v);
  }

  lemma PutRows(was: seq<real>, now: seq<real>, d: nat, i: nat, j: nat, v: real)
    requires |was| == d * d && i < d && j < d && Cell(d, i, j) < d * d
    requires now == was[Cell(d, i, j) := v]
    ensures Rows(now, d) == Rows(was, d)[i := Rows(was, d)[i][j := v]]
  {
    var r := Rows(was, d)[i := Rows(was, d)[i][j := v]];
    forall k | 0 <= k < d
      ensures Rows(now, d)[k] == r[k]
    {
      forall l | 0 <= l < d
        ensures Rows(now, d)[k][l] == r[k][l]
      {
        PutAt(was, now, d, i, j, v, k, l);
      }
    }
  }

  lemma PutAt(was: seq<real>, now: seq<real>, d: nat, i: nat, j: nat, v: real, k: nat, l: nat)
    requires |was| == d * d && i < d && j < d && k < d && l < d && Cell(d, i, j) < d * d
    requires now == was[Cell(d, i, j) := v]
    ensures At(now, d, k, l) == if k == i && l == j then v else At(was, d, k, l)
  {
    hide Cell;
    CellBound(d, d, k, l);
    if Cell(d, k, l) == Cell(d, i, j) {
      CellUnique(d, k, l, i, j);
    }
  }

  // ---------------------------------------------------------------------
  // The three row operations, both buffers in one loop
  // ---------------------------------------------------------------------

  method SwapBoth(m: array<real>, inv: array<real>, d: nat, p: nat, q: nat)
    requires m != inv && m.Length == inv.Length == d * d && p < d && q < d && p != q
    modifies m, inv
    ensures Rows(m[..], d) == SwapRows(old(Rows(m[..], d)), p, q)
    ensures Rows(inv[..], d) == SwapRows(old(Rows(inv[..], d)), p, q)
  {
    ghost var m0, v0 := Rows(m[..], d), Rows(inv[..], d);
    PartSwapEnds(m0, d, p, q);
    PartSwapEnds(v0, d, p, q);
    for j := 0 to d
      invariant Rows(m[..], d) == PartSwap(m0, d, p, q, j)
      invariant Rows(inv[..], d) == PartSwap(v0, d, p, q, j)
    {
      hide Rows, PartSwap;
      var x, y := At(m[..], d, p, j), At(m[..], d, q, j);
      RowsAt(m[..], d, p, j);
      RowsAt(m[..], d, q, j);
      Put(m, d, p, j, y);
      Put(m, d, q, j, x);
      PartSwapNext(m0, d, p, q, j);
      var s, t := At(inv[..], d, p, j), At(inv[..], d, q, j);
      RowsAt(inv[..], d, p, j);
      RowsAt(inv[..], d, q, j);
      Put(inv, d, p, j, t);
      Put(inv, d, q, j, s);
      PartSwapNext(v0, d, p, q, j);
    }
  }

  lemma RowsAt(s: seq<real>, d: nat, i: nat, j: nat)
    requires |s| == d * d && i < d && j < d
    ensures Rows(s, d)[i][j] == At(s, d, i, j)
  {
  }

  /** Rows p and q exchanged in their first k columns. */
  function PartSwap(m: Matrix, d: nat, p: nat, q: nat, k: nat): (r: Matrix)
    requires Square(m, d) && p < d && q < d && k <= d
    ensures Square(r, d)
  {
    m[p := m[q][..k] + m[p][k..]][q := m[p][..k] + m[q][k..]]
  }

  lemma PartSwapEnds(m: Matrix, d: nat, p: nat, q: nat)
    requires Square(m, d) && p < d && q < d && p != q
    ensures PartSwap(m, d, p, q, 0) == m
    ensures PartSwap(m, d, p, q, d) == SwapRows(m, p, q)
  {
    assert m[q][..0] + m[p][0..] == m[p] && m[p][..0] + m[q][0..] == m[q];
    assert m[q][..d] + m[p][d..] == m[q] && m[p][..d] + m[q][d..] == m[p];
  }

  lemma PartSwapNext(m: Matrix, d: nat, p: nat, q: nat, k: nat)
    requires Square(m, d) && p < d && q < d && p != q && k < d
    ensures PartSwap(m, d, p, q, k)[p][k] == m[p][k] && PartSwap(m, d, p, q, k)[q][k] == m[q][k]
    ensures
      var r := PartSwap(m, d, p, q, k);
      var s := r[p := r[p][k := m[q][k]]];
      s[q := s[q][k := m[p][k]]] == PartSwap(m, d, p, q, k + 1)
  {
    var r := PartSwap(m, d, p, q, k);
    assert r[p][k := m[q][k]] == m[q][..k + 1] + m[p][k + 1..];
    assert r[q][k := m[p][k]] == m[p][..k + 1] + m[q][k + 1..];
  }

  method ScaleBoth(m: array<real>, inv: array<real>, d: nat, c: nat, p: real)
    requires m != inv && m.Length == inv.Length == d * d && c < d && p != 0.0
    modifies m, inv
    ensures Rows(m[..], d) == ScaleRow(old(Rows(m[..], d)), c, p)
    ensures Rows(inv[..], d) == ScaleRow(old(Rows(inv[..], d)), c, p)
  {
    ghost var m0, v0 := Rows(m[..], d), Rows(inv[..], d);
    PartScaleEnds(m0[c], p);
    PartScaleEnds(v0[c], p);
    for j := 0 to d
      invariant Rows(m[..], d) == m0[c := PartScale(m0[c], p, j)]
      invariant Rows(inv[..], d) == v0[c := PartScale(v0[c], p, j)]
    {
      hide Rows, PartScale;
      ScaleCell(m, d, c, p, j, m0);
      ScaleCell(inv, d, c, p, j, v0);
    }
  }

  method ScaleCell(a: array<real>, d: nat, c: nat, p: real, j: nat, ghost a0: Matrix)
    requires a.Length == d * d && c < d && j < d && p != 0.0 && Square(a0, d)
    requires Rows(a[..], d) == a0[c := PartScale(a0[c], p, j)]
    modifies a
    ensures Rows(a[..], d) == a0[c := PartScale(a0[c], p, j + 1)]
  {
    hide Rows, PartScale, Over, At;
    RowsAt(a[..], d, c, j);
    PartScaleNext(a0[c], p, j);
    Put(a, d, c, j, Over(At(a[..], d, c, j), p));
  }

  /** The first k entries divided by p. */
  function PartScale(x: Vector, p: real, k: nat): (r: Vector)
    requires k <= |x| && p != 0.0
    ensures |r| == |x|
  {
    Scale(x[..k], p) + x[k..]
  }

  lemma PartScaleEnds(x: Vector, p: real)
    requires p != 0.0
    ensures PartScale(x, p, 0) == x && PartScale(x, p, |x|) == Scale(x, p)
  {
    assert x[..|x|] == x;
  }

  lemma PartScaleNext(x: Vector, p: real, k: nat)
    requires k < |x| && p != 0.0
    ensures PartScale(x, p, k)[k] == x[k]
    ensures PartScale(x, p, k)[k := Over(x[k], p)] == PartScale(x, p, k + 1)
  {
    hide Over;
    var l, r := PartScale(x, p, k)[k := Over(x[k], p)], PartScale(x, p, k + 1);
    forall j | 0 <= j < |x|
      ensures l[j] == r[j]
    {
      if j < k {
        assert x[..k][j] == x[..k + 1][j];
      }
    }
  }

  method SubBoth(m: array<real>, inv: array<real>, d: nat, r: nat, f: real, c: nat)
    requires m != inv && m.Length == inv.Length == d * d && r < d && c < d && r != c
    modifies m, inv
    ensures Rows(m[..], d) == SubRow(old(Rows(m[..], d)), r, f, c)
    ensures Rows(inv[..], d) == SubRow(old(Rows(inv[..], d)), r, f, c)
  {
    ghost var m0, v0 := Rows(m[..], d), Rows(inv[..], d);
    PartMinusEnds(m0[r], f, m0[c]);
    PartMinusEnds(v0[r], f, v0[c]);
    for j := 0 to d
      invariant Rows(m[..], d) == m0[r := PartMinus(m0[r], f, m0[c], j)]
      invariant Rows(inv[..], d) == v0[r := PartMinus(v0[r], f, v0[c], j)]
    {
      hide Rows, PartMinus;
      SubCell(m, d, r, f, c, j, m0);
      SubCell(inv, d, r, f, c, j, v0);
    }
  }

  method SubCell(a: array<real>, d: nat, r: nat, f: real, c: nat, j: nat, ghost a0: Matrix)
    requires a.Length == d * d && r < d && c < d && r != c && j < d && Square(a0, d)
    requires Rows(a[..], d) == a0[r := PartMinus(a0[r], f, a0[c], j)]
    modifies a
    ensures Rows(a[..], d) == a0[r := PartMinus(a0[r], f, a0[c], j + 1)]
  {
    hide Rows, PartMinus, Less, At;
    RowsAt(a[..], d, r, j);
    RowsAt(a[..], d, c, j);
    PartMinusNext(a0[r], f, a0[c], j);
    Put(a, d, r, j, Less(At(a[..], d, r, j), f, At(a[..], d, c, j)));
  }

  /** The first k entries reduced by f times those of y. */
  function PartMinus(x: Vector, f: real, y: Vector, k: nat): (r: Vector)
    requires |x| == |y| && k <= |x|
    ensures |r| == |x|
  {
    Minus(x[..k], f, y[..k]) + x[k..]
  }

  lemma PartMinusEnds(x: Vector, f: real, y: Vector)
    requires |x| == |y|
    ensures PartMinus(x, f, y, 0) == x && PartMinus(x, f, y, |x|) == Minus(x, f, y)
  {
    assert x[..|x|] == x && y[..|y|] == y;
  }

  lemma PartMinusNext(x: Vector, f: real, y: Vector, k: nat)
    requires |x| == |y| && k < |x|
    ensures PartMinus(x, f, y, k)[k] == x[k]
    ensures PartMinus(x, f, y, k)[k := Less(x[k], f, y[k])] == PartMinus(x, f, y, k + 1)
  {
    var l, r := PartMinus(x, f, y, k)[k := Less(x[k], f, y[k])], PartMinus(x, f, y, k + 1);
    hide Less;
    forall j | 0 <= j < |x|
      ensures l[j] == r[j]
    {
      if j < k {
        assert x[..k][j] == x[..k + 1][j] && y[..k][j] == y[..k + 1][j];
      }
    }
  }

  /** The row that a scan for a strictly greater absolute value picks among rows `col` to `n - 1`. */
  function PivotRow(m: Matrix, d: nat, col: nat, n: nat): (p: nat)
    requires Square(m, d) && col < n <= d
    ensures col <= p < n
  {
    if n == col + 1 then col
    else
      var p := PivotRow(m, d, col, n - 1);
      if Abs(m[n - 1][col]) > Abs(m[p][col]) then n - 1 else p
  }

  /** It is the first row with the greatest absolute entry. */
  lemma {:induction false} PivotIsLargest(m: Matrix, d: nat, col: nat, n: nat)
    requires Square(m, d) && col < n <= d
    ensures forall i :: col <= i < n ==> Abs(m[i][col]) <= Abs(m[PivotRow(m, d, col, n)][col])
    ensures forall i :: col <= i < PivotRow(m, d, col, n) ==> Abs(m[i][col]) < Abs(m[PivotRow(m, d, col, n)][col])
  {
    if n > col + 1 {
      PivotIsLargest(m, d, col, n - 1);
    }
  }

  /** The pivot search of `invert`. */
  method FindPivot(m: array<real>, d: nat, col: nat) returns (pivot: nat, best: real)
    requires m.Length == d * d && col < d
    ensures pivot == PivotRow(Rows(m[..], d), d, col, d) && best == Abs(Rows(m[..], d)[pivot][col])
    ensures forall i :: col <= i < d ==> Abs(Rows(m[..], d)[i][col]) <= best
    ensures forall i :: col <= i < pivot ==> Abs(Rows(m[..], d)[i][col]) < best
  {
    pivot := col;
    best := Abs(At(m[..], d, col, col));
    for row := col + 1 to d
      invariant pivot == PivotRow(Rows(m[..], d), d, col, row)
      invariant best == Abs(Rows(m[..], d)[pivot][col])
    {
      var v := Abs(At(m[..], d, row, col));
      if v > best {
        best := v;
        pivot := row;
      }
    }
    PivotIsLargest(Rows(m[..], d), d, col, d);
  }

  // ---------------------------------------------------------------------
  // Elimination on values
  // ---------------------------------------------------------------------

  /** The two buffers of `invert`, and the matrix `w` that undoes the row operations done so far. */
  datatype Elim = Elim(m: Matrix, inv: Matrix, w: Matrix) {
    predicate Sized(d: nat) {
      Square(m, d) && Square(inv, d) && Square(w, d)
    }
  }

  function SwapStep(e: Elim, d: nat, col: nat, q: nat): (r: Elim)
    requires e.Sized(d) && col < d && q < d
    ensures r.Sized(d) && r.m[col] == e.m[q]
  {
    if q == col then e else Elim(SwapRows(e.m, col, q), SwapRows(e.inv, col, q), SwapColumns(e.w, d, col, q))
  }

  function ScaleStep(e: Elim, d: nat, col: nat): (r: Elim)
    requires e.Sized(d) && col < d && e.m[col][col] != 0.0
    ensures r.Sized(d)
  {
    var p := e.m[col][col];
    Elim(ScaleRow(e.m, col, p), ScaleRow(e.inv, col, p), ScaleColumn(e.w, d, col, p))
  }

  function ClearStep(e: Elim, d: nat, col: nat, row: nat): (r: Elim)
    requires e.Sized(d) && col < d && row < d
    ensures r.Sized(d)
  {
    var f := e.m[row][col];
    if row == col || f == 0.0 then e
    else Elim(SubRow(e.m, row, f, col), SubRow(e.inv, row, f, col), AddColumn(e.w, d, col, f, row))
  }

  /** Column `col` cleared in the first `n` rows, except at the pivot. */
  function ClearRows(e: Elim, d: nat, col: nat, n: nat): (r: Elim)
    requires e.Sized(d) && col < d && n <= d
    ensures r.Sized(d)
  {
    if n == 0 then e else ClearStep(ClearRows(e, d, col, n - 1), d, col, n - 1)
  }

  /** One column of the elimination; a column without a pivot is left as it is. */
  function ColumnStep(e: Elim, d: nat, col: nat): (r: Elim)
    requires e.Sized(d) && col < d
    ensures r.Sized(d)
  {
    var q := PivotRow(e.m, d, col, d);
    if e.m[q][col] == 0.0 then e else ClearRows(ScaleStep(SwapStep(e, d, col, q), d, col), d, col, d)
  }

  /** Gauss-Jordan elimination of the first `n` columns. */
  function State(a: Matrix, d: nat, n: nat): (e: Elim)
    requires Square(a, d) && n <= d
    ensures e.Sized(d)
  {
    if n == 0 then Elim(a, Identity(d), Identity(d)) else ColumnStep(State(a, d, n - 1), d, n - 1)
  }

  /** The matrix reduced in its first `n` columns. */
  function Reduce(a: Matrix, d: nat, n: nat): (m: Matrix)
    requires Square(a, d) && n <= d
    ensures Square(m, d)
  {
    State(a, d, n).m
  }

  /** No entry at or below the diagonal reaches the threshold. */
  predicate SmallColumn(m: Matrix, d: nat, col: nat)
    requires Square(m, d) && col < d
  {
    forall i :: col <= i < d ==> Abs(m[i][col]) < PIVOT_MIN
  }

  predicate ZeroColumn(m: Matrix, d: nat, col: nat)
    requires Square(m, d) && col < d
  {
    forall i :: col <= i < d ==> m[i][col] == 0.0
  }

  /** What `invert` refuses: some column, when its turn comes, has no entry that reaches the threshold. */
  predicate Refused(a: Matrix, d: nat)
    requires Square(a, d)
  {
    exists col :: 0 <= col < d && SmallColumn(Reduce(a, d, col), d, col)
  }

  /** Some column, when its turn comes, is zero at and below the diagonal. */
  predicate Singular(a: Matrix, d: nat)
    requires Square(a, d)
  {
    exists col :: 0 <= col < d && ZeroColumn(Reduce(a, d, col), d, col)
  }

  // ---------------------------------------------------------------------
  // What elimination keeps
  // ---------------------------------------------------------------------

  /** The first `col` columns are already those of the identity. */
  ghost predicate Reduced(m: Matrix, d: nat, col: nat) {
    && Square(m, d)
    && forall i, c :: 0 <= i < d && 0 <= c < d && c < col ==> m[i][c] == Unit(d, i)[c]
  }

  /** m is inv * a, and w undoes the row operations done so far. */
  ghost predicate Progress(a: Matrix, m: Matrix, inv: Matrix, w: Matrix, d: nat) {
    && IsProduct(inv, a, m, d)
    && IsProduct(w, m, a, d)
    && IsProduct(w, inv, Identity(d), d)
  }

  lemma SwapProgress(a: Matrix, m: Matrix, inv: Matrix, w: Matrix, d: nat, col: nat, q: nat)
    requires Progress(a, m, inv, w, d) && col < q < d
    ensures Progress(a, SwapRows(m, col, q), SwapRows(inv, col, q), SwapColumns(w, d, col, q), d)
  {
    hide SwapColumns, SwapRows;
    SwapKeeps(inv, a, m, d, col, q);
    SwapBack(w, m, a, d, col, q);
    SwapBack(w, inv, Identity(d), d, col, q);
  }

  lemma SwapReduced(m: Matrix, d: nat, col: nat, q: nat)
    requires Reduced(m, d, col) && col < q < d
    ensures Reduced(SwapRows(m, col, q), d, col)
  {
  }

  lemma ScaleProgress(a: Matrix, m: Matrix, inv: Matrix, w: Matrix, d: nat, col: nat, p: real)
    requires Progress(a, m, inv, w, d) && col < d && p != 0.0
    ensures Progress(a, ScaleRow(m, col, p), ScaleRow(inv, col, p), ScaleColumn(w, d, col, p), d)
  {
    hide ScaleColumn, ScaleRow;
    ScaleKeeps(inv, a, m, d, col, p);
    ScaleBack(w, m, a, d, col, p);
    ScaleBack(w, inv, Identity(d), d, col, p);
  }

  lemma ScaleReduced(m: Matrix, d: nat, col: nat)
    requires Reduced(m, d, col) && col < d && m[col][col] != 0.0
    ensures Reduced(ScaleRow(m, col, m[col][col]), d, col)
    ensures ScaleRow(m, col, m[col][col])[col][col] == 1.0
  {
    forall c | 0 <= c < col
      ensures m[col][c] / m[col][col] == 0.0
    {
      assert m[col][c] == Unit(d, col)[c];
    }
  }

  lemma SubProgress(a: Matrix, m: Matrix, inv: Matrix, w: Matrix, d: nat, r: nat, f: real, col: nat)
    requires Progress(a, m, inv, w, d) && col < d && r < d && r != col
    ensures Progress(a, SubRow(m, r, f, col), SubRow(inv, r, f, col), AddColumn(w, d, col, f, r), d)
  {
    hide AddColumn, SubRow;
    SubKeeps(inv, a, m, d, r, f, col);
    SubBack(w, m, a, d, r, f, col);
    SubBack(w, inv, Identity(d), d, r, f, col);
  }

  /** Column `col` is cleared above and below the pivot in the rows before `row`. */
  ghost predicate Cleared(m: Matrix, d: nat, col: nat, row: nat) {
    && Reduced(m, d, col) && col < d && row <= d
    && m[col][col] == 1.0
    && forall i :: 0 <= i < row && i != col ==> m[i][col] == 0.0
  }

  lemma SubCleared(m: Matrix, d: nat, row: nat, col: nat)
    requires Cleared(m, d, col, row) && row < d && row != col
    ensures Cleared(SubRow(m, row, m[row][col], col), d, col, row + 1)
  {
    var f := m[row][col];
    forall c | 0 <= c < col
      ensures Less(m[row][c], f, m[col][c]) == m[row][c]
    {
      assert m[col][c] == Unit(d, col)[c];
    }
    assert Less(m[row][col], f, m[col][col]) == 0.0;
  }

  lemma ClearedReduces(m: Matrix, d: nat, col: nat)
    requires Cleared(m, d, col, d)
    ensures Reduced(m, d, col + 1)
  {
    forall i, c | 0 <= i < d && 0 <= c < d && c < col + 1
      ensures m[i][c] == Unit(d, i)[c]
    {
    }
  }

  lemma FullyReduced(m: Matrix, d: nat)
    requires Reduced(m, d, d)
    ensures m == Identity(d)
  {
    forall i | 0 <= i < d
      ensures m[i] == Identity(d)[i]
    {
    }
  }

  lemma ColumnProgress(a: Matrix, e: Elim, d: nat, col: nat)
    requires e.Sized(d) && Progress(a, e.m, e.inv, e.w, d) && Reduced(e.m, d, col) && col < d
    requires !ZeroColumn(e.m, d, col)
    ensures var r := ColumnStep(e, d, col); Progress(a, r.m, r.inv, r.w, d) && Reduced(r.m, d, col + 1)
  {
    hide Progress, Reduced, SwapStep, ScaleStep, ClearRows;
    PivotIsLargest(e.m, d, col, d);
    var q := PivotRow(e.m, d, col, d);
    var s := SwapStep(e, d, col, q);
    SwapStepKeeps(a, e, d, col, q);
    ScaleStepKeeps(a, s, d, col);
    ClearRowsKeeps(a, ScaleStep(s, d, col), d, col, d);
    ClearedReduces(ColumnStep(e, d, col).m, d, col);
  }

  lemma SwapStepKeeps(a: Matrix, e: Elim, d: nat, col: nat, q: nat)
    requires e.Sized(d) && Progress(a, e.m, e.inv, e.w, d) && Reduced(e.m, d, col) && col <= q < d
    ensures var r := SwapStep(e, d, col, q); Progress(a, r.m, r.inv, r.w, d) && Reduced(r.m, d, col)
  {
    hide Progress, Reduced, SwapRows, SwapColumns;
    if q != col {
      SwapProgress(a, e.m, e.inv, e.w, d, col, q);
      SwapReduced(e.m, d, col, q);
    }
  }

  lemma ScaleStepKeeps(a: Matrix, e: Elim, d: nat, col: nat)
    requires e.Sized(d) && Progress(a, e.m, e.inv, e.w, d) && Reduced(e.m, d, col) && col < d && e.m[col][col] != 0.0
    ensures var r := ScaleStep(e, d, col); Progress(a, r.m, r.inv, r.w, d) && Cleared(r.m, d, col, 0)
  {
    hide Progress, Reduced, ScaleRow, ScaleColumn;
    ScaleProgress(a, e.m, e.inv, e.w, d, col, e.m[col][col]);
    ScaleReduced(e.m, d, col);
  }

  lemma {:induction false} ClearRowsKeeps(a: Matrix, e: Elim, d: nat, col: nat, n: nat)
    requires e.Sized(d) && Progress(a, e.m, e.inv, e.w, d) && Cleared(e.m, d, col, 0) && n <= d
    ensures var r := ClearRows(e, d, col, n); Progress(a, r.m, r.inv, r.w, d) && Cleared(r.m, d, col, n)
  {
    hide Progress, Cleared, ClearStep;
    ClearedHere(e.m, d, col);
    if n > 0 {
      ClearRowsKeeps(a, e, d, col, n - 1);
      ClearStepKeeps(a, ClearRows(e, d, col, n - 1), d, col, n - 1);
    }
  }

  lemma ClearedHere(m: Matrix, d: nat, col: nat)
    requires Cleared(m, d, col, 0)
    ensures col < d
  {
  }

  lemma ClearStepKeeps(a: Matrix, e: Elim, d: nat, col: nat, row: nat)
    requires e.Sized(d) && Progress(a, e.m, e.inv, e.w, d) && Cleared(e.m, d, col, row) && row < d
    ensures col < d
    ensures var r := ClearStep(e, d, col, row); Progress(a, r.m, r.inv, r.w, d) && Cleared(r.m, d, col, row + 1)
  {
    hide Progress, SubRow, AddColumn, Reduced;
    var f := e.m[row][col];
    if row != col && f != 0.0 {
      SubProgress(a, e.m, e.inv, e.w, d, row, f, col);
      SubCleared(e.m, d, row, col);
    }
  }

  /**
   * As long as no pivot was zero, m = inv * a and w undoes the operations; the columns done are those of the
   * identity.
   */
  lemma {:induction false} StateProgress(a: Matrix, d: nat, n: nat)
    requires Square(a, d) && n <= d && forall c :: 0 <= c < n ==> !ZeroColumn(Reduce(a, d, c), d, c)
    ensures var e := State(a, d, n); Progress(a, e.m, e.inv, e.w, d) && Reduced(e.m, d, n)
  {
    hide Progress, Reduced, ColumnStep, ZeroColumn;
    if n == 0 {
      StartProgress(a, d);
    } else {
      StateProgress(a, d, n - 1);
      assert !ZeroColumn(Reduce(a, d, n - 1), d, n - 1);
      ColumnProgress(a, State(a, d, n - 1), d, n - 1);
    }
  }

  lemma StartProgress(a: Matrix, d: nat)
    requires Square(a, d)
    ensures Progress(a, a, Identity(d), Identity(d), d) && Reduced(a, d, 0)
  {
    hide IsProduct;
    LeftIdentity(a, d);
    LeftIdentity(Identity(d), d);
  }

  // ---------------------------------------------------------------------
  // A column of zeros gives a vector in the kernel
  // ---------------------------------------------------------------------

  /** Minus column `col` above the pivot, one at the pivot, zero below it. */
  function Residual(m: Matrix, d: nat, col: nat): (x: Vector)
    requires Square(m, d) && col < d
    ensures |x| == d
  {
    seq(d, c requires 0 <= c < d => if c < col then -m[c][col] else if c == col then 1.0 else 0.0)
  }

  lemma {:induction false} ResidualDot(m: Matrix, d: nat, col: nat, i: nat, k: nat)
    requires Reduced(m, d, col) && col < d && i < d && k <= col
    ensures Dot(m[i][..k], Residual(m, d, col)[..k]) == if i < k then -m[i][col] else 0.0
  {
    var x := Residual(m, d, col);
    if k == 0 {
      DotEmpty(m[i][..0], x[..0]);
    } else {
      hide Dot;
      ResidualDot(m, d, col, i, k - 1);
      DotSnoc(m[i], x, k - 1);
      assert m[i][k - 1] == Unit(d, i)[k - 1];
    }
  }

  lemma ResidualValue(m: Matrix, d: nat, col: nat, i: nat)
    requires Reduced(m, d, col) && col < d && i < d
    ensures Dot(m[i], Residual(m, d, col)) == if i < col then 0.0 else m[i][col]
  {
    hide Dot;
    var x := Residual(m, d, col);
    DotSplit(m[i], x, col + 1);
    DotZero(x[col + 1..], m[i][col + 1..]);
    DotSnoc(m[i], x, col);
    ResidualDot(m, d, col, i, col);
  }

  /** The residual vector of the first zero column is annihilated by the matrix itself. */
  lemma ZeroColumnKernel(a: Matrix, d: nat, col: nat)
    requires Square(a, d) && col < d && ZeroColumn(Reduce(a, d, col), d, col)
    requires forall c :: 0 <= c < col ==> !ZeroColumn(Reduce(a, d, c), d, c)
    ensures var x := Residual(Reduce(a, d, col), d, col);
            x[col] == 1.0 && forall i :: 0 <= i < d ==> Apply(a, x)[i] == 0.0
  {
    hide Dot, State, Reduced, Progress;
    StateProgress(a, d, col);
    var e := State(a, d, col);
    var x := Residual(e.m, d, col);
    forall i | 0 <= i < d
      ensures Apply(e.m, x)[i] == 0.0
    {
      ResidualValue(e.m, d, col, i);
    }
    ProgressUndone(a, e, d);
    forall i | 0 <= i < d
      ensures Apply(a, x)[i] == 0.0
    {
      KernelRow(e.w, e.m, a, d, x, i);
    }
  }

  lemma ProgressUndone(a: Matrix, e: Elim, d: nat)
    requires Progress(a, e.m, e.inv, e.w, d)
    ensures IsProduct(e.w, e.m, a, d)
  {
    hide IsProduct;
  }

  lemma KernelRow(w: Matrix, m: Matrix, a: Matrix, d: nat, x: Vector, i: nat)
    requires IsProduct(w, m, a, d) && |x| == d && i < d && forall k :: 0 <= k < d ==> Apply(m, x)[k] == 0.0
    ensures Apply(a, x)[i] == 0.0
  {
    hide Dot;
    AppliedThrough(w, m, a, d, x, i, d);
    assert a[i][..d] == a[i] && x[..d] == x;
    Associates(w[i], m, d, x, d);
    assert ApplyFirst(m, d, x, d) == Apply(m, x) by {
      assert forall j :: 0 <= j < d ==> m[j][..d] == m[j];
    }
    DotZero(Apply(m, x), w[i]);
  }

  lemma {:induction false} AppliedThrough(w: Matrix, m: Matrix, a: Matrix, d: nat, x: Vector, i: nat, k: nat)
    requires IsProduct(w, m, a, d) && |x| == d && i < d && k <= d
    ensures Dot(a[i][..k], x[..k]) == Through(w[i], m, d, x, k)
  {
    hide Dot;
    if k == 0 {
      DotEmpty(a[i][..0], x[..0]);
    } else {
      AppliedThrough(w, m, a, d, x, i, k - 1);
      DotSnoc(a[i], x, k - 1);
      assert a[i][k - 1] == Dot(w[i], Column(m, k - 1));
    }
  }

  // ---------------------------------------------------------------------
  // The in-place algorithm
  // ---------------------------------------------------------------------

  /** `invert`: a result is a two-sided inverse, and a refusal is exactly a small column. */
  method Invert(a: seq<real>, d: nat) returns (r: Records.Option<seq<real>>)
    requires |a| == d * d
    ensures r.None? <==> Refused(Rows(a, d), d)
    ensures r.Some? ==> |r.value| == d * d
    ensures r.Some? ==> IsProduct(Rows(r.value, d), Rows(a, d), Identity(d), d)
    ensures r.Some? ==> IsProduct(Rows(a, d), Rows(r.value, d), Identity(d), d)
  {
    hide Rows, SmallColumn, State, Reduce, Refused, Holding, IsProduct;
    ghost var matrix := Rows(a, d);
    var m := new real[d * d](k requires 0 <= k < d * d => a[k]);
    assert m[..] == a;
    var inv := NewIdentity(d);
    HoldingStart(matrix, d);
    for col := 0 to d
      invariant Holding(matrix, d, col, Rows(m[..], d), Rows(inv[..], d))
      invariant forall c :: 0 <= c < col ==> !SmallColumn(Reduce(matrix, d, c), d, c)
    {
      HoldingIs(matrix, d, col, Rows(m[..], d), Rows(inv[..], d));
      var pivot, best := FindPivot(m, d, col);
      SmallIff(Rows(m[..], d), d, col);
      if best < PIVOT_MIN {
        RefusedAt(matrix, d, col);
        return Records.None;
      }
      OneColumn(matrix, m, inv, d, col, pivot);
    }
    NotRefused(matrix, d, Rows(m[..], d), Rows(inv[..], d));
    r := Records.Some(inv[..]);
  }

  lemma HoldingStart(a: Matrix, d: nat)
    requires Square(a, d)
    ensures Holding(a, d, 0, a, Identity(d))
  {
  }

  lemma RefusedAt(a: Matrix, d: nat, col: nat)
    requires Square(a, d) && col < d && SmallColumn(Reduce(a, d, col), d, col)
    ensures Refused(a, d)
  {
    hide SmallColumn, Reduce;
  }

  /** The buffers hold what elimination of the first `n` columns gives. */
  ghost predicate Holding(a: Matrix, d: nat, n: nat, m: Matrix, inv: Matrix) {
    Square(a, d) && n <= d && m == State(a, d, n).m && inv == State(a, d, n).inv
  }

  lemma HoldingIs(a: Matrix, d: nat, n: nat, m: Matrix, inv: Matrix)
    requires Holding(a, d, n, m, inv)
    ensures Square(a, d) && n <= d && m == Reduce(a, d, n)
  {
    hide State;
  }

  lemma SmallIff(m: Matrix, d: nat, col: nat)
    requires Square(m, d) && col < d
    ensures SmallColumn(m, d, col) <==> Abs(m[PivotRow(m, d, col, d)][col]) < PIVOT_MIN
  {
    PivotIsLargest(m, d, col, d);
  }

  lemma NotRefused(a: Matrix, d: nat, m: Matrix, inv: Matrix)
    requires Holding(a, d, d, m, inv) && forall c :: 0 <= c < d ==> !SmallColumn(Reduce(a, d, c), d, c)
    ensures !Refused(a, d) && IsProduct(inv, a, Identity(d), d) && IsProduct(a, inv, Identity(d), d)
  {
    hide State, IsProduct;
    ZeroIsSmall(a, d);
    StateProgress(a, d, d);
    Finish(a, m, inv, State(a, d, d).w, d);
  }

  lemma ZeroIsSmall(a: Matrix, d: nat)
    requires Square(a, d)
    ensures forall c :: 0 <= c < d && ZeroColumn(Reduce(a, d, c), d, c) ==> SmallColumn(Reduce(a, d, c), d, c)
  {
    hide Reduce;
  }

  /** One turn of the outer loop: swap, scale, eliminate. */
  method OneColumn(ghost a: Matrix, m: array<real>, inv: array<real>, d: nat, col: nat, pivot: nat)
    requires m != inv && m.Length == inv.Length == d * d && col < d
    requires Holding(a, d, col, Rows(m[..], d), Rows(inv[..], d))
    requires pivot == PivotRow(Rows(m[..], d), d, col, d) && Abs(Rows(m[..], d)[pivot][col]) >= PIVOT_MIN
    modifies m, inv
    ensures Holding(a, d, col + 1, Rows(m[..], d), Rows(inv[..], d))
  {
    hide Rows, SwapRows, ScaleRow, ScaleColumn, SwapColumns, ClearRows;
    ghost var e := State(a, d, col);
    hide State;
    if pivot != col {
      SwapBoth(m, inv, d, col, pivot);
    }
    ghost var e1 := SwapStep(e, d, col, pivot);
    RowsAt(m[..], d, col, col);
    var p := At(m[..], d, col, col);
    ScaleBoth(m, inv, d, col, p);
    Eliminate(ScaleStep(e1, d, col), m, inv, d, col);
    StateNext(a, d, col);
  }

  lemma StateNext(a: Matrix, d: nat, n: nat)
    requires Square(a, d) && n < d
    ensures State(a, d, n + 1) == ColumnStep(State(a, d, n), d, n)
  {
  }

  method NewIdentity(d: nat) returns (inv: array<real>)
    ensures fresh(inv) && inv.Length == d * d && Rows(inv[..], d) == Identity(d)
  {
    inv := new real[d * d](_ => 0.0);
    ghost var zero := seq(d, _ => 0.0);
    assert Rows(inv[..], d) == seq(d, _ => zero) by {
      ZeroRows(inv[..], d);
    }
    for i := 0 to d
      invariant Rows(inv[..], d) == seq(d, k requires 0 <= k < d => if k < i then Unit(d, k) else zero)
    {
      hide Rows;
      Put(inv, d, i, i, 1.0);
      assert Unit(d, i) == zero[i := 1.0];
    }
  }

  lemma ZeroRows(s: seq<real>, d: nat)
    requires |s| == d * d && forall k :: 0 <= k < d * d ==> s[k] == 0.0
    ensures Rows(s, d) == seq(d, _ => seq(d, _ => 0.0))
  {
    var zero: Vector := seq(d, _ => 0.0);
    forall i | 0 <= i < d
      ensures Rows(s, d)[i] == zero
    {
      forall j | 0 <= j < d
        ensures Rows(s, d)[i][j] == 0.0
      {
        CellBound(d, d, i, j);
      }
    }
  }

  /** The elimination loop of one column. */
  method Eliminate(ghost e: Elim, m: array<real>, inv: array<real>, d: nat, col: nat)
    requires m != inv && m.Length == inv.Length == d * d && col < d && e.Sized(d)
    requires Rows(m[..], d) == e.m && Rows(inv[..], d) == e.inv
    modifies m, inv
    ensures Rows(m[..], d) == ClearRows(e, d, col, d).m && Rows(inv[..], d) == ClearRows(e, d, col, d).inv
  {
    for row := 0 to d
      invariant Rows(m[..], d) == ClearRows(e, d, col, row).m && Rows(inv[..], d) == ClearRows(e, d, col, row).inv
    {
      hide Rows, SubRow, AddColumn, ClearRows;
      ClearNext(e, d, col, row);
      if row == col {
        continue;
      }
      RowsAt(m[..], d, row, col);
      var f := At(m[..], d, row, col);
      if f == 0.0 {
        continue;
      }
      SubBoth(m, inv, d, row, f, col);
    }
  }

  lemma ClearNext(e: Elim, d: nat, col: nat, n: nat)
    requires e.Sized(d) && col < d && n < d
    ensures ClearRows(e, d, col, n + 1) == ClearStep(ClearRows(e, d, col, n), d, col, n)
  {
  }

  lemma Finish(a: Matrix, m: Matrix, inv: Matrix, w: Matrix, d: nat)
    requires Progress(a, m, inv, w, d) && Reduced(m, d, d)
    ensures IsProduct(inv, a, Identity(d), d) && IsProduct(a, inv, Identity(d), d)
  {
    hide IsProduct;
    FullyReduced(m, d);
    RightIdentity(w, a, d);
  }

  // ---------------------------------------------------------------------
  // What the two answers say about the matrix
  // ---------------------------------------------------------------------

  /** A matrix with a left inverse annihilates only the zero vector. */
  lemma InverseNoKernel(a: Matrix, b: Matrix, d: nat, x: Vector)
    requires IsProduct(b, a, Identity(d), d) && |x| == d
    requires forall i :: 0 <= i < d ==> Apply(a, x)[i] == 0.0
    ensures forall i :: 0 <= i < d ==> x[i] == 0.0
  {
    InverseIsInjective(b, a, d, x);
    forall i | 0 <= i < d
      ensures x[i] == 0.0
    {
      DotZero(Apply(a, x), b[i]);
      assert Apply(b, Apply(a, x))[i] == Dot(b[i], Apply(a, x));
    }
  }

  ghost predicate Invertible(a: Matrix, d: nat) {
    exists b: Matrix :: IsProduct(b, a, Identity(d), d)
  }

  lemma {:induction false} FirstZeroColumn(a: Matrix, d: nat, n: nat) returns (col: nat)
    requires Square(a, d) && n <= d && exists c :: 0 <= c < n && ZeroColumn(Reduce(a, d, c), d, c)
    ensures col < n && ZeroColumn(Reduce(a, d, col), d, col)
    ensures forall c :: 0 <= c < col ==> !ZeroColumn(Reduce(a, d, c), d, c)
  {
    hide ZeroColumn, Reduce;
    if exists c :: 0 <= c < n - 1 && ZeroColumn(Reduce(a, d, c), d, c) {
      col := FirstZeroColumn(a, d, n - 1);
    } else {
      col := n - 1;
    }
  }

  /** A matrix has an inverse if and only if elimination never meets a zero column. */
  lemma InvertibleIff(a: Matrix, d: nat)
    requires Square(a, d)
    ensures Invertible(a, d) <==> !Singular(a, d)
  {
    hide IsProduct, ZeroColumn, Reduce;
    if Singular(a, d) {
      var col := FirstZeroColumn(a, d, d);
      SingularNoInverse(a, d, col);
    } else {
      NonsingularInverse(a, d);
    }
  }

  lemma SingularNoInverse(a: Matrix, d: nat, col: nat)
    requires Square(a, d) && col < d && ZeroColumn(Reduce(a, d, col), d, col)
    requires forall c :: 0 <= c < col ==> !ZeroColumn(Reduce(a, d, c), d, c)
    ensures !Invertible(a, d)
  {
    hide IsProduct, ZeroColumn, Reduce, Apply;
    var x := Residual(Reduce(a, d, col), d, col);
    ZeroColumnKernel(a, d, col);
    if b: Matrix :| IsProduct(b, a, Identity(d), d) {
      InverseNoKernel(a, b, d, x);
    }
  }

  lemma NonsingularInverse(a: Matrix, d: nat)
    requires Square(a, d) && !Singular(a, d)
    ensures Invertible(a, d)
  {
    hide IsProduct, ZeroColumn, Reduce, State;
    StateProgress(a, d, d);
    var e := State(a, d, d);
    Finish(a, e.m, e.inv, e.w, d);
  }

  /**
   * The exact gap: an invertible matrix is refused if and only if the largest entry of some pivot
   * column is nonzero but below the threshold; a matrix without an inverse is always refused.
   */
  lemma RefusedInvertibleIff(a: Matrix, d: nat)
    requires Square(a, d)
    ensures !Invertible(a, d) ==> Refused(a, d)
    ensures Invertible(a, d) ==>
              (Refused(a, d) <==> exists col :: 0 <= col < d && SmallColumn(Reduce(a, d, col), d, col)
                                                && !ZeroColumn(Reduce(a, d, col), d, col))
  {
    hide ZeroColumn, SmallColumn, Reduce;
    InvertibleIff(a, d);
    ZeroIsSmall(a, d);
  }

  /** `e` on the diagonal, zero elsewhere. */
  function Diagonal(d: nat, e: real): (m: Matrix)
    ensures Square(m, d)
  {
    seq(d, i requires 0 <= i < d => seq(d, j => if i == j then e else 0.0))
  }

  lemma DiagonalDot(d: nat, e: real, f: real, i: nat, j: nat)
    requires i < d && j < d
    ensures Dot(Diagonal(d, e)[i], Column(Diagonal(d, f), j)) == if i == j then Times(e, f) else 0.0
  {
    hide Dot;
    var x, y := Diagonal(d, e)[i], Column(Diagonal(d, f), j);
    var z := x[i := 0.0];
    DotUpdate(z, y, x, y, i);
    DotZero(z, y);
    assert y[i] == if i == j then f else 0.0;
  }

  lemma DiagonalProduct(d: nat, e: real, f: real)
    requires e * f == 1.0
    ensures IsProduct(Diagonal(d, e), Diagonal(d, f), Identity(d), d)
  {
    hide Dot;
    forall i, j | 0 <= i < d && 0 <= j < d
      ensures Identity(d)[i][j] == Dot(Diagonal(d, e)[i], Column(Diagonal(d, f), j))
    {
      DiagonalDot(d, e, f, i, j);
    }
  }

  /** In every dimension there are invertible matrices that are refused: small multiples of the identity. */
  lemma RefusedThoughInvertible(d: nat, e: real)
    requires d > 0 && 0.0 < e < PIVOT_MIN
    ensures Invertible(Diagonal(d, e), d) && Refused(Diagonal(d, e), d)
  {
    hide IsProduct;
    var f := 1.0 / e;
    assert f * e == 1.0;
    DiagonalProduct(d, f, e);
    assert Reduce(Diagonal(d, e), d, 0) == Diagonal(d, e);
    assert SmallColumn(Reduce(Diagonal(d, e), d, 0), d, 0);
  }
}
