/**
 * Square matrices over the reals, as rows, and the elementary operations that Gauss-Jordan
 * elimination is made of. A row operation on one factor of a product is undone by the matching
 * column operation on the other factor.
 */
module Matrices {
  type Vector = seq<real>
  type Matrix = seq<seq<real>>

  predicate Square(m: Matrix, d: nat) {
    |m| == d && forall i :: 0 <= i < d ==> |m[i]| == d
  }

  /** Named, so that a proof can treat a product as one term. */
  function Times(a: real, b: real): real {
    a * b
  }

  function Less(a: real, f: real, b: real): real {
    a - f * b
  }

  function Over(a: real, p: real): real
    requires p != 0.0
  {
    a / p
  }

  function Dot(x: Vector, y: Vector): real
    requires |x| == |y|
  {
    if x == [] then 0.0 else Times(x[0], y[0]) + Dot(x[1..], y[1..])
  }

  function Column(m: Matrix, j: nat): (c: Vector)
    requires forall i :: 0 <= i < |m| ==> j < |m[i]|
    ensures |c| == |m|
  {
    seq(|m|, i requires 0 <= i < |m| => m[i][j])
  }

  function Unit(d: nat, i: nat): Vector {
    seq(d, j => if i == j then 1.0 else 0.0)
  }

  function Identity(d: nat): (m: Matrix)
    ensures Square(m, d)
  {
    seq(d, i requires 0 <= i < d => Unit(d, i))
  }

  /** x * y, entry by entry. */
  ghost predicate IsProduct(x: Matrix, y: Matrix, z: Matrix, d: nat) {
    && Square(x, d) && Square(y, d) && Square(z, d)
    && forall i, j :: 0 <= i < d && 0 <= j < d ==> z[i][j] == Dot(x[i], Column(y, j))
  }

  // ---------------------------------------------------------------------
  // Row operations, and the column operations that undo them
  // ---------------------------------------------------------------------

  function Scale(x: Vector, p: real): (r: Vector)
    requires p != 0.0
    ensures |r| == |x|
  {
    seq(|x|, j requires 0 <= j < |x| => Over(x[j], p))
  }

  function Minus(x: Vector, f: real, y: Vector): (r: Vector)
    requires |x| == |y|
    ensures |r| == |x|
  {
    seq(|x|, j requires 0 <= j < |x| => Less(x[j], f, y[j]))
  }

  function SwapRows(m: Matrix, p: nat, q: nat): Matrix
    requires p < |m| && q < |m|
  {
    m[p := m[q]][q := m[p]]
  }

  function ScaleRow(m: Matrix, c: nat, p: real): Matrix
    requires c < |m| && p != 0.0
  {
    m[c := Scale(m[c], p)]
  }

  function SubRow(m: Matrix, r: nat, f: real, c: nat): Matrix
    requires r < |m| && c < |m| && |m[r]| == |m[c]|
  {
    m[r := Minus(m[r], f, m[c])]
  }

  function SwapColumns(w: Matrix, d: nat, p: nat, q: nat): (r: Matrix)
    requires Square(w, d) && p < d && q < d
    ensures Square(r, d)
  {
    seq(d, i requires 0 <= i < d => w[i][p := w[i][q]][q := w[i][p]])
  }

  function ScaleColumn(w: Matrix, d: nat, c: nat, p: real): (r: Matrix)
    requires Square(w, d) && c < d
    ensures Square(r, d)
  {
    seq(d, i requires 0 <= i < d => w[i][c := w[i][c] * p])
  }

  function AddColumn(w: Matrix, d: nat, c: nat, f: real, r: nat): (z: Matrix)
    requires Square(w, d) && c < d && r < d
    ensures Square(z, d)
  {
    seq(d, i requires 0 <= i < d => w[i][c := w[i][c] + f * w[i][r]])
  }

  // ---------------------------------------------------------------------
  // Sums of products
  // ---------------------------------------------------------------------

  lemma {:induction false} DotScale(x: Vector, p: real, y: Vector)
    requires |x| == |y| && p != 0.0
    ensures Dot(Scale(x, p), y) == Dot(x, y) / p
  {
    if x != [] {
      DotScale(x[1..], p, y[1..]);
      assert Scale(x, p)[1..] == Scale(x[1..], p);
      assert x[0] / p * y[0] == x[0] * y[0] / p;
    }
  }

  lemma MinusTail(x: Vector, f: real, z: Vector)
    requires |x| == |z| > 0
    ensures Minus(x, f, z)[1..] == Minus(x[1..], f, z[1..])
    ensures Minus(x, f, z)[0] == Less(x[0], f, z[0])
  {
    hide Less;
  }

  lemma TimesLess(a: real, f: real, b: real, y: real, rest: real)
    ensures Times(Less(a, f, b), y) == Times(a, y) - f * Times(b, y)
    ensures f * (Times(b, y) + rest) == f * Times(b, y) + f * rest
  {
  }

  lemma {:induction false} DotMinus(x: Vector, f: real, z: Vector, y: Vector)
    requires |x| == |y| == |z|
    ensures Dot(Minus(x, f, z), y) == Less(Dot(x, y), f, Dot(z, y))
  {
    hide Times, Minus;
    if x != [] {
      MinusTail(x, f, z);
      DotMinus(x[1..], f, z[1..], y[1..]);
      TimesLess(x[0], f, z[0], y[0], Dot(z[1..], y[1..]));
    }
  }

  lemma {:induction false} DotSplit(x: Vector, y: Vector, k: nat)
    requires |x| == |y| && k <= |x|
    ensures Dot(x, y) == Dot(x[..k], y[..k]) + Dot(x[k..], y[k..])
  {
    hide Times;
    if k == 0 {
      assert x[k..] == x && y[k..] == y;
    } else {
      DotSplit(x[1..], y[1..], k - 1);
      assert x[..k][1..] == x[1..][..k - 1] && y[..k][1..] == y[1..][..k - 1];
      assert x[k..] == x[1..][k - 1..] && y[k..] == y[1..][k - 1..];
    }
  }

  predicate SameBut(x: Vector, u: Vector, p: nat, q: nat) {
    |x| == |u| && forall k :: 0 <= k < |x| && k != p && k != q ==> x[k] == u[k]
  }

  lemma SameParts(x: Vector, u: Vector, k: nat)
    requires SameBut(x, u, k, k) && k < |x|
    ensures x[..k] == u[..k] && x[k..][1..] == u[k..][1..]
  {
  }

  /** Changing one position changes the sum by the change of that product. */
  lemma DotUpdate(x: Vector, y: Vector, u: Vector, v: Vector, k: nat)
    requires |x| == |y| && k < |x| && SameBut(x, u, k, k) && SameBut(y, v, k, k)
    ensures Dot(u, v) - Times(u[k], v[k]) == Dot(x, y) - Times(x[k], y[k])
  {
    hide Times;
    SameParts(x, u, k);
    SameParts(y, v, k);
    DotSplit(x, y, k);
    DotSplit(u, v, k);
  }

  /** Two positions may change together as long as their products keep their sum. */
  lemma DotTwo(x: Vector, y: Vector, u: Vector, v: Vector, p: nat, q: nat)
    requires |x| == |y| && SameBut(x, u, p, q) && SameBut(y, v, p, q)
    requires p < |x| && q < |x| && p != q
    requires Times(x[p], y[p]) + Times(x[q], y[q]) == Times(u[p], v[p]) + Times(u[q], v[q])
    ensures Dot(x, y) == Dot(u, v)
  {
    hide Times, Dot;
    var x1, y1 := x[p := u[p]], y[p := v[p]];
    DotUpdate(x, y, x1, y1, p);
    DotUpdate(x1, y1, u, v, q);
  }

  // ---------------------------------------------------------------------
  // A row operation on both sides of m = inv * a
  // ---------------------------------------------------------------------

  lemma SwapKeeps(x: Matrix, a: Matrix, z: Matrix, d: nat, p: nat, q: nat)
    requires IsProduct(x, a, z, d) && p < d && q < d
    ensures IsProduct(SwapRows(x, p, q), a, SwapRows(z, p, q), d)
  {
    hide Dot, Column;
  }

  lemma ScaleKeeps(x: Matrix, a: Matrix, z: Matrix, d: nat, c: nat, p: real)
    requires IsProduct(x, a, z, d) && c < d && p != 0.0
    ensures IsProduct(ScaleRow(x, c, p), a, ScaleRow(z, c, p), d)
  {
    hide Dot, Column;
    forall j | 0 <= j < d
      ensures Scale(z[c], p)[j] == Dot(Scale(x[c], p), Column(a, j))
    {
      DotScale(x[c], p, Column(a, j));
    }
  }

  lemma SubKeeps(x: Matrix, a: Matrix, z: Matrix, d: nat, r: nat, f: real, c: nat)
    requires IsProduct(x, a, z, d) && r < d && c < d
    ensures IsProduct(SubRow(x, r, f, c), a, SubRow(z, r, f, c), d)
  {
    hide Dot, Column, Less;
    forall j | 0 <= j < d
      ensures Minus(z[r], f, z[c])[j] == Dot(Minus(x[r], f, x[c]), Column(a, j))
    {
      DotMinus(x[r], f, x[c], Column(a, j));
    }
  }

  // ---------------------------------------------------------------------
  // A row operation on the right factor, its undoing on the left
  // ---------------------------------------------------------------------

  lemma SwapBack(w: Matrix, m: Matrix, a: Matrix, d: nat, p: nat, q: nat)
    requires IsProduct(w, m, a, d) && p < d && q < d && p != q
    ensures IsProduct(SwapColumns(w, d, p, q), SwapRows(m, p, q), a, d)
  {
    hide Dot;
    var v, n := SwapColumns(w, d, p, q), SwapRows(m, p, q);
    forall i, j | 0 <= i < d && 0 <= j < d
      ensures a[i][j] == Dot(v[i], Column(n, j))
    {
      DotTwo(w[i], Column(m, j), v[i], Column(n, j), p, q);
    }
  }

  lemma TimesCancel(a: real, b: real, p: real)
    requires p != 0.0
    ensures Times(a * p, b / p) == Times(a, b)
  {
    assert (a * p) * (b / p) == a * (p * (b / p));
  }

  lemma ScaleBack(w: Matrix, m: Matrix, a: Matrix, d: nat, c: nat, p: real)
    requires IsProduct(w, m, a, d) && c < d && p != 0.0
    ensures IsProduct(ScaleColumn(w, d, c, p), ScaleRow(m, c, p), a, d)
  {
    hide Dot;
    var v, n := ScaleColumn(w, d, c, p), ScaleRow(m, c, p);
    forall i, j | 0 <= i < d && 0 <= j < d
      ensures a[i][j] == Dot(v[i], Column(n, j))
    {
      DotUpdate(w[i], Column(m, j), v[i], Column(n, j), c);
      assert n[c][j] == m[c][j] / p && v[i][c] == w[i][c] * p;
      assert Times(v[i][c], n[c][j]) == Times(w[i][c], m[c][j]) by {
        TimesCancel(w[i][c], m[c][j], p);
      }
    }
  }

  lemma SubBack(w: Matrix, m: Matrix, a: Matrix, d: nat, r: nat, f: real, c: nat)
    requires IsProduct(w, m, a, d) && c < d && r < d && r != c
    ensures IsProduct(AddColumn(w, d, c, f, r), SubRow(m, r, f, c), a, d)
  {
    hide Dot;
    var v, n := AddColumn(w, d, c, f, r), SubRow(m, r, f, c);
    forall i, j | 0 <= i < d && 0 <= j < d
      ensures a[i][j] == Dot(v[i], Column(n, j))
    {
      var s, t := w[i], Column(m, j);
      assert t[c] == m[c][j] && t[r] == m[r][j];
      assert (s[c] + f * s[r]) * t[c] + s[r] * (t[r] - f * t[c]) == s[c] * t[c] + s[r] * t[r];
      DotTwo(s, t, v[i], Column(n, j), c, r);
    }
  }

  // ---------------------------------------------------------------------
  // The identity
  // ---------------------------------------------------------------------

  lemma {:induction false} DotZero(x: Vector, y: Vector)
    requires |x| == |y| && forall k :: 0 <= k < |x| ==> x[k] == 0.0
    ensures Dot(x, y) == 0.0 && Dot(y, x) == 0.0
  {
    if x != [] {
      DotZero(x[1..], y[1..]);
    }
  }

  lemma DotUnit(x: Vector, i: nat)
    requires i < |x|
    ensures Dot(Unit(|x|, i), x) == x[i] && Dot(x, Unit(|x|, i)) == x[i]
  {
    var u := Unit(|x|, i);
    var z := u[i := 0.0];
    DotUpdate(u, x, z, x, i);
    DotUpdate(x, u, x, z, i);
    DotZero(z, x);
  }

  lemma IdentityColumn(d: nat, j: nat)
    requires j < d
    ensures Column(Identity(d), j) == Unit(d, j)
  {
  }

  lemma LeftIdentity(m: Matrix, d: nat)
    requires Square(m, d)
    ensures IsProduct(Identity(d), m, m, d)
  {
    hide Dot;
    forall i, j | 0 <= i < d && 0 <= j < d
      ensures m[i][j] == Dot(Identity(d)[i], Column(m, j))
    {
      DotUnit(Column(m, j), i);
    }
  }

  /** w * I is w, so a product with the identity names its left factor. */
  lemma RightIdentity(w: Matrix, a: Matrix, d: nat)
    requires IsProduct(w, Identity(d), a, d)
    ensures w == a
  {
    hide Dot;
    forall i | 0 <= i < d
      ensures w[i] == a[i]
    {
      forall j | 0 <= j < d
        ensures w[i][j] == a[i][j]
      {
        IdentityColumn(d, j);
        DotUnit(w[i], j);
      }
    }
  }

  // ---------------------------------------------------------------------
  // A left inverse leaves nothing to annihilate
  // ---------------------------------------------------------------------

  function Apply(m: Matrix, x: Vector): (r: Vector)
    requires forall i :: 0 <= i < |m| ==> |m[i]| == |x|
    ensures |r| == |m|
  {
    seq(|m|, i requires 0 <= i < |m| => Dot(m[i], x))
  }

  /** The first k terms of  sum over j of Dot(b, column j of a) * x[j]. */
  function Through(b: Vector, a: Matrix, d: nat, x: Vector, k: nat): real
    requires Square(a, d) && |b| == |x| == d && k <= d
  {
    if k == 0 then 0.0
    else Through(b, a, d, x, k - 1) + Dot(b, Column(a, k - 1)) * x[k - 1]
  }

  function ApplyFirst(a: Matrix, d: nat, x: Vector, k: nat): (r: Vector)
    requires Square(a, d) && |x| == d && k <= d
    ensures |r| == d
  {
    seq(d, i requires 0 <= i < d => Dot(a[i][..k], x[..k]))
  }

  lemma DotEmpty(x: Vector, y: Vector)
    requires |x| == |y| == 0
    ensures Dot(x, y) == 0.0
  {
  }

  lemma DotSnoc(x: Vector, y: Vector, k: nat)
    requires |x| == |y| && k < |x|
    ensures Dot(x[..k + 1], y[..k + 1]) == Dot(x[..k], y[..k]) + Times(x[k], y[k])
  {
    hide Times;
    var u, v := x[..k + 1], y[..k + 1];
    DotSplit(u, v, k);
    assert u[..k] == x[..k] && v[..k] == y[..k] && u[k..] == [x[k]] && v[k..] == [y[k]];
  }

  /** b * (a * x) == (b * a) * x, one column of a at a time. */
  lemma {:induction false} Associates(b: Vector, a: Matrix, d: nat, x: Vector, k: nat)
    requires Square(a, d) && |b| == |x| == d && k <= d
    ensures Dot(b, ApplyFirst(a, d, x, k)) == Through(b, a, d, x, k)
  {
    hide Dot;
    var y := ApplyFirst(a, d, x, k);
    if k == 0 {
      forall i | 0 <= i < d
        ensures y[i] == 0.0
      {
        DotEmpty(a[i][..0], x[..0]);
      }
      DotZero(y, b);
    } else {
      Associates(b, a, d, x, k - 1);
      var z, c := ApplyFirst(a, d, x, k - 1), Column(a, k - 1);
      forall i | 0 <= i < d
        ensures y[i] == z[i] - (0.0 - x[k - 1]) * c[i]
      {
        DotSnoc(a[i], x, k - 1);
      }
      assert y == Minus(z, 0.0 - x[k - 1], c);
      DotMinus(z, 0.0 - x[k - 1], c, b);
      DotCommutes(y, b);
      DotCommutes(z, b);
      DotCommutes(c, b);
    }
  }

  lemma {:induction false} DotCommutes(x: Vector, y: Vector)
    requires |x| == |y|
    ensures Dot(x, y) == Dot(y, x)
  {
    if x != [] {
      DotCommutes(x[1..], y[1..]);
    }
  }

  /** When b * a = I, Through with row i of b picks x[i]. */
  lemma {:induction false} ThroughUnit(b: Matrix, a: Matrix, d: nat, x: Vector, i: nat, k: nat)
    requires IsProduct(b, a, Identity(d), d) && |x| == d && i < d && k <= d
    ensures Through(b[i], a, d, x, k) == if i < k then x[i] else 0.0
  {
    hide Dot;
    if k > 0 {
      ThroughUnit(b, a, d, x, i, k - 1);
      assert Dot(b[i], Column(a, k - 1)) == Identity(d)[i][k - 1];
    }
  }

  lemma InverseIsInjective(b: Matrix, a: Matrix, d: nat, x: Vector)
    requires IsProduct(b, a, Identity(d), d) && |x| == d
    ensures Apply(b, Apply(a, x)) == x
  {
    hide Dot;
    forall i | 0 <= i < d
      ensures Apply(b, Apply(a, x))[i] == x[i]
    {
      Associates(b[i], a, d, x, d);
      assert ApplyFirst(a, d, x, d) == Apply(a, x) by {
        assert x[..d] == x;
        assert forall j :: 0 <= j < d ==> a[j][..d] == a[j];
      }
      ThroughUnit(b, a, d, x, i, d);
    }
  }
}
