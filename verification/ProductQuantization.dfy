/**
 * Product quantisation over the reals: 4-bit packing, encoding to the nearest centroids, and
 * the distance tables.  The tables give exactly the distance to the decoded vector.
 */
module ProductQuantization {
  import opened Records
  import opened FlatIndex
  import Matrices

  type Vector = Matrices.Vector

  // ---------------------------------------------------------------------
  // Nibbles
  // ---------------------------------------------------------------------

  lemma PackedNibbles(low: bv8, high: bv8)
    requires low < 16 && high < 16
    ensures (low | (high << 4)) & 0x0f == low && (low | (high << 4)) >> 4 == high
  {
  }

  lemma NibbleValues(b: bv8)
    ensures (b & 0x0f) as nat == (b as nat) % 16 && (b >> 4) as nat == (b as nat) / 16
  {
  }

  lemma SameNibbles(a: bv8, b: bv8)
    requires a & 0x0f == b & 0x0f && a >> 4 == b >> 4
    ensures a == b
  {
  }

  lemma ByteValue(c: nat)
    requires c < 256
    ensures (c as bv8) as nat == c && (c < 16 ==> (c as bv8) & 0x0f == c as bv8 && (c as bv8) < 16)
  {
  }

  // ---------------------------------------------------------------------
  // Distances
  // ---------------------------------------------------------------------

  function Square(a: real): real {
    Matrices.Times(a, a)
  }

  function SquaredL2(x: Vector, y: Vector): real
    requires |x| == |y|
  {
    if x == [] then 0.0 else Square(x[0] - y[0]) + SquaredL2(x[1..], y[1..])
  }

  /** Smaller is nearer for every metric. */
  function Key(metric: Metric, x: Vector, y: Vector): real
    requires |x| == |y|
  {
    if metric.L2? then SquaredL2(x, y) else -Matrices.Dot(x, y)
  }

  /** Squared distance for L2, the negated inner product for the other two. */
  lemma KeyIs(metric: Metric, x: Vector, y: Vector)
    requires |x| == |y|
    ensures metric == L2 ==> Key(metric, x, y) == SquaredL2(x, y)
    ensures metric == Cosine || metric == Dot ==> Key(metric, x, y) == -Matrices.Dot(x, y)
  {
  }

  lemma {:induction false} KeySplits(metric: Metric, x: Vector, y: Vector, u: Vector, v: Vector)
    requires |x| == |y| && |u| == |v|
    ensures Key(metric, x + u, y + v) == Key(metric, x, y) + Key(metric, u, v)
  {
    if x == [] {
      assert x + u == u && y + v == v;
    } else {
      KeySplits(metric, x[1..], y[1..], u, v);
      assert (x + u)[1..] == x[1..] + u && (y + v)[1..] == y[1..] + v;
    }
  }

  lemma {:induction false} DistanceZero(x: Vector, y: Vector)
    requires |x| == |y|
    ensures SquaredL2(x, y) >= 0.0 && (SquaredL2(x, y) == 0.0 <==> x == y)
  {
    hide Square;
    if x != [] {
      DistanceZero(x[1..], y[1..]);
      assert x == [x[0]] + x[1..] && y == [y[0]] + y[1..];
      if x[0] == y[0] {
        SquareOfZero(x[0] - y[0]);
      } else {
        SquarePositive(x[0] - y[0]);
      }
    }
  }

  lemma TimesPositive(a: real, b: real)
    requires a > 0.0 && b > 0.0
    ensures Matrices.Times(a, b) > 0.0
  {
  }

  lemma SquarePositive(a: real)
    requires a < 0.0 || a > 0.0
    ensures Square(a) > 0.0
  {
    if a < 0.0 {
      TimesPositive(-a, -a);
      assert Matrices.Times(a, a) == Matrices.Times(-a, -a);
    } else {
      hide Matrices.Times;
      TimesPositive(a, a);
    }
  }

  lemma SquareOfZero(a: real)
    requires a == 0.0
    ensures Square(a) == 0.0
  {
  }

  // ---------------------------------------------------------------------
  // The codebook
  // ---------------------------------------------------------------------

  datatype Codebook = Codebook(m: nat, dsub: nat, nbits: nat, centroids: Vector) {
    predicate Valid() {
      (nbits == 4 || nbits == 8) && |centroids| == m * Ksub() * dsub
    }

    function Ksub(): nat {
      if nbits == 4 then 16 else 256
    }

    function Dim(): nat {
      m * dsub
    }

    function CodeBytes(): nat {
      (m * nbits + 7) / 8
    }
  }

  lemma CentroidBound(cb: Codebook, j: nat, c: nat)
    requires cb.Valid() && j < cb.m && c < cb.Ksub()
    ensures Cell(cb.dsub, Cell(cb.Ksub(), j, c), 0) + cb.dsub <= |cb.centroids|
  {
    CellBound(cb.Ksub(), cb.m, j, c);
    if cb.dsub > 0 {
      CellBound(cb.dsub, cb.m * cb.Ksub(), Cell(cb.Ksub(), j, c), 0);
    }
  }

  function Centroid(cb: Codebook, j: nat, c: nat): (v: Vector)
    requires cb.Valid() && j < cb.m && c < cb.Ksub()
    ensures |v| == cb.dsub
  {
    CentroidBound(cb, j, c);
    var base := Cell(cb.dsub, Cell(cb.Ksub(), j, c), 0);
    cb.centroids[base..base + cb.dsub]
  }

  function Sub(cb: Codebook, v: Vector, j: nat): (s: Vector)
    requires |v| == cb.Dim() && j < cb.m
    ensures |s| == cb.dsub
  {
    SubBound(cb, j);
    v[Cell(cb.dsub, j, 0)..Cell(cb.dsub, j, 0) + cb.dsub]
  }

  lemma SubBound(cb: Codebook, j: nat)
    requires j < cb.m
    ensures Cell(cb.dsub, j, 0) + cb.dsub == Cell(cb.dsub, j + 1, 0) <= cb.Dim()
  {
    if cb.dsub > 0 {
      CellBound(cb.dsub, cb.m, j, 0);
    }
  }

  /** `sub_code`: with 4 bits, an even sub-vector is in the low nibble. */
  function SubCode(cb: Codebook, code: seq<bv8>, j: nat): (c: nat)
    requires cb.Valid() && (if cb.nbits == 4 then j / 2 < |code| else j < |code|)
    ensures c < cb.Ksub()
  {
    if cb.nbits == 4 then
      var byte := code[j / 2];
      NibbleValues(byte);
      if j % 2 == 0 then (byte & 0x0f) as nat else (byte >> 4) as nat
    else code[j] as nat
  }

  // ---------------------------------------------------------------------
  // Encoding
  // ---------------------------------------------------------------------

  /** The first of the nearest centroids, as a strict comparison finds it. */
  ghost predicate IsNearest(cb: Codebook, x: Vector, j: nat, c: nat) {
    && cb.Valid() && j < cb.m && |x| == cb.dsub && c < cb.Ksub()
    && forall e :: 0 <= e < cb.Ksub() ==>
      && SquaredL2(x, Centroid(cb, j, c)) <= SquaredL2(x, Centroid(cb, j, e))
      && (e < c ==> SquaredL2(x, Centroid(cb, j, c)) < SquaredL2(x, Centroid(cb, j, e)))
  }

  method Nearest(cb: Codebook, x: Vector, j: nat) returns (best: nat)
    requires cb.Valid() && j < cb.m && |x| == cb.dsub
    ensures IsNearest(cb, x, j, best)
  {
    hide SquaredL2, Centroid;
    best := 0;
    var bestD := None;
    for c := 0 to cb.Ksub()
      invariant bestD.None? <==> c == 0
      invariant bestD.Some? ==> best < c && bestD.value == SquaredL2(x, Centroid(cb, j, best))
      invariant bestD.Some? ==> forall e :: 0 <= e < c ==> bestD.value <= SquaredL2(x, Centroid(cb, j, e))
      invariant bestD.Some? ==> forall e :: 0 <= e < best ==> bestD.value < SquaredL2(x, Centroid(cb, j, e))
    {
      var d := SquaredL2(x, Centroid(cb, j, c));
      if bestD.None? || d < bestD.value {
        bestD := Some(d);
        best := c;
      }
    }
  }

  /** With an odd number of nibbles, the last high nibble is zero. */
  predicate ZeroPadded(cb: Codebook, code: seq<bv8>) {
    cb.nbits == 4 && cb.m % 2 == 1 && |code| == cb.CodeBytes() ==> code[cb.m / 2] >> 4 == 0
  }

  ghost predicate IsCode(cb: Codebook, v: Vector, code: seq<bv8>) {
    && cb.Valid() && |v| == cb.Dim() && |code| == cb.CodeBytes()
    && ZeroPadded(cb, code)
    && forall j :: 0 <= j < cb.m ==> IsNearest(cb, Sub(cb, v, j), j, SubCode(cb, code, j))
  }

  /** The sub-codes already in the output are the nearest ones. */
  ghost predicate Written(cb: Codebook, v: Vector, code: seq<bv8>, n: nat) {
    && cb.Valid() && |v| == cb.Dim() && n <= cb.m
    && (if cb.nbits == 4 then n <= 2 * |code| else n <= |code|)
    && forall j :: 0 <= j < n ==> IsNearest(cb, Sub(cb, v, j), j, SubCode(cb, code, j))
  }

  lemma WrittenNext(cb: Codebook, v: Vector, code: seq<bv8>, b: bv8, n: nat, k: nat)
    requires Written(cb, v, code, n) && n <= k <= cb.m
    requires if cb.nbits == 4 then n == 2 * |code| && k <= n + 2 else n == |code| && k <= n + 1
    requires forall j :: n <= j < k ==> IsNearest(cb, Sub(cb, v, j), j, SubCode(cb, code + [b], j))
    ensures Written(cb, v, code + [b], k)
  {
    hide IsNearest;
    forall j | 0 <= j < n
      ensures SubCode(cb, code + [b], j) == SubCode(cb, code, j)
    {
    }
  }

  lemma LowNibble(b: bv8)
    requires b < 16
    ensures b & 0x0f == b && b >> 4 == 0
  {
  }

  lemma NearestRange(cb: Codebook, v: Vector, j: nat, c: nat)
    requires cb.Valid() && |v| == cb.Dim() && j < cb.m && IsNearest(cb, Sub(cb, v, j), j, c)
    ensures c < cb.Ksub()
  {
  }

  lemma NothingWritten(cb: Codebook, v: Vector)
    requires cb.Valid() && |v| == cb.Dim()
    ensures Written(cb, v, [], 0) && (cb.nbits == 4 || cb.nbits == 8)
  {
  }

  /** The nearest centroid's number fits the bits of a sub-code. */
  lemma NearestByte(cb: Codebook, v: Vector, j: nat, c: nat)
    requires cb.Valid() && |v| == cb.Dim() && j < cb.m && IsNearest(cb, Sub(cb, v, j), j, c)
    ensures c < 256 && (c as bv8) as nat == c
    ensures cb.nbits == 4 ==> (c as bv8) & 0x0f == c as bv8 && (c as bv8) < 16
  {
    hide IsNearest, Sub, Codebook.Dim;
    NearestRange(cb, v, j, c);
    ByteValue(c);
  }

  lemma WrittenByte(cb: Codebook, v: Vector, code: seq<bv8>, b: bv8, j: nat)
    requires Written(cb, v, code, j) && cb.nbits == 8 && |code| == j < cb.m && IsNearest(cb, Sub(cb, v, j), j, b as nat)
    ensures Written(cb, v, code + [b], j + 1)
  {
    hide IsNearest, Sub, Codebook.Ksub;
    WrittenNext(cb, v, code, b, j, j + 1);
  }

  lemma WrittenLast(cb: Codebook, v: Vector, code: seq<bv8>, low: bv8, j: nat)
    requires Written(cb, v, code, j) && cb.nbits == 4 && j == 2 * |code| && j + 1 == cb.m
    requires low < 16 && IsNearest(cb, Sub(cb, v, j), j, low as nat)
    ensures Written(cb, v, code + [low], j + 1) && (code + [low])[j / 2] >> 4 == 0
  {
    hide IsNearest, Sub, Codebook.Ksub;
    LowNibble(low);
    WrittenNext(cb, v, code, low, j, j + 1);
  }

  lemma WrittenPair(cb: Codebook, v: Vector, code: seq<bv8>, low: bv8, high: bv8, j: nat)
    requires 0 < j < cb.m && Written(cb, v, code, j - 1) && cb.nbits == 4 && j == 2 * |code| + 1
    requires low < 16 && IsNearest(cb, Sub(cb, v, j - 1), j - 1, low as nat)
    requires high < 16 && IsNearest(cb, Sub(cb, v, j), j, high as nat)
    ensures Written(cb, v, code + [low | (high << 4)], j + 1)
  {
    hide IsNearest, Sub, Codebook.Ksub;
    PackedNibbles(low, high);
    WrittenNext(cb, v, code, low | (high << 4), j - 1, j + 1);
  }

  lemma AllWritten(cb: Codebook, v: Vector, code: seq<bv8>)
    requires Written(cb, v, code, cb.m)
    requires if cb.nbits == 4 then |code| == (cb.m + 1) / 2 && (cb.m % 2 == 1 ==> code[cb.m / 2] >> 4 == 0)
        else |code| == cb.m
    ensures IsCode(cb, v, code)
  {
    hide IsNearest, Sub, SubCode, Codebook.Ksub;
  }

  /** `encode`. */
  method Encode(cb: Codebook, v: Vector) returns (code: seq<bv8>)
    requires cb.Valid() && |v| == cb.Dim()
    ensures IsCode(cb, v, code)
  {
    hide IsNearest, Sub, SubCode, Written, Codebook.Valid, Codebook.Ksub, Codebook.Dim, Codebook.CodeBytes;
    code := [];
    NothingWritten(cb, v);
    var pending: bv8 := 0;
    for j := 0 to cb.m
      invariant cb.nbits == 8 ==> |code| == j && Written(cb, v, code, j)
      invariant cb.nbits == 4 && j % 2 == 0 ==> |code| == j / 2 && Written(cb, v, code, j)
      invariant cb.nbits == 4 && j % 2 == 1 && j < cb.m ==>
        && |code| == j / 2 && Written(cb, v, code, j - 1)
        && pending < 16 && IsNearest(cb, Sub(cb, v, j - 1), j - 1, pending as nat)
      invariant cb.nbits == 4 && j % 2 == 1 && j == cb.m ==>
        |code| == j / 2 + 1 && Written(cb, v, code, j) && code[j / 2] >> 4 == 0
    {
      var c := Nearest(cb, Sub(cb, v, j), j);
      NearestByte(cb, v, j, c);
      var best := c as bv8;
      if cb.nbits == 4 {
        if j % 2 == 0 {
          pending := best & 0x0f;
          if j + 1 == cb.m {
            WrittenLast(cb, v, code, pending, j);
            code := code + [pending];
          }
        } else {
          WrittenPair(cb, v, code, pending, best, j);
          code := code + [pending | (best << 4)];
        }
      } else {
        WrittenByte(cb, v, code, best, j);
        code := code + [best];
      }
    }
    AllWritten(cb, v, code);
  }

  // ---------------------------------------------------------------------
  // Decoding
  // ---------------------------------------------------------------------

  /** The centroids of the first k sub-codes, one after the other. */
  function Decoded(cb: Codebook, code: seq<bv8>, k: nat): (v: Vector)
    requires cb.Valid() && |code| == cb.CodeBytes() && k <= cb.m
    ensures |v| == Cell(cb.dsub, k, 0)
  {
    if k == 0 then [] else
      SubBound(cb, k - 1);
      Decoded(cb, code, k - 1) + Centroid(cb, k - 1, SubCode(cb, code, k - 1))
  }

  lemma {:induction false} DecodedSub(cb: Codebook, code: seq<bv8>, k: nat, j: nat)
    requires cb.Valid() && |code| == cb.CodeBytes() && j < k <= cb.m
    ensures Cell(cb.dsub, j, 0) + cb.dsub <= Cell(cb.dsub, k, 0)
    ensures Decoded(cb, code, k)[Cell(cb.dsub, j, 0)..Cell(cb.dsub, j, 0) + cb.dsub]
         == Centroid(cb, j, SubCode(cb, code, j))
  {
    hide Centroid, SubCode;
    SubBound(cb, k - 1);
    SubBound(cb, j);
    var c := Centroid(cb, k - 1, SubCode(cb, code, k - 1));
    assert Decoded(cb, code, k) == Decoded(cb, code, k - 1) + c;
    if j < k - 1 {
      DecodedSub(cb, code, k - 1, j);
    }
  }

  /** `decode_into`: copies each centroid over its place in the output. */
  method DecodeInto(cb: Codebook, code: seq<bv8>, out: array<real>)
    requires cb.Valid() && |code| == cb.CodeBytes() && out.Length == cb.Dim()
    modifies out
    ensures out[..] == Decoded(cb, code, cb.m)
  {
    for j := 0 to cb.m
      invariant Cell(cb.dsub, j, 0) <= out.Length
      invariant out[..Cell(cb.dsub, j, 0)] == Decoded(cb, code, j)
    {
      SubBound(cb, j);
      hide Decoded, Cell, Centroid, SubCode;
      var base := Cell(cb.dsub, j, 0);
      CopyInto(out, base, Centroid(cb, j, SubCode(cb, code, j)));
      DecodedNext(cb, code, j);
    }
    assert out[..] == out[..Cell(cb.dsub, cb.m, 0)];
  }

  method CopyInto(out: array<real>, base: nat, c: Vector)
    requires base + |c| <= out.Length
    modifies out
    ensures out[..base + |c|] == old(out[..base]) + c
    ensures out[base + |c|..] == old(out[base + |c|..])
  {
    for i := 0 to |c|
      invariant out[..base + i] == old(out[..base]) + c[..i]
      invariant out[base + i..] == old(out[base + i..])
    {
      ghost var was := out[..];
      out[base + i] := c[i];
      assert out[..] == was[base + i := c[i]];
      assert out[..base + i + 1] == was[..base + i] + [c[i]];
      assert out[base + i + 1..] == was[base + i..][1..];
      assert old(out[base + i + 1..]) == old(out[base + i..])[1..];
    }
    assert c[..|c|] == c;
  }

  lemma DecodedNext(cb: Codebook, code: seq<bv8>, k: nat)
    requires cb.Valid() && |code| == cb.CodeBytes() && k < cb.m
    ensures Decoded(cb, code, k + 1) == Decoded(cb, code, k) + Centroid(cb, k, SubCode(cb, code, k))
  {
  }

  // ---------------------------------------------------------------------
  // Encoding what was decoded
  // ---------------------------------------------------------------------

  /** No earlier centroid of the same sub-vector equals centroid c. */
  ghost predicate IsFirst(cb: Codebook, j: nat, c: nat) {
    && cb.Valid() && j < cb.m && c < cb.Ksub()
    && forall e :: 0 <= e < c ==> Centroid(cb, j, e) != Centroid(cb, j, c)
  }

  ghost predicate FirstOfEqual(cb: Codebook, code: seq<bv8>) {
    && cb.Valid() && |code| == cb.CodeBytes()
    && forall j :: 0 <= j < cb.m ==> IsFirst(cb, j, SubCode(cb, code, j))
  }

  /** A strict comparison never picks the second of two equal centroids. */
  lemma CodesNameFirst(cb: Codebook, v: Vector, code: seq<bv8>)
    requires IsCode(cb, v, code)
    ensures FirstOfEqual(cb, code)
  {
    hide SquaredL2, Centroid, SubCode, Sub;
    forall j | 0 <= j < cb.m
      ensures IsFirst(cb, j, SubCode(cb, code, j))
    {
      assert IsNearest(cb, Sub(cb, v, j), j, SubCode(cb, code, j));
    }
  }

  /** The nearest centroid to a centroid is the first one equal to it. */
  lemma NearestOfCentroid(cb: Codebook, j: nat, c: nat, e: nat)
    requires cb.Valid() && j < cb.m && c < cb.Ksub()
    requires IsNearest(cb, Centroid(cb, j, c), j, e)
    ensures Centroid(cb, j, e) == Centroid(cb, j, c) && e <= c
    ensures forall f :: 0 <= f < e ==> Centroid(cb, j, f) != Centroid(cb, j, c)
  {
    hide Centroid;
    var x := Centroid(cb, j, c);
    DistanceZero(x, x);
    DistanceZero(x, Centroid(cb, j, e));
    assert SquaredL2(x, Centroid(cb, j, e)) <= SquaredL2(x, Centroid(cb, j, c));
    forall f | 0 <= f < e
      ensures Centroid(cb, j, f) != x
    {
      DistanceZero(x, Centroid(cb, j, f));
    }
  }

  lemma SameCode(cb: Codebook, a: seq<bv8>, b: seq<bv8>)
    requires cb.Valid() && |a| == |b| == cb.CodeBytes() && ZeroPadded(cb, a) && ZeroPadded(cb, b)
    requires forall j :: 0 <= j < cb.m ==> SubCode(cb, a, j) == SubCode(cb, b, j)
    ensures a == b
  {
    hide Codebook.Ksub, SubCode, ZeroPadded, Codebook.Valid;
    forall i | 0 <= i < |a| ensures a[i] == b[i] {
      if cb.nbits == 4 {
        SameFused(cb, a, b, i);
      } else {
        SameWhole(cb, a, b, i);
      }
    }
  }

  lemma SameWhole(cb: Codebook, a: seq<bv8>, b: seq<bv8>, i: nat)
    requires cb.Valid() && |a| == |b| == cb.CodeBytes()
    requires cb.nbits != 4 && i < |a| && forall j :: 0 <= j < cb.m ==> SubCode(cb, a, j) == SubCode(cb, b, j)
    ensures a[i] == b[i]
  {
    hide Codebook.Ksub;
    assert SubCode(cb, a, i) == SubCode(cb, b, i);
    SameValue(a[i], b[i]);
  }

  lemma SameFused(cb: Codebook, a: seq<bv8>, b: seq<bv8>, i: nat)
    requires cb.Valid() && |a| == |b| == cb.CodeBytes() && ZeroPadded(cb, a) && ZeroPadded(cb, b)
    requires cb.nbits == 4 && i < |a| && forall j :: 0 <= j < cb.m ==> SubCode(cb, a, j) == SubCode(cb, b, j)
    ensures a[i] == b[i]
  {
    hide Codebook.Ksub, SubCode;
    SameHalf(cb, a, b, 2 * i);
    if 2 * i + 1 < cb.m {
      SameHalf(cb, a, b, 2 * i + 1);
    }
    SameNibbles(a[i], b[i]);
  }

  lemma SameHalf(cb: Codebook, a: seq<bv8>, b: seq<bv8>, j: nat)
    requires cb.Valid() && cb.nbits == 4 && j / 2 < |a| && j / 2 < |b| && SubCode(cb, a, j) == SubCode(cb, b, j)
    ensures if j % 2 == 0 then a[j / 2] & 0x0f == b[j / 2] & 0x0f else a[j / 2] >> 4 == b[j / 2] >> 4
  {
    hide Codebook.Ksub;
    if j % 2 == 0 {
      SameLow(a[j / 2], b[j / 2]);
    } else {
      SameHigh(a[j / 2], b[j / 2]);
    }
  }

  lemma SameLow(a: bv8, b: bv8)
    requires (a & 0x0f) as nat == (b & 0x0f) as nat
    ensures a & 0x0f == b & 0x0f
  {
  }

  lemma SameHigh(a: bv8, b: bv8)
    requires (a >> 4) as nat == (b >> 4) as nat
    ensures a >> 4 == b >> 4
  {
  }

  lemma SameValue(a: bv8, b: bv8)
    requires a as nat == b as nat
    ensures a == b
  {
  }

  /** Encoding a decoded code picks, for each sub-vector, the first centroid equal to the one named. */
  lemma SubCodesMatch(cb: Codebook, code: seq<bv8>, again: seq<bv8>, j: nat)
    requires cb.Valid() && |code| == cb.CodeBytes() && j < cb.m
    requires IsCode(cb, Decoded(cb, code, cb.m), again)
    ensures Centroid(cb, j, SubCode(cb, again, j)) == Centroid(cb, j, SubCode(cb, code, j))
    ensures SubCode(cb, again, j) <= SubCode(cb, code, j)
  {
    hide IsNearest, Centroid, SubCode, Decoded, ZeroPadded;
    DecodedSub(cb, code, cb.m, j);
    NearestOfCentroid(cb, j, SubCode(cb, code, j), SubCode(cb, again, j));
  }

  lemma SameFirst(cb: Codebook, j: nat, c: nat, e: nat)
    requires IsFirst(cb, j, c) && e <= c && Centroid(cb, j, e) == Centroid(cb, j, c)
    ensures e == c
  {
    hide Centroid;
  }

  /**
   * Encoding a decoded code gives the code back exactly when the code is padded
   * with a zero nibble and names the first of equal centroids.
   */
  lemma DecodeEncode(cb: Codebook, code: seq<bv8>, again: seq<bv8>)
    requires cb.Valid() && |code| == cb.CodeBytes()
    requires IsCode(cb, Decoded(cb, code, cb.m), again)
    ensures again == code <==> ZeroPadded(cb, code) && FirstOfEqual(cb, code)
  {
    hide IsNearest, Centroid, SubCode, Decoded, IsFirst, Sub;
    CodesNameFirst(cb, Decoded(cb, code, cb.m), again);
    if ZeroPadded(cb, code) && FirstOfEqual(cb, code) {
      forall j | 0 <= j < cb.m
        ensures SubCode(cb, again, j) == SubCode(cb, code, j)
      {
        SubCodesMatch(cb, code, again, j);
        SameFirst(cb, j, SubCode(cb, code, j), SubCode(cb, again, j));
      }
      SameCode(cb, again, code);
    }
  }

  /** So what `encode` wrote survives decoding and encoding again. */
  lemma EncodeDecodeEncode(cb: Codebook, v: Vector, code: seq<bv8>, again: seq<bv8>)
    requires IsCode(cb, v, code) && IsCode(cb, Decoded(cb, code, cb.m), again)
    ensures again == code
  {
    hide IsNearest;
    CodesNameFirst(cb, v, code);
    DecodeEncode(cb, code, again);
  }

  // ---------------------------------------------------------------------
  // Distance tables
  // ---------------------------------------------------------------------

  function Entry(cb: Codebook, query: Vector, metric: Metric, j: nat, c: nat): real
    requires cb.Valid() && |query| == cb.Dim() && j < cb.m && c < cb.Ksub()
  {
    Key(metric, Sub(cb, query, j), Centroid(cb, j, c))
  }

  /** One entry for each sub-vector and centroid. */
  ghost predicate IsSubTable(cb: Codebook, query: Vector, metric: Metric, lut: seq<real>, rows: nat) {
    && cb.Valid() && |query| == cb.Dim() && rows <= cb.m && |lut| == cb.m * cb.Ksub()
    && forall j, c :: 0 <= j < rows && 0 <= c < cb.Ksub() ==>
      && Cell(cb.Ksub(), j, c) < |lut|
      && lut[Cell(cb.Ksub(), j, c)] == Entry(cb, query, metric, j, c)
  }

  /** `build_sub_lut`. */
  method BuildSubTable(cb: Codebook, query: Vector, metric: Metric) returns (table: seq<real>)
    requires cb.Valid() && |query| == cb.Dim()
    ensures IsSubTable(cb, query, metric, table, cb.m)
  {
    var lut := new real[cb.m * cb.Ksub()](_ => 0.0);
    for j := 0 to cb.m
      invariant IsSubTable(cb, query, metric, lut[..], j)
    {
      hide Entry, Cell, IsSubTable;
      for c := 0 to cb.Ksub()
        invariant IsSubTable(cb, query, metric, lut[..], j)
        invariant RowFilled(cb, query, metric, lut[..], j, c)
      {
        CellBound(cb.Ksub(), cb.m, j, c);
        ghost var was := lut[..];
        lut[Cell(cb.Ksub(), j, c)] := Entry(cb, query, metric, j, c);
        assert lut[..] == was[Cell(cb.Ksub(), j, c) := Entry(cb, query, metric, j, c)];
        FillNext(cb, query, metric, was, j, c);
      }
      RowDone(cb, query, metric, lut[..], j);
    }
    table := lut[..];
  }

  ghost predicate RowFilled(cb: Codebook, query: Vector, metric: Metric, lut: seq<real>, j: nat, n: nat) {
    && cb.Valid() && |query| == cb.Dim() && j < cb.m && n <= cb.Ksub()
    && forall c :: 0 <= c < n ==>
      && Cell(cb.Ksub(), j, c) < |lut|
      && lut[Cell(cb.Ksub(), j, c)] == Entry(cb, query, metric, j, c)
  }

  lemma FillNext(cb: Codebook, query: Vector, metric: Metric, was: seq<real>, j: nat, c: nat)
    requires IsSubTable(cb, query, metric, was, j) && RowFilled(cb, query, metric, was, j, c)
    requires c < cb.Ksub() && Cell(cb.Ksub(), j, c) < |was|
    ensures
      var now := was[Cell(cb.Ksub(), j, c) := Entry(cb, query, metric, j, c)];
      IsSubTable(cb, query, metric, now, j) && RowFilled(cb, query, metric, now, j, c + 1)
  {
    hide Entry, Cell;
    forall i, e | 0 <= i <= j && 0 <= e < cb.Ksub() && Cell(cb.Ksub(), i, e) == Cell(cb.Ksub(), j, c)
      ensures i == j && e == c
    {
      CellUnique(cb.Ksub(), i, e, j, c);
    }
  }

  lemma RowDone(cb: Codebook, query: Vector, metric: Metric, lut: seq<real>, j: nat)
    requires IsSubTable(cb, query, metric, lut, j) && RowFilled(cb, query, metric, lut, j, cb.Ksub())
    ensures IsSubTable(cb, query, metric, lut, j + 1)
  {
    hide Entry, Cell;
  }

  /**
   * With 4 bits, one entry for each byte: both of its nibbles at once; an odd
   * last sub-vector keeps its own sixteen entries.
   */
  ghost predicate IsTable(cb: Codebook, query: Vector, metric: Metric, lut: seq<real>) {
    && cb.Valid() && |query| == cb.Dim()
    && if cb.nbits == 4 then
        && |lut| == cb.m / 2 * 256 + (if cb.m % 2 == 1 then 16 else 0)
        && FusedRows(cb, query, metric, lut, cb.m / 2)
        && (cb.m % 2 == 1 ==> FusedTail(cb, query, metric, lut, 16))
      else IsSubTable(cb, query, metric, lut, cb.m)
  }

  function FusedEntry(cb: Codebook, query: Vector, metric: Metric, i: nat, b: nat): real
    requires cb.Valid() && |query| == cb.Dim() && cb.nbits == 4 && 2 * i + 1 < cb.m && b < 256
  {
    Entry(cb, query, metric, 2 * i, b % 16) + Entry(cb, query, metric, 2 * i + 1, b / 16)
  }

  ghost predicate FusedRows(cb: Codebook, query: Vector, metric: Metric, lut: seq<real>, rows: nat)
    requires cb.Valid() && |query| == cb.Dim() && cb.nbits == 4
  {
    && rows <= cb.m / 2 && cb.m / 2 * 256 <= |lut|
    && forall i, b :: 0 <= i < rows && 0 <= b < 256 ==>
      lut[i * 256 + b] == FusedEntry(cb, query, metric, i, b)
  }

  ghost predicate FusedTail(cb: Codebook, query: Vector, metric: Metric, lut: seq<real>, n: nat)
    requires cb.Valid() && |query| == cb.Dim() && cb.nbits == 4 && cb.m % 2 == 1
  {
    && n <= 16 && cb.m / 2 * 256 + 16 == |lut|
    && forall c :: 0 <= c < n ==> lut[cb.m / 2 * 256..][c] == Entry(cb, query, metric, cb.m - 1, c)
  }

  lemma SubTableAt(cb: Codebook, query: Vector, metric: Metric, lut: seq<real>, j: nat, c: nat)
    requires IsSubTable(cb, query, metric, lut, cb.m) && j < cb.m && c < cb.Ksub()
    ensures Cell(cb.Ksub(), j, c) < |lut| && lut[Cell(cb.Ksub(), j, c)] == Entry(cb, query, metric, j, c)
  {
    hide Entry, Cell;
  }

  lemma TailStart(cb: Codebook, query: Vector, metric: Metric, lut: seq<real>)
    requires cb.Valid() && |query| == cb.Dim() && cb.nbits == 4 && cb.m % 2 == 1
    requires |lut| == cb.m / 2 * 256 + 16
    ensures FusedTail(cb, query, metric, lut, 0)
  {
  }

  lemma TailNext(cb: Codebook, query: Vector, metric: Metric, was: seq<real>, c: nat)
    requires cb.Valid() && |query| == cb.Dim() && cb.nbits == 4 && cb.m % 2 == 1 && c < 16
    requires FusedRows(cb, query, metric, was, cb.m / 2) && FusedTail(cb, query, metric, was, c)
    ensures
      var now := was[cb.m / 2 * 256 + c := Entry(cb, query, metric, cb.m - 1, c)];
      FusedRows(cb, query, metric, now, cb.m / 2) && FusedTail(cb, query, metric, now, c + 1)
  {
    hide Entry, FusedEntry;
    var now := was[cb.m / 2 * 256 + c := Entry(cb, query, metric, cb.m - 1, c)];
    forall e | 0 <= e <= c
      ensures now[cb.m / 2 * 256..][e] == Entry(cb, query, metric, cb.m - 1, e)
    {
      if e < c {
        assert was[cb.m / 2 * 256..][e] == now[cb.m / 2 * 256 + e];
      }
    }
  }

  /** One row of 256 entries, each the sum of a low-nibble and a high-nibble entry. */
  method FuseRow(cb: Codebook, ghost query: Vector, ghost metric: Metric, base: seq<real>, fused: array<real>, i: nat)
    requires cb.Valid() && |query| == cb.Dim() && cb.nbits == 4 && 2 * i + 1 < cb.m
    requires IsSubTable(cb, query, metric, base, cb.m)
    requires FusedRows(cb, query, metric, fused[..], i)
    modifies fused
    ensures FusedRows(cb, query, metric, fused[..], i + 1)
  {
    hide Entry, Cell, IsSubTable, FusedEntry, FusedRows;
    FusedRoom(cb, query, metric, fused[..], i);
    for b := 0 to 256
      invariant FusedRows(cb, query, metric, fused[..], i)
      invariant forall e :: 0 <= e < b ==> fused[..][i * 256 + e] == FusedEntry(cb, query, metric, i, e)
    {
      SubTableAt(cb, query, metric, base, 2 * i, b % 16);
      SubTableAt(cb, query, metric, base, 2 * i + 1, b / 16);
      FusedIs(cb, query, metric, i, b);
      FusedStays(cb, query, metric, fused[..], i, i * 256 + b, FusedEntry(cb, query, metric, i, b));
      ghost var before := fused[..];
      fused[i * 256 + b] := base[Cell(16, 2 * i, b % 16)] + base[Cell(16, 2 * i + 1, b / 16)];
      assert fused[..] == before[i * 256 + b := FusedEntry(cb, query, metric, i, b)];
    }
    FusedGrows(cb, query, metric, fused[..], i);
  }

  lemma FusedRoom(cb: Codebook, query: Vector, metric: Metric, lut: seq<real>, i: nat)
    requires cb.Valid() && |query| == cb.Dim() && cb.nbits == 4 && 2 * i + 1 < cb.m
        && FusedRows(cb, query, metric, lut, i)
    ensures (i + 1) * 256 <= |lut|
  {
    hide FusedEntry;
  }

  /** A cell behind the finished rows does not matter to them. */
  lemma FusedStays(cb: Codebook, query: Vector, metric: Metric, lut: seq<real>, rows: nat, at: nat, value: real)
    requires cb.Valid() && |query| == cb.Dim() && cb.nbits == 4 && FusedRows(cb, query, metric, lut, rows)
    requires rows * 256 <= at < |lut|
    ensures FusedRows(cb, query, metric, lut[at := value], rows)
  {
    hide FusedEntry;
  }

  lemma FusedGrows(cb: Codebook, query: Vector, metric: Metric, lut: seq<real>, i: nat)
    requires cb.Valid() && |query| == cb.Dim() && cb.nbits == 4 && 2 * i + 1 < cb.m
        && FusedRows(cb, query, metric, lut, i)
    requires (i + 1) * 256 <= |lut| &&
         forall e :: 0 <= e < 256 ==> lut[i * 256 + e] == FusedEntry(cb, query, metric, i, e)
    ensures FusedRows(cb, query, metric, lut, i + 1)
  {
    hide FusedEntry;
  }

  /** `build_lut`. */
  method BuildTable(cb: Codebook, query: Vector, metric: Metric) returns (table: seq<real>)
    requires cb.Valid() && |query| == cb.Dim()
    ensures IsTable(cb, query, metric, table)
  {
    hide Entry, Cell, IsSubTable, FusedEntry, FusedTail, IsTable;
    var base := BuildSubTable(cb, query, metric);
    if cb.nbits != 4 {
      WholeTable(cb, query, metric, base);
      return base;
    }
    var pairs := cb.m / 2;
    var tail := if cb.m % 2 == 1 then 16 else 0;
    var fused := new real[pairs * 256 + tail](_ => 0.0);
    for i := 0 to pairs
      invariant FusedRows(cb, query, metric, fused[..], i)
    {
      FuseRow(cb, query, metric, base, fused, i);
    }
    if cb.m % 2 == 1 {
      TailStart(cb, query, metric, fused[..]);
      for c := 0 to 16
        invariant FusedRows(cb, query, metric, fused[..], pairs)
        invariant FusedTail(cb, query, metric, fused[..], c)
      {
        SubTableAt(cb, query, metric, base, cb.m - 1, c);
        ghost var was := fused[..];
        fused[pairs * 256 + c] := base[Cell(16, cb.m - 1, c)];
        assert fused[..] == was[pairs * 256 + c := Entry(cb, query, metric, cb.m - 1, c)];
        TailNext(cb, query, metric, was, c);
      }
    }
    table := fused[..];
    FusedTable(cb, query, metric, table);
  }

  lemma FusedIs(cb: Codebook, query: Vector, metric: Metric, i: nat, b: nat)
    requires cb.Valid() && |query| == cb.Dim() && cb.nbits == 4 && 2 * i + 1 < cb.m && b < 256
    ensures FusedEntry(cb, query, metric, i, b)
         == Entry(cb, query, metric, 2 * i, b % 16) + Entry(cb, query, metric, 2 * i + 1, b / 16)
  {
  }

  lemma WholeTable(cb: Codebook, query: Vector, metric: Metric, lut: seq<real>)
    requires IsSubTable(cb, query, metric, lut, cb.m) && cb.nbits == 8
    ensures IsTable(cb, query, metric, lut)
  {
  }

  lemma FusedTable(cb: Codebook, query: Vector, metric: Metric, lut: seq<real>)
    requires cb.Valid() && |query| == cb.Dim() && cb.nbits == 4
    requires |lut| == cb.m / 2 * 256 + (if cb.m % 2 == 1 then 16 else 0)
    requires FusedRows(cb, query, metric, lut, cb.m / 2)
    requires cb.m % 2 == 1 ==> FusedTail(cb, query, metric, lut, 16)
    ensures IsTable(cb, query, metric, lut)
  {
    hide FusedRows, FusedTail;
  }

  // ---------------------------------------------------------------------
  // Table look-ups add up to the distance
  // ---------------------------------------------------------------------

  /** One table entry per sub-vector. */
  function SumOfEntries(cb: Codebook, query: Vector, metric: Metric, code: seq<bv8>, k: nat): real
    requires cb.Valid() && |query| == cb.Dim() && |code| == cb.CodeBytes() && k <= cb.m
  {
    if k == 0 then 0.0
    else SumOfEntries(cb, query, metric, code, k - 1) + Entry(cb, query, metric, k - 1, SubCode(cb, code, k - 1))
  }

  lemma {:induction false} SumIsDistance(cb: Codebook, query: Vector, metric: Metric, code: seq<bv8>, k: nat)
    requires cb.Valid() && |query| == cb.Dim() && |code| == cb.CodeBytes() && k <= cb.m
    ensures Cell(cb.dsub, k, 0) <= |query|
    ensures SumOfEntries(cb, query, metric, code, k)
         == Key(metric, query[..Cell(cb.dsub, k, 0)], Decoded(cb, code, k))
  {
    hide Key, Centroid, SubCode;
    if k == 0 {
      EmptyKey(metric, query[..0], []);
    } else {
      SumIsDistance(cb, query, metric, code, k - 1);
      SubBound(cb, k - 1);
      var n := Cell(cb.dsub, k - 1, 0);
      var c := Centroid(cb, k - 1, SubCode(cb, code, k - 1));
      KeySplits(metric, query[..n], Decoded(cb, code, k - 1), Sub(cb, query, k - 1), c);
      assert query[..n] + Sub(cb, query, k - 1) == query[..Cell(cb.dsub, k, 0)];
    }
  }

  lemma EmptyKey(metric: Metric, x: Vector, y: Vector)
    requires |x| == |y| == 0
    ensures Key(metric, x, y) == 0.0
  {
  }

  lemma TableSum(cb: Codebook, query: Vector, metric: Metric, code: seq<bv8>)
    requires cb.Valid() && |query| == cb.Dim() && |code| == cb.CodeBytes()
    ensures |query| == |Decoded(cb, code, cb.m)|
    ensures SumOfEntries(cb, query, metric, code, cb.m) == Key(metric, query, Decoded(cb, code, cb.m))
  {
    hide Key, SumOfEntries, Decoded;
    SumIsDistance(cb, query, metric, code, cb.m);
    assert query[..cb.Dim()] == query;
  }

  lemma PairSum(cb: Codebook, query: Vector, metric: Metric, code: seq<bv8>, i: nat)
    requires cb.Valid() && |query| == cb.Dim() && |code| == cb.CodeBytes()
    requires cb.nbits == 4 && 2 * i + 1 < cb.m
    ensures SumOfEntries(cb, query, metric, code, 2 * i + 2)
         == SumOfEntries(cb, query, metric, code, 2 * i) + FusedEntry(cb, query, metric, i, code[i] as nat)
  {
    hide Codebook.Ksub, Codebook.Dim;
    hide Entry;
    NibbleValues(code[i]);
    assert SubCode(cb, code, 2 * i) == (code[i] as nat) % 16;
    assert SubCode(cb, code, 2 * i + 1) == (code[i] as nat) / 16;
    assert SumOfEntries(cb, query, metric, code, 2 * i + 2)
        == SumOfEntries(cb, query, metric, code, 2 * i + 1)
           + Entry(cb, query, metric, 2 * i + 1, SubCode(cb, code, 2 * i + 1));
  }

  lemma TailSum(cb: Codebook, query: Vector, metric: Metric, code: seq<bv8>, lut: seq<real>)
    requires |code| == cb.CodeBytes() && cb.nbits == 4 && cb.m % 2 == 1 && IsTable(cb, query, metric, lut)
    ensures SumOfEntries(cb, query, metric, code, cb.m)
         == SumOfEntries(cb, query, metric, code, cb.m - 1) + lut[cb.m / 2 * 256 + (code[cb.m / 2] & 0x0f) as nat]
  {
    hide Entry, FusedRows;
    NibbleValues(code[cb.m / 2]);
    var c := (code[cb.m / 2] & 0x0f) as nat;
    assert SubCode(cb, code, cb.m - 1) == c;
    assert lut[cb.m / 2 * 256..][c] == Entry(cb, query, metric, cb.m - 1, c);
  }

  /** `distance_key`: the table look-ups give the distance to the decoded vector. */
  method DistanceKey(cb: Codebook, ghost query: Vector, ghost metric: Metric, lut: seq<real>, code: seq<bv8>)
    returns (sum: real)
    requires cb.Valid() && |query| == cb.Dim() && |code| == cb.CodeBytes()
    requires IsTable(cb, query, metric, lut)
    ensures sum == SumOfEntries(cb, query, metric, code, cb.m)
    ensures |query| == |Decoded(cb, code, cb.m)| && sum == Key(metric, query, Decoded(cb, code, cb.m))
    ensures metric == L2 ==> sum == SquaredL2(query, Decoded(cb, code, cb.m))
    ensures metric != L2 ==> sum == -Matrices.Dot(query, Decoded(cb, code, cb.m))
  {
    hide SquaredL2, Matrices.Dot, Entry, FusedEntry, Key, Decoded, IsTable, SubCode, Cell;
    TableSum(cb, query, metric, code);
    KeyIs(metric, query, Decoded(cb, code, cb.m));
    TableLength(cb, query, metric, lut);
    sum := 0.0;
    if cb.nbits == 4 {
      var pairs := cb.m / 2;
      for i := 0 to pairs
        invariant sum == SumOfEntries(cb, query, metric, code, 2 * i)
      {
        hide SumOfEntries;
        PairSum(cb, query, metric, code, i);
        FusedAt(cb, query, metric, lut, i, code[i] as nat);
        sum := sum + lut[i * 256 + code[i] as nat];
      }
      if cb.m % 2 == 1 {
        hide SumOfEntries;
        TailSum(cb, query, metric, code, lut);
        sum := sum + lut[pairs * 256 + (code[pairs] & 0x0f) as nat];
      }
      return;
    }
    for j := 0 to cb.m
      invariant sum == SumOfEntries(cb, query, metric, code, j)
    {
      EntryAt(cb, query, metric, code, lut, j);
      sum := sum + lut[Cell(256, j, code[j] as nat)];
    }
  }

  lemma TableLength(cb: Codebook, query: Vector, metric: Metric, lut: seq<real>)
    requires IsTable(cb, query, metric, lut)
    ensures cb.nbits == 4 ==> |lut| == cb.m / 2 * 256 + (if cb.m % 2 == 1 then 16 else 0)
  {
  }

  lemma FusedAt(cb: Codebook, query: Vector, metric: Metric, lut: seq<real>, i: nat, b: nat)
    requires IsTable(cb, query, metric, lut) && cb.nbits == 4 && 2 * i + 1 < cb.m && b < 256
    ensures i * 256 + b < |lut| && lut[i * 256 + b] == FusedEntry(cb, query, metric, i, b)
  {
    hide FusedEntry;
  }

  lemma EntryAt(cb: Codebook, query: Vector, metric: Metric, code: seq<bv8>, lut: seq<real>, j: nat)
    requires IsTable(cb, query, metric, lut) && cb.nbits == 8 && |code| == cb.CodeBytes() && j < cb.m
    ensures SubCode(cb, code, j) == code[j] as nat
    ensures Cell(256, j, code[j] as nat) < |lut|
    ensures lut[Cell(256, j, code[j] as nat)] == Entry(cb, query, metric, j, SubCode(cb, code, j))
  {
    hide Entry, Cell;
    SubTableAt(cb, query, metric, lut, j, code[j] as nat);
  }
}
