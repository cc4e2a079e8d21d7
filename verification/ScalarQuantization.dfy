/**
 * The 8-bit distance kernels.  The vector units add in 32-bit lanes that wrap; the plain loops
 * add in 64 bits.  Registers are values: sequences of lanes.
 */
module ScalarQuantization {
  import opened Bytes

  const LANE := 0x1_0000_0000
  const HALF_LANE := 0x1_0000
  const WIDE := 0x1_0000_0000_0000_0000

  /** Bytes per iteration of every vector kernel. */
  const CHUNK := 32

  /** The length up to which the callers are promised exact sums. */
  const MAX_LEN := 66051

  /** The largest square or product of two bytes. */
  const MAX_TERM := 65025

  // ---------------------------------------------------------------------
  // Sums
  // ---------------------------------------------------------------------

  function Total(s: seq<nat>): nat {
    if s == [] then 0 else s[0] + Total(s[1..])
  }

  lemma {:induction false} TotalConcat(s: seq<nat>, t: seq<nat>)
    ensures Total(s + t) == Total(s) + Total(t)
  {
    if s == [] {
      assert s + t == t;
    } else {
      TotalConcat(s[1..], t);
      assert (s + t)[1..] == s[1..] + t;
    }
  }

  lemma {:induction false} TotalBound(s: seq<nat>, top: nat)
    requires forall k :: 0 <= k < |s| ==> s[k] <= top
    ensures Total(s) <= top * |s|
  {
    if s != [] {
      TotalBound(s[1..], top);
    }
  }

  lemma {:induction false} TotalConstant(s: seq<nat>, v: nat)
    requires forall k :: 0 <= k < |s| ==> s[k] == v
    ensures Total(s) == v * |s|
  {
    if s != [] {
      TotalConstant(s[1..], v);
    }
  }

  /** Neighbours added in pairs. */
  function Pairs(s: seq<nat>): (r: seq<nat>)
    ensures |r| == |s| / 2
  {
    seq(|s| / 2, t requires 0 <= t < |s| / 2 => s[2 * t] + s[2 * t + 1])
  }

  lemma {:induction false} TotalPairs(s: seq<nat>)
    requires |s| % 2 == 0
    ensures Total(Pairs(s)) == Total(s)
  {
    if s != [] {
      TotalPairs(s[2..]);
      assert Pairs(s)[1..] == Pairs(s[2..]);
      assert s[1..][1..] == s[2..];
    }
  }

  // ---------------------------------------------------------------------
  // Wrapping lanes
  // ---------------------------------------------------------------------

  /** What is left of a sum in a 32-bit or a 64-bit lane. */
  function Wrap(x: nat, wide: bool): nat {
    if wide then x % WIDE else x % LANE
  }

  lemma WrapAdd(a: nat, b: nat, wide: bool)
    ensures Wrap(Wrap(a, wide) + b, wide) == Wrap(a + b, wide)
    ensures Wrap(b + Wrap(a, wide), wide) == Wrap(a + b, wide)
  {
    if wide {
      var q, p := a / WIDE, (a % WIDE + b) / WIDE;
      assert a + b == (q + p) * WIDE + (a % WIDE + b) % WIDE;
    } else {
      var q, p := a / LANE, (a % LANE + b) / LANE;
      assert a + b == (q + p) * LANE + (a % LANE + b) % LANE;
    }
  }

  function AddLanes(x: seq<nat>, y: seq<nat>, wide: bool): (r: seq<nat>)
    requires |x| == |y|
    ensures |r| == |x|
  {
    seq(|x|, t requires 0 <= t < |x| => Wrap(x[t] + y[t], wide))
  }

  function Zero(n: nat): (r: seq<nat>)
    ensures |r| == n
  {
    seq(n, _ => 0)
  }

  lemma ZeroTotal(n: nat)
    ensures Total(Zero(n)) == 0
  {
    TotalConstant(Zero(n), 0);
  }

  /** Wrapping lane by lane does not change the total modulo the lane. */
  lemma {:induction false} AddLanesTotal(x: seq<nat>, y: seq<nat>, wide: bool)
    requires |x| == |y|
    ensures Wrap(Total(AddLanes(x, y, wide)), wide) == Wrap(Total(x) + Total(y), wide)
  {
    hide Wrap;
    if x != [] {
      AddLanesTotal(x[1..], y[1..], wide);
      assert AddLanes(x, y, wide)[1..] == AddLanes(x[1..], y[1..], wide);
      var head, rest, sum := x[0] + y[0], Total(AddLanes(x[1..], y[1..], wide)), Total(x[1..]) + Total(y[1..]);
      WrapAdd(head, rest, wide);
      WrapAdd(rest, head, wide);
      WrapAdd(sum, head, wide);
    }
  }

  /** The lanes of a kernel hold the total so far, modulo the lane. */
  lemma Accumulate(sum: nat, was: seq<nat>, more: seq<nat>, wide: bool)
    requires |was| == |more|
    requires Wrap(Total(was), wide) == Wrap(sum, wide)
    ensures Wrap(Total(AddLanes(was, more, wide)), wide) == Wrap(sum + Total(more), wide)
  {
    hide Wrap, AddLanes, Total;
    AddLanesTotal(was, more, wide);
    WrapAdd(Total(was), Total(more), wide);
    WrapAdd(sum, Total(more), wide);
  }

  // ---------------------------------------------------------------------
  // Byte operations of the vector units
  // ---------------------------------------------------------------------

  function SaturatingSub(a: Byte, b: Byte): Byte {
    if a > b then a - b else 0
  }

  function Or(a: Byte, b: Byte): Byte {
    ((a as bv8) | (b as bv8)) as int
  }

  lemma OrZero(a: Byte)
    ensures Or(a, 0) == a && Or(0, a) == a
  {
  }

  /** Both saturating differences, of which one is zero. */
  function AbsDiff(a: Byte, b: Byte): Byte {
    Or(SaturatingSub(a, b), SaturatingSub(b, a))
  }

  lemma AbsDiffValue(a: Byte, b: Byte)
    ensures AbsDiff(a, b) == if a >= b then a - b else b - a
  {
    hide Or;
    OrZero(SaturatingSub(a, b));
    OrZero(SaturatingSub(b, a));
  }

  /** An 8-bit by 8-bit product in a 16-bit lane. */
  function Mull(a: nat, b: nat): nat {
    (a * b) % HALF_LANE
  }

  lemma ProductBound(a: nat, b: nat)
    requires a <= 255 && b <= 255
    ensures 0 <= a * b <= MAX_TERM
  {
    assert (255 - a) * b >= 0;
  }

  lemma MullExact(a: nat, b: nat)
    requires a <= 255 && b <= 255
    ensures Mull(a, b) == a * b <= MAX_TERM
  {
    ProductBound(a, b);
    Fits(a * b);
  }

  lemma Fits(x: nat)
    requires x < HALF_LANE
    ensures x % HALF_LANE == x
  {
  }

  // ---------------------------------------------------------------------
  // What the plain loops add
  // ---------------------------------------------------------------------

  function Product(a: nat, b: nat): nat {
    a * b
  }

  function SquareTerm(a: Byte, b: Byte): nat {
    var d: int := a - b;
    if d < 0 then Product(-d, -d) else Product(d, d)
  }

  function Products(x: seq<nat>, y: seq<nat>): (s: seq<nat>)
    requires |x| == |y|
    ensures |s| == |x|
  {
    seq(|x|, k requires 0 <= k < |x| => Product(x[k], y[k]))
  }

  function SquareTerms(a: seq<Byte>, b: seq<Byte>): (s: seq<nat>)
    requires |a| == |b|
    ensures |s| == |a|
  {
    seq(|a|, k requires 0 <= k < |a| => SquareTerm(a[k], b[k]))
  }

  function Values(b: seq<Byte>): (s: seq<nat>)
    ensures |s| == |b|
  {
    seq(|b|, k requires 0 <= k < |b| => b[k])
  }

  lemma SquareSigned(a: Byte, b: Byte)
    ensures SquareTerm(a, b) == ((a as int) - b) * ((a as int) - b) <= MAX_TERM
  {
    var d: int := a - b;
    ProductBound(if d < 0 then -d else d, if d < 0 then -d else d);
    assert d * d == (-d) * (-d);
  }

  lemma TotalSnoc(s: seq<nat>, k: nat)
    requires k < |s|
    ensures Total(s[..k + 1]) == Total(s[..k]) + s[k]
  {
    assert s[..k + 1] == s[..k] + [s[k]];
    TotalConcat(s[..k], [s[k]]);
  }

  /** `sq8_l2_accum_scalar`. */
  method L2Scalar(a: seq<Byte>, b: seq<Byte>) returns (sum: nat)
    requires |a| == |b|
    ensures sum == Total(SquareTerms(a, b))
  {
    sum := 0;
    ghost var terms := SquareTerms(a, b);
    for i := 0 to |a|
      invariant sum == Total(terms[..i])
    {
      hide Total;
      var d := a[i] as int - b[i] as int;
      SquareSigned(a[i], b[i]);
      sum := sum + d * d;
      TotalSnoc(terms, i);
    }
    assert terms[..|a|] == terms;
  }

  /** `sq8_dot_accum_scalar`. */
  method DotScalar(a: seq<Byte>, b: seq<Byte>) returns (dot: nat, sumB: nat)
    requires |a| == |b|
    ensures dot == Total(Products(Values(a), Values(b))) && sumB == Total(Values(b))
  {
    dot, sumB := 0, 0;
    ghost var terms, values := Products(Values(a), Values(b)), Values(b);
    for i := 0 to |a|
      invariant dot == Total(terms[..i]) && sumB == Total(values[..i])
    {
      hide Total;
      dot := dot + Product(a[i], b[i]);
      sumB := sumB + b[i];
      TotalSnoc(terms, i);
      TotalSnoc(values, i);
    }
    assert terms[..|a|] == terms && values[..|a|] == values;
  }

  // ---------------------------------------------------------------------
  // What a kernel adds
  // ---------------------------------------------------------------------

  /** The part of n bytes that the vector loop covers. */
  function Chunked(n: nat): (c: nat)
    ensures c <= n < c + CHUNK && c % CHUNK == 0
  {
    n / CHUNK * CHUNK
  }

  /** The chunks modulo the lane, then the tail in full. */
  function KernelSum(terms: seq<nat>, wide: bool): nat {
    Wrap(Total(terms[..Chunked(|terms|)]), wide) + Total(terms[Chunked(|terms|)..])
  }

  /** Two of the kernels' halves of 32 bytes: bytes 0-7 and 16-23, then 8-15 and 24-31. */
  function UnpackLow(v: seq<nat>): (r: seq<nat>)
    requires |v| == CHUNK
    ensures |r| == 16
  {
    v[0..8] + v[16..24]
  }

  function UnpackHigh(v: seq<nat>): (r: seq<nat>)
    requires |v| == CHUNK
    ensures |r| == 16
  {
    v[8..16] + v[24..32]
  }

  lemma UnpackTotal(v: seq<nat>)
    requires |v| == CHUNK
    ensures Total(UnpackLow(v)) + Total(UnpackHigh(v)) == Total(v)
  {
    QuarterTotals(v);
    TotalConcat(v[0..8], v[16..24]);
    TotalConcat(v[8..16], v[24..32]);
  }

  lemma QuarterTotals(v: seq<nat>)
    requires |v| == CHUNK
    ensures Total(v) == Total(v[0..8]) + Total(v[8..16]) + Total(v[16..24]) + Total(v[24..32])
  {
    hide Total;
    TotalConcat(v[0..8], v[8..16]);
    TotalConcat(v[0..8] + v[8..16], v[16..24]);
    TotalConcat(v[0..8] + v[8..16] + v[16..24], v[24..32]);
    assert v == v[0..8] + v[8..16] + v[16..24] + v[24..32];
  }

  /** `madd_epi16`: products of 16-bit lanes, added in pairs; bytes never reach the sign bit. */
  function Madd(x: seq<nat>, y: seq<nat>): (r: seq<nat>)
    requires |x| == |y| == 16
    ensures |r| == 8
  {
    Pairs(Products(x, y))
  }

  lemma MaddTotal(x: seq<nat>, y: seq<nat>)
    requires |x| == |y| == CHUNK
    ensures Total(Madd(UnpackLow(x), UnpackLow(y))) + Total(Madd(UnpackHigh(x), UnpackHigh(y)))
         == Total(Products(x, y))
  {
    TotalPairs(Products(UnpackLow(x), UnpackLow(y)));
    TotalPairs(Products(UnpackHigh(x), UnpackHigh(y)));
    assert Products(UnpackLow(x), UnpackLow(y)) == UnpackLow(Products(x, y));
    assert Products(UnpackHigh(x), UnpackHigh(y)) == UnpackHigh(Products(x, y));
    UnpackTotal(Products(x, y));
  }

  function Shuffle(s: seq<nat>, i: nat, j: nat, k: nat, l: nat): (r: seq<nat>)
    requires |s| == 4 && i < 4 && j < 4 && k < 4 && l < 4
    ensures |r| == 4
  {
    [s[i], s[j], s[k], s[l]]
  }

  /** `hsum_epi32`: halves, then shuffled halves, each addition wrapping. */
  function HorizontalSum(v: seq<nat>): nat
    requires |v| == 8
  {
    var sum4 := AddLanes(v[..4], v[4..], false);
    var sum2 := AddLanes(sum4, Shuffle(sum4, 2, 3, 0, 0), false);
    var sum1 := AddLanes(sum2, Shuffle(sum2, 1, 0, 0, 0), false);
    sum1[0]
  }

  lemma TotalFour(s: seq<nat>)
    requires |s| == 4
    ensures Total(s) == s[0] + s[1] + s[2] + s[3]
  {
    assert s[1..][1..] == s[2..] && s[2..][1..] == s[3..] && s[3..][1..] == [];
    assert Total(s[3..]) == s[3] + Total([]);
    assert Total(s[2..]) == s[2] + Total(s[3..]);
    assert Total(s[1..]) == s[1] + Total(s[2..]);
  }

  lemma HorizontalTotal(v: seq<nat>)
    requires |v| == 8
    ensures HorizontalSum(v) == Wrap(Total(v), false)
  {
    hide Wrap, Total;
    var s := AddLanes(v[..4], v[4..], false);
    TotalFour(s);
    WrapAdd(s[0] + s[2], Wrap(s[1] + s[3], false), false);
    WrapAdd(s[1] + s[3], s[0] + s[2], false);
    AddLanesTotal(v[..4], v[4..], false);
    TotalConcat(v[..4], v[4..]);
    assert v[..4] + v[4..] == v;
  }

  /** `sad_epu8` against zero: four sums of eight bytes. */
  function SumOfEights(v: seq<nat>): (r: seq<nat>)
    requires |v| == CHUNK
    ensures |r| == 4
  {
    [Total(v[0..8]), Total(v[8..16]), Total(v[16..24]), Total(v[24..32])]
  }

  /** `hsum_epi64`. */
  function HorizontalWide(v: seq<nat>): nat
    requires |v| == 4
  {
    var sum2 := AddLanes(v[..2], v[2..], true);
    Wrap(sum2[0] + sum2[1], true)
  }

  lemma HorizontalWideTotal(v: seq<nat>)
    requires |v| == 4
    ensures HorizontalWide(v) == Wrap(Total(v), true)
  {
    hide Wrap, Total;
    TotalFour(v);
    WrapAdd(v[0] + v[2], Wrap(v[1] + v[3], true), true);
    WrapAdd(v[1] + v[3], v[0] + v[2], true);
  }

  // ---------------------------------------------------------------------
  // The kernels
  // ---------------------------------------------------------------------

  /** `loadu` of 32 bytes. */
  function Load(a: seq<Byte>, at: nat): (r: seq<Byte>)
    requires at + CHUNK <= |a|
    ensures |r| == CHUNK
  {
    a[at..at + CHUNK]
  }

  function AbsDiffs(a: seq<Byte>, b: seq<Byte>): (r: seq<nat>)
    requires |a| == |b|
    ensures |r| == |a|
  {
    seq(|a|, k requires 0 <= k < |a| => AbsDiff(a[k], b[k]))
  }

  lemma SquaresOfDiffs(a: seq<Byte>, b: seq<Byte>, at: nat)
    requires |a| == |b| && at + CHUNK <= |a|
    ensures
      var d := AbsDiffs(Load(a, at), Load(b, at));
      Products(d, d) == SquareTerms(a, b)[at..at + CHUNK]
  {
    hide AbsDiff, Product;
    var x, y := Load(a, at), Load(b, at);
    var l, r := Products(AbsDiffs(x, y), AbsDiffs(x, y)), SquareTerms(a, b)[at..at + CHUNK];
    forall k | 0 <= k < CHUNK
      ensures l[k] == r[k]
    {
      AbsDiffValue(x[k], y[k]);
    }
  }

  lemma ProductsOfChunk(a: seq<Byte>, b: seq<Byte>, at: nat)
    requires |a| == |b| && at + CHUNK <= |a|
    ensures Products(Values(Load(a, at)), Values(Load(b, at))) == Products(Values(a), Values(b))[at..at + CHUNK]
    ensures Values(Load(b, at)) == Values(b)[at..at + CHUNK]
  {
    hide Product;
  }

  lemma NextChunk(terms: seq<nat>, at: nat)
    requires at + CHUNK <= |terms|
    ensures Total(terms[..at + CHUNK]) == Total(terms[..at]) + Total(terms[at..at + CHUNK])
  {
    TotalConcat(terms[..at], terms[at..at + CHUNK]);
    assert terms[..at + CHUNK] == terms[..at] + terms[at..at + CHUNK];
  }

  lemma NextTail(terms: seq<nat>, from: nat, i: nat)
    requires from <= i < |terms|
    ensures Total(terms[from..i + 1]) == Total(terms[from..i]) + terms[i]
  {
    TotalSnoc(terms[from..], i - from);
    assert terms[from..][..i - from] == terms[from..i] && terms[from..][..i - from + 1] == terms[from..i + 1];
  }

  /** Two accumulators that together hold the total of the first bytes. */
  ghost predicate Holds(acc0: seq<nat>, acc1: seq<nat>, sum: nat) {
    |acc0| == |acc1| && Wrap(Total(acc0) + Total(acc1), false) == Wrap(sum, false)
  }

  lemma HoldsMore(acc0: seq<nat>, acc1: seq<nat>, sum: nat, x: seq<nat>, y: seq<nat>)
    requires Holds(acc0, acc1, sum) && |x| == |y| == |acc0|
    ensures Holds(AddLanes(acc0, x, false), AddLanes(acc1, y, false), sum + Total(x) + Total(y))
  {
    hide Wrap, Total;
    var now0, now1 := AddLanes(acc0, x, false), AddLanes(acc1, y, false);
    AddLanesTotal(acc0, x, false);
    AddLanesTotal(acc1, y, false);
    var p, q := Total(acc0) + Total(x), Total(acc1) + Total(y);
    WrapAdd(Total(now0), Total(now1), false);
    WrapAdd(p, Total(now1), false);
    WrapAdd(Total(now1), p, false);
    WrapAdd(q, p, false);
    var more := Total(x) + Total(y);
    WrapAdd(Total(acc0) + Total(acc1), more, false);
    WrapAdd(sum, more, false);
  }

  lemma HoldsSum(acc0: seq<nat>, acc1: seq<nat>, sum: nat)
    requires Holds(acc0, acc1, sum)
    ensures Wrap(Total(AddLanes(acc0, acc1, false)), false) == Wrap(sum, false)
  {
    hide Wrap, Total;
    AddLanesTotal(acc0, acc1, false);
  }

  lemma HoldsNothing(n: nat)
    ensures Holds(Zero(n), Zero(n), 0)
  {
    ZeroTotal(n);
  }

  /** `avx2::l2_accum`. */
  method L2Avx2(a: seq<Byte>, b: seq<Byte>) returns (sum: nat)
    requires |a| == |b|
    ensures sum == KernelSum(SquareTerms(a, b), false)
  {
    hide Total, Wrap, AddLanes, AbsDiffs, SquareTerms, Products, Madd, UnpackLow, UnpackHigh, Load, HorizontalSum,
         Holds;
    ghost var terms := SquareTerms(a, b);
    var acc0, acc1 := Zero(8), Zero(8);
    HoldsNothing(8);
    EmptyTotal(terms[..0]);
    var chunks := |a| / CHUNK;
    for i := 0 to chunks
      invariant |acc0| == |acc1| == 8 && Holds(acc0, acc1, Total(terms[..i * CHUNK]))
    {
      var d := AbsDiffs(Load(a, i * CHUNK), Load(b, i * CHUNK));
      var lo, hi := UnpackLow(d), UnpackHigh(d);
      HoldsMore(acc0, acc1, Total(terms[..i * CHUNK]), Madd(lo, lo), Madd(hi, hi));
      MaddTotal(d, d);
      SquaresOfDiffs(a, b, i * CHUNK);
      NextChunk(terms, i * CHUNK);
      acc0 := AddLanes(acc0, Madd(lo, lo), false);
      acc1 := AddLanes(acc1, Madd(hi, hi), false);
    }
    HoldsSum(acc0, acc1, Total(terms[..chunks * CHUNK]));
    HorizontalTotal(AddLanes(acc0, acc1, false));
    sum := HorizontalSum(AddLanes(acc0, acc1, false));
    sum := L2Tail(a, b, chunks * CHUNK, sum);
  }

  lemma EmptyTotal(s: seq<nat>)
    requires s == []
    ensures Total(s) == 0
  {
  }

  /** The scalar loop over the bytes that no chunk covers. */
  method L2Tail(a: seq<Byte>, b: seq<Byte>, from: nat, start: nat) returns (sum: nat)
    requires |a| == |b| && from <= |a|
    ensures sum == start + Total(SquareTerms(a, b)[from..])
  {
    ghost var terms := SquareTerms(a, b);
    sum := start;
    for i := from to |a|
      invariant sum == start + Total(terms[from..i])
    {
      hide Total;
      var d := a[i] as int - b[i] as int;
      SquareSigned(a[i], b[i]);
      sum := sum + d * d;
      NextTail(terms, from, i);
    }
    assert terms[from..|a|] == terms[from..];
  }

  method DotTail(a: seq<Byte>, b: seq<Byte>, from: nat, dot0: nat, sum0: nat) returns (dot: nat, sumB: nat)
    requires |a| == |b| && from <= |a|
    ensures dot == dot0 + Total(Products(Values(a), Values(b))[from..])
    ensures sumB == sum0 + Total(Values(b)[from..])
  {
    ghost var terms, values := Products(Values(a), Values(b)), Values(b);
    dot, sumB := dot0, sum0;
    for i := from to |a|
      invariant dot == dot0 + Total(terms[from..i]) && sumB == sum0 + Total(values[from..i])
    {
      hide Total;
      dot := dot + Product(a[i], b[i]);
      sumB := sumB + b[i];
      NextTail(terms, from, i);
      NextTail(values, from, i);
    }
    assert terms[from..|a|] == terms[from..] && values[from..|a|] == values[from..];
  }

  lemma EightsTotal(v: seq<nat>)
    requires |v| == CHUNK
    ensures Total(SumOfEights(v)) == Total(v)
  {
    hide Total;
    QuarterTotals(v);
    TotalFour(SumOfEights(v));
  }

  /** `avx2::dot_accum`. */
  method DotAvx2(a: seq<Byte>, b: seq<Byte>) returns (dot: nat, sumB: nat)
    requires |a| == |b|
    ensures dot == KernelSum(Products(Values(a), Values(b)), false)
    ensures sumB == KernelSum(Values(b), true)
  {
    hide Total, Wrap, AddLanes, Values, Products, Madd, UnpackLow, UnpackHigh, Load, Holds;
    hide HorizontalSum, HorizontalWide, SumOfEights;
    ghost var terms, values := Products(Values(a), Values(b)), Values(b);
    var dot0, dot1, lanesB := Zero(8), Zero(8), Zero(4);
    HoldsNothing(8);
    ZeroTotal(4);
    EmptyTotal(terms[..0]);
    EmptyTotal(values[..0]);
    var chunks := |a| / CHUNK;
    for i := 0 to chunks
      invariant |dot0| == |dot1| == 8 && Holds(dot0, dot1, Total(terms[..i * CHUNK]))
      invariant |lanesB| == 4 && Wrap(Total(lanesB), true) == Wrap(Total(values[..i * CHUNK]), true)
    {
      var va, vb := Values(Load(a, i * CHUNK)), Values(Load(b, i * CHUNK));
      var lo, hi := Madd(UnpackLow(va), UnpackLow(vb)), Madd(UnpackHigh(va), UnpackHigh(vb));
      HoldsMore(dot0, dot1, Total(terms[..i * CHUNK]), lo, hi);
      MaddTotal(va, vb);
      ProductsOfChunk(a, b, i * CHUNK);
      NextChunk(terms, i * CHUNK);
      dot0 := AddLanes(dot0, lo, false);
      dot1 := AddLanes(dot1, hi, false);
      Accumulate(Total(values[..i * CHUNK]), lanesB, SumOfEights(vb), true);
      EightsTotal(vb);
      NextChunk(values, i * CHUNK);
      lanesB := AddLanes(lanesB, SumOfEights(vb), true);
    }
    HoldsSum(dot0, dot1, Total(terms[..chunks * CHUNK]));
    HorizontalTotal(AddLanes(dot0, dot1, false));
    HorizontalWideTotal(lanesB);
    dot := HorizontalSum(AddLanes(dot0, dot1, false));
    sumB := HorizontalWide(lanesB);
    dot, sumB := DotTail(a, b, chunks * CHUNK, dot, sumB);
  }

  // ---------------------------------------------------------------------
  // The NEON kernels: sixteen bytes at a time, four lanes
  // ---------------------------------------------------------------------

  /** `vmull_u8`, then the pairwise widening of `vpadalq_u16`. */
  function MullPairs(x: seq<nat>, y: seq<nat>): (r: seq<nat>)
    requires |x| == |y| == 8
    ensures |r| == 4
  {
    Pairs(seq(8, k requires 0 <= k < 8 => Mull(x[k], y[k])))
  }

  predicate Bytewise(x: seq<nat>) {
    forall k :: 0 <= k < |x| ==> x[k] <= 255
  }

  lemma MullPairsTotal(x: seq<nat>, y: seq<nat>)
    requires |x| == |y| == 8 && Bytewise(x) && Bytewise(y)
    ensures Total(MullPairs(x, y)) == Total(Products(x, y))
  {
    hide Mull, Total;
    var m := seq(8, k requires 0 <= k < 8 => Mull(x[k], y[k]));
    forall k | 0 <= k < 8
      ensures m[k] == Product(x[k], y[k])
    {
      MullExact(x[k], y[k]);
    }
    assert m == Products(x, y);
    TotalPairs(m);
  }

  /** The four products of a 32-byte chunk hold its whole total. */
  lemma FourMulls(x: seq<nat>, y: seq<nat>)
    requires |x| == |y| == CHUNK && Bytewise(x) && Bytewise(y)
    ensures Total(Products(x, y))
         == Total(MullPairs(x[0..8], y[0..8])) + Total(MullPairs(x[8..16], y[8..16]))
          + Total(MullPairs(x[16..24], y[16..24])) + Total(MullPairs(x[24..32], y[24..32]))
  {
    hide Total, MullPairs, Product;
    var p := Products(x, y);
    QuarterTotals(p);
    MullPairsTotal(x[0..8], y[0..8]);
    MullPairsTotal(x[8..16], y[8..16]);
    MullPairsTotal(x[16..24], y[16..24]);
    MullPairsTotal(x[24..32], y[24..32]);
    assert p[0..8] == Products(x[0..8], y[0..8]) && p[8..16] == Products(x[8..16], y[8..16]);
    assert p[16..24] == Products(x[16..24], y[16..24]) && p[24..32] == Products(x[24..32], y[24..32]);
  }

  /** Two pairs of accumulators, added at the end. */
  lemma HoldsFour(acc0: seq<nat>, acc1: seq<nat>, acc2: seq<nat>, acc3: seq<nat>, s: nat, t: nat)
    requires |acc0| == |acc2| && Holds(acc0, acc1, s) && Holds(acc2, acc3, t)
    ensures Holds(AddLanes(acc0, acc1, false), AddLanes(acc2, acc3, false), s + t)
  {
    hide Wrap, Total;
    var x, y := AddLanes(acc0, acc1, false), AddLanes(acc2, acc3, false);
    HoldsSum(acc0, acc1, s);
    HoldsSum(acc2, acc3, t);
    WrapAdd(Total(x), Total(y), false);
    WrapAdd(s, Total(y), false);
    WrapAdd(Total(y), s, false);
    WrapAdd(t, s, false);
  }

  /** One step of the four accumulators: the halves of a chunk go to the two pairs. */
  lemma FourStep(acc0: seq<nat>, acc1: seq<nat>, acc2: seq<nat>, acc3: seq<nat>, s: nat, t: nat, x: seq<nat>,
      y: seq<nat>)
    requires |acc0| == |acc2| == 4 && Holds(acc0, acc1, s) && Holds(acc2, acc3, t)
    requires |x| == |y| == CHUNK && Bytewise(x) && Bytewise(y)
    ensures
      var u := s + Total(MullPairs(x[0..8], y[0..8])) + Total(MullPairs(x[8..16], y[8..16]));
      var v := t + Total(MullPairs(x[16..24], y[16..24])) + Total(MullPairs(x[24..32], y[24..32]));
      && u + v == s + t + Total(Products(x, y))
      && Holds(AddLanes(acc0, MullPairs(x[0..8], y[0..8]), false),
           AddLanes(acc1, MullPairs(x[8..16], y[8..16]), false), u)
      && Holds(AddLanes(acc2, MullPairs(x[16..24], y[16..24]), false),
           AddLanes(acc3, MullPairs(x[24..32], y[24..32]), false), v)
  {
    hide Total, MullPairs, Products, AddLanes, Wrap;
    FourMulls(x, y);
    HoldsMore(acc0, acc1, s, MullPairs(x[0..8], y[0..8]), MullPairs(x[8..16], y[8..16]));
    HoldsMore(acc2, acc3, t, MullPairs(x[16..24], y[16..24]), MullPairs(x[24..32], y[24..32]));
  }

  /** `neon::l2_accum`. */
  method L2Neon(a: seq<Byte>, b: seq<Byte>) returns (sum: nat)
    requires |a| == |b|
    ensures sum == KernelSum(SquareTerms(a, b), false)
  {
    hide Total, Wrap, AddLanes, AbsDiffs, SquareTerms, Products, MullPairs, Load, Holds;
    ghost var terms := SquareTerms(a, b);
    var acc0, acc1, acc2, acc3 := Zero(4), Zero(4), Zero(4), Zero(4);
    ghost var s: nat, t: nat := 0, 0;
    HoldsNothing(4);
    EmptyTotal(terms[..0]);
    var chunks := |a| / CHUNK;
    for i := 0 to chunks
      invariant |acc0| == |acc1| == |acc2| == |acc3| == 4
      invariant Holds(acc0, acc1, s) && Holds(acc2, acc3, t) && s + t == Total(terms[..i * CHUNK])
    {
      var d := AbsDiffs(Load(a, i * CHUNK), Load(b, i * CHUNK));
      DiffsAreBytes(Load(a, i * CHUNK), Load(b, i * CHUNK));
      FourStep(acc0, acc1, acc2, acc3, s, t, d, d);
      SquaresOfDiffs(a, b, i * CHUNK);
      NextChunk(terms, i * CHUNK);
      s := s + Total(MullPairs(d[0..8], d[0..8])) + Total(MullPairs(d[8..16], d[8..16]));
      t := t + Total(MullPairs(d[16..24], d[16..24])) + Total(MullPairs(d[24..32], d[24..32]));
      acc0 := AddLanes(acc0, MullPairs(d[0..8], d[0..8]), false);
      acc1 := AddLanes(acc1, MullPairs(d[8..16], d[8..16]), false);
      acc2 := AddLanes(acc2, MullPairs(d[16..24], d[16..24]), false);
      acc3 := AddLanes(acc3, MullPairs(d[24..32], d[24..32]), false);
    }
    HoldsFour(acc0, acc1, acc2, acc3, s, t);
    HoldsSum(AddLanes(acc0, acc1, false), AddLanes(acc2, acc3, false), s + t);
    sum := Wrap(Total(AddLanes(AddLanes(acc0, acc1, false), AddLanes(acc2, acc3, false), false)), false);
    sum := L2Tail(a, b, chunks * CHUNK, sum);
  }

  lemma DiffsAreBytes(a: seq<Byte>, b: seq<Byte>)
    requires |a| == |b|
    ensures Bytewise(AbsDiffs(a, b))
  {
  }

  lemma ValuesAreBytes(b: seq<Byte>)
    ensures Bytewise(Values(b))
  {
  }

  /** `vpaddlq_u8`, then `vpadalq_u16`: sixteen bytes into four lanes. */
  function Fours(v: seq<nat>): (r: seq<nat>)
    requires |v| == 16
    ensures |r| == 4
  {
    Pairs(Pairs(v))
  }

  lemma FoursTotal(v: seq<nat>)
    requires |v| == CHUNK
    ensures Total(Fours(v[0..16])) + Total(Fours(v[16..32])) == Total(v)
  {
    hide Total;
    TotalPairs(v[0..16]);
    TotalPairs(v[16..32]);
    TotalPairs(Pairs(v[0..16]));
    TotalPairs(Pairs(v[16..32]));
    TotalConcat(v[0..16], v[16..32]);
    assert v == v[0..16] + v[16..32];
  }

  /** `neon::dot_accum`. */
  method DotNeon(a: seq<Byte>, b: seq<Byte>) returns (dot: nat, sumB: nat)
    requires |a| == |b|
    ensures dot == KernelSum(Products(Values(a), Values(b)), false)
    ensures sumB == KernelSum(Values(b), false)
  {
    hide Total, Wrap, AddLanes, Values, Products, MullPairs, Load, Holds, Fours;
    ghost var terms, values := Products(Values(a), Values(b)), Values(b);
    var dot0, dot1, dot2, dot3 := Zero(4), Zero(4), Zero(4), Zero(4);
    var sum0, sum1 := Zero(4), Zero(4);
    ghost var s: nat, t: nat := 0, 0;
    HoldsNothing(4);
    EmptyTotal(terms[..0]);
    EmptyTotal(values[..0]);
    var chunks := |a| / CHUNK;
    for i := 0 to chunks
      invariant |dot0| == |dot1| == |dot2| == |dot3| == |sum0| == |sum1| == 4
      invariant Holds(dot0, dot1, s) && Holds(dot2, dot3, t) && s + t == Total(terms[..i * CHUNK])
      invariant Holds(sum0, sum1, Total(values[..i * CHUNK]))
    {
      var x, y := Values(Load(a, i * CHUNK)), Values(Load(b, i * CHUNK));
      ValuesAreBytes(Load(a, i * CHUNK));
      ValuesAreBytes(Load(b, i * CHUNK));
      FourStep(dot0, dot1, dot2, dot3, s, t, x, y);
      ProductsOfChunk(a, b, i * CHUNK);
      NextChunk(terms, i * CHUNK);
      s := s + Total(MullPairs(x[0..8], y[0..8])) + Total(MullPairs(x[8..16], y[8..16]));
      t := t + Total(MullPairs(x[16..24], y[16..24])) + Total(MullPairs(x[24..32], y[24..32]));
      dot0 := AddLanes(dot0, MullPairs(x[0..8], y[0..8]), false);
      dot1 := AddLanes(dot1, MullPairs(x[8..16], y[8..16]), false);
      dot2 := AddLanes(dot2, MullPairs(x[16..24], y[16..24]), false);
      dot3 := AddLanes(dot3, MullPairs(x[24..32], y[24..32]), false);
      HoldsMore(sum0, sum1, Total(values[..i * CHUNK]), Fours(y[0..16]), Fours(y[16..32]));
      FoursTotal(y);
      NextChunk(values, i * CHUNK);
      sum0 := AddLanes(sum0, Fours(y[0..16]), false);
      sum1 := AddLanes(sum1, Fours(y[16..32]), false);
    }
    HoldsFour(dot0, dot1, dot2, dot3, s, t);
    HoldsSum(AddLanes(dot0, dot1, false), AddLanes(dot2, dot3, false), s + t);
    HoldsSum(sum0, sum1, Total(values[..chunks * CHUNK]));
    dot := Wrap(Total(AddLanes(AddLanes(dot0, dot1, false), AddLanes(dot2, dot3, false), false)), false);
    sumB := Wrap(Total(AddLanes(sum0, sum1, false)), false);
    dot, sumB := DotTail(a, b, chunks * CHUNK, dot, sumB);
  }

  // ---------------------------------------------------------------------
  // When the kernels are exact
  // ---------------------------------------------------------------------

  /** Exactly when the chunks together fit one lane. */
  lemma ExactIff(terms: seq<nat>, wide: bool)
    ensures KernelSum(terms, wide) == Total(terms)
       <==> Total(terms[..Chunked(|terms|)]) < (if wide then WIDE else LANE)
  {
    hide Total;
    var c := Chunked(|terms|);
    TotalConcat(terms[..c], terms[c..]);
    assert terms == terms[..c] + terms[c..];
  }

  lemma ChunkedBelow(n: nat)
    requires n < 2065 * CHUNK
    ensures Chunked(n) <= 2064 * CHUNK && MAX_TERM * Chunked(n) < LANE
  {
  }

  /** 2064 chunks always fit: the first failing length is above the promised one. */
  lemma ShortIsExact(terms: seq<nat>, wide: bool)
    requires |terms| < 2065 * CHUNK && forall k :: 0 <= k < |terms| ==> terms[k] <= MAX_TERM
    ensures KernelSum(terms, wide) == Total(terms)
  {
    hide Total, Chunked, KernelSum;
    var c := Chunked(|terms|);
    ChunkedBelow(|terms|);
    TotalBound(terms[..c], MAX_TERM);
    ExactIff(terms, wide);
  }

  /** From 2065 chunks on, the largest difference everywhere is summed wrongly. */
  lemma LongIsWrong(n: nat, a: seq<Byte>, b: seq<Byte>)
    requires n >= 2065 * CHUNK && |a| == |b| == n
    requires forall k :: 0 <= k < n ==> a[k] == 255 && b[k] == 0
    ensures KernelSum(SquareTerms(a, b), false) != Total(SquareTerms(a, b))
  {
    hide Total;
    var terms := SquareTerms(a, b);
    var c := Chunked(n);
    TotalConstant(terms[..c], MAX_TERM);
    ExactIff(terms, false);
  }

  datatype Cpu = Plain | Avx2 | Neon

  lemma SquaresBounded(a: seq<Byte>, b: seq<Byte>)
    requires |a| == |b|
    ensures forall k :: 0 <= k < |a| ==> SquareTerms(a, b)[k] <= MAX_TERM
  {
    forall k | 0 <= k < |a|
      ensures SquareTerms(a, b)[k] <= MAX_TERM
    {
      SquareSigned(a[k], b[k]);
    }
  }

  lemma ProductsBounded(a: seq<Byte>, b: seq<Byte>)
    requires |a| == |b|
    ensures forall k :: 0 <= k < |a| ==> Products(Values(a), Values(b))[k] <= MAX_TERM
  {
    forall k | 0 <= k < |a|
      ensures Products(Values(a), Values(b))[k] <= MAX_TERM
    {
      ProductBound(a[k], b[k]);
    }
  }

  /** `sq8_l2_accum`. */
  method L2Accum(cpu: Cpu, a: seq<Byte>, b: seq<Byte>) returns (sum: nat)
    requires |a| == |b|
    ensures |a| < 2065 * CHUNK ==> sum == Total(SquareTerms(a, b))
    ensures |a| <= MAX_LEN ==> sum == Total(SquareTerms(a, b))
    ensures sum == Total(SquareTerms(a, b)) <==> cpu.Plain? || Total(SquareTerms(a, b)[..Chunked(|a|)]) < LANE
  {
    hide Total, SquareTerms;
    ExactIff(SquareTerms(a, b), false);
    SquaresBounded(a, b);
    if |a| < 2065 * CHUNK {
      ShortIsExact(SquareTerms(a, b), false);
    }
    match cpu
    case Plain => sum := L2Scalar(a, b);
    case Avx2 => sum := L2Avx2(a, b);
    case Neon => sum := L2Neon(a, b);
  }

  /** `sq8_dot_accum`. */
  method DotAccum(cpu: Cpu, a: seq<Byte>, b: seq<Byte>) returns (dot: nat, sumB: nat)
    requires |a| == |b|
    ensures |a| < 2065 * CHUNK ==> dot == Total(Products(Values(a), Values(b))) && sumB == Total(Values(b))
    ensures dot == Total(Products(Values(a), Values(b)))
       <==> cpu.Plain? || Total(Products(Values(a), Values(b))[..Chunked(|a|)]) < LANE
  {
    hide Total, Products;
    ExactIff(Products(Values(a), Values(b)), false);
    ProductsBounded(a, b);
    if |a| < 2065 * CHUNK {
      ShortIsExact(Products(Values(a), Values(b)), false);
      ShortIsExact(Values(b), false);
      ShortIsExact(Values(b), true);
    }
    match cpu
    case Plain => dot, sumB := DotScalar(a, b);
    case Avx2 => dot, sumB := DotAvx2(a, b);
    case Neon => dot, sumB := DotNeon(a, b);
  }
}
