/**
 * Bytes: little-endian integers, and the cursor that every decoder advances.
 * Encoders append; `At` says that an encoding stands at a position of a buffer.
 */
module Bytes {
  import opened Records

  type Byte = b: int | 0 <= b < 256

  function Pow256(k: nat): (p: nat)
    ensures p > 0
  {
    if k == 0 then 1 else 256 * Pow256(k - 1)
  }

  /** The `k` low bytes of `n`, least significant first; larger numbers are truncated, as by `as u32`. */
  function Le(n: nat, k: nat): (s: seq<Byte>)
    ensures |s| == k
    decreases k
  {
    if k == 0 then [] else [n % 256] + Le(n / 256, k - 1)
  }

  function FromLe(s: seq<Byte>): (n: nat)
    ensures n < Pow256(|s|)
  {
    if s == [] then 0 else s[0] + 256 * FromLe(s[1..])
  }

  /** A number that fits its width reads back. */
  lemma {:induction false} LeRoundTrip(n: nat, k: nat)
    requires n < Pow256(k)
    ensures FromLe(Le(n, k)) == n
    decreases k
  {
    if k > 0 {
      LeRoundTrip(n / 256, k - 1);
      assert Le(n, k)[1..] == Le(n / 256, k - 1);
    }
  }

  /** Any bytes are those of the number they stand for. */
  lemma {:induction false} LeOfBytes(s: seq<Byte>)
    ensures Le(FromLe(s), |s|) == s
  {
    if s != [] {
      LeOfBytes(s[1..]);
      LowByte(s[0], FromLe(s[1..]));
      hide FromLe;
      assert s == [s[0]] + s[1..];
    }
  }

  lemma LowByte(b: nat, n: nat)
    requires b < 256
    ensures (b + 256 * n) % 256 == b && (b + 256 * n) / 256 == n
  {
  }

  lemma Widths()
    ensures Pow256(1) == 0x100 && Pow256(4) == 0x1_0000_0000 && Pow256(8) == 0x1_0000_0000_0000_0000
  {
    assert Pow256(2) == 256 * Pow256(1);
    assert Pow256(3) == 256 * Pow256(2);
    assert Pow256(4) == 256 * Pow256(3);
    assert Pow256(5) == 256 * Pow256(4);
    assert Pow256(6) == 256 * Pow256(5);
    assert Pow256(7) == 256 * Pow256(6);
    assert Pow256(8) == 256 * Pow256(7);
  }

  function Zeros(n: nat): (s: seq<Byte>)
    ensures |s| == n
  {
    seq(n, _ => 0)
  }

  const U32_SIZE: nat := 0x1_0000_0000
  const U64_SIZE: nat := 0x1_0000_0000_0000_0000

  function U32(n: nat): (s: seq<Byte>)
    ensures |s| == 4
  {
    Le(n, 4)
  }

  function U64(n: nat): (s: seq<Byte>)
    ensures |s| == 8
  {
    Le(n, 8)
  }

  lemma U32RoundTrip(n: nat)
    requires n < U32_SIZE
    ensures FromLe(U32(n)) == n
  {
    Widths();
    LeRoundTrip(n, 4);
  }

  lemma U64RoundTrip(n: nat)
    requires n < U64_SIZE
    ensures FromLe(U64(n)) == n
  {
    Widths();
    LeRoundTrip(n, 8);
  }

  /** A checksum function, of which only the width of its result is known. */
  type Crc = seq<Byte> -> nat

  ghost predicate CrcOk(crc: Crc) {
    forall b :: crc(b) < U32_SIZE
  }

  // ---------------------------------------------------------------------
  // Positions in a buffer
  // ---------------------------------------------------------------------

  /** The bytes `enc` stand at `pos`. */
  ghost predicate At(buf: seq<Byte>, pos: nat, enc: seq<Byte>) {
    pos + |enc| <= |buf| && buf[pos..pos + |enc|] == enc
  }

  lemma AtSplit(buf: seq<Byte>, pos: nat, a: seq<Byte>, b: seq<Byte>)
    requires At(buf, pos, a + b)
    ensures At(buf, pos, a) && At(buf, pos + |a|, b)
  {
    assert buf[pos..pos + |a|] == buf[pos..pos + |a + b|][..|a|];
    assert buf[pos + |a|..pos + |a| + |b|] == buf[pos..pos + |a + b|][|a|..];
    assert (a + b)[..|a|] == a && (a + b)[|a|..] == b;
  }

  lemma AtWhole(enc: seq<Byte>)
    ensures At(enc, 0, enc)
  {
    assert enc[0..|enc|] == enc;
  }

  // ---------------------------------------------------------------------
  // The cursor
  // ---------------------------------------------------------------------

  /** `Reader`: every read either advances past its bytes or fails and reads nothing. */
  class Reader {
    const buf: seq<Byte>
    var pos: nat

    ghost predicate Valid()
      reads this
    {
      pos <= |buf|
    }

    constructor (buf: seq<Byte>)
      ensures Valid() && this.buf == buf && pos == 0
    {
      this.buf := buf;
      pos := 0;
    }

    method Take(n: nat) returns (r: Option<seq<Byte>>)
      requires Valid()
      modifies this`pos
      ensures Valid() && r == GetBytes(buf, old(pos), n)
      ensures pos == if r.Some? then old(pos) + n else old(pos)
    {
      if |buf| - pos < n {
        return None;
      }
      r := Some(buf[pos..pos + n]);
      pos := pos + n;
    }

    method TakeInt(n: nat) returns (r: Option<nat>)
      requires Valid()
      modifies this`pos
      ensures Valid() && r == GetInt(buf, old(pos), n)
      ensures pos == if r.Some? then old(pos) + n else old(pos)
    {
      var bytes := Take(n);
      if bytes.None? {
        return None;
      }
      return Some(FromLe(bytes.value));
    }
  }

  function GetBytes(buf: seq<Byte>, pos: nat, n: nat): (r: Option<seq<Byte>>)
    requires pos <= |buf|
  {
    if |buf| - pos < n then None else Some(buf[pos..pos + n])
  }

  function GetInt(buf: seq<Byte>, pos: nat, n: nat): (r: Option<nat>)
    requires pos <= |buf|
  {
    if |buf| - pos < n then None else Some(FromLe(buf[pos..pos + n]))
  }

  lemma ReadsU32(buf: seq<Byte>, pos: nat, n: nat)
    requires At(buf, pos, U32(n)) && n < U32_SIZE
    ensures GetInt(buf, pos, 4) == Some(n)
  {
    U32RoundTrip(n);
  }

  lemma ReadsU64(buf: seq<Byte>, pos: nat, n: nat)
    requires At(buf, pos, U64(n)) && n < U64_SIZE
    ensures GetInt(buf, pos, 8) == Some(n)
  {
    U64RoundTrip(n);
  }

  lemma ReadsByte(buf: seq<Byte>, pos: nat, b: Byte)
    requires At(buf, pos, [b])
    ensures GetInt(buf, pos, 1) == Some(b)
  {
    assert [b][1..] == [];
    assert FromLe([b]) == b;
  }

  // ---------------------------------------------------------------------
  // Sequences of words
  // ---------------------------------------------------------------------

  /** `u32` words one after another. */
  function Words(ws: seq<nat>): (s: seq<Byte>)
    ensures |s| == 4 * |ws|
  {
    if ws == [] then [] else U32(ws[0]) + Words(ws[1..])
  }

  lemma {:induction false} WordsAppend(a: seq<nat>, b: seq<nat>)
    ensures Words(a + b) == Words(a) + Words(b)
  {
    if a == [] {
      assert a + b == b;
    } else {
      assert (a + b)[1..] == a[1..] + b;
      WordsAppend(a[1..], b);
    }
  }

  /** `len` words read at a position, if they fit. */
  function GetWords(buf: seq<Byte>, pos: nat, len: nat): (r: Option<seq<nat>>)
    ensures r.Some? <==> pos + 4 * len <= |buf| || len == 0
    ensures r.Some? ==> |r.value| == len
    decreases len
  {
    if len == 0 then Some([])
    else if pos + 4 > |buf| then None
    else match GetWords(buf, pos + 4, len - 1)
      case None => None
      case Some(rest) => Some([FromLe(buf[pos..pos + 4])] + rest)
  }

  /** Every word fits 32 bits. */
  ghost predicate Small(ws: seq<nat>) {
    forall i :: 0 <= i < |ws| ==> ws[i] < U32_SIZE
  }

  lemma {:induction false} ReadsWords(buf: seq<Byte>, pos: nat, ws: seq<nat>)
    requires At(buf, pos, Words(ws)) && Small(ws)
    ensures GetWords(buf, pos, |ws|) == Some(ws)
    decreases |ws|
  {
    if ws != [] {
      AtSplit(buf, pos, U32(ws[0]), Words(ws[1..]));
      ReadsU32(buf, pos, ws[0]);
      ReadsWords(buf, pos + 4, ws[1..]);
      assert FromLe(buf[pos..pos + 4]) == ws[0];
      assert [ws[0]] + ws[1..] == ws;
    }
  }
}
