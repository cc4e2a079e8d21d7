/**
 * WAL files: checksummed frames after a magic, the stop rule of `read_all`, and what it reads from a
 * file that was cut at an arbitrary byte. The checksum is an arbitrary 32-bit function.
 */
module WalFile {
  import opened Records
  import opened Bytes
  import opened Wire

  const MAGIC_WAL: seq<Byte> := [72, 65, 77, 65, 78, 69, 87, 1]
  const FRAME_HEADER_LEN: nat := 8

  /** `put_frame` */
  function Framed(body: seq<Byte>, crc: Crc): (f: seq<Byte>)
    ensures |f| == FRAME_HEADER_LEN + |body|
  {
    U32(crc(body)) + U32(|body|) + body
  }

  datatype Frame = Whole(body: seq<Byte>, consumed: nat) | Torn

  /** `read_frame`: too short, a wrong checksum and an empty body all end the readable part. */
  function ReadFrame(buf: seq<Byte>, crc: Crc): (f: Frame)
    ensures f.Whole? ==> FRAME_HEADER_LEN < f.consumed <= |buf|
  {
    if |buf| < FRAME_HEADER_LEN then Torn else
      var stored, len := FromLe(buf[0..4]), FromLe(buf[4..8]);
      if |buf| < FRAME_HEADER_LEN + len then Torn else
        var body := buf[FRAME_HEADER_LEN..FRAME_HEADER_LEN + len];
        if crc(body) != stored || len == 0 then Torn else Whole(body, FRAME_HEADER_LEN + len)
  }

  function Frames(records: seq<Record>, crc: Crc): seq<Byte> {
    if records == [] then [] else Framed(Encoded(records[0]), crc) + Frames(records[1..], crc)
  }

  /** The bytes of a WAL file that holds these records. */
  function FileOf(records: seq<Record>, crc: Crc): seq<Byte> {
    MAGIC_WAL + Frames(records, crc)
  }

  /** Records a writer can log: fields in range, and a frame length that fits its field. */
  ghost predicate Loggable(records: seq<Record>, utf8: Utf8) {
    forall i :: 0 <= i < |records| ==> RecordOk(records[i], utf8) && |Encoded(records[i])| < U32_SIZE
  }

  // ---------------------------------------------------------------------
  // Reading
  // ---------------------------------------------------------------------

  datatype WalReplay = WalReplay(records: seq<Record>, validLen: nat)

  /** Whole frames from `pos` on; a whole frame that does not decode is an error. */
  function ReadFrom(buf: seq<Byte>, pos: nat, crc: Crc, utf8: Utf8): (r: Option<WalReplay>)
    requires pos <= |buf|
    ensures r.Some? ==> pos <= r.value.validLen <= |buf|
    decreases |buf| - pos
  {
    match ReadFrame(buf[pos..], crc)
    case Torn => Some(WalReplay([], pos))
    case Whole(body, consumed) =>
      match Decode(body, utf8)
      case None => None
      case Some(rec) =>
        match ReadFrom(buf, pos + consumed, crc, utf8)
        case None => None
        case Some(rest) => Some(WalReplay([rec] + rest.records, rest.validLen))
  }

  /** `read_all`; `None` is `Corrupted`. */
  function ReadAll(buf: seq<Byte>, crc: Crc, utf8: Utf8): Option<WalReplay> {
    if |buf| < |MAGIC_WAL| || buf[..|MAGIC_WAL|] != MAGIC_WAL then None else ReadFrom(buf, |MAGIC_WAL|, crc, utf8)
  }

  /** Records read before the rest. */
  function After(front: seq<Record>, rest: Option<WalReplay>): Option<WalReplay> {
    match rest
    case None => None
    case Some(r) => Some(WalReplay(front + r.records, r.validLen))
  }

  lemma AfterNothing(rest: Option<WalReplay>)
    ensures After([], rest) == rest
  {
    if rest.Some? {
      assert [] + rest.value.records == rest.value.records;
    }
  }

  lemma ReadFromStep(buf: seq<Byte>, pos: nat, crc: Crc, utf8: Utf8, body: seq<Byte>, consumed: nat, rec: Record)
    requires pos <= |buf| && ReadFrame(buf[pos..], crc) == Whole(body, consumed) && Decode(body, utf8) == Some(rec)
    ensures pos + consumed <= |buf|
    ensures ReadFrom(buf, pos, crc, utf8) == After([rec], ReadFrom(buf, pos + consumed, crc, utf8))
  {
    hide ReadFrame, Decode;
  }

  lemma ReadFromEnds(buf: seq<Byte>, pos: nat, crc: Crc, utf8: Utf8)
    requires pos <= |buf|
    ensures ReadFrame(buf[pos..], crc) == Torn ==> ReadFrom(buf, pos, crc, utf8) == Some(WalReplay([], pos))
    ensures ReadFrame(buf[pos..], crc).Whole? && Decode(ReadFrame(buf[pos..], crc).body, utf8).None?
        ==> ReadFrom(buf, pos, crc, utf8) == None
  {
    hide ReadFrame, Decode;
  }

  lemma AfterSnoc(front: seq<Record>, rec: Record, rest: Option<WalReplay>)
    ensures After(front, After([rec], rest)) == After(front + [rec], rest)
  {
    if rest.Some? {
      assert front + ([rec] + rest.value.records) == (front + [rec]) + rest.value.records;
    }
  }

  lemma FrameFits(buf: seq<Byte>, crc: Crc)
    ensures ReadFrame(buf, crc).Whole? ==> 0 < ReadFrame(buf, crc).consumed <= |buf|
  {
  }

  /** The reading loop. */
  method ReadAllFrames(buf: seq<Byte>, crc: Crc, utf8: Utf8) returns (r: Option<WalReplay>)
    ensures r == ReadAll(buf, crc, utf8)
  {
    if |buf| < |MAGIC_WAL| || buf[..|MAGIC_WAL|] != MAGIC_WAL {
      return None;
    }
    r := ReadFrames(buf, |MAGIC_WAL|, crc, utf8);
  }

  method ReadFrames(buf: seq<Byte>, start: nat, crc: Crc, utf8: Utf8) returns (r: Option<WalReplay>)
    requires start <= |buf|
    ensures r == ReadFrom(buf, start, crc, utf8)
  {
    hide ReadFrame, Decode, ReadFrom, After;
    var records := [];
    var pos := start;
    AfterNothing(ReadFrom(buf, start, crc, utf8));
    while true
      invariant start <= pos <= |buf|
      invariant ReadFrom(buf, start, crc, utf8) == After(records, ReadFrom(buf, pos, crc, utf8))
      decreases |buf| - pos
    {
      ReadFromEnds(buf, pos, crc, utf8);
      var frame := ReadFrame(buf[pos..], crc);
      if frame.Torn? {
        break;
      }
      FrameFits(buf[pos..], crc);
      var rec := Decode(frame.body, utf8);
      if rec.None? {
        AfterError(records);
        return None;
      }
      ReadFromStep(buf, pos, crc, utf8, frame.body, frame.consumed, rec.value);
      AfterSnoc(records, rec.value, ReadFrom(buf, pos + frame.consumed, crc, utf8));
      records := records + [rec.value];
      pos := pos + frame.consumed;
    }
    AfterAll(records, pos);
    return Some(WalReplay(records, pos));
  }

  lemma AfterError(front: seq<Record>)
    ensures After(front, None) == None
  {
  }

  lemma AfterAll(front: seq<Record>, pos: nat)
    ensures After(front, Some(WalReplay([], pos))) == Some(WalReplay(front, pos))
  {
    assert front + [] == front;
  }

  // ---------------------------------------------------------------------
  // Frames read back, and cut frames do not
  // ---------------------------------------------------------------------

  /** A whole frame followed by anything. */
  lemma FrameReads(body: seq<Byte>, crc: Crc, rest: seq<Byte>)
    requires crc(body) < U32_SIZE && 0 < |body| < U32_SIZE
    ensures ReadFrame(Framed(body, crc) + rest, crc) == Whole(body, FRAME_HEADER_LEN + |body|)
  {
    var buf := Framed(body, crc) + rest;
    hide U32, FromLe;
    assert buf[0..4] == U32(crc(body)) && buf[4..8] == U32(|body|);
    assert buf[FRAME_HEADER_LEN..FRAME_HEADER_LEN + |body|] == body;
    U32RoundTrip(crc(body));
    U32RoundTrip(|body|);
  }

  /** A frame cut short is never taken for a whole one, whatever the checksum function. */
  lemma CutFrameIsTorn(body: seq<Byte>, crc: Crc, len: nat)
    requires |body| < U32_SIZE && len < |Framed(body, crc)|
    ensures ReadFrame(Framed(body, crc)[..len], crc) == Torn
  {
    var buf := Framed(body, crc)[..len];
    hide U32, FromLe;
    if len >= FRAME_HEADER_LEN {
      assert buf[4..8] == Framed(body, crc)[4..8] == U32(|body|);
      U32RoundTrip(|body|);
    }
  }

  /** How many of the records' frames end within the first `len` bytes. */
  ghost function WholeFrames(records: seq<Record>, crc: Crc, len: nat): (k: nat)
    ensures k <= |records|
    decreases |records|
  {
    if records == [] then 0 else
      var first := |Framed(Encoded(records[0]), crc)|;
      if len < first then 0 else 1 + WholeFrames(records[1..], crc, len - first)
  }

  lemma PrefixFrames(records: seq<Record>, crc: Crc, i: nat)
    requires 0 < i <= |records|
    ensures |Frames(records[..i], crc)| == |Framed(Encoded(records[0]), crc)| + |Frames(records[1..][..i - 1], crc)|
  {
    hide Framed, Encoded;
    assert records[..i][1..] == records[1..][..i - 1];
  }

  lemma {:induction false} WholeFramesBounds(records: seq<Record>, crc: Crc, len: nat)
    requires len <= |Frames(records, crc)|
    ensures var k := WholeFrames(records, crc, len);
            && |Frames(records[..k], crc)| <= len
            && (k < |records| ==> len < |Frames(records[..k + 1], crc)|)
            && (k == |records| ==> len == |Frames(records, crc)|)
    decreases |records|
  {
    hide Framed, Encoded;
    if records != [] {
      var first := |Framed(Encoded(records[0]), crc)|;
      var k := WholeFrames(records, crc, len);
      PrefixFrames(records, crc, if k < |records| then k + 1 else k);
      if len >= first {
        WholeFramesBounds(records[1..], crc, len - first);
        PrefixFrames(records, crc, k);
      } else {
        assert records[1..][..0] == [];
      }
    }
  }

  /** Frames after any prefix, followed by bytes that do not start with a whole frame. */
  lemma {:induction false} ReadsFrames(pre: seq<Byte>, records: seq<Record>, junk: seq<Byte>, crc: Crc, utf8: Utf8)
    requires CrcOk(crc) && Loggable(records, utf8) && ReadFrame(junk, crc) == Torn
    ensures ReadFrom(pre + Frames(records, crc) + junk, |pre|, crc, utf8)
            == Some(WalReplay(records, |pre| + |Frames(records, crc)|))
    decreases |records|
  {
    hide Encoded, Decode, ReadFrame, RecordOk, Framed, ReadFrom;
    if records == [] {
      JunkReads(pre, junk, crc, utf8);
      assert pre + [] + junk == pre + junk;
    } else {
      var frame, rest := Framed(Encoded(records[0]), crc), records[1..];
      var more := Frames(rest, crc) + junk;
      assert pre + Frames(records, crc) + junk == pre + frame + more;
      assert (pre + frame) + Frames(rest, crc) + junk == pre + frame + more;
      FirstReads(pre, records[0], more, crc, utf8);
      ReadsFrames(pre + frame, rest, junk, crc, utf8);
      assert [records[0]] + rest == records;
    }
  }

  lemma JunkReads(pre: seq<Byte>, junk: seq<Byte>, crc: Crc, utf8: Utf8)
    requires ReadFrame(junk, crc) == Torn
    ensures ReadFrom(pre + junk, |pre|, crc, utf8) == Some(WalReplay([], |pre|))
  {
    hide ReadFrame;
    assert (pre + junk)[|pre|..] == junk;
  }

  lemma FirstReads(pre: seq<Byte>, r: Record, more: seq<Byte>, crc: Crc, utf8: Utf8)
    requires CrcOk(crc) && RecordOk(r, utf8) && |Encoded(r)| < U32_SIZE
    ensures var frame := Framed(Encoded(r), crc);
            ReadFrom(pre + frame + more, |pre|, crc, utf8) == After([r],
                ReadFrom(pre + frame + more, |pre| + |frame|, crc, utf8))
  {
    hide Encoded, Decode, ReadFrame, RecordOk, Framed, ReadFrom;
    var body := Encoded(r);
    var buf := pre + Framed(body, crc) + more;
    assert buf[|pre|..] == Framed(body, crc) + more;
    EncodedNonEmpty(r);
    FrameReads(body, crc, more);
    RecordRoundTrip(r, utf8);
    ReadFromStep(buf, |pre|, crc, utf8, body, FRAME_HEADER_LEN + |body|, r);
  }

  lemma EncodedNonEmpty(r: Record)
    ensures Encoded(r) != []
  {
  }

  /** Everything before the first damage is read: a frame that fails its checksum ends the file. */
  lemma DamagedTail(records: seq<Record>, junk: seq<Byte>, crc: Crc, utf8: Utf8)
    requires CrcOk(crc) && Loggable(records, utf8) && ReadFrame(junk, crc) == Torn
    ensures ReadAll(FileOf(records, crc) + junk, crc, utf8) == Some(WalReplay(records, |FileOf(records, crc)|))
  {
    ReadsFrames(MAGIC_WAL, records, junk, crc, utf8);
  }

  lemma {:induction false} FramesAppend(a: seq<Record>, b: seq<Record>, crc: Crc)
    ensures Frames(a + b, crc) == Frames(a, crc) + Frames(b, crc)
  {
    if a == [] {
      assert a + b == b;
    } else {
      assert (a + b)[1..] == a[1..] + b;
      FramesAppend(a[1..], b, crc);
    }
  }

  lemma FramesSplit(records: seq<Record>, i: nat, crc: Crc)
    requires i < |records|
    ensures Frames(records[i..], crc) == Framed(Encoded(records[i]), crc) + Frames(records[i + 1..], crc)
    ensures |Frames(records[..i + 1], crc)| == |Frames(records[..i], crc)| + FRAME_HEADER_LEN + |Encoded(records[i])|
  {
    hide Encoded, Framed;
    assert records[i..][0] == records[i] && records[i..][1..] == records[i + 1..];
    FramesAppend(records[..i], [records[i]], crc);
    assert records[..i + 1] == records[..i] + [records[i]];
    assert [records[i]][1..] == [];
  }

  // ---------------------------------------------------------------------
  // Damaged frames
  // ---------------------------------------------------------------------

  /** Some bytes replaced by as many others. */
  function Overwritten(buf: seq<Byte>, at: nat, b: seq<Byte>): (r: seq<Byte>)
    requires at + |b| <= |buf|
    ensures |r| == |buf|
  {
    buf[..at] + b + buf[at + |b|..]
  }

  /** A frame whose stored checksum is not that of its body. */
  lemma WrongChecksumIsTorn(stored: seq<Byte>, body: seq<Byte>, crc: Crc, rest: seq<Byte>)
    requires |stored| == 4 && |body| < U32_SIZE && FromLe(stored) != crc(body)
    ensures ReadFrame(stored + U32(|body|) + body + rest, crc) == Torn
  {
    var buf := stored + U32(|body|) + body + rest;
    hide U32, FromLe;
    assert buf[0..4] == stored && buf[4..8] == U32(|body|);
    assert buf[FRAME_HEADER_LEN..FRAME_HEADER_LEN + |body|] == body;
    U32RoundTrip(|body|);
  }

  /**
   * Bytes `b` written over frame `i` at `at` damage it: another body of the same length with another checksum, or
   * another checksum.
   */
  ghost predicate Damages(records: seq<Record>, i: nat, crc: Crc, at: nat, b: seq<Byte>)
    requires i < |records|
  {
    var start, body := |Frames(records[..i], crc)|, Encoded(records[i]);
    || (at == start + FRAME_HEADER_LEN && |b| == |body| && crc(b) != crc(body))
    || (at == start && |b| == 4 && b != U32(crc(body)))
  }

  lemma DamagedRest(records: seq<Record>, i: nat, crc: Crc, utf8: Utf8, at: nat, b: seq<Byte>) returns (junk: seq<Byte>)
    requires CrcOk(crc) && Loggable(records, utf8) && i < |records| && Damages(records, i, crc, at, b)
    ensures at + |b| <= |Frames(records, crc)| && ReadFrame(junk, crc) == Torn
    ensures Overwritten(Frames(records, crc), at, b) == Frames(records[..i], crc) + junk
  {
    hide Frames, ReadFrame, Encoded, RecordOk, U32, FromLe;
    var front, body, rest := Frames(records[..i], crc), Encoded(records[i]), Frames(records[i + 1..], crc);
    assert records == records[..i] + records[i..];
    FramesAppend(records[..i], records[i..], crc);
    FramesSplit(records, i, crc);
    U32RoundTrip(crc(body));
    if at == |front| {
      junk := b + U32(|body|) + body + rest;
      FourBytes(b);
      WrongChecksumIsTorn(b, body, crc, rest);
    } else {
      junk := U32(crc(body)) + U32(|body|) + b + rest;
      WrongChecksumIsTorn(U32(crc(body)), b, crc, rest);
    }
  }

  lemma FourBytes(b: seq<Byte>)
    requires |b| == 4
    ensures U32(FromLe(b)) == b
  {
    LeOfBytes(b);
  }

  lemma LoggablePrefix(records: seq<Record>, utf8: Utf8, i: nat)
    requires Loggable(records, utf8) && i <= |records|
    ensures Loggable(records[..i], utf8)
  {
    hide RecordOk, Encoded;
  }

  /** Of a file with a damaged frame exactly the frames before it are read. */
  lemma DamagedFrame(records: seq<Record>, i: nat, crc: Crc, utf8: Utf8, at: nat, b: seq<Byte>)
    requires CrcOk(crc) && Loggable(records, utf8) && i < |records| && Damages(records, i, crc, at, b)
    ensures |MAGIC_WAL| + at + |b| <= |FileOf(records, crc)|
    ensures ReadAll(Overwritten(FileOf(records, crc), |MAGIC_WAL| + at, b), crc, utf8)
            == Some(WalReplay(records[..i], |FileOf(records[..i], crc)|))
  {
    hide Frames, ReadFrame, Loggable, Damages, ReadAll;
    var junk := DamagedRest(records, i, crc, utf8, at, b);
    LoggablePrefix(records, utf8, i);
    DamagedTail(records[..i], junk, crc, utf8);
    var file := Overwritten(FileOf(records, crc), |MAGIC_WAL| + at, b);
    assert file == MAGIC_WAL + Overwritten(Frames(records, crc), at, b);
    assert file == FileOf(records[..i], crc) + junk;
  }

  /** Zeros behind the last frame, as a file system may leave them, are no frame for any checksum. */
  lemma ZeroTail(records: seq<Record>, n: nat, crc: Crc, utf8: Utf8)
    requires CrcOk(crc) && Loggable(records, utf8)
    ensures ReadAll(FileOf(records, crc) + Zeros(n), crc, utf8) == Some(WalReplay(records, |FileOf(records, crc)|))
  {
    ZerosAreTorn(n, crc);
    DamagedTail(records, Zeros(n), crc, utf8);
  }

  lemma ZerosAreTorn(n: nat, crc: Crc)
    ensures ReadFrame(Zeros(n), crc) == Torn
  {
    if n >= FRAME_HEADER_LEN {
      assert Zeros(n)[4..8] == [0, 0, 0, 0];
      ZeroLength();
    }
  }

  lemma ZeroLength()
    ensures FromLe([0, 0, 0, 0]) == 0
  {
    U32RoundTrip(0);
    assert U32(0) == [0, 0, 0, 0];
  }

  /** What is left of the file after its whole frames starts with a cut frame, or is empty. */
  lemma CutTail(records: seq<Record>, crc: Crc, utf8: Utf8, len: nat, k: nat)
    requires Loggable(records, utf8) && len <= |Frames(records, crc)| && k == WholeFrames(records, crc, len)
    ensures |Frames(records[..k], crc)| <= len
    ensures Frames(records, crc)[..len] == Frames(records[..k], crc)
        + Frames(records, crc)[|Frames(records[..k], crc)|..len]
    ensures ReadFrame(Frames(records, crc)[|Frames(records[..k], crc)|..len], crc) == Torn
  {
    hide Framed, Encoded, ReadFrame, WholeFrames, RecordOk;
    WholeFramesBounds(records, crc, len);
    var whole := Frames(records[..k], crc);
    assert records == records[..k] + records[k..];
    FramesAppend(records[..k], records[k..], crc);
    var junk := Frames(records, crc)[|whole|..len];
    if k == |records| {
      assert records[..k] == records;
      assert junk == [];
      NothingIsTorn(crc);
    } else {
      CutInFrame(records, crc, k, len);
      CutFrameIsTorn(Encoded(records[k]), crc, len - |whole|);
    }
  }

  /** A cut inside frame `k` leaves a strict prefix of that frame. */
  lemma CutInFrame(records: seq<Record>, crc: Crc, k: nat, len: nat)
    requires k < |records| && |Frames(records[..k], crc)| <= len <= |Frames(records, crc)|
    requires len < |Frames(records[..k + 1], crc)|
    ensures var whole, frame := Frames(records[..k], crc), Framed(Encoded(records[k]), crc);
            len - |whole| < |frame| && Frames(records, crc)[|whole|..len] == frame[..len - |whole|]
  {
    hide Framed, Encoded;
    var whole, frame := Frames(records[..k], crc), Framed(Encoded(records[k]), crc);
    assert records == records[..k] + records[k..] && records[k..][0] == records[k];
    FramesAppend(records[..k], records[k..], crc);
    assert Frames(records[k..], crc) == frame + Frames(records[k..][1..], crc);
    assert records[..k + 1] == records[..k] + [records[k]] && [records[k]][1..] == [];
    FramesAppend(records[..k], [records[k]], crc);
    assert Frames([records[k]], crc) == frame + [];
  }

  lemma NothingIsTorn(crc: Crc)
    ensures ReadFrame([], crc) == Torn
  {
  }

  /**
   * The torn-tail rule. A file cut at any byte at or after the end of its magic gives exactly the
   * records whose frames end by the cut, and `valid_len` is the end of the last of them.
   */
  lemma TornTail(records: seq<Record>, crc: Crc, utf8: Utf8, cut: nat)
    requires CrcOk(crc) && Loggable(records, utf8) && |MAGIC_WAL| <= cut <= |FileOf(records, crc)|
    ensures var k := WholeFrames(records, crc, cut - |MAGIC_WAL|);
            && |FileOf(records[..k], crc)| <= cut && (k < |records| ==> cut < |FileOf(records[..k + 1], crc)|)
            && ReadAll(FileOf(records, crc)[..cut], crc, utf8)
                 == Some(WalReplay(records[..k], |FileOf(records[..k], crc)|))
  {
    hide ReadFrame, Encoded, Framed, Decode;
    var len := cut - |MAGIC_WAL|;
    var k := WholeFrames(records, crc, len);
    CutTail(records, crc, utf8, len, k);
    WholeFramesBounds(records, crc, len);
    var whole := Frames(records[..k], crc);
    var junk := Frames(records, crc)[|whole|..len];
    var buf := FileOf(records, crc)[..cut];
    assert buf == MAGIC_WAL + whole + junk;
    assert Loggable(records[..k], utf8);
    DamagedTail(records[..k], junk, crc, utf8);
    assert FileOf(records[..k], crc) + junk == buf;
  }

  // ---------------------------------------------------------------------
  // Frame boundaries
  // ---------------------------------------------------------------------

  /** Counting whole frames from a later frame on. */
  lemma {:induction false} WholeFramesShift(records: seq<Record>, crc: Crc, len: nat, k: nat)
    requires k <= |records| && |Frames(records[..k], crc)| <= len
    ensures WholeFrames(records, crc, len) == k + WholeFrames(records[k..], crc, len - |Frames(records[..k], crc)|)
    decreases k
  {
    hide Framed, Encoded;
    if k == 0 {
      assert records[..0] == [] && records[0..] == records;
    } else {
      PrefixFrames(records, crc, k);
      var first := |Framed(Encoded(records[0]), crc)|;
      assert records[1..][..k - 1] == records[..k][1..];
      WholeFramesShift(records[1..], crc, len - first, k - 1);
      assert records[1..][k - 1..] == records[k..];
    }
  }

  lemma PrefixShorter(records: seq<Record>, crc: Crc, k: nat)
    requires k <= |records|
    ensures |Frames(records[..k], crc)| <= |Frames(records, crc)|
  {
    hide Frames;
    FramesAppend(records[..k], records[k..], crc);
    assert records[..k] + records[k..] == records;
  }

  lemma NothingFits(records: seq<Record>, crc: Crc)
    ensures WholeFrames(records, crc, 0) == 0
  {
  }

  /** The end of a frame. */
  lemma FileBoundary(records: seq<Record>, crc: Crc, k: nat)
    requires k <= |records|
    ensures |FileOf(records[..k], crc)| >= |MAGIC_WAL| && |FileOf(records[..k], crc)| <= |FileOf(records, crc)|
    ensures WholeFrames(records, crc, |FileOf(records[..k], crc)| - |MAGIC_WAL|) == k
  {
    hide Frames, WholeFrames;
    WholeFramesShift(records, crc, |Frames(records[..k], crc)|, k);
    NothingFits(records[k..], crc);
    PrefixShorter(records, crc, k);
  }
}
