/**
 * Replica tailing (`tail_sync`, `apply_wal_frames`): the follower fetches arbitrary byte ranges of the
 * primary's WAL, applies whole frames, stores them when the store accepted them all, and keeps the
 * rest. `Polling` says when it matters how the bytes were cut up.
 */
module Replicas {
  import opened Records
  import opened Bytes
  import opened Wire
  import opened WalFile
  import opened Meanings
  import opened Polling

  // ---------------------------------------------------------------------
  // apply_wal_frames
  // ---------------------------------------------------------------------

  /**
   * Outcome of applying frames: false after a frame that does not decode or is rejected; what came before it stays
   * applied.
   */
  datatype Applied = Applied(ok: bool, consumed: nat, state: Image.Img)

  /** Whole frames from `pos` on, applied one by one. */
  function ApplyAt(rd: Reading, crc: Crc, utf8: Utf8, s: Image.Img, buf: seq<Byte>, pos: nat): Applied
    requires pos <= |buf|
    decreases |buf| - pos
  {
    match ReadFrame(buf[pos..], crc)
    case Torn => Applied(true, pos, s)
    case Whole(body, consumed) =>
      match Decode(body, utf8)
      case None => Applied(false, pos, s)
      case Some(rec) =>
        match Image.Step(s, Meaning(rd, rec))
        case None => Applied(false, pos, s)
        case Some(s') => ApplyAt(rd, crc, utf8, s', buf, pos + consumed)
  }

  /** The loop of `apply_wal_frames` on the state it holds the lock for. */
  method ApplyFrames(rd: Reading, crc: Crc, utf8: Utf8, start: Image.Img, bytes: seq<Byte>)
    returns (ok: bool, consumed: nat, state: Image.Img)
    ensures Applied(ok, consumed, state) == ApplyAt(rd, crc, utf8, start, bytes, 0)
    ensures consumed <= |bytes|
  {
    hide ReadFrame, Decode, Image.Step, Meaning;
    consumed, state := 0, start;
    while true
      invariant consumed <= |bytes|
      invariant ApplyAt(rd, crc, utf8, start, bytes, 0) == ApplyAt(rd, crc, utf8, state, bytes, consumed)
      decreases |bytes| - consumed
    {
      FrameFits(bytes[consumed..], crc);
      var frame := ReadFrame(bytes[consumed..], crc);
      if frame.Torn? {
        break;
      }
      var rec := Decode(frame.body, utf8);
      if rec.None? {
        return false, consumed, state;
      }
      var next := Image.Step(state, Meaning(rd, rec.value));
      if next.None? {
        return false, consumed, state;
      }
      state := next.value;
      consumed := consumed + frame.consumed;
    }
    ok := true;
  }

  /** Frames of accepted records are applied to the last one, and a torn rest is left. */
  lemma {:induction false} AppliedAll(rd: Reading, crc: Crc, utf8: Utf8, s0: Image.Img, s: Image.Img, bytes: seq<Byte>,
        pos: nat, records: seq<Record>, i: nat, junk: seq<Byte>)
    requires CrcOk(crc) && Loggable(records, utf8) && ReadFrame(junk, crc) == Torn
    requires i <= |records| && pos <= |bytes| && pos == |Frames(records[..i], crc)|
        && bytes[pos..] == Frames(records[i..], crc) + junk
    requires Fold(rd, s0, records[..i]) == Some(s) && Fold(rd, s, records[i..]).Some?
    ensures ApplyAt(rd, crc, utf8, s, bytes, pos) == Applied(true, |Frames(records, crc)|,
        Fold(rd, s, records[i..]).value)
    decreases |records| - i
  {
    hide ReadFrame, Decode, RecordOk, Fold, Frames, CrcOk, Loggable, Image.Step, Meaning, Encoded;
    FrameAt(bytes, pos, records, i, junk, crc, utf8);
    if i == |records| {
      assert records[..i] == records;
      FoldNothing(rd, s, records[i..]);
    } else {
      FoldStep(rd, s0, records, i, s);
      AppliedAll(rd, crc, utf8, s0, Image.Step(s, Meaning(rd, records[i])).value, bytes,
                 pos + FRAME_HEADER_LEN + |Encoded(records[i])|, records, i + 1, junk);
      FoldFirst(rd, s, records, i);
    }
  }

  lemma FoldFirst(rd: Reading, s: Image.Img, records: seq<Record>, i: nat)
    requires i < |records| && Image.Step(s, Meaning(rd, records[i])).Some?
    ensures Fold(rd, s, records[i..]) == Fold(rd, Image.Step(s, Meaning(rd, records[i])).value, records[i + 1..])
  {
    hide Fold, Image.Step, Meaning;
    assert records[i..] == [records[i]] + records[i + 1..];
    FoldAppend(rd, s, [records[i]], records[i + 1..]);
    OneRecord(rd, s, records[i]);
  }

  /** A frame that does not decode, or whose record the state rejects, stops the loop behind the good frames. */
  lemma BadFrameStops(rd: Reading, crc: Crc, utf8: Utf8, s: Image.Img, good: seq<Record>, body: seq<Byte>,
      rest: seq<Byte>)
    requires CrcOk(crc) && Loggable(good, utf8) && Fold(rd, s, good).Some? && 0 < |body| < U32_SIZE
    requires Decode(body, utf8).None? || Image.Step(Fold(rd, s, good).value,
        Meaning(rd, Decode(body, utf8).value)).None?
    ensures ApplyAt(rd, crc, utf8, s, Frames(good, crc) + (Framed(body, crc) + rest), 0)
         == Applied(false, |Frames(good, crc)|, Fold(rd, s, good).value)
  {
    hide Fold, Frames, Image.Step, Meaning, Decode, Loggable, CrcOk;
    assert good[..0] == [] && good[0..] == good;
    NoFrames(crc);
    FoldNothing(rd, s, good[..0]);
    GoodThenBad(rd, crc, utf8, s, s, Frames(good, crc) + (Framed(body, crc) + rest), 0, good, 0, body, rest);
  }

  lemma NoFrames(crc: Crc)
    ensures Frames([], crc) == []
  {
  }

  lemma {:induction false} GoodThenBad(rd: Reading, crc: Crc, utf8: Utf8, s0: Image.Img, s: Image.Img, bytes: seq<Byte>,
        pos: nat, good: seq<Record>, i: nat, body: seq<Byte>, rest: seq<Byte>)
    requires CrcOk(crc) && Loggable(good, utf8) && 0 < |body| < U32_SIZE
    requires i <= |good| && pos <= |bytes| && pos == |Frames(good[..i], crc)|
    requires bytes[pos..] == Frames(good[i..], crc) + (Framed(body, crc) + rest)
    requires Fold(rd, s0, good[..i]) == Some(s) && Fold(rd, s, good[i..]).Some?
    requires var end := Fold(rd, s, good[i..]).value;
             Decode(body, utf8).None? || Image.Step(end, Meaning(rd, Decode(body, utf8).value)).None?
    ensures ApplyAt(rd, crc, utf8, s, bytes, pos) == Applied(false, |Frames(good, crc)|, Fold(rd, s, good[i..]).value)
    decreases |good| - i
  {
    hide ReadFrame, Decode, RecordOk, Fold, Frames, CrcOk, Loggable, Image.Step, Meaning, Encoded, Framed;
    if i == |good| {
      assert good[..i] == good;
      FoldNothing(rd, s, good[i..]);
      LastFrame(bytes, pos, good, i, body, rest, crc);
    } else {
      GoodFrame(bytes, pos, good, i, body, rest, crc, utf8);
      FoldStep(rd, s0, good, i, s);
      FoldFirst(rd, s, good, i);
      GoodThenBad(rd, crc, utf8, s0, Image.Step(s, Meaning(rd, good[i])).value, bytes,
                  pos + FRAME_HEADER_LEN + |Encoded(good[i])|, good, i + 1, body, rest);
    }
  }

  lemma LastFrame(bytes: seq<Byte>, pos: nat, good: seq<Record>, i: nat, body: seq<Byte>, rest: seq<Byte>, crc: Crc)
    requires CrcOk(crc) && 0 < |body| < U32_SIZE && i == |good| && pos <= |bytes|
    requires bytes[pos..] == Frames(good[i..], crc) + (Framed(body, crc) + rest)
    ensures ReadFrame(bytes[pos..], crc) == Whole(body, FRAME_HEADER_LEN + |body|)
  {
    hide ReadFrame, Framed;
    NoFrames(crc);
    assert good[i..] == [];
    assert bytes[pos..] == Framed(body, crc) + rest;
    FrameReads(body, crc, rest);
  }

  lemma GoodFrame(bytes: seq<Byte>, pos: nat, good: seq<Record>, i: nat, body: seq<Byte>, rest: seq<Byte>, crc: Crc,
      utf8: Utf8)
    requires CrcOk(crc) && Loggable(good, utf8) && i < |good|
    requires pos <= |bytes| && pos == |Frames(good[..i], crc)|
        && bytes[pos..] == Frames(good[i..], crc) + (Framed(body, crc) + rest)
    ensures FrameIs(bytes, pos, good, i, Framed(body, crc) + rest, crc, utf8)
  {
    hide ReadFrame, Decode, RecordOk, Encoded, Framed, Frames, FrameIs;
    FrameThere(bytes, pos, good, i, Framed(body, crc) + rest, crc, utf8);
  }

  lemma FoldStep(rd: Reading, s0: Image.Img, records: seq<Record>, i: nat, s: Image.Img)
    requires i < |records| && Fold(rd, s0, records[..i]) == Some(s) && Fold(rd, s, records[i..]).Some?
    ensures Image.Step(s, Meaning(rd, records[i])).Some?
    ensures Fold(rd, s0, records[..i + 1]) == Image.Step(s, Meaning(rd, records[i]))
    ensures Fold(rd, Image.Step(s, Meaning(rd, records[i])).value, records[i + 1..]).Some?
  {
    hide Fold, Image.Step, Meaning;
    FoldAppend(rd, s0, records[..i], [records[i]]);
    OneRecord(rd, s, records[i]);
    assert records[..i + 1] == records[..i] + [records[i]];
    assert records[i..] == [records[i]] + records[i + 1..];
    FoldAppend(rd, s, [records[i]], records[i + 1..]);
  }

  /** Frame `i` stands at `pos`, and the other frames follow it. */
  ghost predicate FrameIs(bytes: seq<Byte>, pos: nat, records: seq<Record>, i: nat, junk: seq<Byte>, crc: Crc,
      utf8: Utf8)
    requires i < |records| && pos <= |bytes|
  {
    && ReadFrame(bytes[pos..], crc) == Whole(Encoded(records[i]), FRAME_HEADER_LEN + |Encoded(records[i])|)
    && Decode(Encoded(records[i]), utf8) == Some(records[i])
    && pos + FRAME_HEADER_LEN + |Encoded(records[i])| <= |bytes|
    && bytes[pos + FRAME_HEADER_LEN + |Encoded(records[i])|..] == Frames(records[i + 1..], crc) + junk
    && |Frames(records[..i + 1], crc)| == pos + FRAME_HEADER_LEN + |Encoded(records[i])|
  }

  lemma FrameAt(bytes: seq<Byte>, pos: nat, records: seq<Record>, i: nat, junk: seq<Byte>, crc: Crc, utf8: Utf8)
    requires CrcOk(crc) && Loggable(records, utf8) && ReadFrame(junk, crc) == Torn
    requires i <= |records| && pos <= |bytes| && pos == |Frames(records[..i], crc)|
        && bytes[pos..] == Frames(records[i..], crc) + junk
    ensures i == |records| ==> ReadFrame(bytes[pos..], crc) == Torn
    ensures i < |records| ==> FrameIs(bytes, pos, records, i, junk, crc, utf8)
  {
    hide ReadFrame, FrameIs;
    if i == |records| {
      assert bytes[pos..] == junk;
    } else {
      FrameThere(bytes, pos, records, i, junk, crc, utf8);
    }
  }

  lemma FrameThere(bytes: seq<Byte>, pos: nat, records: seq<Record>, i: nat, junk: seq<Byte>, crc: Crc, utf8: Utf8)
    requires CrcOk(crc) && Loggable(records, utf8)
    requires i < |records| && pos <= |bytes| && pos == |Frames(records[..i], crc)|
        && bytes[pos..] == Frames(records[i..], crc) + junk
    ensures FrameIs(bytes, pos, records, i, junk, crc, utf8)
  {
    hide ReadFrame, Decode, RecordOk, Encoded, Framed, Frames;
    var body := Encoded(records[i]);
    var rest := Frames(records[i + 1..], crc) + junk;
    FramesSplit(records, i, crc);
    Regroup(Framed(body, crc), Frames(records[i + 1..], crc), junk);
    Behind(bytes, pos, Framed(body, crc), rest);
    EncodedNonEmpty(records[i]);
    FrameReads(body, crc, rest);
    RecordRoundTrip(records[i], utf8);
  }

  lemma Regroup(a: seq<Byte>, b: seq<Byte>, c: seq<Byte>)
    ensures (a + b) + c == a + (b + c)
  {
  }

  lemma Behind(bytes: seq<Byte>, pos: nat, front: seq<Byte>, rest: seq<Byte>)
    requires pos <= |bytes| && bytes[pos..] == front + rest
    ensures pos + |front| <= |bytes| && bytes[pos + |front|..] == rest
  {
    assert bytes[pos + |front|..] == bytes[pos..][|front|..];
  }

  // ---------------------------------------------------------------------
  // The follower
  // ---------------------------------------------------------------------

  class Replica {
    const rd: Reading
    const crc: Crc
    const utf8: Utf8
    /** The local WAL directory: file contents by number. */
    var files: map<nat, seq<Byte>>
    /** The WAL number being followed, and the length of its local file as the follower counts it. */
    var walSeq: Option<nat>
    var fileLen: nat
    /** Fetched bytes that are not whole frames yet. */
    var pending: seq<Byte>
    /** The store's picture, which queries see. */
    var state: Image.Img

    /** After opening: nothing is followed yet, and the store has replayed the local files. */
    constructor (rd: Reading, crc: Crc, utf8: Utf8, files: map<nat, seq<Byte>>, state: Image.Img)
      ensures this.rd == rd && this.crc == crc && this.utf8 == utf8
      ensures this.files == files && this.state == state && walSeq == None && pending == []
    {
      this.rd, this.crc, this.utf8 := rd, crc, utf8;
      this.files, this.state := files, state;
      walSeq, fileLen, pending := None, 0, [];
    }

    /** The local copy of one WAL file; a missing file reads as empty. */
    function Local(q: nat): seq<Byte>
      reads this
    {
      if q in files then files[q] else []
    }

    /**
     * The follower has fetched the first `n` bytes of the primary's file `q`, which stand in its own file and its
     * pending bytes; its file is empty or the magic and `k` whole frames.
     */
    ghost predicate Aligned(q: nat, records: seq<Record>, n: nat, k: nat)
      reads this
    {
      && walSeq == Some(q) && n <= |FileOf(records, crc)| && fileLen == |Local(q)| <= n && k <= |records|
      && (if n < |MAGIC_WAL| then k == 0 && Local(q) == [] else Local(q) == FileOf(records[..k], crc))
      && pending == FileOf(records, crc)[|Local(q)|..n]
    }

    /** Every whole frame fetched is stored, and the state is the fold of exactly those frames over `base`. */
    ghost predicate Followed(q: nat, records: seq<Record>, base: Image.Img, n: nat)
      reads this
    {
      var k := FramesIn(records, crc, n);
      Aligned(q, records, n, k) && Fold(rd, base, records[..k]) == Some(state)
    }

    /** The local file `q` holds `k` whole frames; without any it may be missing. */
    ghost predicate Holds(q: nat, records: seq<Record>, k: nat)
      reads this
    {
      k <= |records| && (Local(q) == FileOf(records[..k], crc) || (k == 0 && Local(q) == []))
    }

    /** `apply_wal_frames`: on an error the frames before the bad one stay applied. */
    method ApplyWalFrames(bytes: seq<Byte>) returns (ok: bool, consumed: nat)
      modifies this`state
      ensures Applied(ok, consumed, state) == ApplyAt(rd, crc, utf8, old(state), bytes, 0) && consumed <= |bytes|
    {
      var st;
      ok, consumed, st := ApplyFrames(rd, crc, utf8, state, bytes);
      state := st;
    }

    /** The first lines of `tail_sync`: another WAL number drops the pending bytes and resumes at the local length. */
    method Follow(q: nat)
      modifies this`walSeq, this`pending, this`fileLen
      ensures walSeq == Some(q)
      ensures old(walSeq) == Some(q) ==> pending == old(pending) && fileLen == old(fileLen)
      ensures old(walSeq) != Some(q) ==> pending == [] && fileLen == |Local(q)|
    {
      if walSeq != Some(q) {
        walSeq := Some(q);
        pending := [];
        fileLen := |Local(q)|;
      }
    }

    /** Where the next fetch starts. */
    function Offset(): nat
      reads this
    {
      fileLen + |pending|
    }

    lemma ResumedIsAligned(q: nat, records: seq<Record>, k: nat)
      requires k <= |records| && (Local(q) == FileOf(records[..k], crc) || (k == 0 && Local(q) == []))
      requires walSeq == Some(q) && pending == [] && fileLen == |Local(q)|
      ensures Aligned(q, records, |Local(q)|, k) && k == FramesIn(records, crc, |Local(q)|)
    {
      hide Frames, FileOf, WholeFrames;
      FileBoundary(records, crc, k);
    }

    /**
     * `tail_sync` on any bytes fetched for the offset after `Follow`. A file begins with its magic or is refused. Of
     * the frames, those before a rejected one are applied, and none is stored unless all are accepted. If the bytes
     * are those of the primary's file, the local file and the pending bytes stay aligned with it.
     */
    method TailSync(q: nat, fetched: seq<Byte>, ghost records: seq<Record>, ghost n0: nat, ghost n: nat,
        ghost k: nat) returns (ok: bool)
      modifies this
      ensures walSeq == Some(q) && forall p :: p != q ==> Local(p) == old(Local(p))
      ensures var resumed := old(walSeq) == Some(q);
              var len := if resumed then old(fileLen) else |old(Local(q))|;
              var bytes := (if resumed then old(pending) else []) + fetched;
              if fetched == [] || (len == 0 && |bytes| < 8) then ok && pending == bytes && OnlyPending()
              else if len == 0 && bytes[..8] != MAGIC_WAL then !ok && pending == bytes && OnlyPending()
              else
                var magic, rest := if len == 0 then MAGIC_WAL else [], if len == 0 then bytes[8..] else bytes;
                var out := ApplyAt(rd, crc, utf8, old(state), rest, 0);
                && ok == out.ok && state == out.state
                && Local(q) == old(Local(q)) + magic + Stored(out, rest) && pending == rest[|Stored(out, rest)|..]
      ensures old(Delivered(q, fetched, records, n0, n, k)) ==>
                var before, after := Progress(k, old(state)), Poll(rd, records, crc, Progress(k, old(state)), n0, n);
                && (ok <==> Succeeds(rd, records, crc, before, n0, n))
                && Aligned(q, records, n, after.stored) && state == after.state
    {
      hide FileOf, Frames, WholeFrames, Fold, Loggable, CrcOk, Aligned, Due, Reach, ApplyAt, Delivered, Holds;
      ghost var given := Delivered(q, fetched, records, n0, n, k);
      if given {
        DeliveredFacts(q, fetched, records, n0, n, k);
      }
      if walSeq != Some(q) {
        Follow(q);
        if given {
          ResumedIsAligned(q, records, k);
        }
      }
      if given {
        AlignedFacts(q, records, n0, k);
        Joined(FileOf(records, crc), |Local(q)|, n0, n, pending, fetched);
      }
      if fetched == [] {
        return true;
      }
      pending := pending + fetched;
      ok := Process(q, records, n, k, given);
    }

    /** `tail_sync` once the fetched bytes are in: first the magic of a new file, then the frames. */
    method Process(q: nat, ghost records: seq<Record>, ghost n: nat, ghost k: nat, ghost given: bool) returns (ok: bool)
      requires walSeq == Some(q)
      requires given ==> CrcOk(crc) && Loggable(records, utf8)
      requires given ==> fileLen == |Local(q)| <= n <= |FileOf(records, crc)| && k <= |records|
      requires given ==> pending == FileOf(records, crc)[|Local(q)|..n]
      requires given ==> if Local(q) == [] then k == 0 else Local(q) == FileOf(records[..k], crc)
      modifies this
      ensures walSeq == Some(q) && forall p :: p != q ==> Local(p) == old(Local(p))
      ensures var len, bytes := old(fileLen), old(pending);
              if len == 0 && |bytes| < 8 then ok && pending == bytes && OnlyPending()
              else if len == 0 && bytes[..8] != MAGIC_WAL then !ok && pending == bytes && OnlyPending()
              else
                var magic, rest := if len == 0 then MAGIC_WAL else [], if len == 0 then bytes[8..] else bytes;
                var out := ApplyAt(rd, crc, utf8, old(state), rest, 0);
                && ok == out.ok && state == out.state
                && Local(q) == old(Local(q)) + magic + Stored(out, rest) && pending == rest[|Stored(out, rest)|..]
      ensures given ==>
              var due := Due(records, crc, k, n);
              && (ok <==> Fold(rd, old(state), due).Some?)
              && Aligned(q, records, n, if ok then k + |due| else k) && state == Reach(rd, old(state), due)
    {
      hide FileOf, Frames, WholeFrames, Fold, Loggable, CrcOk, Aligned, Due, Reach, ApplyAt;
      if fileLen == 0 {
        if given {
          MagicFirst(records, crc, n);
        }
        if |pending| < 8 {
          if given {
            StillShort(q, records, n);
            NothingDue(records, n);
            FoldNothing(rd, state, Due(records, crc, 0, n));
            ReachIsFold(rd, state, Due(records, crc, 0, n));
          }
          return true;
        }
        if pending[..8] != MAGIC_WAL {
          return false;
        }
        ok := AfterMagic(q, records, n, given);
      } else {
        if given {
          FileBoundary(records, crc, k);
        }
        ok := Absorb(q, records, n, k, given);
      }
    }

    lemma DeliveredFacts(q: nat, fetched: seq<Byte>, records: seq<Record>, n0: nat, n: nat, k: nat)
      requires Delivered(q, fetched, records, n0, n, k)
      ensures CrcOk(crc) && Loggable(records, utf8)
      ensures n0 <= n <= |FileOf(records, crc)| && fetched == FileOf(records, crc)[n0..n]
      ensures walSeq == Some(q) ==> Aligned(q, records, n0, k)
      ensures walSeq != Some(q) ==>
                k <= |records| && n0 == |Local(q)| &&
                (Local(q) == FileOf(records[..k], crc) || (k == 0 && Local(q) == []))
    {
      hide FileOf, Loggable, CrcOk, Aligned;
    }

    /** The frames that a call stores: those applied, if none was rejected. */
    function Stored(out: Applied, bytes: seq<Byte>): (r: seq<Byte>)
      ensures r <= bytes
    {
      if out.ok && out.consumed <= |bytes| then bytes[..out.consumed] else []
    }

    twostate predicate OnlyPending()
      reads this
    {
      state == old(state) && forall p :: Local(p) == old(Local(p))
    }

    /**
     * The situation of a follower of the primary's file `q`: it holds `k` frames and has fetched `n0` bytes, and
     * what comes next are the bytes up to `n`.
     */
    ghost predicate Delivered(q: nat, fetched: seq<Byte>, records: seq<Record>, n0: nat, n: nat, k: nat)
      reads this
    {
      && CrcOk(crc) && Loggable(records, utf8)
      && (if walSeq == Some(q) then Aligned(q, records, n0, k) else Holds(q, records, k) && n0 == |Local(q)|)
      && n0 <= n <= |FileOf(records, crc)| && fetched == FileOf(records, crc)[n0..n]
    }

    lemma AlignedFacts(q: nat, records: seq<Record>, n: nat, k: nat)
      requires Aligned(q, records, n, k)
      ensures walSeq == Some(q) && fileLen == |Local(q)| <= n && pending == FileOf(records, crc)[|Local(q)|..n]
          && Offset() == n
      ensures k <= |records| &&
           if n < |MAGIC_WAL| then k == 0 && Local(q) == [] else Local(q) != [] && Local(q) == FileOf(records[..k], crc)
    {
      hide Frames;
    }

    lemma StillShort(q: nat, records: seq<Record>, n: nat)
      requires n < 8 && n <= |FileOf(records, crc)| && walSeq == Some(q) && Local(q) == [] && fileLen == 0
      requires pending == FileOf(records, crc)[0..n]
      ensures Aligned(q, records, n, 0)
    {
      hide Frames;
    }

    lemma NothingDue(records: seq<Record>, n: nat)
      requires n < 8
      ensures Due(records, crc, 0, n) == []
    {
      hide WholeFrames;
    }

    /** The magic of a new file goes to the local copy first. */
    method AfterMagic(q: nat, ghost records: seq<Record>, ghost n: nat, ghost given: bool) returns (ok: bool)
      requires walSeq == Some(q) && |pending| >= 8
      requires given ==> CrcOk(crc) && Loggable(records, utf8)
      requires given ==> 8 <= n <= |FileOf(records, crc)| && Local(q) == []
      requires given ==> pending[8..] == FileOf(records, crc)[8..n]
      modifies this
      ensures var rest := old(pending)[8..];
              var out := ApplyAt(rd, crc, utf8, old(state), rest, 0);
              && walSeq == Some(q) && ok == out.ok && state == out.state
              && Local(q) == old(Local(q)) + MAGIC_WAL + Stored(out, rest) && pending == rest[|Stored(out, rest)|..]
      ensures given ==>
              var due := Due(records, crc, 0, n);
              && (ok <==> Fold(rd, old(state), due).Some?)
              && Aligned(q, records, n, if ok then |due| else 0) && state == Reach(rd, old(state), due)
      ensures forall p :: p != q ==> Local(p) == old(Local(p))
    {
      hide FileOf, Frames, WholeFrames, Fold, Loggable, CrcOk, Aligned, Due, Reach, ApplyAt;
      files := files[q := Local(q) + MAGIC_WAL];
      fileLen := 8;
      pending := pending[8..];
      if given {
        NoFramesYet(records, crc);
      }
      ok := Absorb(q, records, n, 0, given);
    }

    /** The second half of `tail_sync`: apply the whole frames among the pending bytes and keep a copy of them. */
    method Absorb(q: nat, ghost records: seq<Record>, ghost n: nat, ghost k: nat, ghost given: bool)
      returns (ok: bool)
      requires walSeq == Some(q)
      requires given ==> CrcOk(crc) && Loggable(records, utf8)
      requires given ==> |MAGIC_WAL| <= n <= |FileOf(records, crc)| && k <= |records| && fileLen == |Local(q)| <= n
      requires given ==> Local(q) == FileOf(records[..k], crc) && pending == FileOf(records, crc)[|Local(q)|..n]
      modifies this
      ensures var out := ApplyAt(rd, crc, utf8, old(state), old(pending), 0);
              && walSeq == Some(q) && ok == out.ok && state == out.state
              && Local(q) == old(Local(q)) + Stored(out, old(pending))
              && pending == old(pending)[|Stored(out, old(pending))|..]
      ensures given ==>
              var due := Due(records, crc, k, n);
              && (ok <==> Fold(rd, old(state), due).Some?)
              && Aligned(q, records, n, if ok then k + |due| else k) && state == Reach(rd, old(state), due)
      ensures forall p :: p != q ==> Local(p) == old(Local(p))
    {
      hide FileOf, Frames, WholeFrames, Fold, Loggable, CrcOk, ReadFrame, ApplyAt, Reach;
      if given {
        ghost var upto := FramesIn(records, crc, n);
        ghost var junk := NextFrames(records, crc, utf8, n, k);
        FilesJoin(records, crc, k, upto);
        FramesOutcome(rd, crc, utf8, state, pending, records[k..upto], junk);
      }
      var consumed;
      ok, consumed := ApplyWalFrames(pending);
      if !ok {
        return;
      }
      if consumed > 0 {
        files := files[q := Local(q) + pending[..consumed]];
        fileLen := fileLen + consumed;
        pending := pending[consumed..];
      }
    }

    /** A follower whose picture accepts every frame keeps following, however the bytes are cut. */
    lemma KeepsFollowing(q: nat, records: seq<Record>, base: Image.Img, n0: nat, n: nat, before: Image.Img)
      requires n0 <= n && Fold(rd, base, records[..FramesIn(records, crc, n0)]) == Some(before)
      requires Fold(rd, base, records[..FramesIn(records, crc, n)]).Some?
      ensures var p := Progress(FramesIn(records, crc, n0), before);
              && Succeeds(rd, records, crc, p, n0, n)
              && var after := Poll(rd, records, crc, p, n0, n);
              && after.stored == FramesIn(records, crc, n)
              && (Aligned(q, records, n, after.stored) && state == after.state ==> Followed(q, records, base, n))
    {
      hide Fold, FramesIn, Reach, Aligned;
      FramesInGrow(records, crc, n0, n);
      FoldMore(rd, base, records, FramesIn(records, crc, n0), FramesIn(records, crc, n));
      ReachIsFold(rd, before, Due(records, crc, FramesIn(records, crc, n0), n));
      FoldNothing(rd, before, []);
    }

    /** A restart reads the local file back: exactly the frames stored, and nothing of what a failed poll applied. */
    lemma RestartReads(q: nat, records: seq<Record>, n: nat, k: nat)
      requires CrcOk(crc) && Loggable(records, utf8) && Aligned(q, records, n, k) && n >= |MAGIC_WAL|
      ensures var r := ReadAll(Local(q), crc, utf8);
              r.Some? && r.value.validLen == |Local(q)| && r.value.records == records[..k]
    {
      hide Frames, WholeFrames, ReadAll, RecordOk, Encoded;
      NothingIsTorn(crc);
      LoggableSlice(records, utf8, 0, k);
      assert records[0..k] == records[..k];
      DamagedTail(records[..k], [], crc, utf8);
      assert FileOf(records[..k], crc) + [] == Local(q);
    }

    /** A follower that has fetched the whole file has the whole file, nothing pending, and the state it leads to. */
    lemma FullFetch(q: nat, records: seq<Record>, base: Image.Img)
      requires Followed(q, records, base, |FileOf(records, crc)|)
      ensures Local(q) == FileOf(records, crc) && pending == [] && Fold(rd, base, records) == Some(state)
    {
      hide Fold, WholeFrames, Frames;
      AllWhole(records, crc);
      assert records[..|records|] == records;
    }
  }

  /** What `apply_wal_frames` makes of the frames of any records. */
  lemma FramesOutcome(rd: Reading, crc: Crc, utf8: Utf8, s: Image.Img, bytes: seq<Byte>, records: seq<Record>,
      junk: seq<Byte>)
    requires CrcOk(crc) && Loggable(records, utf8) && ReadFrame(junk, crc) == Torn
        && bytes == Frames(records, crc) + junk
    ensures var out := ApplyAt(rd, crc, utf8, s, bytes, 0);
            && out.state == Reach(rd, s, records) && (out.ok <==> Fold(rd, s, records).Some?)
            && (out.ok ==> out.consumed == |Frames(records, crc)|)
  {
    hide ReadFrame, Fold, Frames, CrcOk, Loggable, ApplyAt, Reach, Image.Step, Meaning, Decode, Encoded, Framed;
    AcceptedFacts(rd, s, records);
    if Fold(rd, s, records).Some? {
      FramesApplied(rd, crc, utf8, s, bytes, records, junk);
      ReachIsFold(rd, s, records);
    } else {
      var b := Accepted(rd, s, records);
      var body, rest := Encoded(records[b]), Frames(records[b + 1..], crc) + junk;
      FramesAround(records, crc, utf8, b);
      assert bytes == Frames(records[..b], crc) + (Framed(body, crc) + rest);
      BadFrameStops(rd, crc, utf8, s, records[..b], body, rest);
    }
  }

  lemma FramesAround(records: seq<Record>, crc: Crc, utf8: Utf8, b: nat)
    requires Loggable(records, utf8) && b < |records|
    ensures Frames(records, crc) == Frames(records[..b], crc)
        + (Framed(Encoded(records[b]), crc) + Frames(records[b + 1..], crc))
    ensures Loggable(records[..b], utf8) && 0 < |Encoded(records[b])| < U32_SIZE
        && Decode(Encoded(records[b]), utf8) == Some(records[b])
  {
    hide Encoded, Framed, Decode, RecordOk;
    assert records == records[..b] + records[b..] && records[b..][0] == records[b]
        && records[b..][1..] == records[b + 1..];
    FramesAppend(records[..b], records[b..], crc);
    EncodedNonEmpty(records[b]);
    RecordRoundTrip(records[b], utf8);
  }

  /** A damaged body or checksum: the frames before it count, and nothing behind it is applied. */
  lemma DamageStopsApplying(rd: Reading, crc: Crc, utf8: Utf8, s: Image.Img, records: seq<Record>, i: nat, at: nat,
      b: seq<Byte>)
    requires CrcOk(crc) && Loggable(records, utf8) && i < |records| && Damages(records, i, crc, at, b)
    ensures at + |b| <= |Frames(records, crc)|
    ensures var out := ApplyAt(rd, crc, utf8, s, Overwritten(Frames(records, crc), at, b), 0);
            && out.state == Reach(rd, s, records[..i]) && (out.ok <==> Fold(rd, s, records[..i]).Some?)
            && (out.ok ==> out.consumed == |Frames(records[..i], crc)|)
  {
    hide Frames, Loggable, CrcOk, ApplyAt, Reach, Fold, ReadFrame, Damages;
    var junk := DamagedRest(records, i, crc, utf8, at, b);
    LoggablePrefix(records, utf8, i);
    FramesOutcome(rd, crc, utf8, s, Overwritten(Frames(records, crc), at, b), records[..i], junk);
  }

  lemma FramesApplied(rd: Reading, crc: Crc, utf8: Utf8, s: Image.Img, bytes: seq<Byte>, records: seq<Record>,
      junk: seq<Byte>)
    requires CrcOk(crc) && Loggable(records, utf8) && ReadFrame(junk, crc) == Torn
    requires bytes == Frames(records, crc) + junk && Fold(rd, s, records).Some?
    ensures ApplyAt(rd, crc, utf8, s, bytes, 0) == Applied(true, |Frames(records, crc)|, Fold(rd, s, records).value)
  {
    hide ReadFrame, Fold, Frames, CrcOk, Loggable, ApplyAt;
    assert records[..0] == [] && records[0..] == records;
    NoFrames(crc);
    FoldNothing(rd, s, records[..0]);
    AppliedAll(rd, crc, utf8, s, s, bytes, 0, records, 0, junk);
  }

  lemma Joined(whole: seq<Byte>, from: nat, n0: nat, n: nat, a: seq<Byte>, b: seq<Byte>)
    requires from <= n0 <= n <= |whole| && a == whole[from..n0] && b == whole[n0..n]
    ensures a + b == whole[from..n]
  {
  }

  lemma MagicFirst(records: seq<Record>, crc: Crc, n: nat)
    requires n <= |FileOf(records, crc)|
    ensures n >= 8 ==>
        FileOf(records, crc)[0..n][..8] == MAGIC_WAL &&
        FileOf(records, crc)[0..n][8..] == FileOf(records, crc)[8..n]
    ensures n < 8 ==> FileOf(records, crc)[0..n] == FileOf(records, crc)[..n]
  {
    hide Frames;
  }

  lemma NoFramesYet(records: seq<Record>, crc: Crc)
    ensures FileOf(records[..0], crc) == MAGIC_WAL
  {
    assert records[..0] == [];
  }

  /** The bytes between frame `k0` and byte `n`: the frames that have become whole, and a torn rest. */
  lemma NextFrames(records: seq<Record>, crc: Crc, utf8: Utf8, n: nat, k0: nat) returns (junk: seq<Byte>)
    requires Loggable(records, utf8) && |MAGIC_WAL| <= n <= |FileOf(records, crc)|
    requires k0 <= |records| && |FileOf(records[..k0], crc)| <= n
    ensures var k := WholeFrames(records, crc, n - |MAGIC_WAL|);
            && k0 <= k && |FileOf(records[..k], crc)| <= n
            && FileOf(records, crc)[|FileOf(records[..k0], crc)|..n] == Frames(records[k0..k], crc) + junk
            && Loggable(records[k0..k], utf8) && ReadFrame(junk, crc) == Torn
            && FileOf(records, crc)[|FileOf(records[..k], crc)|..n] == junk
  {
    hide ReadFrame, Frames, WholeFrames, Loggable;
    var len := n - |MAGIC_WAL|;
    var k := WholeFrames(records, crc, len);
    WholeFramesShift(records, crc, len, k0);
    CutTail(records, crc, utf8, len, k);
    LoggableSlice(records, utf8, k0, k);
    var before, upto := Frames(records[..k0], crc), Frames(records[..k], crc);
    junk := Frames(records, crc)[|upto|..len];
    SliceOfFile(records, crc, |before|, n);
    SliceOfFile(records, crc, |upto|, n);
    FramesAppend(records[..k0], records[k0..k], crc);
    assert records[..k] == records[..k0] + records[k0..k];
    MiddlePart(Frames(records, crc), before, Frames(records[k0..k], crc), junk, len);
  }

  lemma MiddlePart(all: seq<Byte>, a: seq<Byte>, b: seq<Byte>, c: seq<Byte>, len: nat)
    requires len <= |all| && all[..len] == a + b + c
    ensures all[|a|..len] == b + c
  {
    assert all[|a|..len] == all[..len][|a|..];
  }

  lemma LoggableSlice(records: seq<Record>, utf8: Utf8, i: nat, j: nat)
    requires Loggable(records, utf8) && i <= j <= |records|
    ensures Loggable(records[i..j], utf8)
  {
    hide RecordOk, Encoded;
  }

  lemma SliceOfFile(records: seq<Record>, crc: Crc, from: nat, n: nat)
    requires |MAGIC_WAL| + from <= n <= |FileOf(records, crc)|
    ensures FileOf(records, crc)[|MAGIC_WAL| + from..n] == Frames(records, crc)[from..n - |MAGIC_WAL|]
  {
    hide Frames;
  }

  lemma FoldMore(rd: Reading, base: Image.Img, records: seq<Record>, k0: nat, k: nat)
    requires k0 <= k <= |records| && Fold(rd, base, records[..k0]).Some?
    ensures Fold(rd, base, records[..k]) == Fold(rd, Fold(rd, base, records[..k0]).value, records[k0..k])
  {
    FoldAppend(rd, base, records[..k0], records[k0..k]);
    assert records[..k0] + records[k0..k] == records[..k];
  }

  lemma FilesJoin(records: seq<Record>, crc: Crc, k0: nat, k: nat)
    requires k0 <= k <= |records|
    ensures FileOf(records[..k], crc) == FileOf(records[..k0], crc) + Frames(records[k0..k], crc)
  {
    hide Frames;
    FramesAppend(records[..k0], records[k0..k], crc);
    assert records[..k0] + records[k0..k] == records[..k];
  }

  lemma AllWhole(records: seq<Record>, crc: Crc)
    ensures WholeFrames(records, crc, |Frames(records, crc)|) == |records|
  {
    hide Framed, Encoded;
    WholeFramesBounds(records, crc, |Frames(records, crc)|);
    var k := WholeFrames(records, crc, |Frames(records, crc)|);
    PrefixShorter(records, crc, if k < |records| then k + 1 else k);
  }
}
