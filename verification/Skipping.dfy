/**
 * A follower that moves on to a newer log with part of the old one unfetched applies the new log to the picture it has.
 * This module says when the new log is rejected for it, which collections it then lacks or has too
 * many, and exactly when skipped data records make no difference.
 */
module Skipping {
  import opened Records
  import opened Wire
  import opened Meanings
  import Window

  type Img = Image.Img
  type Log = seq<Image.WalRecord>

  // ---------------------------------------------------------------------
  // Nothing skipped
  // ---------------------------------------------------------------------

  /**
   * A follower that has applied `k` records of the old log and all of the new one is where the primary is if the
   * unfetched records make no difference under the new log, in particular if there are none.
   */
  lemma SkippedTailIff(rd: Reading, base: Img, old_: seq<Record>, k: nat, new_: seq<Record>, mine: Img)
    requires k <= |old_| && Fold(rd, base, old_[..k]) == Some(mine) && Fold(rd, base, old_ + new_).Some?
    ensures Fold(rd, mine, new_) == Fold(rd, base, old_ + new_)
        <==> Fold(rd, mine, new_) == Fold(rd, mine, old_[k..] + new_)
    ensures k == |old_| ==> Fold(rd, mine, new_) == Fold(rd, base, old_ + new_)
  {
    hide Fold;
    FoldAppend(rd, base, old_[..k], old_[k..] + new_);
    assert old_[..k] + (old_[k..] + new_) == old_ + new_;
    if k == |old_| {
      assert old_[k..] + new_ == new_;
    }
  }

  // ---------------------------------------------------------------------
  // When the new log is rejected
  // ---------------------------------------------------------------------

  predicate Creates(r: Image.WalRecord, c: nat) {
    r.CreateCollection? && r.cid == c
  }

  ghost predicate CreatedIn(log: Log, i: nat, c: nat)
    requires i <= |log|
  {
    exists k :: 0 <= k < i && Creates(log[k], c)
  }

  /** Some record needs `c`, and no record in front of it creates `c`. */
  ghost predicate Needs(log: Log, c: nat) {
    exists i :: 0 <= i < |log| && Window.Touches(log[i], c) && !CreatedIn(log, i, c)
  }

  lemma StepRejects(s: Img, r: Image.WalRecord)
    ensures Image.Step(s, r).None? <==> exists c :: Window.Touches(r, c) && c !in s.cols
  {
    if Image.Step(s, r).None? {
      if r.SwapCollectionNames? {
        var c := if r.a !in s.cols then r.a else r.b;
        assert Window.Touches(r, c);
      } else {
        assert Window.Touches(r, r.cid);
      }
    }
  }

  /** Which collections exist after a record. */
  lemma StepKeys(s: Img, r: Image.WalRecord, c: nat)
    requires Image.Step(s, r).Some?
    ensures c in Image.Step(s, r).value.cols <==>
              Creates(r, c) || (c in s.cols && r != Image.WalRecord.DropCollection(c))
  {
    hide Image.UpdateRecs;
  }

  lemma NeedsHead(log: Log, c: nat)
    requires log != [] && Window.Touches(log[0], c)
    ensures Needs(log, c)
  {
    assert !CreatedIn(log, 0, c);
  }

  lemma CreatedShift(log: Log, i: nat, c: nat)
    requires i < |log|
    ensures CreatedIn(log, i + 1, c) <==> Creates(log[0], c) || CreatedIn(log[1..], i, c)
  {
    hide Creates;
    if CreatedIn(log, i + 1, c) {
      var k :| 0 <= k < i + 1 && Creates(log[k], c);
      assert k > 0 ==> log[1..][k - 1] == log[k];
    }
    if CreatedIn(log[1..], i, c) {
      var k :| 0 <= k < i && Creates(log[1..][k], c);
      assert log[k + 1] == log[1..][k];
    }
  }

  lemma NeedsTail(log: Log, c: nat)
    requires log != [] && !Window.Touches(log[0], c)
    ensures Needs(log, c) <==> Needs(log[1..], c) && !Creates(log[0], c)
  {
    hide Creates, CreatedIn, Window.Touches;
    if Needs(log, c) {
      var i :| 0 <= i < |log| && Window.Touches(log[i], c) && !CreatedIn(log, i, c);
      assert log[1..][i - 1] == log[i];
      CreatedShift(log, i - 1, c);
    }
    if Needs(log[1..], c) && !Creates(log[0], c) {
      var i :| 0 <= i < |log[1..]| && Window.Touches(log[1..][i], c) && !CreatedIn(log[1..], i, c);
      assert log[i + 1] == log[1..][i];
      CreatedShift(log, i, c);
    }
  }

  /** A log that needs a collection the image lacks is rejected. */
  lemma {:induction false} NeedsRejected(s: Img, log: Log, c: nat)
    requires c !in s.cols && Needs(log, c)
    ensures Image.Replay(s, log).None?
    decreases |log|
  {
    hide Image.Step, Needs, Window.Touches;
    NeedsSomething(log, c);
    StepRejects(s, log[0]);
    if Image.Step(s, log[0]).Some? {
      NeedsTail(log, c);
      StepKeys(s, log[0], c);
      NeedsRejected(Image.Step(s, log[0]).value, log[1..], c);
    }
  }

  lemma NeedsSomething(log: Log, c: nat)
    requires Needs(log, c)
    ensures log != []
  {
  }

  /**
   * The new log, accepted by the primary, is rejected by the follower if and only if it needs a collection
   * that the primary has by then and the follower has not: one that the skipped part created.
   */
  lemma {:induction false} RejectedIff(theirs: Img, mine: Img, new_: Log)
    requires Image.Replay(theirs, new_).Some?
    ensures Image.Replay(mine, new_).None? <==> exists c :: c in theirs.cols && c !in mine.cols && Needs(new_, c)
    decreases |new_|
  {
    hide Image.Step, Needs, Window.Touches;
    if c :| c in theirs.cols && c !in mine.cols && Needs(new_, c) {
      NeedsRejected(mine, new_, c);
    }
    if Image.Replay(mine, new_).None? {
      var r := new_[0];
      StepRejects(mine, r);
      StepRejects(theirs, r);
      if Image.Step(mine, r).None? {
        var c :| Window.Touches(r, c) && c !in mine.cols;
        NeedsHead(new_, c);
      } else {
        RejectedIff(Image.Step(theirs, r).value, Image.Step(mine, r).value, new_[1..]);
        var c :| c in Image.Step(theirs, r).value.cols && c !in Image.Step(mine, r).value.cols && Needs(new_[1..], c);
        StepKeys(theirs, r, c);
        StepKeys(mine, r, c);
        NeedsFirst(new_, c);
      }
    }
  }

  lemma NeedsFirst(log: Log, c: nat)
    requires log != [] && Needs(log[1..], c) && !Creates(log[0], c)
    ensures Needs(log, c)
  {
    if Window.Touches(log[0], c) {
      NeedsHead(log, c);
    } else {
      NeedsTail(log, c);
    }
  }

  /** The collections the primary has by then and the follower has not are those that the skipped part created. */
  lemma {:induction false} OnlyCreated(mine: Img, skipped: Log, c: nat)
    requires Image.Replay(mine, skipped).Some? && c in Image.Replay(mine, skipped).value.cols && c !in mine.cols
    ensures CreatedIn(skipped, |skipped|, c)
    decreases |skipped|
  {
    hide Image.Step;
    if skipped != [] {
      StepKeys(mine, skipped[0], c);
      var next := Image.Step(mine, skipped[0]).value;
      if c in next.cols {
        assert Creates(skipped[0], c);
      } else {
        OnlyCreated(next, skipped[1..], c);
        CreatedShift(skipped, |skipped| - 1, c);
      }
    }
  }

  lemma SkippedRejectsIff(mine: Img, skipped: Log, new_: Log)
    requires Image.Replay(mine, skipped + new_).Some?
    ensures Image.Replay(mine, skipped).Some?
    ensures var theirs := Image.Replay(mine, skipped).value;
            && (Image.Replay(mine, new_).None? <==> exists c :: c in theirs.cols && c !in mine.cols && Needs(new_, c))
            && (Image.Replay(mine, new_).None? ==> exists c :: CreatedIn(skipped, |skipped|, c) && Needs(new_, c))
  {
    hide Image.Replay, Needs, CreatedIn;
    Image.ReplayAppend(mine, skipped, new_);
    var theirs := Image.Replay(mine, skipped).value;
    RejectedIff(theirs, mine, new_);
    if c :| c in theirs.cols && c !in mine.cols && Needs(new_, c) {
      OnlyCreated(mine, skipped, c);
    }
  }

  // ---------------------------------------------------------------------
  // Which collections are left
  // ---------------------------------------------------------------------

  /** The log creates or drops `c`. */
  ghost predicate Decides(log: Log, c: nat) {
    exists i :: 0 <= i < |log| && (log[i] == Image.WalRecord.DropCollection(c) || Creates(log[i], c))
  }

  lemma {:induction false} DecidedAlike(theirs: Img, mine: Img, log: Log, c: nat)
    requires Image.Replay(theirs, log).Some? && Image.Replay(mine, log).Some?
    ensures (c in Image.Replay(theirs, log).value.cols <==> c in Image.Replay(mine, log).value.cols)
            <==> (c in theirs.cols <==> c in mine.cols) || Decides(log, c)
    decreases |log|
  {
    hide Image.Step, Decides;
    if log == [] {
      NothingDecided(c);
    } else {
      StepKeys(theirs, log[0], c);
      StepKeys(mine, log[0], c);
      DecidesCons(log, c);
      DecidedAlike(Image.Step(theirs, log[0]).value, Image.Step(mine, log[0]).value, log[1..], c);
    }
  }

  lemma NothingDecided(c: nat)
    ensures !Decides([], c)
  {
  }

  lemma DecidesCons(log: Log, c: nat)
    requires log != []
    ensures Decides(log, c) <==>
              log[0] == Image.WalRecord.DropCollection(c) || Creates(log[0], c) || Decides(log[1..], c)
  {
    if Decides(log, c) {
      var i :| 0 <= i < |log| && (log[i] == Image.WalRecord.DropCollection(c) || Creates(log[i], c));
      assert i > 0 ==> log[1..][i - 1] == log[i];
    }
    if Decides(log[1..], c) {
      var i :| 0 <= i < |log[1..]| && (log[1..][i] == Image.WalRecord.DropCollection(c) || Creates(log[1..][i], c));
      assert log[i + 1] == log[1..][i];
    }
  }

  /**
   * Follower and primary end with the same collections if and only if the new log creates or drops every one in
   * which they differed.
   */
  lemma SameCollectionsIff(theirs: Img, mine: Img, new_: Log)
    requires Image.Replay(theirs, new_).Some? && Image.Replay(mine, new_).Some?
    ensures Image.Replay(theirs, new_).value.cols.Keys == Image.Replay(mine, new_).value.cols.Keys
            <==> forall c :: (c in theirs.cols) != (c in mine.cols) ==> Decides(new_, c)
  {
    hide Image.Replay, Decides;
    var a, b := Image.Replay(theirs, new_).value, Image.Replay(mine, new_).value;
    forall c: nat ensures (c in a.cols.Keys <==> c in b.cols.Keys)
        <==> (c in theirs.cols <==> c in mine.cols) || Decides(new_, c) {
      DecidedAlike(theirs, mine, new_, c);
    }
  }

  // ---------------------------------------------------------------------
  // Skipped data records
  // ---------------------------------------------------------------------

  ghost predicate AllData(log: Log) {
    forall i :: 0 <= i < |log| ==> Image.IsData(log[i])
  }

  /** What a record does to the entry of one id. */
  function Effect(r: Image.WalRecord, c: nat, id: nat, x: Option<StoredRecord>): Option<StoredRecord> {
    match r
    case Upsert(k, i, vector, meta) => if k == c && i == id then Some(StoredRecord(vector, meta)) else x
    case Delete(k, i) => if k == c && i == id then None else x
    case UpdateMeta(k, i, meta) => if k == c && i == id && x.Some? then Some(StoredRecord(x.value.vector, meta)) else x
    case _ => x
  }

  /** What a log makes of the entry of one id. */
  function After(log: Log, c: nat, id: nat, x: Option<StoredRecord>): Option<StoredRecord>
    decreases |log|
  {
    if log == [] then x else After(log[1..], c, id, Effect(log[0], c, id, x))
  }

  function At(s: Img, c: nat, id: nat): Option<StoredRecord> {
    if c in s.cols && id in s.cols[c].recs then Some(s.cols[c].recs[id]) else None
  }

  /** Same collections and names; only records may differ. */
  ghost predicate SameFrame(s: Img, t: Img) {
    && s.cols.Keys == t.cols.Keys && s.names == t.names && s.next == t.next
    && forall c :: c in s.cols ==> t.cols[c] == s.cols[c].(recs := t.cols[c].recs)
  }

  lemma DataStep(s: Img, r: Image.WalRecord)
    requires Image.IsData(r) && Image.Step(s, r).Some?
    ensures SameFrame(s, Image.Step(s, r).value)
  {
    hide Image.UpdateRecs;
  }

  lemma DataEffect(s: Img, r: Image.WalRecord, c: nat, id: nat)
    requires Image.IsData(r) && Image.Step(s, r).Some? && c in s.cols
    ensures At(Image.Step(s, r).value, c, id) == Effect(r, c, id, At(s, c, id))
  {
  }

  lemma FrameChain(s: Img, t: Img, u: Img)
    requires (s == t || SameFrame(s, t)) && (t == u || SameFrame(t, u))
    ensures SameFrame(s, u)
  {
  }

  lemma AllDataTail(log: Log)
    requires log != [] && AllData(log)
    ensures Image.IsData(log[0]) && AllData(log[1..])
  {
    forall i | 0 <= i < |log[1..]| ensures Image.IsData(log[1..][i]) {
      assert log[1..][i] == log[i + 1];
    }
  }

  lemma {:induction false} DataFrame(s: Img, log: Log)
    requires AllData(log) && Image.Replay(s, log).Some?
    ensures SameFrame(s, Image.Replay(s, log).value)
    decreases |log|
  {
    hide Image.Step, SameFrame, AllData;
    if log != [] {
      AllDataTail(log);
      DataStep(s, log[0]);
      DataFrame(Image.Step(s, log[0]).value, log[1..]);
      FrameChain(s, Image.Step(s, log[0]).value, Image.Replay(s, log).value);
    } else {
      FrameChain(s, s, s);
    }
  }

  lemma {:induction false} DataAfter(s: Img, log: Log, c: nat, id: nat)
    requires AllData(log) && Image.Replay(s, log).Some? && c in s.cols
    ensures At(Image.Replay(s, log).value, c, id) == After(log, c, id, At(s, c, id))
    decreases |log|
  {
    hide Image.Step, AllData, At, Effect;
    if log != [] {
      AllDataTail(log);
      DataEffect(s, log[0], c, id);
      DataStep(s, log[0]);
      assert c in Image.Step(s, log[0]).value.cols.Keys;
      DataAfter(Image.Step(s, log[0]).value, log[1..], c, id);
    }
  }

  lemma SameAtSame(s: Img, t: Img)
    requires SameFrame(s, t)
    ensures s == t <==> forall c, id :: c in s.cols ==> At(s, c, id) == At(t, c, id)
  {
    if forall c, id :: c in s.cols ==> At(s, c, id) == At(t, c, id) {
      forall c | c in s.cols ensures s.cols[c] == t.cols[c] {
        forall id ensures id in s.cols[c].recs <==> id in t.cols[c].recs {
          assert At(s, c, id) == At(t, c, id);
        }
        forall id | id in s.cols[c].recs ensures s.cols[c].recs[id] == t.cols[c].recs[id] {
          assert At(s, c, id) == At(t, c, id);
        }
        assert s.cols[c].recs == t.cols[c].recs;
      }
      assert s.cols == t.cols;
    }
  }

  lemma {:induction false} AfterAppend(a: Log, b: Log, c: nat, id: nat, x: Option<StoredRecord>)
    ensures After(a + b, c, id, x) == After(b, c, id, After(a, c, id, x))
    decreases |a|
  {
    hide Effect;
    if a == [] {
      assert a + b == b;
    } else {
      assert (a + b)[0] == a[0] && (a + b)[1..] == a[1..] + b;
      AfterAppend(a[1..], b, c, id, Effect(a[0], c, id, x));
    }
  }

  /**
   * For logs of data records, skipping does no harm if and only if, for every id, the new log makes the same of the
   * follower's entry as of the entry that the skipped part leaves.
   */
  lemma SkippedDataIff(mine: Img, skipped: Log, new_: Log)
    requires AllData(skipped) && AllData(new_) && Image.Replay(mine, skipped + new_).Some?
        && Image.Replay(mine, new_).Some?
    ensures Image.Replay(mine, new_) == Image.Replay(mine, skipped + new_)
            <==> forall c, id :: c in mine.cols ==> SameAfter(mine, skipped, new_, c, id)
  {
    hide Image.Replay, At, After, SameFrame;
    var s, t := Image.Replay(mine, new_).value, Image.Replay(mine, skipped + new_).value;
    assert AllData(skipped + new_);
    DataFrame(mine, new_);
    DataFrame(mine, skipped + new_);
    FramesAlike(mine, s, t);
    SameAtSame(s, t);
    assert s.cols.Keys == mine.cols.Keys by {
      FrameKeys(mine, s);
    }
    forall c, id | c in mine.cols ensures At(s, c, id) == At(t, c, id) <==> SameAfter(mine, skipped, new_, c, id) {
      DataAfter(mine, new_, c, id);
      DataAfter(mine, skipped + new_, c, id);
      AfterAppend(skipped, new_, c, id, At(mine, c, id));
    }
  }

  ghost predicate SameAfter(mine: Img, skipped: Log, new_: Log, c: nat, id: nat) {
    After(new_, c, id, At(mine, c, id)) == After(new_, c, id, After(skipped, c, id, At(mine, c, id)))
  }

  lemma FramesAlike(s: Img, t: Img, u: Img)
    requires SameFrame(s, t) && SameFrame(s, u)
    ensures SameFrame(t, u)
  {
  }

  lemma FrameKeys(s: Img, t: Img)
    requires SameFrame(s, t)
    ensures t.cols.Keys == s.cols.Keys
  {
  }

  // ---------------------------------------------------------------------
  // Skipped writes
  // ---------------------------------------------------------------------

  /** The log only writes and deletes records. */
  ghost predicate Writes(log: Log) {
    forall i :: 0 <= i < |log| ==> log[i].Upsert? || log[i].Delete?
  }

  /** What the log leaves under an id: nothing said, a record, or its absence. */
  function LastWrite(log: Log, c: nat, id: nat): Option<Option<StoredRecord>> {
    if log == [] then None
    else
      var rest := LastWrite(log[1..], c, id);
      if rest.Some? then rest
      else match log[0]
        case Upsert(k, i, v, meta) => if k == c && i == id then Some(Some(StoredRecord(v, meta))) else None
        case Delete(k, i) => if k == c && i == id then Some(None) else None
        case _ => None
  }

  lemma {:induction false} AfterWrites(log: Log, c: nat, id: nat, x: Option<StoredRecord>)
    requires Writes(log)
    ensures After(log, c, id, x) == if LastWrite(log, c, id).Some? then LastWrite(log, c, id).value else x
    decreases |log|
  {
    if log != [] {
      assert log[0].Upsert? || log[0].Delete?;
      assert forall i :: 0 <= i < |log[1..]| ==> log[1..][i] == log[i + 1];
      AfterWrites(log[1..], c, id, Effect(log[0], c, id, x));
    }
  }

  /**
   * For writes and deletes only: every id that the skipped part leaves changed must be written again by the new log.
   */
  lemma SkippedWritesIff(mine: Img, skipped: Log, new_: Log)
    requires Writes(skipped) && Writes(new_) && Image.Replay(mine, skipped + new_).Some?
        && Image.Replay(mine, new_).Some?
    ensures Image.Replay(mine, new_) == Image.Replay(mine, skipped + new_)
            <==> forall c, id :: c in mine.cols && LastWrite(skipped, c, id).Some? && LastWrite(new_, c, id).None? ==>
                   LastWrite(skipped, c, id).value == At(mine, c, id)
  {
    hide Image.Replay, At, LastWrite, After;
    SkippedDataIff(mine, skipped, new_);
    forall c, id
      ensures SameAfter(mine, skipped, new_, c, id)
              <==> (LastWrite(skipped, c, id).Some? && LastWrite(new_, c, id).None?
                  ==> LastWrite(skipped, c, id).value == At(mine, c, id))
    {
      AfterWrites(new_, c, id, At(mine, c, id));
      AfterWrites(skipped, c, id, At(mine, c, id));
      AfterWrites(new_, c, id, After(skipped, c, id, At(mine, c, id)));
    }
  }

  /** A skipped write of a new id is lost; a skipped delete of an id that is not live is not missed. */
  lemma SkippedRecord(mine: Img, c: nat, id: nat, v: seq<real>, meta: Metadata)
    requires c in mine.cols && id !in mine.cols[c].recs
    ensures Image.Replay(mine, []) != Image.Replay(mine, [Image.WalRecord.Upsert(c, id, v, meta)])
    ensures Image.Replay(mine, []) == Image.Replay(mine, [Image.WalRecord.Delete(c, id)])
  {
    var up, del := [Image.WalRecord.Upsert(c, id, v, meta)], [Image.WalRecord.Delete(c, id)];
    assert up[1..] == [] && del[1..] == [];
    assert Image.Replay(mine, up) == Image.Step(mine, up[0]) && Image.Replay(mine, del) == Image.Step(mine, del[0]);
    assert mine.cols[c].recs - {id} == mine.cols[c].recs;
    assert Image.Step(mine, del[0]).value.cols == mine.cols;
    assert id in Image.Step(mine, up[0]).value.cols[c].recs;
  }
}
