/**
 * Bytes and the store together: what a follower that fetched the whole active log shows, what a restart
 * of the follower loads, how a log cut at any byte recovers, and what moving on to a newer log means.
 */
module Following {
  import opened Records
  import opened Bytes
  import opened Wire
  import opened WalFile
  import opened Meanings
  import opened Polling
  import opened Replicas
  import opened Image
  import opened Window
  import opened WindowNames
  import opened LogBehind
  import opened StoreState
  import opened Recovery
  import opened Machine
  import opened MachineInv
  import opened CrashSteps
  import Skipping

  // ---------------------------------------------------------------------
  // A follower of the only log newer than the checkpoint
  // ---------------------------------------------------------------------

  /** `wals` has no other file from `lo` to `q`. */
  ghost predicate OnlyLog(wals: WalFiles, lo: nat, q: nat) {
    lo <= q && q in wals && forall p :: lo <= p < q ==> p !in wals
  }

  lemma OnlyLogIs(wals: WalFiles, lo: nat, q: nat)
    requires OnlyLog(wals, lo, q)
    ensures Log(wals, lo, q + 1) == wals[q]
  {
    LogGap(wals, lo, lo, q);
    assert Log(wals, lo, lo) == [];
  }

  /** The disk is what a crash without surviving frames would leave. */
  lemma NowReopens(m: M)
    requires Inv(m)
    ensures CrashPoint(m, 0) && m.walSeq in m.disk.wals && CrashDisk(m, 0) == m.disk && Survivors(m, 0) == []
  {
    hide MemInv, RecoverInv, CreatesInv, Link, WindowInv, MaintInv, ManInv, Complete, Call;
    assert m.disk.wals[m.walSeq] + [] == m.disk.wals[m.walSeq];
    assert m.disk.wals[m.walSeq := m.disk.wals[m.walSeq]] == m.disk.wals;
  }

  /**
   * When the active log is the only one newer than the manifest the follower has copied, applying it gives what
   * reopening the primary would give. It is rejected if and only if the window of the last flush
   * used a collection older than itself and dropped it later; otherwise it gives the primary's
   * collections and records, and the primary's picture if and only if the directory returns.
   */
  lemma FollowerOutcome(m: M, rd: Reading, records: seq<Record>)
    requires Inv(m) && m.walSeq in m.disk.wals && m.disk.current in m.disk.manifests
    requires OnlyLog(m.disk.wals, CurrentMan(m.disk).walSeq + 1, m.walSeq)
    requires MeaningAll(rd, records) == m.disk.wals[m.walSeq]
    ensures Complete(m.disk.segs, CurrentMan(m.disk))
    ensures var seen := Fold(rd, BaseImg(m.disk.segs, CurrentMan(m.disk)), records);
            && (seen.None? <==> UsedThenDropped(m.win.base.cols.Keys, m.win.tail))
            && (seen.Some? ==> SameRecords(Abs(m.mem), seen.value))
            && (seen == Some(Abs(m.mem)) <==>
                  && !UsedThenDropped(m.win.base.cols.Keys, m.win.tail)
                  && DirectoryReturns(m.win.base, m.win.mid, m.win.tail + m.since, Abs(m.mem)))
  {
    hide Inv, Complete, Replay, Log, MeaningAll, OnlyLog, BaseImg, Abs, SameRecords, UsedThenDropped, DirectoryReturns,
         WindowExact, Load, MemOk, Enabled, CrashDisk, Survivors;
    NowReopens(m);
    EveryReopening(m, 0);
    NothingMoreReplays(m.spec);
    ShownNow(m);
    ReopenedIs(m.disk, m.walSeq);
    OnlyLogIs(m.disk.wals, CurrentMan(m.disk).walSeq + 1, m.walSeq);
    assert m.since + [] == m.since;
  }

  lemma NothingMoreReplays(s: Img)
    ensures Replay(s, []) == Some(s)
  {
  }

  lemma ShownNow(m: M)
    requires Inv(m)
    ensures Abs(m.mem) == m.spec
  {
    hide MemOk, DiskInv, RecoverInv, CreatesInv, Link, WindowInv, MaintInv, ManInv, LockInv, Abs, Consistent, AllExtOk;
  }

  /**
   * A follower that fetched all of it has the primary's file, collections and records, and its picture exactly if
   * the directory returns.
   */
  lemma CaughtUp(m: M, r: Replica, records: seq<Record>)
    requires Inv(m) && m.walSeq in m.disk.wals && m.disk.current in m.disk.manifests
    requires OnlyLog(m.disk.wals, CurrentMan(m.disk).walSeq + 1, m.walSeq)
    requires MeaningAll(r.rd, records) == m.disk.wals[m.walSeq] && Complete(m.disk.segs, CurrentMan(m.disk))
    requires r.Followed(m.walSeq, records, BaseImg(m.disk.segs, CurrentMan(m.disk)), |FileOf(records, r.crc)|)
    ensures r.Local(m.walSeq) == FileOf(records, r.crc) && r.pending == [] && SameRecords(Abs(m.mem), r.state)
    ensures r.state == Abs(m.mem) <==> DirectoryReturns(m.win.base, m.win.mid, m.win.tail + m.since, Abs(m.mem))
  {
    hide Inv, Complete, Abs, BaseImg, Fold, MeaningAll, OnlyLog, FileOf, Replica.Followed, SameRecords, UsedThenDropped,
         DirectoryReturns;
    FollowerOutcome(m, r.rd, records);
    r.FullFetch(m.walSeq, records, BaseImg(m.disk.segs, CurrentMan(m.disk)));
  }

  // ---------------------------------------------------------------------
  // Restart of a follower
  // ---------------------------------------------------------------------

  /** What the follower's log directory holds, as `load_state` reads it. */
  ghost predicate LocalLogs(r: Replica, wals: WalFiles)
    reads r
  {
    && (forall p :: p in wals <==> p in r.files)
    && forall p :: p in wals ==>
         var read := ReadAll(r.Local(p), r.crc, r.utf8);
         read.Some? && wals[p] == MeaningAll(r.rd, read.value.records)
  }

  /**
   * A restart through `load_state` shows the frames stored locally, on top of what the older local logs lead to:
   * whatever a failed poll had applied beyond them is gone.
   */
  lemma RestartShows(r: Replica, q: nat, records: seq<Record>, n: nat, k: nat, base: Img, d: Disk)
    requires CrcOk(r.crc) && Loggable(records, r.utf8) && n >= |MAGIC_WAL| && r.Aligned(q, records, n, k)
    requires d.current in d.manifests && Complete(d.segs, CurrentMan(d)) && LocalLogs(r, d.wals)
        && CurrentMan(d).walSeq < q && q in d.wals
    requires Replay(BaseImg(d.segs, CurrentMan(d)), Log(d.wals, CurrentMan(d).walSeq + 1, q)) == Some(base)
    ensures k <= |records| && Reopened(d, q) == Fold(r.rd, base, records[..k])
  {
    hide Complete, BaseImg, Replay, MeaningAll, FileOf, ReadAll, Replica.Aligned, Loggable, CrcOk, Reopened;
    var lo := CurrentMan(d).walSeq + 1;
    r.AlignedFacts(q, records, n, k);
    r.RestartReads(q, records, n, k);
    ReopenedIs(d, q);
    ReplayAppend(BaseImg(d.segs, CurrentMan(d)), Log(d.wals, lo, q), d.wals[q]);
  }

  /** A follower that stored everything it applied shows the same picture after a restart. */
  lemma RestartLoads(r: Replica, q: nat, records: seq<Record>, n: nat, base: Img, d: Disk)
    requires CrcOk(r.crc) && Loggable(records, r.utf8) && n >= |MAGIC_WAL| && r.Followed(q, records, base, n)
    requires d.current in d.manifests && Complete(d.segs, CurrentMan(d)) && LocalLogs(r, d.wals)
        && CurrentMan(d).walSeq < q && q in d.wals
    requires Replay(BaseImg(d.segs, CurrentMan(d)), Log(d.wals, CurrentMan(d).walSeq + 1, q)) == Some(base)
    ensures Reopened(d, q) == Some(r.state)
    ensures Replay(BaseImg(d.segs, CurrentMan(d)), Log(d.wals, CurrentMan(d).walSeq + 1, q + 1)) == Some(r.state)
  {
    hide Complete, BaseImg, Replay, Log, LocalLogs, Loggable, CrcOk, Reopened, Replica.Aligned, Fold, FramesIn;
    RestartShows(r, q, records, n, FramesIn(records, r.crc, n), base, d);
    ReopenedIs(d, q);
  }

  /** So does one that moved on: part of the old log and what it has of the new one lie side by side. */
  lemma RestartAfterMove(r: Replica, p: nat, old_: seq<Record>, k: nat, q: nat, records: seq<Record>, n: nat,
      base: Img, d: Disk)
    requires CrcOk(r.crc) && Loggable(records, r.utf8) && Loggable(old_, r.utf8) && n >= |MAGIC_WAL|
    requires d.current in d.manifests && Complete(d.segs, CurrentMan(d)) && LocalLogs(r, d.wals) && q in d.wals
    requires OnlyLog(d.wals, CurrentMan(d).walSeq + 1, p) && p < q && forall o :: p < o < q ==> o !in d.wals
    requires k <= |old_| && r.Local(p) == FileOf(old_[..k], r.crc)
    requires Fold(r.rd, BaseImg(d.segs, CurrentMan(d)), old_[..k]) == Some(base) && r.Followed(q, records, base, n)
    ensures Reopened(d, q) == Some(r.state)
  {
    hide Complete, BaseImg, Replay, ReadAll, Loggable, CrcOk, Reopened, Replica.Followed, OnlyLog, Frames, MeaningAll;
    var lo := CurrentMan(d).walSeq + 1;
    NothingIsTorn(r.crc);
    LoggableSlice(old_, r.utf8, 0, k);
    assert old_[0..k] == old_[..k];
    DamagedTail(old_[..k], [], r.crc, r.utf8);
    assert FileOf(old_[..k], r.crc) + [] == r.Local(p);
    OnlyLogThere(d.wals, lo, p);
    OnlyLogIs(d.wals, lo, p);
    LogGap(d.wals, lo, p + 1, q);
    RestartLoads(r, q, records, n, base, d);
  }

  lemma OnlyLogThere(wals: WalFiles, lo: nat, p: nat)
    requires OnlyLog(wals, lo, p)
    ensures lo <= p && p in wals
  {
  }

  lemma PrefixMeaning(rd: Reading, records: seq<Record>, k: nat)
    requires k <= |records|
    ensures MeaningAll(rd, records) == MeaningAll(rd, records[..k]) + MeaningAll(rd, records[k..])
  {
    hide MeaningAll;
    MeaningAppend(rd, records[..k], records[k..]);
    assert records[..k] + records[k..] == records;
  }

  // ---------------------------------------------------------------------
  // A log cut at any byte
  // ---------------------------------------------------------------------

  /** The frames a writer has appended but not fsynced. */
  ghost function Appended(m: M): seq<WalRecord>
    requires m.lock.Writer? ==> m.lock.k <= |m.lock.batch|
  {
    if m.lock.Writer? then m.lock.batch[..m.lock.k] else []
  }

  lemma FramesGrow(records: seq<Record>, crc: Crc, i: nat, j: nat)
    requires i <= j <= |records|
    ensures |FileOf(records[..i], crc)| <= |FileOf(records[..j], crc)|
  {
    hide Frames;
    PrefixShorter(records[..j], crc, i);
    assert records[..j][..i] == records[..i];
  }

  /** Reopening `d` is what a crash with `j` appended frames surviving leads to. */
  ghost predicate ReopensLike(m: M, j: nat, d: Disk)
    requires m.lock.Writer? ==> m.lock.k <= |m.lock.batch|
    requires j <= |Appended(m)|
  {
    && d.current in d.manifests && Complete(d.segs, d.manifests[d.current])
    && Replay(m.spec, Appended(m)[..j]).Some?
    && var live, seen := Replay(m.spec, Appended(m)[..j]).value, Reopened(d, m.walSeq);
    && (seen.None? <==> UsedThenDropped(m.win.base.cols.Keys, m.win.tail))
    && (seen.Some? ==> SameRecords(live, seen.value))
    && (WindowExact(m.win.base, m.win.tail, m.win.mid) ==> seen == Some(live))
  }

  /**
   * Crash recovery down to the bytes. The active log holds the fsynced records and those a writer has appended
   * since. Whatever byte at or after the fsynced part the crash cuts it at, `read_all` keeps the fsynced records
   * and a whole number of the others, and reopening is that of a crash with so many frames surviving: all records
   * come back unless the last window forbids it, and the picture with an exact one.
   */
  lemma TornLogRecovers(m: M, rd: Reading, crc: Crc, utf8: Utf8, synced: seq<Record>, appended: seq<Record>, cut: nat)
    requires Inv(m) && m.walSeq in m.disk.wals && (m.lock.Writer? ==> m.lock.k <= |m.lock.batch|)
    requires MeaningAll(rd, synced) == m.disk.wals[m.walSeq] && MeaningAll(rd, appended) == Appended(m)
    requires CrcOk(crc) && Loggable(synced + appended, utf8)
    requires |FileOf(synced, crc)| <= cut <= |FileOf(synced + appended, crc)|
    ensures
      var all := synced + appended;
      var k := WholeFrames(all, crc, cut - |MAGIC_WAL|);
      && |synced| <= k <= |all|
      && ReadAll(FileOf(all, crc)[..cut], crc, utf8) == Some(WalReplay(all[..k], |FileOf(all[..k], crc)|))
      && ReopensLike(m, k - |synced|, m.disk.(wals := m.disk.wals[m.walSeq := MeaningAll(rd, all[..k])]))
  {
    hide Inv, Complete, Abs, Load, Replay, MeaningAll, ReadAll, FileOf, WholeFrames, Loggable, CrcOk, Reopened,
         UsedThenDropped, SameRecords, DirectoryReturns, WindowExact, Enabled, MemOk;
    var all := synced + appended;
    CutKeepsSynced(crc, utf8, synced, appended, cut);
    var k := WholeFrames(all, crc, cut - |MAGIC_WAL|);
    var j := k - |synced|;
    assert all[..k] == synced + appended[..j];
    MeaningAppend(rd, synced, appended[..j]);
    PrefixMeaning(rd, appended, j);
    AppendedSurvive(m, j);
    EveryReopening(m, j);
  }

  lemma CutKeepsSynced(crc: Crc, utf8: Utf8, synced: seq<Record>, appended: seq<Record>, cut: nat)
    requires CrcOk(crc) && Loggable(synced + appended, utf8)
    requires |FileOf(synced, crc)| <= cut <= |FileOf(synced + appended, crc)|
    ensures cut >= |MAGIC_WAL|
    ensures var all := synced + appended;
            var k := WholeFrames(all, crc, cut - |MAGIC_WAL|);
            && |synced| <= k <= |all|
            && ReadAll(FileOf(all, crc)[..cut], crc, utf8) == Some(WalReplay(all[..k], |FileOf(all[..k], crc)|))
  {
    hide Frames, WholeFrames, Loggable, CrcOk, ReadAll;
    var all := synced + appended;
    TornTail(all, crc, utf8, cut);
    var k := WholeFrames(all, crc, cut - |MAGIC_WAL|);
    assert all[..|synced|] == synced;
    if k < |synced| {
      FramesGrow(all, crc, k + 1, |synced|);
    }
  }

  lemma AppendedSurvive(m: M, j: nat)
    requires Inv(m) && (m.lock.Writer? ==> m.lock.k <= |m.lock.batch|) && j <= |Appended(m)|
    ensures CrashPoint(m, j) && Survivors(m, j) == Appended(m)[..j]
  {
    hide Inv;
  }

  // ---------------------------------------------------------------------
  // Moving on to a newer log
  // ---------------------------------------------------------------------

  /**
   * `tail_sync` follows only the newest log. A follower that moves on keeps its picture, so the new log
   * is applied to what it had fetched of the old one.
   */
  lemma MovesOn(r: Replica, q: nat, old_: seq<Record>, base: Img, n: nat, q': nat, new_: seq<Record>)
    requires r.Followed(q, old_, base, n) && q' != q && r.Local(q') == []
    ensures r.walSeq != Some(q') && r.Holds(q', new_, 0)
    ensures Fold(r.rd, base, old_[..FramesIn(old_, r.crc, n)]) == Some(r.state)
  {
    hide FramesIn, Fold, FileOf;
  }

  /**
   * A new log that needs a collection the follower lacks, as when the skipped part created it, makes the poll up to
   * its end fail.
   */
  lemma SkippedCreateStops(rd: Reading, crc: Crc, mine: Img, new_: seq<Record>, c: Cid)
    requires c !in mine.cols && Skipping.Needs(MeaningAll(rd, new_), c)
    ensures !Succeeds(rd, new_, crc, Progress(0, mine), 0, |FileOf(new_, crc)|)
  {
    hide FramesIn, MeaningAll, Replay, Skipping.Needs, Frames;
    Skipping.NeedsRejected(mine, MeaningAll(rd, new_), c);
    FramesAtBoundary(new_, crc, |new_|);
    assert new_[..|new_|] == new_ && new_[0..|new_|] == new_;
  }
}
