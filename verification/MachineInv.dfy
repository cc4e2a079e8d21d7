/** The invariant of the store's state machine, and the facts about calls, flushes and compactions it rests on. */
module MachineInv {
  import opened Records
  import opened Memtables
  import opened Layers
  import opened Segments
  import opened Image
  import opened Window
  import opened LogBehind
  import opened StoreState
  import opened Recovery
  import opened Machine

  /** The state under the lock shows exactly what the acknowledged calls say, and its caches are right. */
  ghost predicate MemInv(mem: Mem, pendSeq: Option<nat>, spec: Img) {
    && MemOk(mem) && Abs(mem) == spec && Consistent(spec) && AllExtOk(spec)
    && mem.pending.Keys <= mem.cols.Keys
    && (pendSeq.None? ==> mem.pending == map[])
  }

  /** CURRENT names a complete manifest, and only WAL files up to the active one exist. */
  ghost predicate DiskInv(disk: Disk, walSeq: nat, nextCid: Cid) {
    && disk.current in disk.manifests
    && var man := disk.manifests[disk.current];
    && Complete(disk.segs, man) && man.walSeq < walSeq && man.nextCid <= nextCid && man.gen == disk.current
    && walSeq in disk.wals && (forall q :: q in disk.wals ==> q <= walSeq)
  }

  ghost function CurrentMan(disk: Disk): Manifest
    requires disk.current in disk.manifests
  {
    disk.manifests[disk.current]
  }

  /** A collection that replay creates has no segment in the checkpoint, so re-creating it loses nothing. */
  ghost predicate CreatesEmpty(man: Manifest, log: seq<WalRecord>) {
    forall i :: 0 <= i < |log| && log[i].CreateCollection? && log[i].cid in man.cols
        ==> man.cols[log[i].cid].segIds == []
  }

  ghost predicate CreatesInv(disk: Disk, walSeq: nat)
    requires disk.current in disk.manifests
  {
    CreatesEmpty(CurrentMan(disk), Log(disk.wals, CurrentMan(disk).walSeq + 1, walSeq + 1))
  }

  /** CURRENT's manifest stands for the checkpoint of the last flush; a compaction may have raised the next id. */
  ghost predicate StandsFor(img: Img, win: Win, next: Cid) {
    img == Checkpoint(win.base, win.mid).(next := img.next) && win.mid.next <= img.next <= next
  }

  /**
   * The durable checkpoint is that of the last flush, and the durable log behind it is that window and what came
   * since.
   */
  ghost predicate RecoverInv(disk: Disk, walSeq: nat, spec: Img, win: Win, since: seq<WalRecord>)
    requires disk.current in disk.manifests && Complete(disk.segs, disk.manifests[disk.current])
  {
    var man := CurrentMan(disk);
    && Passed(win.base, win.tail, win.mid, since, spec)
    && Log(disk.wals, man.walSeq + 1, walSeq + 1) == win.tail + since
    && StandsFor(BaseImg(disk.segs, man), win, spec.next)
  }

  /** The in-memory segment lists are the files of the manifest in memory. */
  ghost predicate Link(mem: Mem, segs: SegFiles, man: Manifest) {
    && man.nextCid <= mem.nextCid && (forall c :: c in man.cols ==> c < man.nextCid)
    && forall c :: c in mem.cols ==> LinkOne(mem.cols[c].segs, segs, man, c)
  }

  ghost predicate LinkOne(list: seq<Segment>, segs: SegFiles, man: Manifest, c: Cid) {
    && FilesMatch(segs, c, list, man.nextSegId)
    && (c in man.cols ==> man.cols[c].segIds == SegIds(list))
    && (c !in man.cols ==> list == [])
  }

  /** What the flush window knows: the tail leads from `base` to the present, and `base`'s rows are the older tables. */
  ghost predicate WindowInv(mem: Mem, wals: WalFiles, walSeq: nat, pendSeq: Option<nat>, spec: Img, base: Img) {
    pendSeq.Some? ==>
      && pendSeq.value < walSeq
      && Consistent(base) && AllExtOk(base)
      && GoodLog(base, Log(wals, pendSeq.value + 1, walSeq + 1))
      && Replay(base, Log(wals, pendSeq.value + 1, walSeq + 1)) == Some(spec)
      && forall c :: c in mem.cols ==> WindowRows(mem, base, c)
  }

  /** The rows of `base` are those of the older tables; a collection created since has none. */
  ghost predicate WindowRows(mem: Mem, base: Img, c: Cid)
    requires c in mem.cols
  {
    if c in base.cols then Contents(Older(mem, c)) == base.cols[c].recs else mem.cols[c].segs == [] && c !in mem.pending
  }

  ghost predicate WorkInv(mem: Mem, work: seq<Work>, nextSegId: nat) {
    && (forall i :: 0 <= i < |work|
          ==> work[i].table.Valid() && work[i].cid < mem.nextCid && work[i].segId == nextSegId + i)
    && (forall c :: c in mem.cols ==> WorkMatches(mem.pending, work, c))
  }

  ghost predicate WorkMatches(pending: map<Cid, Table>, work: seq<Work>, c: Cid) {
    && (c in pending <==> WorkOf(work, c).Some?)
    && (c in pending ==> WorkOf(work, c).value.table == pending[c])
  }

  ghost predicate WorkFiles(segs: SegFiles, work: seq<Work>, done: nat) {
    && done <= |work|
    && forall i :: 0 <= i < done ==> work[i].table.Valid() && (work[i].cid, work[i].segId) in segs
                                     && segs[(work[i].cid, work[i].segId)] == Written(work[i].segId, work[i].table)
  }

  ghost predicate JobInv(mem: Mem, man: Manifest, job: Job) {
    && job.segId == man.nextSegId && job.cid < mem.nextCid && |job.run| >= 2 && AllValid(job.run)
    && (job.cid in mem.cols ==> |job.run| <= |mem.cols[job.cid].segs| && job.run == mem.cols[job.cid].segs[..|job.run|]
                                && (job.older <==> |job.run| < |mem.cols[job.cid].segs|))
  }

  ghost predicate JobFile(segs: SegFiles, job: Job) {
    var merged := Merge(Tbls(job.run), job.older);
    merged.IsEmpty() || ((job.cid, job.segId) in segs && segs[(job.cid, job.segId)] == Written(job.segId, merged))
  }

  ghost predicate Stored(disk: Disk, man: Manifest) {
    man.gen in disk.manifests && disk.manifests[man.gen] == man
  }

  ghost predicate MaintInv(m: M) {
    match m.maint
    case Idle => true
    case Cleaning => true
    case FlushWriting(w, work, done) =>
      m.pendSeq == Some(w) && WorkInv(m.mem, work, m.man.nextSegId) && WorkFiles(m.disk.segs, work, done)
    case FlushStored(man, w, work) =>
      && m.pendSeq == Some(w) && WorkInv(m.mem, work, m.man.nextSegId) && WorkFiles(m.disk.segs, work, |work|)
      && man == FlushManifest(m.man, m.mem, w, work) && Stored(m.disk, man)
    case FlushSwitched(man, w, work) =>
      && m.pendSeq == Some(w) && WorkInv(m.mem, work, m.man.nextSegId) && WorkFiles(m.disk.segs, work, |work|)
      && man == FlushManifest(m.man, m.mem, w, work) && Stored(m.disk, man) && m.disk.current == man.gen
    case CompactWriting(job) => JobInv(m.mem, m.man, job)
    case CompactWritten(job) => JobInv(m.mem, m.man, job) && JobFile(m.disk.segs, job)
    case CompactStored(man, job) =>
      && JobInv(m.mem, m.man, job) && JobFile(m.disk.segs, job) && job.cid in m.mem.cols && job.cid in m.man.cols
      && man == CompactManifest(m.man, m.mem, job) && Stored(m.disk, man)
    case CompactSwitched(man, job) =>
      && JobInv(m.mem, m.man, job) && JobFile(m.disk.segs, job) && job.cid in m.mem.cols && job.cid in m.man.cols
      && man == CompactManifest(m.man, m.mem, job) && Stored(m.disk, man) && m.disk.current == man.gen
  }

  /**
   * The in-memory manifest lags behind CURRENT only between the rename and the installation, and
   * no WAL file of the flush window is covered by CURRENT yet.
   */
  ghost predicate ManInv(m: M)
    requires m.disk.current in m.disk.manifests
  {
    && (if m.maint.FlushSwitched? || m.maint.CompactSwitched? then m.man.gen < m.disk.current
         else m.man == CurrentMan(m.disk))
    && (m.pendSeq.Some? ==> CurrentMan(m.disk).walSeq <= m.pendSeq.value)
  }

  ghost predicate LockInv(m: M) {
    && (m.lock.Maintenance? <==> Holds(m.maint))
    && (m.lock.Writer? ==> m.lock.k <= |m.lock.batch| && Call(m.mem, m.lock.batch))
  }

  ghost predicate Inv(m: M) {
    && MemInv(m.mem, m.pendSeq, m.spec)
    && DiskInv(m.disk, m.walSeq, m.mem.nextCid)
    && RecoverInv(m.disk, m.walSeq, m.spec, m.win, m.since)
    && CreatesInv(m.disk, m.walSeq)
    && Link(m.mem, m.disk.segs, m.man)
    && WindowInv(m.mem, m.disk.wals, m.walSeq, m.pendSeq, m.spec, m.base)
    && MaintInv(m) && ManInv(m) && LockInv(m)
  }

  // ---------------------------------------------------------------------
  // Public calls
  // ---------------------------------------------------------------------

  /** A caller's data record keeps string ids unique: the dictionary maps the string to this very id. */
  lemma CallerExtOk(col: Coll, live: map<Id, StoredRecord>, r: WalRecord)
    requires IsData(r) && CacheOk(col, live) && ExtOk(live) && CallerOk(col, r)
    ensures ExtOk(UpdateRecs(live, r))
  {
    var recs := UpdateRecs(live, r);
    forall i | i in recs ensures i >= EXT_ID_BASE <==> ExtOf(recs[i].metadata).Some?
    {
      assert i != r.id ==> i in live && live[i] == recs[i];
    }
    forall i | i in recs && ExtOf(recs[i].metadata).Some?
      ensures ExtOf(recs[i].metadata).value in col.extIds && col.extIds[ExtOf(recs[i].metadata).value] == i
    {
      assert i != r.id ==> i in live && live[i] == recs[i];
    }
  }

  lemma CallerLegal(m: Mem, r: WalRecord)
    requires MemOk(m) && AllExtOk(Abs(m)) && IsData(r) && r.cid in m.cols && CallerOk(m.cols[r.cid], r)
    ensures Legal(Abs(m), r)
  {
    assert CollOk(m, r.cid);
    assert ExtOk(Abs(m).cols[r.cid].recs);
    CallerExtOk(m.cols[r.cid], Live(m, r.cid), r);
  }

  lemma CallerStays(m: Mem, r: WalRecord, next: WalRecord)
    requires IsData(r) && r.cid in m.cols && CallerOk(m.cols[r.cid], r)
    requires IsData(next) && next.cid == r.cid && CallerOk(m.cols[r.cid], next)
    ensures CallerOk(Apply(m, r).value.cols[r.cid], next)
  {
    var col := m.cols[r.cid];
    if r.Upsert? || r.UpdateMeta? {
      assert TrackExt(col, r.id, r.metadata).extIds == col.extIds;
    }
  }

  /** The effect of a list of legal records. */
  ghost predicate AppliesWell(m: Mem, batch: seq<WalRecord>) {
    && GoodLog(Abs(m), batch)
    && ApplyAll(m, batch).Some? && Replay(Abs(m), batch).Some?
    && Abs(ApplyAll(m, batch).value) == Replay(Abs(m), batch).value
    && MemOk(ApplyAll(m, batch).value) && ApplyAll(m, batch).value.pending == m.pending
  }

  lemma AppliesFacts(m: Mem, batch: seq<WalRecord>)
    requires AppliesWell(m, batch)
    ensures GoodLog(Abs(m), batch) && Replay(Abs(m), batch).Some?
    ensures ApplyAll(m, batch).Some? && ApplyAll(m, batch).value.pending == m.pending
  {
    hide GoodLog, Replay, Abs, ApplyAll, MemOk;
  }

  lemma LegalStep(s: Img, r: WalRecord)
    requires Legal(s, r)
    ensures Step(s, r).Some? && Next(s, r) == Step(s, r).value
  {
  }

  lemma ApplyOneWell(m: Mem, r: WalRecord, rest: seq<WalRecord>)
    requires MemOk(m) && AllExtOk(Abs(m)) && Legal(Abs(m), r)
    requires r.CreateCollection? ==> r.cid !in m.pending
    requires Apply(m, r).Some? ==> AppliesWell(Apply(m, r).value, rest)
    ensures Apply(m, r).Some? && AppliesWell(m, [r] + rest)
  {
    hide MemOk, AllExtOk, Legal, Step, Apply, Abs;
    LegalStep(Abs(m), r);
    LegalKeepsExt(Abs(m), r);
    ApplyRefines(m, r);
    assert ([r] + rest)[1..] == rest;
  }

  lemma NothingMore(m: Mem)
    requires MemOk(m)
    ensures AppliesWell(m, [])
  {
  }

  lemma DataKeepsColl(m: Mem, r: WalRecord)
    requires IsData(r) && r.cid in m.cols
    ensures Apply(m, r).Some? && r.cid in Apply(m, r).value.cols
  {
  }

  lemma {:induction false} DataCallGood(m: Mem, c: Cid, batch: seq<WalRecord>)
    requires MemOk(m) && AllExtOk(Abs(m)) && c in m.cols
    requires forall i :: 0 <= i < |batch| ==> IsData(batch[i]) && batch[i].cid == c && CallerOk(m.cols[c], batch[i])
    ensures AppliesWell(m, batch)
    decreases |batch|
  {
    hide MemOk, AllExtOk, Legal, Step, CallerOk, Abs, AppliesWell;
    if batch == [] {
      NothingMore(m);
    } else {
      var r := batch[0];
      CallerLegal(m, r);
      DataKeepsColl(m, r);
      LegalStep(Abs(m), r);
      LegalKeepsExt(Abs(m), r);
      ApplyRefines(m, r);
      var m' := Apply(m, r).value;
      forall i | 0 <= i < |batch[1..]|
        ensures IsData(batch[1..][i]) && batch[1..][i].cid == c && CallerOk(m'.cols[c], batch[1..][i])
      {
        assert batch[1..][i] == batch[i + 1];
        CallerStays(m, r, batch[i + 1]);
      }
      DataCallGood(m', c, batch[1..]);
      ApplyOneWell(m, r, batch[1..]);
      assert batch == [r] + batch[1..];
    }
  }

  lemma NextIsFresh(m: Mem)
    requires Consistent(Abs(m)) && m.pending.Keys <= m.cols.Keys
    ensures m.nextCid !in m.cols && m.nextCid !in m.pending
  {
    assert Abs(m).cols.Keys == m.cols.Keys;
  }

  lemma CreatesNext(m: Mem, r: WalRecord)
    requires Legal(Abs(m), r) && r.CreateCollection?
    ensures r.cid == m.nextCid
  {
    hide ColOf;
  }

  lemma DirectoryCallGood(m: Mem, r: WalRecord)
    requires MemOk(m) && AllExtOk(Abs(m)) && Legal(Abs(m), r)
    requires r.CreateCollection? ==> r.cid !in m.pending
    ensures AppliesWell(m, [r])
  {
    LegalKeepsExt(Abs(m), r);
    ApplyRefines(m, r);
    NothingMore(Apply(m, r).value);
    ApplyOneWell(m, r, []);
    assert [r] + [] == [r];
  }

  /** Every public call logs records that are legal, and its in-memory effect is what the records say. */
  lemma CallGood(m: Mem, batch: seq<WalRecord>)
    requires MemOk(m) && Consistent(Abs(m)) && AllExtOk(Abs(m)) && m.pending.Keys <= m.cols.Keys && Call(m, batch)
    ensures AppliesWell(m, batch)
  {
    hide AppliesWell, MemOk, Consistent, AllExtOk, CallerOk, Abs, Legal;
    if |batch| == 1 && !IsData(batch[0]) && Legal(Abs(m), batch[0]) {
      NextIsFresh(m);
      if batch[0].CreateCollection? {
        CreatesNext(m, batch[0]);
      }
      DirectoryCallGood(m, batch[0]);
      assert batch == [batch[0]];
    } else {
      var c :| c in m.cols &&
           forall i :: 0 <= i < |batch| ==> IsData(batch[i]) && batch[i].cid == c && CallerOk(m.cols[c], batch[i]);
      DataCallGood(m, c, batch);
    }
  }

  lemma {:induction false} DataKeepsSegs(m: Mem, batch: seq<WalRecord>)
    requires ApplyAll(m, batch).Some? && forall i :: 0 <= i < |batch| ==> IsData(batch[i])
    ensures var m' := ApplyAll(m, batch).value;
            && m'.cols.Keys == m.cols.Keys && m'.nextCid == m.nextCid
            && forall c :: c in m.cols ==> m'.cols[c].segs == m.cols[c].segs
    decreases |batch|
  {
    if batch != [] {
      assert IsData(batch[0]);
      forall i | 0 <= i < |batch[1..]| ensures IsData(batch[1..][i]) {
        assert batch[1..][i] == batch[i + 1];
      }
      DataKeepsSegs(Apply(m, batch[0]).value, batch[1..]);
    }
  }

  lemma DirectoryKeepsSegs(m: Mem, r: WalRecord, c: Cid)
    requires !IsData(r) && Legal(Abs(m), r) && Consistent(Abs(m)) && Apply(m, r).Some? && c in Apply(m, r).value.cols
    ensures c in m.cols ==> Apply(m, r).value.cols[c].segs == m.cols[c].segs
    ensures c !in m.cols ==> Apply(m, r).value.cols[c].segs == [] && c >= m.nextCid
    ensures m.nextCid <= Apply(m, r).value.nextCid
  {
    hide ColOf;
    assert m.nextCid in m.cols ==> m.nextCid in Abs(m).cols;
  }

  /** A call changes no segment list; the collection it may create is new and has no segments. */
  lemma CallKeepsSegs(m: Mem, batch: seq<WalRecord>, c: Cid)
    requires ApplyAll(m, batch).Some? && Call(m, batch) && c in ApplyAll(m, batch).value.cols
    requires Consistent(Abs(m))
    ensures c in m.cols ==> ApplyAll(m, batch).value.cols[c].segs == m.cols[c].segs
    ensures c !in m.cols ==> ApplyAll(m, batch).value.cols[c].segs == [] && c >= m.nextCid
    ensures m.nextCid <= ApplyAll(m, batch).value.nextCid
  {
    hide Apply, ApplyAll, Legal, Abs, Consistent, CallerOk;
    if |batch| == 1 && !IsData(batch[0]) && Legal(Abs(m), batch[0]) {
      assert batch == [batch[0]];
      ApplySingle(m, batch[0]);
      DirectoryKeepsSegs(m, batch[0], c);
    } else {
      DataKeepsSegs(m, batch);
    }
  }

  lemma CallNextCid(m: Mem, batch: seq<WalRecord>)
    requires ApplyAll(m, batch).Some? && Call(m, batch)
    ensures m.nextCid <= ApplyAll(m, batch).value.nextCid
  {
    if |batch| == 1 && !IsData(batch[0]) && Legal(Abs(m), batch[0]) {
      assert batch[1..] == [];
      assert ApplyAll(m, batch) == Apply(m, batch[0]);
    } else {
      DataKeepsSegs(m, batch);
    }
  }

  /** The tables of `c` older than the active memtable are the same in both states; a new collection has none. */
  ghost predicate OlderKept(m: Mem, m': Mem, c: Cid)
    requires c in m'.cols
  {
    && (c in m.cols ==> m'.cols[c].segs == m.cols[c].segs && Older(m', c) == Older(m, c)
                        && (c in m.pending <==> c in m'.pending) && (c in m.pending ==> m'.pending[c] == m.pending[c]))
    && (c !in m.cols ==> m'.cols[c].segs == [] && c !in m'.pending && c >= m.nextCid)
  }

  lemma OlderSame(m: Mem, m': Mem, c: Cid)
    requires c in m'.cols && m.pending.Keys <= m.cols.Keys
    requires c in m.cols ==> m'.cols[c].segs == m.cols[c].segs
    requires c !in m.cols ==> m'.cols[c].segs == [] && c >= m.nextCid
    requires c in m.pending <==> c in m'.pending
    requires c in m.pending ==> m'.pending[c] == m.pending[c]
    ensures OlderKept(m, m', c)
  {
    assert c in m.pending.Keys ==> c in m.cols.Keys;
  }

  lemma DroppedIsGone(m: Mem, r: WalRecord)
    requires r.DropCollection? && Apply(m, r).Some?
    ensures r.cid !in Apply(m, r).value.cols
  {
  }

  /** The tables older than the active memtable do not change by a call. */
  lemma CommitOlder(m: Mem, batch: seq<WalRecord>, c: Cid)
    requires AppliesWell(m, batch) && Call(m, batch) && Consistent(Abs(m)) && m.pending.Keys <= m.cols.Keys
    requires c in CommitMem(m, batch).cols
    ensures OlderKept(m, CommitMem(m, batch), c)
  {
    hide AppliesWell, Call, Consistent, Abs, ApplyAll, Apply, OlderKept;
    AppliesFacts(m, batch);
    CallKeepsSegs(m, batch, c);
    if |batch| == 1 && batch[0].DropCollection? {
      assert batch == [batch[0]];
      ApplySingle(m, batch[0]);
      DroppedIsGone(m, batch[0]);
    }
    OlderSame(m, CommitMem(m, batch), c);
  }

  lemma DropPending(m1: Mem, m': Mem, d: Cid)
    requires MemOk(m1) && d !in m1.cols && m' == m1.(pending := m1.pending - {d})
    ensures MemOk(m') && Abs(m') == Abs(m1)
  {
    hide Contents, Sources, CacheOk;
    forall c | c in m'.cols ensures CollOk(m', c) && ColOf(m', c) == ColOf(m1, c) {
      assert CollOk(m1, c);
      SourcesFrame(m1, m', c);
    }
    SameImage(m', Abs(m1));
  }

  lemma ApplySingle(m: Mem, r: WalRecord)
    ensures ApplyAll(m, [r]) == Apply(m, r)
  {
    assert [r][1..] == [];
  }

  /** Dropping a collection also takes it out of the waiting flush; nothing else is visible. */
  lemma CommitImage(m: Mem, batch: seq<WalRecord>)
    requires AppliesWell(m, batch) && Call(m, batch) && m.pending.Keys <= m.cols.Keys
    ensures var m' := CommitMem(m, batch);
            && MemOk(m') && Abs(m') == Replay(Abs(m), batch).value && m'.pending.Keys <= m'.cols.Keys
            && m'.pending.Keys <= m.pending.Keys && m'.nextCid >= m.nextCid
  {
    CallNextCid(m, batch);
    if |batch| == 1 && batch[0].DropCollection? {
      assert batch == [batch[0]];
      ApplySingle(m, batch[0]);
      DropPending(ApplyAll(m, batch).value, CommitMem(m, batch), batch[0].cid);
    } else if |batch| == 1 && !IsData(batch[0]) && Legal(Abs(m), batch[0]) {
      assert batch == [batch[0]];
      ApplySingle(m, batch[0]);
    } else {
      DataKeepsSegs(m, batch);
    }
  }
}
