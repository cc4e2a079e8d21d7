/**
 * The store as a state machine: public writes logged frame by frame under the lock, `rotate`,
 * the three phases of a flush and of a compaction with writes in between, every durable sub-step,
 * crash, and recovery.
 */
module Machine {
  import opened Records
  import opened Memtables
  import opened Layers
  import opened Segments
  import opened Image
  import opened StoreState
  import opened Recovery

  /** Who holds the state mutex. A writer has appended the first `k` frames of its call, not yet fsynced. */
  datatype Lock = Free | Writer(batch: seq<WalRecord>, k: nat) | Maintenance

  /** One collection's part of a flush. */
  datatype Work = Work(cid: Cid, table: Table, segId: nat)

  /** One compaction of the newest segments of a collection. */
  datatype Job = Job(cid: Cid, run: seq<Segment>, older: bool, segId: nat)

  /** Program counter of the only maintenance thread. Writing phases run without the lock. */
  datatype Maint =
    | Idle
    | FlushWriting(walSeq: nat, work: seq<Work>, done: nat)
    | FlushStored(man: Manifest, walSeq: nat, work: seq<Work>)
    | FlushSwitched(man: Manifest, walSeq: nat, work: seq<Work>)
    | CompactWriting(job: Job)
    | CompactWritten(job: Job)
    | CompactStored(man: Manifest, job: Job)
    | CompactSwitched(man: Manifest, job: Job)
    | Cleaning

  /**
   * `man` is the in-memory copy of the manifest, `walSeq` the active WAL, `pendSeq` the WAL number
   * covered by the memtables waiting for a flush. The rest are history variables, which no step but a
   * crash looks at: `spec`, the image of all acknowledged calls; `base`, the image at `rotate`;
   * `win`, the window of the last flush; and `since`, what was logged after that window.
   */
  datatype M = M(disk: Disk, mem: Mem, man: Manifest, walSeq: nat, pendSeq: Option<nat>,
                 lock: Lock, maint: Maint, spec: Img, base: Img, win: Win, since: seq<WalRecord>)

  /** A flush window: the records `tail`, logged between `rotate` and the switch, led from `base` to `mid`. */
  datatype Win = Win(base: Img, tail: seq<WalRecord>, mid: Img)

  datatype Action =
    | Begin(batch: seq<WalRecord>)
    | AppendFrame
    | Commit
    | Reserve(cid: Cid, ext: string)
    | Rotate
    | FlushStart
    | FlushWriteSeg
    | FlushStore
    | FlushSwitch
    | FlushInstall
    | CompactStart(cid: Cid, runLen: nat)
    | CompactWrite
    | CompactAbandon
    | CompactStore
    | CompactSwitch
    | CompactInstall
    | DeleteWal(seq_: nat)
    | DeleteManifest(gen: nat)
    | DeleteSeg(cid: Cid, segId: nat)
    | Unlock
    | Crash(survived: nat)

  // ---------------------------------------------------------------------
  // Public calls
  // ---------------------------------------------------------------------

  /**
   * What a caller may put into a data record: numeric ids stay below the assigned range and carry
   * no string id; string ids come from the dictionary (`upsert_batch_records`).
   */
  ghost predicate CallerOk(col: Coll, r: WalRecord) {
    match r
    case Delete(_, _) => true
    case _ =>
      && (r.Upsert? || r.UpdateMeta?)
      && (r.id >= EXT_ID_BASE <==> ExtOf(r.metadata).Some?)
      && (ExtOf(r.metadata).Some? ==>
            ExtOf(r.metadata).value in col.extIds && col.extIds[ExtOf(r.metadata).value] == r.id)
  }

  /** The records that one public write call logs. */
  ghost predicate Call(m: Mem, batch: seq<WalRecord>) {
    || (|batch| == 1 && !IsData(batch[0]) && Legal(Abs(m), batch[0]))
    || (exists c :: c in m.cols &&
         forall i :: 0 <= i < |batch| ==> IsData(batch[i]) && batch[i].cid == c && CallerOk(m.cols[c], batch[i]))
  }

  /** The state change of a call once its records are durable; a drop also leaves the waiting flush. */
  ghost function CommitMem(m: Mem, batch: seq<WalRecord>): Mem
    requires ApplyAll(m, batch).Some?
  {
    var m' := ApplyAll(m, batch).value;
    if |batch| == 1 && batch[0].DropCollection? then m'.(pending := m'.pending - {batch[0].cid}) else m'
  }

  // ---------------------------------------------------------------------
  // Manifests
  // ---------------------------------------------------------------------

  /** The part of a flush that concerns one collection. */
  ghost function WorkOf(work: seq<Work>, c: Cid): (w: Option<Work>)
    ensures w.Some? ==> w.value.cid == c && exists i :: 0 <= i < |work| && work[i] == w.value
    ensures w.None? ==> forall i :: 0 <= i < |work| ==> work[i].cid != c
  {
    if work == [] then None
    else if work[0].cid == c then Some(work[0])
    else
      var rest := WorkOf(work[1..], c);
      assert forall i :: 0 <= i < |work[1..]| ==> work[1..][i] == work[i + 1];
      assert forall i :: 1 <= i < |work| ==> work[i] == work[1..][i - 1];
      rest
  }

  ghost predicate WorkValid(work: seq<Work>) {
    forall i :: 0 <= i < |work| ==> work[i].table.Valid()
  }

  /** Newest-first segments of a collection after a flush. */
  ghost function Flushed(segs: seq<Segment>, work: seq<Work>, c: Cid): seq<Segment>
    requires WorkValid(work)
  {
    var w := WorkOf(work, c);
    (if w.Some? then [Written(w.value.segId, w.value.table)] else []) + segs
  }

  /** Phase 3 of a flush: the present collections and names, but the WAL number of `rotate`. */
  ghost function FlushManifest(man: Manifest, mem: Mem, walSeq: nat, work: seq<Work>): Manifest
    requires WorkValid(work)
  {
    Manifest(man.gen + 1, mem.nextCid, man.nextSegId + |work|, walSeq,
             map c | c in mem.cols ::
               CollEntry(mem.cols[c].name, mem.cols[c].dim, mem.cols[c].metric,
                   SegIds(Flushed(mem.cols[c].segs, work, c))))
  }

  /** Newest-first segments after a compaction; nothing is left of a run without rows and markers. */
  ghost function Compacted(segs: seq<Segment>, job: Job): seq<Segment>
    requires |job.run| <= |segs|
  {
    var merged := Merge(Tbls(job.run), job.older);
    (if merged.IsEmpty() then [] else [Written(job.segId, merged)]) + segs[|job.run|..]
  }

  /** Phase 3 of a compaction: the last manifest's names, WAL number and entries but one, with the present next id. */
  ghost function CompactManifest(man: Manifest, mem: Mem, job: Job): Manifest
    requires job.cid in mem.cols && job.cid in man.cols && |job.run| <= |mem.cols[job.cid].segs|
  {
    man.(gen := man.gen + 1, nextCid := mem.nextCid, nextSegId := Max(man.nextSegId, job.segId + 1),
         cols := man.cols[job.cid := man.cols[job.cid].(segIds := SegIds(Compacted(mem.cols[job.cid].segs, job)))])
  }

  // ---------------------------------------------------------------------
  // Steps
  // ---------------------------------------------------------------------

  /** The work list of a flush: the collections waiting, numbered from the next segment id. */
  ghost function WorkList(cids: seq<Cid>, pending: map<Cid, Table>, nextSegId: nat): seq<Work>
    requires forall i :: 0 <= i < |cids| ==> cids[i] in pending
  {
    seq(|cids|, i requires 0 <= i < |cids| => Work(cids[i], pending[cids[i]], nextSegId + i))
  }

  ghost function EmptiedCols(m: Mem): Mem {
    m.(cols := map c | c in m.cols :: m.cols[c].(mem := EMPTY_TABLE),
       pending := map c | c in m.cols && !m.cols[c].mem.IsEmpty() :: m.cols[c].mem)
  }

  ghost function ReserveExt(col: Coll, ext: string): Coll {
    if ext in col.extIds then col
    else col.(extIds := col.extIds[ext := col.nextExtId], nextExtId := col.nextExtId + 1)
  }

  ghost function InstallFlush(m: Mem, work: seq<Work>): Mem
    requires WorkValid(work)
  {
    m.(pending := map[], cols := map c | c in m.cols :: m.cols[c].(segs := Flushed(m.cols[c].segs, work, c)))
  }

  ghost function InstallCompact(m: Mem, job: Job): Mem
    requires job.cid in m.cols && |job.run| <= |m.cols[job.cid].segs|
  {
    m.(cols := m.cols[job.cid := m.cols[job.cid].(segs := Compacted(m.cols[job.cid].segs, job))])
  }

  predicate Holds(maint: Maint) {
    maint.FlushStored? || maint.FlushSwitched? || maint.CompactStored? || maint.CompactSwitched? || maint.Cleaning?
  }

  /** The segment file is referred to by the manifest named by CURRENT. */
  ghost predicate Referenced(d: Disk, c: Cid, segId: nat)
    requires d.current in d.manifests
  {
    c in d.manifests[d.current].cols && segId in d.manifests[d.current].cols[c].segIds
  }

  /** The records logged since the memtables waiting for a flush were set aside. */
  ghost function Tail(m: M): seq<WalRecord>
    requires m.pendSeq.Some?
  {
    Log(m.disk.wals, m.pendSeq.value + 1, m.walSeq + 1)
  }

  ghost predicate Enabled(m: M, a: Action) {
    match a
    case Begin(batch) => m.lock.Free? && Call(m.mem, batch)
    case AppendFrame => m.lock.Writer? && m.lock.k < |m.lock.batch|
    case Commit => m.lock.Writer? && m.lock.k == |m.lock.batch| && ApplyAll(m.mem, m.lock.batch).Some?
                   && Replay(m.spec, m.lock.batch).Some? && m.walSeq in m.disk.wals
    case Reserve(c, ext) => m.lock.Free? && c in m.mem.cols
    case Rotate => m.lock.Free? && m.pendSeq.None? && exists c :: c in m.mem.cols && !m.mem.cols[c].mem.IsEmpty()
    case FlushStart => m.lock.Free? && m.maint.Idle? && m.pendSeq.Some?
    case FlushWriteSeg => m.maint.FlushWriting? && m.maint.done < |m.maint.work|
        && m.maint.work[m.maint.done].table.Valid()
    case FlushStore => m.lock.Free? && m.maint.FlushWriting? && m.maint.done == |m.maint.work|
        && WorkValid(m.maint.work)
    case FlushSwitch => m.maint.FlushStored? && m.pendSeq.Some?
    case FlushInstall => m.maint.FlushSwitched? && WorkValid(m.maint.work)
    case CompactStart(c, runLen) => m.lock.Free? && m.maint.Idle? && c in m.mem.cols
        && 2 <= runLen <= |m.mem.cols[c].segs|
    case CompactWrite => m.maint.CompactWriting?
    case CompactAbandon => m.lock.Free? && m.maint.CompactWritten? && m.maint.job.cid !in m.mem.cols
    case CompactStore => m.lock.Free? && m.maint.CompactWritten? && m.maint.job.cid in m.mem.cols
        && m.maint.job.cid in m.man.cols
                         && |m.maint.job.run| <= |m.mem.cols[m.maint.job.cid].segs|
    case CompactSwitch => m.maint.CompactStored?
    case CompactInstall => m.maint.CompactSwitched? && m.maint.job.cid in m.mem.cols
                           && |m.maint.job.run| <= |m.mem.cols[m.maint.job.cid].segs|
    case DeleteWal(q) => (m.maint.Idle? || m.maint.Cleaning?) && m.disk.current in m.disk.manifests
                         && q <= m.disk.manifests[m.disk.current].walSeq
    case DeleteManifest(g) => (m.maint.Idle? || m.maint.Cleaning?) && g != m.disk.current
    case DeleteSeg(c, sid) => (m.maint.Idle? || m.maint.Cleaning?) && m.disk.current in m.disk.manifests
        && !Referenced(m.disk, c, sid)
    case Unlock => m.maint.Cleaning?
    case Crash(j) => (if m.lock.Writer? then j <= m.lock.k <= |m.lock.batch| else j == 0) && m.walSeq in m.disk.wals
                     && CrashLoadable(m, j)
  }

  /** The frames of the interrupted call that reached the disk. */
  ghost function Survivors(m: M, j: nat): seq<WalRecord>
    requires if m.lock.Writer? then j <= |m.lock.batch| else j == 0
  {
    if m.lock.Writer? then m.lock.batch[..j] else []
  }

  ghost function CrashDisk(m: M, j: nat): Disk
    requires m.walSeq in m.disk.wals
    requires if m.lock.Writer? then j <= |m.lock.batch| else j == 0
  {
    m.disk.(wals := m.disk.wals[m.walSeq := m.disk.wals[m.walSeq] + Survivors(m, j)])
  }

  /** Reopening after the crash shows the acknowledged calls and what survived; runs go on from there only. */
  ghost predicate CrashLoadable(m: M, j: nat)
    requires m.walSeq in m.disk.wals
    requires if m.lock.Writer? then j <= |m.lock.batch| else j == 0
  {
    var d := CrashDisk(m, j);
    d.current in d.manifests && Complete(d.segs, d.manifests[d.current]) && Load(d, m.walSeq).Some?
    && Replay(m.spec, Survivors(m, j)) == Some(Abs(Load(d, m.walSeq).value))
  }

  ghost function AfterCommit(m: M): M
    requires m.lock.Writer? && ApplyAll(m.mem, m.lock.batch).Some? && Replay(m.spec, m.lock.batch).Some?
        && m.walSeq in m.disk.wals
  {
    m.(lock := Free, mem := CommitMem(m.mem, m.lock.batch), spec := Replay(m.spec, m.lock.batch).value,
       since := m.since + m.lock.batch,
       disk := m.disk.(wals := m.disk.wals[m.walSeq := m.disk.wals[m.walSeq] + m.lock.batch]))
  }

  ghost function AfterRotate(m: M): M {
    m.(mem := EmptiedCols(m.mem), walSeq := m.walSeq + 1, pendSeq := Some(m.walSeq), base := m.spec,
       disk := m.disk.(wals := m.disk.wals[m.walSeq + 1 := []]))
  }

  ghost function AfterFlushStart(m: M): M
    requires m.pendSeq.Some?
  {
    var work := WorkList(SortedIds(m.mem.pending.Keys), m.mem.pending, m.man.nextSegId);
    m.(maint := FlushWriting(m.pendSeq.value, work, 0))
  }

  ghost function AfterFlushWriteSeg(m: M): M
    requires m.maint.FlushWriting? && m.maint.done < |m.maint.work| && m.maint.work[m.maint.done].table.Valid()
  {
    var w := m.maint.work[m.maint.done];
    m.(maint := m.maint.(done := m.maint.done + 1),
       disk := m.disk.(segs := m.disk.segs[(w.cid, w.segId) := Written(w.segId, w.table)]))
  }

  ghost function AfterFlushStore(m: M): M
    requires m.maint.FlushWriting? && WorkValid(m.maint.work)
  {
    var man := FlushManifest(m.man, m.mem, m.maint.walSeq, m.maint.work);
    m.(lock := Maintenance, maint := FlushStored(man, m.maint.walSeq, m.maint.work),
       disk := m.disk.(manifests := m.disk.manifests[man.gen := man]))
  }

  ghost function AfterFlushSwitch(m: M): M
    requires m.maint.FlushStored? && m.pendSeq.Some?
  {
    m.(maint := FlushSwitched(m.maint.man, m.maint.walSeq, m.maint.work), disk := m.disk.(current := m.maint.man.gen),
       win := Win(m.base, Tail(m), m.spec), since := [])
  }

  ghost function AfterFlushInstall(m: M): M
    requires m.maint.FlushSwitched? && WorkValid(m.maint.work)
  {
    m.(maint := Cleaning, man := m.maint.man, mem := InstallFlush(m.mem, m.maint.work), pendSeq := None)
  }

  ghost function AfterCompactStart(m: M, c: Cid, runLen: nat): M
    requires c in m.mem.cols && runLen <= |m.mem.cols[c].segs|
  {
    var segs := m.mem.cols[c].segs;
    m.(maint := CompactWriting(Job(c, segs[..runLen], runLen < |segs|, m.man.nextSegId)))
  }

  ghost function AfterCompactWrite(m: M): M
    requires m.maint.CompactWriting?
  {
    var job := m.maint.job;
    var merged := Merge(Tbls(job.run), job.older);
    m.(maint := CompactWritten(job),
       disk := if merged.IsEmpty() then m.disk else
                 m.disk.(segs := m.disk.segs[(job.cid, job.segId) := Written(job.segId, merged)]))
  }

  ghost function AfterCompactStore(m: M): M
    requires m.maint.CompactWritten? && m.maint.job.cid in m.mem.cols && m.maint.job.cid in m.man.cols
    requires |m.maint.job.run| <= |m.mem.cols[m.maint.job.cid].segs|
  {
    var man := CompactManifest(m.man, m.mem, m.maint.job);
    m.(lock := Maintenance, maint := CompactStored(man, m.maint.job),
       disk := m.disk.(manifests := m.disk.manifests[man.gen := man]))
  }

  ghost function AfterCompactSwitch(m: M): M
    requires m.maint.CompactStored?
  {
    m.(maint := CompactSwitched(m.maint.man, m.maint.job), disk := m.disk.(current := m.maint.man.gen))
  }

  ghost function AfterCompactInstall(m: M): M
    requires m.maint.CompactSwitched? && m.maint.job.cid in m.mem.cols
    requires |m.maint.job.run| <= |m.mem.cols[m.maint.job.cid].segs|
  {
    m.(maint := Cleaning, man := m.maint.man, mem := InstallCompact(m.mem, m.maint.job))
  }

  /** A crash keeps the fsynced log and a frame prefix of the interrupted call; `load_state` rebuilds the rest. */
  ghost function AfterCrash(m: M, j: nat): M
    requires if m.lock.Writer? then j <= |m.lock.batch| else j == 0
    requires m.walSeq in m.disk.wals && CrashLoadable(m, j)
  {
    var d := CrashDisk(m, j);
    M(d.(wals := d.wals[m.walSeq + 1 := []]), Load(d, m.walSeq).value, d.manifests[d.current], m.walSeq + 1, None,
      Free, Idle, Replay(m.spec, Survivors(m, j)).value, m.base, m.win, m.since + Survivors(m, j))
  }

  ghost function Do(m: M, a: Action): M
    requires Enabled(m, a)
  {
    match a
    case Begin(batch) => m.(lock := Writer(batch, 0))
    case AppendFrame => m.(lock := Writer(m.lock.batch, m.lock.k + 1))
    case Commit => AfterCommit(m)
    case Reserve(c, ext) => m.(mem := m.mem.(cols := m.mem.cols[c := ReserveExt(m.mem.cols[c], ext)]))
    case Rotate => AfterRotate(m)
    case FlushStart => AfterFlushStart(m)
    case FlushWriteSeg => AfterFlushWriteSeg(m)
    case FlushStore => AfterFlushStore(m)
    case FlushSwitch => AfterFlushSwitch(m)
    case FlushInstall => AfterFlushInstall(m)
    case CompactStart(c, runLen) => AfterCompactStart(m, c, runLen)
    case CompactWrite => AfterCompactWrite(m)
    case CompactAbandon => m.(maint := Idle)
    case CompactStore => AfterCompactStore(m)
    case CompactSwitch => AfterCompactSwitch(m)
    case CompactInstall => AfterCompactInstall(m)
    case DeleteWal(q) => m.(disk := m.disk.(wals := m.disk.wals - {q}))
    case DeleteManifest(g) => m.(disk := m.disk.(manifests := m.disk.manifests - {g}))
    case DeleteSeg(c, sid) => m.(disk := m.disk.(segs := m.disk.segs - {(c, sid)}))
    case Unlock => m.(maint := Idle, lock := Free)
    case Crash(j) => AfterCrash(m, j)
  }
}
