/**
 * The store's operations as they are written: early-return lookups, the record-by-record
 * application with its incremental caches, the public batch writes, `rotate` and recovery's scan.
 * Every method ends in the state that the state machine's value functions describe.
 */
module Stores {
  import opened Records
  import opened Memtables
  import opened Layers
  import opened Segments
  import opened Image
  import opened StoreState
  import opened Machine
  import opened MachineInv
  import opened MachineSteps

  datatype StoreError =
    | CollectionExists(name: string)
    | CollectionNotFound(name: string)
    | UnknownCollection(cid: Cid)

  datatype Outcome<+T> = Ok(value: T) | Err(error: StoreError)

  /** The id a caller gives: a number, or a string that the store maps to a number. */
  datatype RecordId = Num(n: Id) | Named(s: string)

  // ---------------------------------------------------------------------
  // Frames of a call
  // ---------------------------------------------------------------------

  function Upserts(cid: Cid, records: seq<(Id, StoredRecord)>): (log: seq<WalRecord>)
    ensures |log| == |records|
  {
    seq(|records|, i requires 0 <= i < |records| =>
      Upsert(cid, records[i].0, records[i].1.vector, records[i].1.metadata))
  }

  function Deletes(cid: Cid, ids: seq<Id>): (log: seq<WalRecord>)
    ensures |log| == |ids|
  {
    seq(|ids|, i requires 0 <= i < |ids| => WalRecord.Delete(cid, ids[i]))
  }

  function MetaUpdates(cid: Cid, updates: seq<(Id, Metadata)>): (log: seq<WalRecord>)
    ensures |log| == |updates|
  {
    seq(|updates|, i requires 0 <= i < |updates| => UpdateMeta(cid, updates[i].0, updates[i].1))
  }

  /** The updates whose target is live; the others are not logged. */
  ghost function Targets(m: Mem, cid: Cid, updates: seq<(Id, Metadata)>): seq<(Id, Metadata)>
    requires cid in m.cols
  {
    if updates == [] then []
    else
      var front, last := updates[..|updates| - 1], updates[|updates| - 1];
      Targets(m, cid, front) + if last.0 in Live(m, cid) then [last] else []
  }

  lemma ApplySnoc(m: Mem, log: seq<WalRecord>, r: WalRecord)
    requires ApplyAll(m, log).Some?
    ensures ApplyAll(m, log + [r]) == Apply(ApplyAll(m, log).value, r)
  {
    ApplyAllAppend(m, log, [r]);
    ApplySingle(ApplyAll(m, log).value, r);
  }

  lemma ApplyPrefix(m: Mem, log: seq<WalRecord>, i: nat)
    requires i < |log| && ApplyAll(m, log[..i]).Some?
    ensures ApplyAll(m, log[..i + 1]) == Apply(ApplyAll(m, log[..i]).value, log[i])
  {
    ApplySnoc(m, log[..i], log[i]);
    assert log[..i + 1] == log[..i] + [log[i]];
  }

  /** Data records of one collection are never rejected and keep every collection, name and segment. */
  lemma DataApplies(m: Mem, r: WalRecord)
    requires IsData(r) && r.cid in m.cols
    ensures Apply(m, r).Some?
    ensures var m' := Apply(m, r).value;
            m'.cols.Keys == m.cols.Keys && forall c :: c in m.cols ==> m'.cols[c].segs == m.cols[c].segs
  {
  }

  function Emptied(col: Coll): Coll {
    col.(mem := EMPTY_TABLE)
  }

  /** The memtables of all collections but `left` have been moved out. */
  ghost predicate Taken(start: map<Cid, Coll>, now: map<Cid, Coll>, memtables: map<Cid, Table>, left: set<Cid>) {
    && left <= start.Keys && now.Keys == start.Keys
    && (forall c :: c in now ==> now[c] == if c in left then start[c] else Emptied(start[c]))
    && (forall c :: c in memtables <==> c in start && c !in left && !start[c].mem.IsEmpty())
    && (forall c :: c in memtables ==> memtables[c] == start[c].mem)
  }

  lemma TakenNext(start: map<Cid, Coll>, now: map<Cid, Coll>, memtables: map<Cid, Table>, left: set<Cid>, c: Cid)
    requires Taken(start, now, memtables, left) && c in left
    ensures c in now && c in start && now[c] == start[c]
    ensures if now[c].mem.IsEmpty() then Taken(start, now, memtables, left - {c})
            else Taken(start, now[c := Emptied(now[c])], memtables[c := now[c].mem], left - {c})
  {
    hide Emptied, Table.IsEmpty;
    EmptyIsEmptied(now[c]);
  }

  lemma EmptyIsEmptied(col: Coll)
    ensures col.mem.IsEmpty() ==> Emptied(col) == col
  {
    if col.mem.IsEmpty() {
      assert col.mem == EMPTY_TABLE;
    }
  }

  lemma TakenAll(m: Mem, now: map<Cid, Coll>, memtables: map<Cid, Table>)
    requires Taken(m.cols, now, memtables, {})
    ensures now == EmptiedCols(m).cols && memtables == EmptiedCols(m).pending
  {
    hide Table.IsEmpty;
    assert memtables.Keys == EmptiedCols(m).pending.Keys;
  }

  /** A collection just created: reachable under its name, with the dimension and metric asked for, and empty. */
  ghost predicate IsNew(m: Mem, c: Cid, name: string, dim: nat, metric: Metric) {
    && c in m.cols && m.cols[c].name == name && m.cols[c].dim == dim && m.cols[c].metric == metric
    && name in m.names && m.names[name] == c && (c !in m.pending ==> Live(m, c) == map[])
  }

  lemma CreateMakesNew(m: Mem, c: Cid, name: string, dim: nat, metric: Metric)
    ensures IsNew(Apply(m, WalRecord.CreateCollection(c, name, dim, metric)).value, c, name, dim, metric)
  {
    var m' := Apply(m, WalRecord.CreateCollection(c, name, dim, metric)).value;
    if c !in m.pending {
      NewCollOk(m', c);
    }
  }

  class Store {
    var collections: map<Cid, Coll>
    var names: map<string, Cid>
    var pending: map<Cid, Table>
    var pendingSeq: Option<nat>
    var nextCid: Cid
    var walSeq: nat
    /** Frames of the active WAL file. */
    var wal: seq<WalRecord>

    ghost function State(): Mem
      reads this
    {
      Mem(collections, names, pending, nextCid)
    }

    /** Segments are as their writer left them; nothing else is needed to run the operations. */
    ghost predicate Valid()
      reads this
    {
      forall c :: c in collections ==> AllValid(collections[c].segs)
    }

    /** `current_record`: active memtable, waiting memtable, then segments newest first. */
    method CurrentRecord(cid: Cid, id: Id) returns (r: Option<StoredRecord>)
      requires Valid()
      ensures r == if cid in collections then Lookup(Sources(State(), cid), id) else None
    {
      if cid !in collections {
        return None;
      }
      var col := collections[cid];
      assert Sources(State(), cid)[1..] == Older(State(), cid);
      if id in col.mem.deletes {
        return None;
      }
      if id in col.mem.rows {
        return Some(col.mem.rows[id]);
      }
      if cid in pending {
        assert Older(State(), cid)[1..] == Tbls(col.segs);
        if id in pending[cid].deletes {
          return None;
        }
        if id in pending[cid].rows {
          return Some(pending[cid].rows[id]);
        }
      } else {
        assert Older(State(), cid) == Tbls(col.segs);
      }
      r := InSegments(col.segs, id);
    }

    static method InSegments(segs: seq<Segment>, id: Id) returns (r: Option<StoredRecord>)
      requires AllValid(segs)
      ensures r == Lookup(Tbls(segs), id)
    {
      for i := 0 to |segs|
        invariant Lookup(Tbls(segs), id) == Lookup(Tbls(segs)[i..], id)
      {
        var decided, rec := Probe(segs[i], id);
        assert Tbls(segs)[i..] == [segs[i].Tbl()] + Tbls(segs)[i + 1..];
        LookupAppend([segs[i].Tbl()], Tbls(segs)[i + 1..], id);
        SilentCons(segs[i].Tbl(), [], id);
        assert [segs[i].Tbl()] + [] == [segs[i].Tbl()];
        if decided {
          return rec;
        }
      }
      return None;
    }

    /** `is_id_live` */
    method IsIdLive(cid: Cid, id: Id) returns (live: bool)
      requires Valid() && cid in collections
      ensures live <==> id in Live(State(), cid)
    {
      var r := CurrentRecord(cid, id);
      return r.Some?;
    }

    /** The shared tail of the data branches: count, dictionary, memtable. */
    method Put(cid: Cid, wasLive: bool, id: Id, rec: StoredRecord)
      requires cid in collections
      modifies this`collections
      ensures collections == old(collections)[cid := PutRow(old(collections)[cid], wasLive, id, rec)]
      ensures old(CollOk(State(), cid) && ExtOk(Live(State(), cid)[id := rec])
          && (wasLive <==> id in Live(State(), cid))) ==>
                Live(State(), cid) == old(Live(State(), cid))[id := rec] && CollOk(State(), cid)
    {
      ghost var before := State();
      var col := collections[cid];
      if !wasLive {
        col := col.(liveLen := col.liveLen + 1);
      }
      col := TrackExt(col, id, rec.metadata);
      col := col.(mem := col.mem.Upsert(id, rec));
      collections := collections[cid := col];
      PutShown(before, cid, wasLive, id, rec, State());
    }

    /** A whole row replaces the record of its id, live or not. */
    method PutRecord(cid: Cid, id: Id, rec: StoredRecord)
      requires Valid() && cid in collections
      modifies this`collections
      ensures Valid() && cid in collections
      ensures Apply(old(State()), Upsert(cid, id, rec.vector, rec.metadata)) == Some(State())
    {
      hide Lookup, Sources, Contents, CollOk, ExtOk;
      var wasLive := IsIdLive(cid, id);
      Put(cid, wasLive, id, rec);
    }

    /** `apply_record`: false means the record was rejected as corrupted. */
    method ApplyRecord(r: WalRecord) returns (ok: bool)
      requires Valid()
      modifies this`collections, this`names, this`nextCid
      ensures ok <==> Apply(old(State()), r).Some?
      ensures State() == if ok then Apply(old(State()), r).value else old(State())
      ensures Valid()
    {
      hide Lookup, Sources, Contents, CollOk, ExtOk, Table.Delete, Table.Upsert, Segment.Valid;
      match r
      case CreateCollection(c, name, dim, metric) =>
        names := names[name := c];
        collections := collections[c := NewColl(name, dim, metric)];
        nextCid := if nextCid >= c + 1 then nextCid else c + 1;
        return true;
      case DropCollection(c) =>
        if c in collections {
          var name := collections[c].name;
          collections := collections - {c};
          names := names - {name};
        }
        return true;
      case RenameCollection(c, n) =>
        if c !in collections {
          return false;
        }
        var oldName := collections[c].name;
        collections := collections[c := collections[c].(name := n)];
        names := names - {oldName};
        names := names[n := c];
        return true;
      case SwapCollectionNames(a, b) =>
        if a !in collections || b !in collections {
          return false;
        }
        var nameA, nameB := collections[a].name, collections[b].name;
        collections := collections[a := collections[a].(name := nameB)];
        collections := collections[b := collections[b].(name := nameA)];
        names := names[nameB := a];
        names := names[nameA := b];
        return true;
      case UpdateMeta(c, id, meta) =>
        if c !in collections {
          return false;
        }
        var current := CurrentRecord(c, id);
        if current.None? {
          assert collections[c := collections[c]] == collections;
          return true;
        }
        Put(c, true, id, StoredRecord(current.value.vector, meta));
        return true;
      case Upsert(c, id, vec, meta) =>
        if c !in collections {
          return false;
        }
        PutRecord(c, id, StoredRecord(vec, meta));
        return true;
      case Delete(c, id) =>
        if c !in collections {
          return false;
        }
        var wasLive := IsIdLive(c, id);
        var col := collections[c];
        if wasLive {
          col := col.(liveLen := col.liveLen - 1);
        }
        collections := collections[c := col.(mem := col.mem.Delete(id))];
        return true;
    }

    // -------------------------------------------------------------------
    // Public writes: all frames are appended first, then applied
    // -------------------------------------------------------------------

    /** The append loop shared by the batch calls; one `sync` follows it. */
    method AppendFrames(frames: seq<WalRecord>)
      modifies this`wal
      ensures wal == old(wal) + frames
    {
      for i := 0 to |frames|
        invariant wal == old(wal) + frames[..i]
      {
        wal := wal + [frames[i]];
      }
    }

    /** `upsert_batch` */
    method UpsertBatch(cid: Cid, records: seq<(Id, StoredRecord)>) returns (result: Outcome<()>)
      requires Valid()
      modifies this`collections, this`wal
      ensures Valid()
      ensures cid !in old(collections)
           ==> result == Err(UnknownCollection(cid)) && State() == old(State()) && wal == old(wal)
      ensures cid in old(collections) ==>
                result.Ok? && wal == old(wal) + Upserts(cid, records)
                    && ApplyAll(old(State()), Upserts(cid, records)) == Some(State())
    {
      if cid !in collections {
        return Err(UnknownCollection(cid));
      }
      hide Apply, Live;
      var log := Upserts(cid, records);
      AppendFrames(log);
      for i := 0 to |records|
        invariant Valid() && cid in collections && wal == old(wal) + log
        invariant ApplyAll(old(State()), log[..i]) == Some(State())
      {
        hide ApplyAll;
        ApplyPrefix(old(State()), log, i);
        PutRecord(cid, records[i].0, records[i].1);
      }
      assert log[..|records|] == log;
      return Ok(());
    }

    /** One step of a deletion: whether the record was live, and the record applied. */
    method DeleteOne(cid: Cid, id: Id) returns (live: bool)
      requires Valid() && MemOk(State()) && cid in collections
      modifies this`collections, this`names, this`nextCid
      ensures Valid() && MemOk(State()) && cid in collections
      ensures Apply(old(State()), WalRecord.Delete(cid, id)) == Some(State())
      ensures |Live(State(), cid)| == |old(Live(State(), cid))| - if live then 1 else 0
    {
      hide MemOk, Apply, Contents, Sources;
      ghost var before := State();
      DataApplies(before, WalRecord.Delete(cid, id));
      live := IsIdLive(cid, id);
      var ok := ApplyRecord(WalRecord.Delete(cid, id));
      DeleteCounts(before, WalRecord.Delete(cid, id), State());
    }

    /** `delete_batch`: the count is the number of records the call removed. */
    method DeleteBatch(cid: Cid, ids: seq<Id>) returns (result: Outcome<nat>)
      requires Valid() && MemOk(State())
      modifies this`collections, this`names, this`nextCid, this`wal
      ensures Valid()
      ensures ids == [] ==> result == Ok(0) && State() == old(State()) && wal == old(wal)
      ensures ids != [] && cid !in old(collections)
           ==> result == Err(UnknownCollection(cid)) && State() == old(State()) && wal == old(wal)
      ensures cid in old(collections) ==>
                && wal == old(wal) + Deletes(cid, ids) && ApplyAll(old(State()), Deletes(cid, ids)) == Some(State())
                && cid in collections && result.Ok? && result.value == |old(Live(State(), cid))| - |Live(State(), cid)|
    {
      if ids == [] {
        return Ok(0);
      }
      if cid !in collections {
        return Err(UnknownCollection(cid));
      }
      hide MemOk, Apply, Contents, Sources;
      var log := Deletes(cid, ids);
      var deleted: nat := 0;
      AppendFrames(log);
      for i := 0 to |ids|
        invariant Valid() && cid in collections && MemOk(State()) && wal == old(wal) + log
        invariant ApplyAll(old(State()), log[..i]) == Some(State())
        invariant deleted == |old(Live(State(), cid))| - |Live(State(), cid)|
      {
        hide ApplyAll, Live, IsData;
        ApplyPrefix(old(State()), log, i);
        var live := DeleteOne(cid, ids[i]);
        if live {
          deleted := deleted + 1;
        }
      }
      assert log[..|ids|] == log;
      return Ok(deleted);
    }

    method LiveTargets(cid: Cid, updates: seq<(Id, Metadata)>) returns (targets: seq<(Id, Metadata)>)
      requires Valid() && cid in collections
      ensures targets == Targets(State(), cid, updates)
    {
      targets := [];
      for i := 0 to |updates|
        invariant targets == Targets(State(), cid, updates[..i])
      {
        var current := CurrentRecord(cid, updates[i].0);
        assert updates[..i + 1][..i] == updates[..i];
        if current.Some? {
          targets := targets + [updates[i]];
        }
      }
      assert updates[..|updates|] == updates;
    }

    /** `update_metadata_batch`: only updates of live records are logged, applied and counted. */
    method UpdateMetadataBatch(cid: Cid, updates: seq<(Id, Metadata)>) returns (result: Outcome<nat>)
      requires Valid()
      modifies this`collections, this`names, this`nextCid, this`wal
      ensures Valid()
      ensures updates == [] ==> result == Ok(0) && State() == old(State()) && wal == old(wal)
      ensures updates != [] && cid !in old(collections)
           ==> result == Err(UnknownCollection(cid)) && State() == old(State()) && wal == old(wal)
      ensures cid in old(collections) ==>
                var targets := Targets(old(State()), cid, updates);
                && wal == old(wal) + MetaUpdates(cid, targets)
                && ApplyAll(old(State()), MetaUpdates(cid, targets)) == Some(State()) && result == Ok(|targets|)
    {
      if updates == [] {
        return Ok(0);
      }
      if cid !in collections {
        return Err(UnknownCollection(cid));
      }
      hide Apply, Live;
      var targets := LiveTargets(cid, updates);
      if targets == [] {
        return Ok(0);
      }
      var log := MetaUpdates(cid, targets);
      AppendFrames(log);
      for i := 0 to |targets|
        invariant Valid() && cid in collections && wal == old(wal) + log
        invariant ApplyAll(old(State()), log[..i]) == Some(State())
      {
        hide ApplyAll, Targets;
        DataApplies(State(), log[i]);
        ApplyPrefix(old(State()), log, i);
        var ok := ApplyRecord(log[i]);
      }
      assert log[..|targets|] == log;
      return Ok(|targets|);
    }

    /** `log_and_apply` for the four directory operations. */
    method LogAndApply(r: WalRecord)
      requires Valid() && Apply(State(), r).Some?
      modifies this`collections, this`names, this`nextCid, this`wal
      ensures Valid() && wal == old(wal) + [r] && Some(State()) == Apply(old(State()), r)
    {
      wal := wal + [r];
      var ok := ApplyRecord(r);
    }

    /** What a directory operation leaves behind: the record it logged has taken effect, or nothing changed. */
    twostate predicate Logged(r: Option<WalRecord>)
      reads this
    {
      match r
      case None => State() == old(State()) && wal == old(wal)
      case Some(rec) =>
        && wal == old(wal) + [rec] && ApplyAll(old(State()), [rec]).Some? && State() == CommitMem(old(State()), [rec])
    }

    /** `create_collection`: what is new is empty and as asked for, and all else is untouched. */
    method CreateCollection(name: string, dim: nat, metric: Metric) returns (result: Outcome<Cid>)
      requires Valid()
      modifies this
      ensures Valid()
      ensures name in old(names) ==> result == Err(CollectionExists(name)) && Logged(None)
      ensures name !in old(names) ==>
                result == Ok(old(nextCid)) && Logged(Some(WalRecord.CreateCollection(old(nextCid), name, dim, metric)))
      ensures name !in old(names) ==>
                && IsNew(State(), old(nextCid), name, dim, metric) && nextCid > old(nextCid)
                && forall c :: c in old(collections) && c != old(nextCid) ==>
                     c in collections && collections[c] == old(collections)[c]
    {
      if name in names {
        return Err(CollectionExists(name));
      }
      var cid := nextCid;
      LogAndApply(WalRecord.CreateCollection(cid, name, dim, metric));
      ApplySingle(old(State()), WalRecord.CreateCollection(cid, name, dim, metric));
      CreateMakesNew(old(State()), cid, name, dim, metric);
      return Ok(cid);
    }

    method DropCollection(name: string) returns (result: Outcome<()>)
      requires Valid()
      modifies this
      ensures Valid()
      ensures name !in old(names) ==> result == Err(CollectionNotFound(name)) && Logged(None)
      ensures name in old(names) ==> result == Ok(()) && Logged(Some(WalRecord.DropCollection(old(names)[name])))
      ensures name in old(names) ==>
                collections == old(collections) - {old(names)[name]} && pending == old(pending) - {old(names)[name]}
    {
      if name !in names {
        return Err(CollectionNotFound(name));
      }
      var cid := names[name];
      LogAndApply(WalRecord.DropCollection(cid));
      pending := pending - {cid};
      ApplySingle(old(State()), WalRecord.DropCollection(cid));
      return Ok(());
    }

    method RenameCollection(from: string, to: string) returns (result: Outcome<()>)
      requires Valid() && forall n :: n in names ==> names[n] in collections
      modifies this
      ensures Valid()
      ensures from !in old(names) ==> result == Err(CollectionNotFound(from)) && Logged(None)
      ensures from in old(names) && from == to ==> result == Ok(()) && Logged(None)
      ensures from in old(names) && from != to && to in old(names)
          ==> result == Err(CollectionExists(to)) && Logged(None)
      ensures from in old(names) && to !in old(names) ==>
                result == Ok(()) && Logged(Some(WalRecord.RenameCollection(old(names)[from], to)))
      ensures from in old(names) && to !in old(names) ==>
                var cid := old(names)[from];
                && to in names && names[to] == cid && pending == old(pending)
                && collections == old(collections)[cid := old(collections)[cid].(name := to)]
    {
      if from !in names {
        return Err(CollectionNotFound(from));
      }
      if from == to {
        return Ok(());
      }
      if to in names {
        return Err(CollectionExists(to));
      }
      var cid := names[from];
      LogAndApply(WalRecord.RenameCollection(cid, to));
      ApplySingle(old(State()), WalRecord.RenameCollection(cid, to));
      return Ok(());
    }

    method SwapCollectionNames(a: string, b: string) returns (result: Outcome<()>)
      requires Valid() && forall n :: n in names ==> names[n] in collections
      modifies this
      ensures Valid()
      ensures a !in old(names) ==> result == Err(CollectionNotFound(a)) && Logged(None)
      ensures a in old(names) && b !in old(names) ==> result == Err(CollectionNotFound(b)) && Logged(None)
      ensures a in old(names) && b in old(names) ==>
                && result == Ok(())
                && Logged(if old(names)[a] == old(names)[b] then None
                          else Some(WalRecord.SwapCollectionNames(old(names)[a], old(names)[b])))
      ensures a in old(names) && b in old(names) && old(names)[a] != old(names)[b] ==>
                var idA, idB := old(names)[a], old(names)[b];
                var was := old(collections);
                collections == was[idA := was[idA].(name := was[idB].name)][idB := was[idB].(name := was[idA].name)]
    {
      if a !in names {
        return Err(CollectionNotFound(a));
      }
      if b !in names {
        return Err(CollectionNotFound(b));
      }
      var idA, idB := names[a], names[b];
      if idA == idB {
        return Ok(());
      }
      LogAndApply(WalRecord.SwapCollectionNames(idA, idB));
      ApplySingle(old(State()), WalRecord.SwapCollectionNames(idA, idB));
      return Ok(());
    }

    /** `rotate`: false when a flush is already waiting or nothing is buffered. */
    method Rotate() returns (rotated: bool)
      modifies this`collections, this`pending, this`pendingSeq, this`walSeq, this`wal
      ensures rotated
           <==> old(pendingSeq).None? && exists c :: c in old(collections) && !old(collections)[c].mem.IsEmpty()
      ensures !rotated
           ==> State() == old(State()) && wal == old(wal) && walSeq == old(walSeq) && pendingSeq == old(pendingSeq)
      ensures rotated ==>
          State() == EmptiedCols(old(State())) && wal == [] && walSeq == old(walSeq) + 1 &&
          pendingSeq == Some(old(walSeq))
    {
      if pendingSeq.Some? {
        return false;
      }
      if forall c :: c in collections ==> collections[c].mem.IsEmpty() {
        return false;
      }
      var memtables := TakeMemtables();
      pendingSeq := Some(walSeq);
      pending := memtables;
      walSeq := walSeq + 1;
      wal := [];
      return true;
    }

    /** Move every non-empty memtable out of its collection, leaving an empty one. */
    method TakeMemtables() returns (memtables: map<Cid, Table>)
      modifies this`collections
      ensures collections == EmptiedCols(old(State())).cols && memtables == EmptiedCols(old(State())).pending
    {
      memtables := map[];
      var left := collections.Keys;
      while left != {}
        invariant Taken(old(collections), collections, memtables, left)
        decreases |left|
      {
        hide Taken;
        var c :| c in left;
        TakenNext(old(collections), collections, memtables, left, c);
        var col := collections[c];
        if !col.mem.IsEmpty() {
          memtables := memtables[c := col.mem];
          collections := collections[c := Emptied(col)];
        }
        left := left - {c};
      }
      TakenAll(old(State()), collections, memtables);
    }

    /** `ext_ids.entry(s).or_insert_with(..)`: the number of a string id, new if it has none. */
    method ReserveId(cid: Cid, s: string) returns (id: Id)
      requires cid in collections
      modifies this`collections
      ensures collections == old(collections)[cid := ReserveExt(old(collections)[cid], s)]
      ensures s in collections[cid].extIds && id == collections[cid].extIds[s]
      ensures s !in old(collections)[cid].extIds ==> id == old(collections)[cid].nextExtId
    {
      var col := collections[cid];
      if s !in col.extIds {
        col := col.(extIds := col.extIds[s := col.nextExtId], nextExtId := col.nextExtId + 1);
      }
      collections := collections[cid := col];
      id := col.extIds[s];
    }

    /**
     * The string-id half of `upsert_batch_records`: every string is looked up or numbered, and
     * written into the record's metadata; the resulting rows are ones `UpsertBatch` may take.
     */
    method ResolveRecords(cid: Cid, records: seq<(RecordId, StoredRecord)>) returns (resolved: seq<(Id, StoredRecord)>)
      requires Valid() && cid in collections && MemOk(State())
      requires forall i :: 0 <= i < |records| && records[i].0.Num? ==>
                 records[i].0.n < EXT_ID_BASE && ExtOf(records[i].1.metadata).None?
      modifies this`collections
      ensures Valid() && cid in collections && MemOk(State()) && Abs(State()) == old(Abs(State()))
      ensures |resolved| == |records|
      ensures forall i :: 0 <= i < |records| ==>
                && resolved[i].1.vector == records[i].1.vector
                && match records[i].0
                   case Num(n) => resolved[i] == (n, records[i].1)
                   case Named(s) => resolved[i].1.metadata == records[i].1.metadata[EXT_ID_META_KEY := Str(s)]
                                    && s in collections[cid].extIds && collections[cid].extIds[s] == resolved[i].0
      ensures Call(State(), Upserts(cid, resolved))
    {
      hide MemOk, Abs, Call, ReserveExt;
      resolved := [];
      for i := 0 to |records|
        invariant Valid() && cid in collections && MemOk(State()) && Abs(State()) == old(Abs(State()))
        invariant |resolved| == i
        invariant forall k :: 0 <= k < i ==> ResolvedFrom(records[k], resolved[k], collections[cid])
      {
        match records[i].0
        case Num(n) =>
          resolved := resolved + [(n, records[i].1)];
        case Named(s) =>
          ghost var before := State();
          var id := ReserveId(cid, s);
          ReserveAll(before, State(), cid, s);
          ReserveKeeps(before.cols[cid], s);
          var metadata := records[i].1.metadata[EXT_ID_META_KEY := Str(s)];
          resolved := resolved + [(id, StoredRecord(records[i].1.vector, metadata))];
      }
      ResolvedCall(State(), cid, records, resolved);
    }
  }

  /** What callers see of one stored row, when the flag says whether the id was live. */
  lemma PutShown(m: Mem, cid: Cid, wasLive: bool, id: Id, rec: StoredRecord, m': Mem)
    requires cid in m.cols && m' == m.(cols := m.cols[cid := PutRow(m.cols[cid], wasLive, id, rec)])
    ensures CollOk(m, cid) && ExtOk(Live(m, cid)[id := rec]) && (wasLive <==> id in Live(m, cid)) ==>
              Live(m', cid) == Live(m, cid)[id := rec] && CollOk(m', cid)
  {
    hide CollOk, ExtOk, Live, PutRow;
    if CollOk(m, cid) && ExtOk(Live(m, cid)[id := rec]) && (wasLive <==> id in Live(m, cid)) {
      PutRowOk(m, cid, id, rec, m');
    }
  }

  ghost predicate ResolvedFrom(given: (RecordId, StoredRecord), got: (Id, StoredRecord), col: Coll) {
    && got.1.vector == given.1.vector
    && match given.0
       case Num(n) => got == (n, given.1)
       case Named(s) =>
            got.1.metadata == given.1.metadata[EXT_ID_META_KEY := Str(s)] && s in col.extIds && col.extIds[s] == got.0
  }

  lemma ReserveKeeps(col: Coll, s: string)
    ensures var col' := ReserveExt(col, s);
            col'.segs == col.segs && s in col'.extIds &&
                 forall t :: t in col.extIds ==> t in col'.extIds && col'.extIds[t] == col.extIds[t]
  {
  }

  /** Resolved rows are what the store's callers may log. */
  lemma ResolvedCall(m: Mem, cid: Cid, records: seq<(RecordId, StoredRecord)>, resolved: seq<(Id, StoredRecord)>)
    requires MemOk(m) && cid in m.cols && |resolved| == |records|
    requires forall i :: 0 <= i < |records| && records[i].0.Num? ==>
               records[i].0.n < EXT_ID_BASE && ExtOf(records[i].1.metadata).None?
    requires forall i :: 0 <= i < |records| ==> ResolvedFrom(records[i], resolved[i], m.cols[cid])
    ensures Call(m, Upserts(cid, resolved))
  {
    var log := Upserts(cid, resolved);
    assert CollOk(m, cid);
    forall i | 0 <= i < |log| ensures IsData(log[i]) && log[i].cid == cid && CallerOk(m.cols[cid], log[i]) {
      assert ResolvedFrom(records[i], resolved[i], m.cols[cid]);
    }
  }

  lemma DeleteCounts(m: Mem, r: WalRecord, m': Mem)
    requires r.Delete? && r.cid in m.cols && MemOk(m) && Apply(m, r) == Some(m')
    ensures MemOk(m') && r.cid in m'.cols
    ensures |Live(m', r.cid)| == |Live(m, r.cid)| - if r.id in Live(m, r.cid) then 1 else 0
  {
    hide Live, CollOk, ApplyData;
    assert CollOk(m, r.cid);
    DeleteRowOk(m, r, m');
    CardRemove(Live(m, r.cid), r.id);
    forall c | c in m'.cols && c != r.cid ensures CollOk(m', c) {
      CollElsewhere(m, m', c);
    }
  }

  lemma CollElsewhere(m: Mem, m': Mem, c: Cid)
    requires c in m.cols && c in m'.cols && m'.cols[c] == m.cols[c] && m'.pending == m.pending && CollOk(m, c)
    ensures CollOk(m', c)
  {
    hide CacheOk, Live, Sources, AllValid;
    SourcesFrame(m, m', c);
  }
}
