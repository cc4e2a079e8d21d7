/**
 * The in-memory state of the store as a value, the application of one WAL record to it
 * (`apply_record`), and the proof that this does to the callers' picture what `Image.Step` says,
 * while the two caches (live count, string-id dictionary) keep agreeing with the data.
 */
module StoreState {
  import opened Records
  import opened Memtables
  import opened Layers
  import opened Segments
  import opened Image

  /** One collection; `segs` is newest first. */
  datatype Coll = Coll(name: string, dim: nat, metric: Metric, mem: Table, segs: seq<Segment>,
                       liveLen: int, extIds: map<string, Id>, nextExtId: Id)

  /** The state guarded by the store's mutex; `pending` is empty when no flush is waiting. */
  datatype Mem = Mem(cols: map<Cid, Coll>, names: map<string, Cid>, pending: map<Cid, Table>, nextCid: Cid)

  function NewColl(name: string, dim: nat, metric: Metric): Coll {
    Coll(name, dim, metric, EMPTY_TABLE, [], 0, map[], EXT_ID_BASE)
  }

  /** The tables older than the active memtable. */
  ghost function Older(m: Mem, c: Cid): seq<Table>
    requires c in m.cols
  {
    (if c in m.pending then [m.pending[c]] else []) + Tbls(m.cols[c].segs)
  }

  /** Active memtable, then the memtable waiting for a flush, then the segments newest first. */
  ghost function Sources(m: Mem, c: Cid): seq<Table>
    requires c in m.cols
  {
    [m.cols[c].mem] + Older(m, c)
  }

  ghost function Live(m: Mem, c: Cid): map<Id, StoredRecord>
    requires c in m.cols
  {
    Contents(Sources(m, c))
  }

  /** The callers' picture of the state. */
  ghost function Abs(m: Mem): Img {
    Img(map c | c in m.cols :: ColOf(m, c), m.names, m.nextCid)
  }

  /** The caches of one collection agree with its live records. */
  ghost predicate CacheOk(col: Coll, live: map<Id, StoredRecord>) {
    && col.liveLen == |live|
    && col.nextExtId >= EXT_ID_BASE
    && (forall s :: s in col.extIds ==> EXT_ID_BASE <= col.extIds[s] < col.nextExtId)
    && (forall id :: id in live && ExtOf(live[id].metadata).Some? ==>
          ExtOf(live[id].metadata).value in col.extIds && col.extIds[ExtOf(live[id].metadata).value] == id)
  }

  lemma SameCache(a: Coll, b: Coll, live: map<Id, StoredRecord>)
    requires CacheOk(a, live) && b.liveLen == a.liveLen && b.extIds == a.extIds && b.nextExtId == a.nextExtId
    ensures CacheOk(b, live)
  {
  }

  ghost predicate CollOk(m: Mem, c: Cid)
    requires c in m.cols
  {
    m.cols[c].mem.Valid() && AllValid(m.cols[c].segs) && CacheOk(m.cols[c], Live(m, c))
  }

  ghost predicate MemOk(m: Mem) {
    && (forall c :: c in m.cols ==> CollOk(m, c))
    && (forall c :: c in m.pending ==> m.pending[c].Valid())
  }

  /**
   * A string id that is not in the dictionary gets `nextExtId`: that id holds no live record.
   */
  lemma FreshExtIdIsFree(col: Coll, live: map<Id, StoredRecord>)
    requires CacheOk(col, live) && ExtOk(live)
    ensures col.nextExtId !in live
    ensures forall s :: s in col.extIds ==> col.extIds[s] != col.nextExtId
  {
  }

  // ---------------------------------------------------------------------
  // apply_record
  // ---------------------------------------------------------------------

  /** `track_ext_id` */
  function TrackExt(col: Coll, id: Id, meta: Metadata): Coll {
    match ExtOf(meta)
    case None => col
    case Some(s) => col.(extIds := col.extIds[s := id], nextExtId := Max(col.nextExtId, id + 1))
  }

  /** A string id maps to its record from then on, and the next assigned id is the least that skips no id tracked. */
  lemma TrackedExt(col: Coll, id: Id, metadata: Metadata)
    ensures var r := TrackExt(col, id, metadata);
            && r == col.(extIds := r.extIds, nextExtId := r.nextExtId)
            && (ExtOf(metadata).None? ==> r == col)
            && (ExtOf(metadata).Some? ==>
                  && r.extIds == col.extIds[ExtOf(metadata).value := id] && r.nextExtId > id
                  && r.nextExtId >= col.nextExtId && (r.nextExtId == col.nextExtId || r.nextExtId == id + 1))
  {
  }

  /** The shared part of the three data records: the live count follows liveness before and after. */
  ghost function PutRow(col: Coll, wasLive: bool, id: Id, rec: StoredRecord): Coll {
    var col1 := TrackExt(if wasLive then col else col.(liveLen := col.liveLen + 1), id, rec.metadata);
    col1.(mem := col1.mem.Upsert(id, rec))
  }

  ghost function ApplyData(m: Mem, r: WalRecord): Coll
    requires IsData(r) && r.cid in m.cols
  {
    var col := m.cols[r.cid];
    var current := Lookup(Sources(m, r.cid), r.id);
    match r
    case UpdateMeta(_, id, meta) =>
      if current.None? then col else PutRow(col, true, id, StoredRecord(current.value.vector, meta))
    case Upsert(_, id, vec, meta) => PutRow(col, current.Some?, id, StoredRecord(vec, meta))
    case Delete(_, id) =>
      (if current.Some? then col.(liveLen := col.liveLen - 1) else col).(mem := col.mem.Delete(id))
  }

  ghost function Apply(m: Mem, r: WalRecord): Option<Mem> {
    match r
    case CreateCollection(c, name, dim, metric) =>
      Some(m.(names := m.names[name := c], cols := m.cols[c := NewColl(name, dim, metric)],
          nextCid := Max(m.nextCid, c + 1)))
    case DropCollection(c) =>
      if c in m.cols then Some(m.(cols := m.cols - {c}, names := m.names - {m.cols[c].name})) else Some(m)
    case RenameCollection(c, n) =>
      if c !in m.cols then None else
        Some(m.(cols := m.cols[c := m.cols[c].(name := n)], names := (m.names - {m.cols[c].name})[n := c]))
    case SwapCollectionNames(a, b) =>
      if a !in m.cols || b !in m.cols then None else
        var na, nb := m.cols[a].name, m.cols[b].name;
        var cols := m.cols[a := m.cols[a].(name := nb)];
        Some(m.(cols := cols[b := cols[b].(name := na)], names := m.names[nb := a][na := b]))
    case _ =>
      if r.cid !in m.cols then None else Some(m.(cols := m.cols[r.cid := ApplyData(m, r)]))
  }

  ghost function ApplyAll(m: Mem, log: seq<WalRecord>): Option<Mem>
    decreases |log|
  {
    if log == [] then Some(m)
    else match Apply(m, log[0])
      case None => None
      case Some(m') => ApplyAll(m', log[1..])
  }

  lemma {:induction false} ApplyAllAppend(m: Mem, a: seq<WalRecord>, b: seq<WalRecord>)
    ensures ApplyAll(m, a + b) == match ApplyAll(m, a) case None => None case Some(m') => ApplyAll(m', b)
    decreases |a|
  {
    if a == [] {
      assert a + b == b;
    } else {
      assert (a + b)[1..] == a[1..] + b;
      match Apply(m, a[0])
      case None =>
      case Some(m') => ApplyAllAppend(m', a[1..], b);
    }
  }

  lemma HeadUpsert(t: Table, rest: seq<Table>, id: Id, rec: StoredRecord)
    requires t.Valid()
    ensures Contents([t.Upsert(id, rec)] + rest) == Contents([t] + rest)[id := rec]
  {
    var a, b := Contents([t] + rest), Contents([t.Upsert(id, rec)] + rest);
    forall x ensures Lookup([t.Upsert(id, rec)] + rest, x) == if x == id then Some(rec) else Lookup([t] + rest, x) {
      assert ([t.Upsert(id, rec)] + rest)[1..] == rest == ([t] + rest)[1..];
    }
    assert b.Keys == a.Keys + {id};
    assert b == a[id := rec];
  }

  lemma HeadDelete(t: Table, rest: seq<Table>, id: Id)
    requires t.Valid()
    ensures Contents([t.Delete(id)] + rest) == Contents([t] + rest) - {id}
  {
    var a, b := Contents([t] + rest), Contents([t.Delete(id)] + rest);
    forall x ensures Lookup([t.Delete(id)] + rest, x) == if x == id then None else Lookup([t] + rest, x) {
      assert ([t.Delete(id)] + rest)[1..] == rest == ([t] + rest)[1..];
    }
    assert b.Keys == a.Keys - {id};
    assert b == a - {id};
  }

  lemma CardPut(live: map<Id, StoredRecord>, id: Id, rec: StoredRecord)
    ensures |live[id := rec]| == |live| + if id in live then 0 else 1
  {
    assert live[id := rec].Keys == live.Keys + {id};
    assert |live[id := rec].Keys| == |live.Keys| + if id in live then 0 else 1;
  }

  lemma CardRemove(live: map<Id, StoredRecord>, id: Id)
    ensures |live - {id}| == |live| - if id in live then 1 else 0
  {
    assert (live - {id}).Keys == live.Keys - {id};
    assert |(live - {id}).Keys| == |live.Keys| - if id in live then 1 else 0;
  }

  lemma PutRowOk(m: Mem, c: Cid, id: Id, rec: StoredRecord, m': Mem)
    requires c in m.cols && CollOk(m, c) && ExtOk(Live(m, c)[id := rec])
    requires m' == m.(cols := m.cols[c := PutRow(m.cols[c], id in Live(m, c), id, rec)])
    ensures Live(m', c) == Live(m, c)[id := rec] && CollOk(m', c)
  {
    assert Older(m', c) == Older(m, c);
    HeadUpsert(m.cols[c].mem, Older(m, c), id, rec);
    CardPut(Live(m, c), id, rec);
    PutRowCaches(m.cols[c], Live(m, c), id, rec);
  }

  lemma DeleteRowOk(m: Mem, r: WalRecord, m': Mem)
    requires r.Delete? && r.cid in m.cols && CollOk(m, r.cid)
    requires m' == m.(cols := m.cols[r.cid := ApplyData(m, r)])
    ensures Live(m', r.cid) == Live(m, r.cid) - {r.id} && CollOk(m', r.cid)
  {
    var c := r.cid;
    assert Older(m', c) == Older(m, c);
    HeadDelete(m.cols[c].mem, Older(m, c), r.id);
    CardRemove(Live(m, c), r.id);
    assert r.id in Live(m, c) <==> Lookup(Sources(m, c), r.id).Some?;
  }

  /** A data record changes the live records exactly as `UpdateRecs` says, and the caches follow. */
  lemma ApplyDataOk(m: Mem, r: WalRecord, m': Mem)
    requires IsData(r) && r.cid in m.cols && CollOk(m, r.cid)
    requires ExtOk(UpdateRecs(Live(m, r.cid), r))
    requires m' == m.(cols := m.cols[r.cid := ApplyData(m, r)])
    ensures Live(m', r.cid) == UpdateRecs(Live(m, r.cid), r) && CollOk(m', r.cid)
  {
    hide CacheOk;
    var c, id := r.cid, r.id;
    assert id in Live(m, c) <==> Lookup(Sources(m, c), id).Some?;
    match r {
      case Upsert(_, _, vec, meta) =>
        PutRowOk(m, c, id, StoredRecord(vec, meta), m');
      case UpdateMeta(_, _, meta) =>
        if id in Live(m, c) {
          PutRowOk(m, c, id, StoredRecord(Live(m, c)[id].vector, meta), m');
        } else {
          assert m'.cols == m.cols;
        }
      case Delete(_, _) =>
        DeleteRowOk(m, r, m');
    }
  }

  lemma PutRowCaches(col: Coll, live: map<Id, StoredRecord>, id: Id, rec: StoredRecord)
    requires CacheOk(col, live) && ExtOk(live[id := rec])
    requires |live[id := rec]| == |live| + if id in live then 0 else 1
    ensures CacheOk(PutRow(col, id in live, id, rec), live[id := rec])
  {
    var live' := live[id := rec];
    var col' := PutRow(col, id in live, id, rec);
    forall x | x in live' && ExtOf(live'[x].metadata).Some?
      ensures ExtOf(live'[x].metadata).value in col'.extIds && col'.extIds[ExtOf(live'[x].metadata).value] == x
    {
      if x != id {
        assert x in live && live[x] == live'[x];
        assert ExtOf(live'[id].metadata) != ExtOf(live'[x].metadata);
      }
    }
    assert live'[id] == rec;
  }

  /** A collection that a record does not concern keeps its sources. */
  lemma SourcesFrame(m: Mem, m': Mem, c: Cid)
    requires c in m.cols && c in m'.cols
    requires m'.cols[c].mem == m.cols[c].mem && m'.cols[c].segs == m.cols[c].segs
    requires c in m.pending <==> c in m'.pending
    requires c in m.pending ==> m.pending[c] == m'.pending[c]
    ensures Sources(m', c) == Sources(m, c) && Live(m', c) == Live(m, c)
  {
  }

  /** The directory part of the picture. */
  ghost predicate SameDirectory(m: Mem, s: Img) {
    && m.names == s.names && m.nextCid == s.next && m.cols.Keys == s.cols.Keys
    && forall c :: c in m.cols ==> m.cols[c].name == s.cols[c].name
  }

  /** A record is rejected by the state exactly when it is rejected by the picture, and names move alike. */
  lemma ApplyDirectory(m: Mem, s: Img, r: WalRecord)
    requires SameDirectory(m, s)
    ensures Apply(m, r).Some? <==> Step(s, r).Some?
    ensures Apply(m, r).Some? ==> Apply(m, r).value.pending == m.pending
    ensures Apply(m, r).Some? ==>
              var m', s' := Apply(m, r).value, Step(s, r).value;
              m'.names == s'.names && m'.nextCid == s'.next && m'.cols.Keys == s'.cols.Keys
  {
  }

  /** A record leaves the collections it does not write rows to alone, except for their names. */
  lemma ApplyElsewhere(m: Mem, r: WalRecord, c: Cid)
    requires Apply(m, r).Some? && c in Apply(m, r).value.cols && Step(Abs(m), r).Some?
    requires !(IsData(r) && r.cid == c) && !(r.CreateCollection? && r.cid == c)
    ensures c in m.cols
    ensures var col' := Apply(m, r).value.cols[c];
            && col' == m.cols[c].(name := col'.name)
            && c in Step(Abs(m), r).value.cols && Step(Abs(m), r).value.cols[c] == Abs(m).cols[c].(name := col'.name)
  {
    hide Live, ApplyData;
  }

  lemma KeptOk(m: Mem, m': Mem, c: Cid)
    requires c in m.cols && c in m'.cols && CollOk(m, c) && m'.pending == m.pending
    requires m'.cols[c] == m.cols[c].(name := m'.cols[c].name)
    ensures CollOk(m', c) && Live(m', c) == Live(m, c)
  {
    SourcesFrame(m, m', c);
  }

  ghost function ColOf(m: Mem, c: Cid): ColImg
    requires c in m.cols
  {
    ColImg(m.cols[c].name, m.cols[c].dim, m.cols[c].metric, Live(m, c))
  }

  lemma DataShape(m: Mem, r: WalRecord)
    requires IsData(r) && r.cid in m.cols
    ensures var col' := ApplyData(m, r);
            var col := m.cols[r.cid];
            col'.name == col.name && col'.dim == col.dim && col'.metric == col.metric
  {
  }

  lemma ApplyToData(m: Mem, r: WalRecord, m': Mem, s': Img)
    requires IsData(r) && r.cid in m.cols && CollOk(m, r.cid)
    requires m' == m.(cols := m.cols[r.cid := ApplyData(m, r)])
    requires r.cid in s'.cols && s'.cols[r.cid] == ColOf(m, r.cid).(recs := UpdateRecs(Live(m, r.cid), r))
    requires ExtOk(s'.cols[r.cid].recs)
    ensures CollOk(m', r.cid) && ColOf(m', r.cid) == s'.cols[r.cid]
  {
    DataShape(m, r);
    ApplyDataOk(m, r, m');
  }

  /** The effect of one record on one collection. */
  lemma ApplyOne(m: Mem, r: WalRecord, m': Mem, s': Img, c: Cid)
    requires MemOk(m) && Apply(m, r) == Some(m') && c in m'.cols && m'.pending == m.pending
    requires r.CreateCollection? ==> r.cid !in m.pending
    requires Step(Abs(m), r) == Some(s') && AllExtOk(s') && c in s'.cols
    ensures CollOk(m', c) && ColOf(m', c) == s'.cols[c]
  {
    if IsData(r) && r.cid == c {
      ApplyToData(m, r, m', s');
    } else if r.CreateCollection? && r.cid == c {
      NewCollOk(m', c);
    } else {
      ApplyElsewhere(m, r, c);
      KeptOk(m, m', c);
    }
  }

  /**
   * `apply_record` refines `Image.Step`: it is rejected for exactly the same records, has exactly
   * the described effect on the callers' picture, and keeps every cache right.
   */
  lemma ApplyRefines(m: Mem, r: WalRecord)
    requires MemOk(m)
    requires r.CreateCollection? ==> r.cid !in m.pending
    requires Step(Abs(m), r).Some? ==> AllExtOk(Step(Abs(m), r).value)
    ensures Apply(m, r).Some? <==> Step(Abs(m), r).Some?
    ensures Apply(m, r).Some? ==> Abs(Apply(m, r).value) == Step(Abs(m), r).value && MemOk(Apply(m, r).value)
    ensures Apply(m, r).Some? ==> Apply(m, r).value.pending == m.pending
  {
    assert SameDirectory(m, Abs(m));
    ApplyDirectory(m, Abs(m), r);
    if Apply(m, r).Some? {
      var m', s' := Apply(m, r).value, Step(Abs(m), r).value;
      forall c | c in m'.cols
        ensures CollOk(m', c) && ColOf(m', c) == s'.cols[c]
      {
        ApplyOne(m, r, m', s', c);
      }
      SameImage(m', s');
    }
  }

  lemma SameImage(m: Mem, s: Img)
    requires m.names == s.names && m.nextCid == s.next && m.cols.Keys == s.cols.Keys
    requires forall c :: c in m.cols ==> ColOf(m, c) == s.cols[c]
    ensures Abs(m) == s
  {
    assert Abs(m).cols == s.cols;
  }

  lemma NewCollOk(m: Mem, c: Cid)
    requires c in m.cols && c !in m.pending
    requires m.cols[c] == NewColl(m.cols[c].name, m.cols[c].dim, m.cols[c].metric)
    ensures Live(m, c) == map[] && CollOk(m, c)
  {
    assert Sources(m, c) == [EMPTY_TABLE];
    forall id ensures id !in Live(m, c) {
      assert Lookup([EMPTY_TABLE][1..], id) == None;
      assert id in Contents(Sources(m, c)) <==> Lookup(Sources(m, c), id).Some?;
    }
    assert Live(m, c) == map[];
  }

  /** Recovery's replay loop refines `Image.Replay`, and rebuilds the caches along the way. */
  lemma {:induction false} ApplyAllRefines(m: Mem, log: seq<WalRecord>)
    requires MemOk(m) && m.pending == map[] && Replayable(Abs(m), log)
    ensures ApplyAll(m, log).Some? && Replay(Abs(m), log).Some?
    ensures Abs(ApplyAll(m, log).value) == Replay(Abs(m), log).value
    ensures MemOk(ApplyAll(m, log).value) && ApplyAll(m, log).value.pending == map[]
    decreases |log|
  {
    if log != [] {
      assert AllExtOk(Step(Abs(m), log[0]).value);
      ApplyRefines(m, log[0]);
      ApplyAllRefines(Apply(m, log[0]).value, log[1..]);
    }
  }

  // ---------------------------------------------------------------------
  // The picture alone
  // ---------------------------------------------------------------------

  ghost predicate TablesValid(m: Mem) {
    forall c :: c in m.cols ==> m.cols[c].mem.Valid()
  }

  lemma PutShows(m: Mem, m': Mem, c: Cid, id: Id, rec: StoredRecord)
    requires c in m.cols && c in m'.cols && m.cols[c].mem.Valid() && m'.pending == m.pending
    requires m'.cols[c].mem == m.cols[c].mem.Upsert(id, rec) && m'.cols[c].segs == m.cols[c].segs
    ensures Live(m', c) == Live(m, c)[id := rec]
  {
    hide Contents, Table.Upsert;
    assert Older(m', c) == Older(m, c);
    HeadUpsert(m.cols[c].mem, Older(m, c), id, rec);
  }

  lemma DeleteShows(m: Mem, m': Mem, c: Cid, id: Id)
    requires c in m.cols && c in m'.cols && m.cols[c].mem.Valid() && m'.pending == m.pending
    requires m'.cols[c].mem == m.cols[c].mem.Delete(id) && m'.cols[c].segs == m.cols[c].segs
    ensures Live(m', c) == Live(m, c) - {id}
  {
    hide Contents, Table.Delete;
    assert Older(m', c) == Older(m, c);
    HeadDelete(m.cols[c].mem, Older(m, c), id);
  }

  lemma DataShows(m: Mem, r: WalRecord, m': Mem)
    requires IsData(r) && r.cid in m.cols && m.cols[r.cid].mem.Valid()
    requires m' == m.(cols := m.cols[r.cid := ApplyData(m, r)])
    ensures Live(m', r.cid) == UpdateRecs(Live(m, r.cid), r) && m'.cols[r.cid].mem.Valid()
  {
    hide Contents, Sources;
    var c, id := r.cid, r.id;
    assert id in Live(m, c) <==> Lookup(Sources(m, c), id).Some?;
    match r {
      case Upsert(_, _, vec, meta) => PutShows(m, m', c, id, StoredRecord(vec, meta));
      case UpdateMeta(_, _, meta) =>
        if id in Live(m, c) {
          PutShows(m, m', c, id, StoredRecord(Live(m, c)[id].vector, meta));
        } else {
          assert m'.cols == m.cols;
        }
      case Delete(_, _) => DeleteShows(m, m', c, id);
    }
  }

  lemma OneShows(m: Mem, r: WalRecord, m': Mem, s': Img, c: Cid)
    requires TablesValid(m) && m.pending == map[] && Apply(m, r) == Some(m') && c in m'.cols && m'.pending == map[]
    requires Step(Abs(m), r) == Some(s') && c in s'.cols
    ensures ColOf(m', c) == s'.cols[c] && m'.cols[c].mem.Valid()
  {
    hide Live, UpdateRecs;
    if IsData(r) && r.cid == c {
      DataShape(m, r);
      DataShows(m, r, m');
    } else if r.CreateCollection? && r.cid == c {
      NewCollOk(m', c);
    } else {
      ApplyElsewhere(m, r, c);
      SourcesFrame(m, m', c);
    }
  }

  /** Whatever the string ids, a record does to the state what it does to the picture; only the caches need more. */
  lemma ApplyShows(m: Mem, r: WalRecord)
    requires TablesValid(m) && m.pending == map[]
    ensures Apply(m, r).Some? <==> Step(Abs(m), r).Some?
    ensures Apply(m, r).Some? ==> var m' := Apply(m, r).value;
                                  Abs(m') == Step(Abs(m), r).value && TablesValid(m') && m'.pending == map[]
  {
    hide Apply, Step, ColOf;
    DirectoryShows(m);
    ApplyDirectory(m, Abs(m), r);
    if Apply(m, r).Some? {
      var m', s' := Apply(m, r).value, Step(Abs(m), r).value;
      forall c | c in m'.cols ensures ColOf(m', c) == s'.cols[c] && m'.cols[c].mem.Valid() {
        assert c in m'.cols.Keys;
        OneShows(m, r, m', s', c);
      }
      SameImage(m', s');
    }
  }

  lemma DirectoryShows(m: Mem)
    ensures SameDirectory(m, Abs(m))
  {
    hide Live;
  }

  lemma {:induction false} ApplyAllShows(m: Mem, log: seq<WalRecord>)
    requires TablesValid(m) && m.pending == map[]
    ensures Replay(Abs(m), log) == match ApplyAll(m, log) case None => None case Some(m') => Some(Abs(m'))
    decreases |log|
  {
    hide Apply, Step, Abs, TablesValid;
    if log != [] {
      ApplyShows(m, log[0]);
      if Apply(m, log[0]).Some? {
        ApplyAllShows(Apply(m, log[0]).value, log[1..]);
      }
    }
  }
}
