/**
 * The bulk operations: `delete_by_filter` scans from the start in chunks until nothing matches,
 * `MetaUpdate::run` walks forward with a cursor. Both terminate and treat every record that matched
 * at the start exactly once, provided nobody else writes meanwhile.
 */
module Bulk {
  import opened Records
  import opened Memtables
  import opened Layers
  import opened Segments
  import opened Image
  import opened StoreState
  import opened Stores
  import opened Scans

  const DELETE_CHUNK: nat := 10_000
  const UPDATE_CHUNK: nat := 1_000

  // ---------------------------------------------------------------------
  // The view a scan reads
  // ---------------------------------------------------------------------

  method TableOf(seg: Segment) returns (t: Table)
    requires seg.Valid()
    ensures t == seg.Tbl()
  {
    var rows: map<Id, StoredRecord> := map[];
    for i := 0 to |seg.ids|
      invariant rows.Keys == Elements(seg.ids[..i])
      invariant forall k :: 0 <= k < i ==> rows[seg.ids[k]] == seg.recs[k]
    {
      assert seg.ids[..i + 1] == seg.ids[..i] + [seg.ids[i]];
      forall k | 0 <= k < i ensures seg.ids[k] in rows {
        assert seg.ids[..i][k] == seg.ids[k];
      }
      rows := rows[seg.ids[i] := seg.recs[i]];
    }
    assert seg.ids[..|seg.ids|] == seg.ids;
    t := Table(rows, set id | id in seg.tombstones);
    seg.TblFacts();
    forall id | id in rows ensures rows[id] == seg.Tbl().rows[id] {
      assert id in Elements(seg.ids);
      var k :| 0 <= k < |seg.ids| && seg.ids[k] == id;
      seg.TblRow(k);
    }
  }

  /** `LiveView`: the sources of a collection, newest first. */
  method View(store: Store, cid: Cid) returns (layers: seq<Table>)
    requires store.Valid() && cid in store.collections
    ensures layers == Sources(store.State(), cid)
  {
    var col := store.collections[cid];
    var tables := [];
    for i := 0 to |col.segs|
      invariant tables == Tbls(col.segs[..i])
    {
      var t := TableOf(col.segs[i]);
      tables := tables + [t];
    }
    assert col.segs[..|col.segs|] == col.segs;
    layers := [col.mem] + (if cid in store.pending then [store.pending[cid]] else []) + tables;
    assert layers == [col.mem] + Older(store.State(), cid);
  }

  /** The ids of a table in ascending order, by repeated removal of the least. */
  method SortedColumn(t: Table) returns (ids: seq<Id>)
    ensures Ascending(ids) && Elements(ids) == t.rows.Keys
  {
    ids := [];
    var left := t.rows.Keys;
    hide SortedSoFar;
    SortStart(t.rows.Keys);
    while left != {}
      invariant SortedSoFar(ids, left, t.rows.Keys)
      decreases |left|
    {
      ghost var least := Segments.Least(left);
      var x :| x in left && forall y :: y in left ==> x <= y;
      SortStep(ids, left, t.rows.Keys, x);
      ids := ids + [x];
      left := left - {x};
    }
    SortEnd(ids, t.rows.Keys);
  }

  /** The ids taken so far are in order and below all that is left. */
  ghost predicate SortedSoFar(ids: seq<Id>, left: set<Id>, all: set<Id>) {
    left <= all && Elements(ids) == all - left && Ascending(ids) &&
         forall i, x :: 0 <= i < |ids| && x in left ==> ids[i] < x
  }

  lemma SortStart(all: set<Id>)
    ensures SortedSoFar([], all, all)
  {
  }

  lemma SortStep(ids: seq<Id>, left: set<Id>, all: set<Id>, x: Id)
    requires SortedSoFar(ids, left, all) && x in left && forall y :: y in left ==> x <= y
    ensures SortedSoFar(ids + [x], left - {x}, all)
  {
    ElementsSnoc(ids, x);
    assert all - (left - {x}) == (all - left) + {x};
    hide Elements;
  }

  lemma SortEnd(ids: seq<Id>, all: set<Id>)
    requires SortedSoFar(ids, {}, all)
    ensures Ascending(ids) && Elements(ids) == all
  {
  }

  lemma ElementsSnoc(ids: seq<Id>, x: Id)
    ensures Elements(ids + [x]) == Elements(ids) + {x}
  {
    assert (ids + [x])[|ids|] == x;
    forall y | y in Elements(ids) ensures y in ids + [x] {
    }
  }

  method ColumnsOf(layers: seq<Table>) returns (sources: seq<seq<Id>>)
    ensures Columns(layers, sources)
  {
    sources := [];
    for i := 0 to |layers|
      invariant |sources| == i
      invariant forall k :: 0 <= k < i ==> Ascending(sources[k]) && Elements(sources[k]) == layers[k].rows.Keys
    {
      var column := SortedColumn(layers[i]);
      sources := sources + [column];
    }
  }

  /** `ScanBuilder::run` */
  method Scan(store: Store, cid: Cid, filter: Filter, limit: Option<nat>,
      after: Option<Id>) returns (out: seq<(Id, StoredRecord)>)
    requires store.Valid() && cid in store.collections
    ensures Ids(out) == Page(Sources(store.State(), cid), filter, limit, after)
    ensures forall i ::
        0 <= i < |out| ==>
          out[i].0 in Live(store.State(), cid) && Live(store.State(), cid)[out[i].0] == out[i].1
  {
    var layers := View(store, cid);
    var sources := ColumnsOf(layers);
    out := Walk(layers, sources, filter, limit, after);
    forall i | 0 <= i < |out| ensures out[i].0 in Contents(layers) && Contents(layers)[out[i].0] == out[i].1 {
      assert Lookup(layers, out[i].0) == Some(out[i].1);
    }
  }

  // ---------------------------------------------------------------------
  // Record ids
  // ---------------------------------------------------------------------

  /** `record_id_of` */
  function RecordIdOf(id: Id, metadata: Metadata): RecordId {
    match ExtOf(metadata) case Some(s) => Named(s) case None => Num(id)
  }

  /** `resolve_ext_id` and the numeric case. */
  function Resolve(col: Coll, rid: RecordId): Option<Id> {
    match rid
    case Num(n) => Some(n)
    case Named(s) => if s in col.extIds then Some(col.extIds[s]) else None
  }

  /** The id of a live record resolves to that record. */
  lemma ResolvesBack(m: Mem, cid: Cid, id: Id)
    requires cid in m.cols && CollOk(m, cid) && id in Live(m, cid)
    ensures Resolve(m.cols[cid], RecordIdOf(id, Live(m, cid)[id].metadata)) == Some(id)
  {
  }

  /** Resolve the ids of a page, dropping what does not resolve; for live records nothing is dropped. */
  method ResolvePage(store: Store, cid: Cid, page: seq<(Id, StoredRecord)>) returns (ids: seq<Id>)
    requires cid in store.collections && CollOk(store.State(), cid)
    requires forall i ::
        0 <= i < |page| ==>
          page[i].0 in Live(store.State(), cid) && Live(store.State(), cid)[page[i].0] == page[i].1
    ensures ids == Ids(page)
  {
    ids := [];
    hide CollOk, Live;
    for i := 0 to |page|
      invariant ids == Ids(page)[..i]
    {
      ResolvesBack(store.State(), cid, page[i].0);
      var rid := RecordIdOf(page[i].0, page[i].1.metadata);
      var id := Resolve(store.collections[cid], rid);
      if id.Some? {
        ids := ids + [id.value];
      }
    }
  }

  // ---------------------------------------------------------------------
  // delete_by_filter
  // ---------------------------------------------------------------------

  /** Deleting a list of ids removes exactly those. */
  lemma {:induction false} DeletesEffect(m: Mem, cid: Cid, ids: seq<Id>)
    requires MemOk(m) && cid in m.cols
    ensures ApplyAll(m, Deletes(cid, ids)).Some?
    ensures var m' := ApplyAll(m, Deletes(cid, ids)).value;
            && cid in m'.cols && MemOk(m') && Live(m', cid) == Live(m, cid) - Elements(ids)
            && m' == m.(cols := m.cols[cid := m'.cols[cid]])
    decreases |ids|
  {
    hide MemOk, Contents, Apply;
    if ids == [] {
      assert m == m.(cols := m.cols[cid := m.cols[cid]]);
      assert Live(m, cid) - Elements([]) == Live(m, cid);
    } else {
      var r := WalRecord.Delete(cid, ids[0]);
      var rest := ids[1..];
      assert Deletes(cid, ids)[1..] == Deletes(cid, rest);
      DeleteStep(m, r);
      var m1 := Apply(m, r).value;
      DeletesEffect(m1, cid, rest);
      assert Elements(ids) == {ids[0]} + Elements(rest);
      assert Live(m, cid) - {ids[0]} - Elements(rest) == Live(m, cid) - Elements(ids);
    }
  }

  lemma DeleteStep(m: Mem, r: WalRecord)
    requires r.Delete? && MemOk(m) && r.cid in m.cols
    ensures Apply(m, r).Some?
    ensures var m' := Apply(m, r).value;
            MemOk(m') && r.cid in m'.cols && Live(m', r.cid) == Live(m, r.cid) - {r.id}
                && m' == m.(cols := m.cols[r.cid := m'.cols[r.cid]])
  {
    hide Contents;
    var m' := Apply(m, r).value;
    assert CollOk(m, r.cid);
    DeleteRowOk(m, r, m');
    DeleteCounts(m, r, m');
  }

  /** Live records that match the filter. */
  ghost function Matches(live: map<Id, StoredRecord>, filter: Filter): set<Id> {
    set id | id in live && filter(live[id].metadata)
  }

  lemma MatchesAre(m: Mem, cid: Cid, filter: Filter)
    requires cid in m.cols
    ensures Matching(Sources(m, cid), filter, None) == Matches(Live(m, cid), filter)
  {
  }

  /** A page from the start is empty only when nothing matches; otherwise it consists of matches. */
  lemma FirstPage(m: Mem, cid: Cid, filter: Filter, chunk: nat, page: seq<Id>)
    requires cid in m.cols && chunk > 0 && page == Page(Sources(m, cid), filter, Some(chunk), None)
    ensures page == [] ==> Matches(Live(m, cid), filter) == {}
    ensures Elements(page) <= Matches(Live(m, cid), filter)
    ensures page != [] ==> Elements(page) != {}
  {
    MatchesAre(m, cid, filter);
    var all := SortedIds(Matches(Live(m, cid), filter));
    forall x | x in Elements(page) ensures x in Elements(all) {
      var i :| 0 <= i < |page| && page[i] == x;
      assert all[i] == x;
    }
    if page != [] {
      HeadIsElement(page);
    }
  }

  lemma MatchesAfter(live: map<Id, StoredRecord>, ids: set<Id>, filter: Filter)
    requires ids <= Matches(live, filter)
    ensures Matches(live - ids, filter) == Matches(live, filter) - ids
    ensures |live| - |live - ids| == |ids|
    ensures ids != {} ==> |Matches(live - ids, filter)| < |Matches(live, filter)|
  {
    assert Matches(live - ids, filter) == Matches(live, filter) - ids;
    assert ids <= live.Keys && (live - ids).Keys == live.Keys - ids;
    var m := Matches(live, filter);
    hide Matches;
    SetSizes(live.Keys, ids);
    SetSizes(m, ids);
  }

  lemma SetSizes(s: set<Id>, t: set<Id>)
    requires t <= s
    ensures |s| == |s - t| + |t|
  {
    assert s == (s - t) + t;
  }

  /** Nothing but the one collection is touched. */
  ghost predicate OnlyChanges(m: Mem, m': Mem, cid: Cid) {
    cid in m.cols && cid in m'.cols && m' == m.(cols := m.cols[cid := m'.cols[cid]])
  }

  lemma ChangesChain(m: Mem, m1: Mem, m2: Mem, cid: Cid)
    requires OnlyChanges(m, m1, cid) && OnlyChanges(m1, m2, cid)
    ensures OnlyChanges(m, m2, cid)
  {
  }

  /** One round: a page of matches from the start, deleted in one batch; zero when nothing matches. */
  method DeleteChunk(store: Store, cid: Cid, filter: Filter) returns (n: nat, ghost ids: set<Id>)
    requires store.Valid() && MemOk(store.State()) && cid in store.collections
    modifies store
    ensures store.Valid() && MemOk(store.State()) && cid in store.collections
    ensures var before := old(Live(store.State(), cid));
            && ids <= Matches(before, filter) && Live(store.State(), cid) == before - ids && n == |ids|
            && (ids == {} ==> Matches(before, filter) == {})
    ensures OnlyChanges(old(store.State()), store.State(), cid)
  {
    hide MemOk, Contents, Matches, Sources, CollOk;
    ghost var m := store.State();
    assert m == m.(cols := m.cols[cid := m.cols[cid]]);
    ids := {};
    var page := Scan(store, cid, filter, Some(DELETE_CHUNK), None);
    FirstPage(m, cid, filter, DELETE_CHUNK, Ids(page));
    if page == [] {
      assert Live(m, cid) - {} == Live(m, cid);
      return 0, {};
    }
    CollectionOk(m, cid);
    var found := ResolvePage(store, cid, page);
    DeletesEffect(m, cid, found);
    MatchesAfter(Live(m, cid), Elements(found), filter);
    var result := store.DeleteBatch(cid, found);
    n, ids := result.value, Elements(found);
  }

  /** `delete_by_filter` */
  method DeleteByFilter(store: Store, cid: Cid, filter: Filter) returns (deleted: nat)
    requires store.Valid() && MemOk(store.State()) && cid in store.collections
    modifies store
    ensures store.Valid() && MemOk(store.State()) && cid in store.collections
    ensures var before := old(Live(store.State(), cid));
            && Live(store.State(), cid) == before - Matches(before, filter)
            && deleted == |Matches(before, filter)|
    ensures OnlyChanges(old(store.State()), store.State(), cid)
  {
    deleted := 0;
    ghost var m := store.State();
    ghost var before := Live(m, cid);
    ghost var gone: set<Id> := {};
    DeletionStart(m, cid, filter);
    hide MemOk, Live, Matches, Deletion, OnlyChanges, Store.Valid;
    while true
      invariant store.Valid() && MemOk(store.State()) && cid in store.collections
      invariant Deletion(before, Live(store.State(), cid), gone, filter, deleted)
      invariant OnlyChanges(m, store.State(), cid)
      decreases |Matches(Live(store.State(), cid), filter)|
    {
      ghost var m1 := store.State();
      var n, ids := DeleteChunk(store, cid, filter);
      DeletionStep(before, Live(m1, cid), gone, filter, deleted, ids, n, Live(store.State(), cid));
      ChangesChain(m, m1, store.State(), cid);
      if n == 0 {
        return;
      }
      deleted := deleted + n;
      gone := gone + ids;
    }
  }

  /** `gone` are the matches deleted so far. */
  ghost predicate Deletion(before: map<Id, StoredRecord>, live: map<Id, StoredRecord>, gone: set<Id>, filter: Filter,
      deleted: nat) {
    gone <= Matches(before, filter) && live == before - gone && deleted == |gone|
  }

  lemma DeletionStart(m: Mem, cid: Cid, filter: Filter)
    requires cid in m.cols
    ensures Deletion(Live(m, cid), Live(m, cid), {}, filter, 0) && OnlyChanges(m, m, cid)
  {
    hide Live;
    assert Live(m, cid) - {} == Live(m, cid);
  }

  lemma DeletionStep(before: map<Id, StoredRecord>, live: map<Id, StoredRecord>, gone: set<Id>, filter: Filter,
        deleted: nat, ids: set<Id>, n: nat, live': map<Id, StoredRecord>)
    requires Deletion(before, live, gone, filter, deleted) && ids <= Matches(live, filter) && live' == live - ids
        && n == |ids|
    requires ids == {} ==> Matches(live, filter) == {}
    ensures Deletion(before, live', gone + ids, filter, deleted + n)
    ensures n > 0 ==> |Matches(live', filter)| < |Matches(live, filter)|
    ensures n == 0 ==> live' == before - Matches(before, filter) && deleted == |Matches(before, filter)|
  {
    MatchesAfter(live, ids, filter);
    OneMoreChunk(before, gone, ids, filter);
    if n == 0 {
      AllGone(before, gone, filter);
      assert live - {} == live;
    }
  }

  lemma CollectionOk(m: Mem, cid: Cid)
    requires MemOk(m) && cid in m.cols
    ensures CollOk(m, cid)
  {
  }

  lemma AllGone(before: map<Id, StoredRecord>, gone: set<Id>, filter: Filter)
    requires gone <= Matches(before, filter) && Matches(before - gone, filter) == {}
    ensures gone == Matches(before, filter)
  {
    MatchesAfter(before, gone, filter);
  }

  lemma OneMoreChunk(before: map<Id, StoredRecord>, gone: set<Id>, ids: set<Id>, filter: Filter)
    requires gone <= Matches(before, filter) && ids <= Matches(before - gone, filter)
    ensures gone + ids <= Matches(before, filter) && before - gone - ids == before - (gone + ids)
        && |gone + ids| == |gone| + |ids|
  {
    MatchesAfter(before, gone, filter);
    hide Matches;
    assert gone * ids == {};
    Differences(before, gone, ids);
  }

  lemma Differences(m: map<Id, StoredRecord>, a: set<Id>, b: set<Id>)
    ensures m - a - b == m - (a + b)
  {
  }

  // ---------------------------------------------------------------------
  // update_meta_by_filter
  // ---------------------------------------------------------------------

  /** `remove` first, then `set`. */
  function Patched(metadata: Metadata, set_: Metadata, remove: set<string>): Metadata {
    (metadata - remove) + set_
  }

  /** The bulk update is refused when it would touch the string-id key. */
  predicate TouchesExtId(set_: Metadata, remove: set<string>) {
    EXT_ID_META_KEY in set_ || EXT_ID_META_KEY in remove
  }

  lemma PatchKeepsExt(metadata: Metadata, set_: Metadata, remove: set<string>)
    requires !TouchesExtId(set_, remove)
    ensures ExtOf(Patched(metadata, set_, remove)) == ExtOf(metadata)
  {
  }

  predicate UpTo(id: Id, upto: Option<Id>) {
    upto.Some? && id <= upto.value
  }

  /** The records after every initial match up to a cursor has been patched, once. */
  ghost function PatchedTo(before: map<Id, StoredRecord>, filter: Filter, set_: Metadata, remove: set<string>,
      upto: Option<Id>): map<Id, StoredRecord> {
    map id | id in before ::
      if filter(before[id].metadata) && UpTo(id, upto)
          then before[id].(metadata := Patched(before[id].metadata, set_, remove)) else before[id]
  }

  /** The records after the whole update. */
  ghost function PatchedAll(before: map<Id, StoredRecord>, filter: Filter, set_: Metadata,
      remove: set<string>): map<Id, StoredRecord> {
    map id | id in before ::
      if filter(before[id].metadata) then before[id].(metadata := Patched(before[id].metadata, set_, remove))
          else before[id]
  }

  /** What a patch does, key by key: set keys get the new values, other removed keys go, the rest is as before. */
  ghost predicate KeysPatched(old_: StoredRecord, new_: StoredRecord, set_: Metadata, remove: set<string>) {
    && new_.vector == old_.vector
    && forall k :: if k in set_ then k in new_.metadata && new_.metadata[k] == set_[k]
                   else if k in remove || k !in old_.metadata then k !in new_.metadata
                   else k in new_.metadata && new_.metadata[k] == old_.metadata[k]
  }

  /** The same records; those that matched are patched, all others unchanged. */
  ghost predicate MatchesPatched(before: map<Id, StoredRecord>, after: map<Id, StoredRecord>, filter: Filter,
      set_: Metadata, remove: set<string>) {
    && after.Keys == before.Keys
    && forall id :: id in before ==>
         if filter(before[id].metadata) then KeysPatched(before[id], after[id], set_, remove)
         else after[id] == before[id]
  }

  lemma AllPatched(before: map<Id, StoredRecord>, filter: Filter, set_: Metadata, remove: set<string>)
    ensures MatchesPatched(before, PatchedAll(before, filter, set_, remove), filter, set_, remove)
  {
  }

  /** Initial matches that the cursor has passed, and those still ahead of it. */
  ghost function Behind(before: map<Id, StoredRecord>, filter: Filter, upto: Option<Id>): set<Id> {
    set id | id in before && filter(before[id].metadata) && UpTo(id, upto)
  }

  ghost function AheadOf(before: map<Id, StoredRecord>, filter: Filter, upto: Option<Id>): set<Id> {
    set id | id in before && filter(before[id].metadata) && !UpTo(id, upto)
  }

  /** Rows replaced one after another. */
  ghost function WithMeta(live: map<Id, StoredRecord>, updates: seq<(Id, Metadata)>): map<Id, StoredRecord> {
    if updates == [] then live
    else if updates[0].0 !in live then WithMeta(live, updates[1..])
    else WithMeta(live[updates[0].0 := live[updates[0].0].(metadata := updates[0].1)], updates[1..])
  }

  /** Every update is of a live record and keeps its string id. */
  ghost predicate KeepsExt(live: map<Id, StoredRecord>, updates: seq<(Id, Metadata)>) {
    && (forall i, j :: 0 <= i < j < |updates| ==> updates[i].0 != updates[j].0)
    && forall i :: 0 <= i < |updates| ==>
         updates[i].0 in live && ExtOf(updates[i].1) == ExtOf(live[updates[i].0].metadata)
  }

  lemma UpdateStep(m: Mem, r: WalRecord)
    requires r.UpdateMeta? && MemOk(m) && r.cid in m.cols && r.id in Live(m, r.cid) && ExtOk(Live(m, r.cid))
    requires ExtOf(r.metadata) == ExtOf(Live(m, r.cid)[r.id].metadata)
    ensures Apply(m, r).Some?
    ensures var m' := Apply(m, r).value;
            && OnlyChanges(m, m', r.cid) && MemOk(m') && ExtOk(Live(m', r.cid))
            && Live(m', r.cid) == Live(m, r.cid)[r.id := Live(m, r.cid)[r.id].(metadata := r.metadata)]
  {
    hide Contents, MemOk, ApplyData;
    var m', live := Apply(m, r).value, Live(m, r.cid);
    CollectionOk(m, r.cid);
    hide CollOk, Live;
    var after := live[r.id := live[r.id].(metadata := r.metadata)];
    assert UpdateRecs(live, r) == after;
    SameExt(live, after, r.id);
    ApplyDataOk(m, r, m');
    OthersKept(m, m', r.cid);
  }

  /** A change of one collection keeps the others right. */
  lemma OthersKept(m: Mem, m': Mem, cid: Cid)
    requires MemOk(m) && OnlyChanges(m, m', cid) && CollOk(m', cid)
    ensures MemOk(m')
  {
    hide Contents, CacheOk;
    forall c | c in m'.cols && c != cid ensures CollOk(m', c) {
      assert CollOk(m, c);
      SourcesFrame(m, m', c);
    }
  }

  lemma SameExt(live: map<Id, StoredRecord>, after: map<Id, StoredRecord>, id: Id)
    requires ExtOk(live) && id in live && after.Keys == live.Keys
        && ExtOf(after[id].metadata) == ExtOf(live[id].metadata)
    requires forall x :: x in live && x != id ==> after[x] == live[x]
    ensures ExtOk(after)
  {
    forall x | x in after ensures ExtOf(after[x].metadata) == ExtOf(live[x].metadata) {
    }
  }

  lemma {:induction false} UpdatesEffect(m: Mem, cid: Cid, updates: seq<(Id, Metadata)>)
    requires MemOk(m) && cid in m.cols && ExtOk(Live(m, cid)) && KeepsExt(Live(m, cid), updates)
    ensures ApplyAll(m, MetaUpdates(cid, updates)).Some?
    ensures var m' := ApplyAll(m, MetaUpdates(cid, updates)).value;
            && OnlyChanges(m, m', cid) && MemOk(m') && ExtOk(Live(m', cid))
                 && Live(m', cid) == WithMeta(Live(m, cid), updates)
    decreases |updates|
  {
    hide MemOk, Live, Apply, ExtOk;
    if updates != [] {
      var r := UpdateMeta(cid, updates[0].0, updates[0].1);
      var rest := updates[1..];
      assert MetaUpdates(cid, updates)[1..] == MetaUpdates(cid, rest);
      UpdateStep(m, r);
      var m1 := Apply(m, r).value;
      RestKeepsExt(Live(m, cid), updates);
      UpdatesEffect(m1, cid, rest);
      ChangesChain(m, m1, ApplyAll(m1, MetaUpdates(cid, rest)).value, cid);
    }
  }

  lemma RestKeepsExt(live: map<Id, StoredRecord>, updates: seq<(Id, Metadata)>)
    requires updates != [] && KeepsExt(live, updates)
    ensures KeepsExt(live[updates[0].0 := live[updates[0].0].(metadata := updates[0].1)], updates[1..])
  {
    var rest := updates[1..];
    forall i | 0 <= i < |rest| ensures rest[i] == updates[i + 1] && rest[i].0 != updates[0].0 {
    }
  }

  lemma {:induction false} TargetsAll(m: Mem, cid: Cid, updates: seq<(Id, Metadata)>)
    requires cid in m.cols && forall i :: 0 <= i < |updates| ==> updates[i].0 in Live(m, cid)
    ensures Targets(m, cid, updates) == updates
  {
    hide Live;
    if updates != [] {
      TargetsAll(m, cid, updates[..|updates| - 1]);
    }
  }

  /** The updates of one page. */
  function PatchesOf(page: seq<(Id, StoredRecord)>, set_: Metadata, remove: set<string>): (r: seq<(Id, Metadata)>)
    ensures |r| == |page|
  {
    seq(|page|, i requires 0 <= i < |page| => (page[i].0, Patched(page[i].1.metadata, set_, remove)))
  }

  /** The result of replacing the metadata of distinct live rows, row by row. */
  lemma {:induction false} WithMetaAt(live: map<Id, StoredRecord>, updates: seq<(Id, Metadata)>, id: Id)
    requires KeepsExt(live, updates) && id in live
    ensures WithMeta(live, updates).Keys == live.Keys
    ensures (forall i :: 0 <= i < |updates| ==> updates[i].0 != id) ==> WithMeta(live, updates)[id] == live[id]
    ensures forall i ::
        0 <= i < |updates| && updates[i].0 == id ==>
          WithMeta(live, updates)[id] == live[id].(metadata := updates[i].1)
    decreases |updates|
  {
    if updates != [] {
      var first, rest := updates[0], updates[1..];
      RestKeepsExt(live, updates);
      var live1 := live[first.0 := live[first.0].(metadata := first.1)];
      WithMetaAt(live1, rest, id);
      assert forall i :: 0 <= i < |rest| ==> rest[i] == updates[i + 1];
      assert forall i :: 1 <= i < |updates| ==> updates[i] == rest[i - 1];
    }
  }

  /** A page behind a cursor is exactly the matches between the cursor and its last id. */
  lemma PageCovers(layers: seq<Table>, filter: Filter, chunk: nat, upto: Option<Id>, page: seq<Id>)
    requires chunk > 0 && page == Page(layers, filter, Some(chunk), upto)
    ensures page == [] ==> Matching(layers, filter, upto) == {}
    ensures page != [] ==>
         forall x :: x in Elements(page) <==> x in Matching(layers, filter, upto) && x <= page[|page| - 1]
    ensures Ascending(page)
  {
    var m := Matching(layers, filter, upto);
    var all := SortedIds(m);
    assert Elements(all) == m;
    if page == [] {
      EmptyPage(layers, filter, chunk, upto);
      assert Elements([]) == {};
    } else {
      var last := page[|page| - 1];
      hide Matching, SortedIds;
      forall x ensures x in Elements(page) <==> x in m && x <= last {
        PrefixElements(all, |page|, m, x);
      }
    }
  }

  lemma PrefixElements(all: seq<Id>, n: nat, m: set<Id>, x: Id)
    requires Ascending(all) && Elements(all) == m && 0 < n <= |all|
    ensures x in all[..n] <==> x in m && x <= all[n - 1]
  {
    assert x in m <==> x in all;
    if x in all {
      var i :| 0 <= i < |all| && all[i] == x;
      if i < n {
        assert all[..n][i] == x;
      }
    }
    if x in all[..n] {
      var i :| 0 <= i < n && all[..n][i] == x;
      assert all[i] == x;
    }
  }

  /** Ahead of the cursor nothing has changed, so the same records still match. */
  lemma AheadUnchanged(m: Mem, cid: Cid, before: map<Id, StoredRecord>, filter: Filter, set_: Metadata,
      remove: set<string>, upto: Option<Id>)
    requires cid in m.cols && Live(m, cid) == PatchedTo(before, filter, set_, remove, upto)
    ensures Matching(Sources(m, cid), filter, upto) == AheadOf(before, filter, upto)
  {
    hide Sources;
    var c := Contents(Sources(m, cid));
    assert c == PatchedTo(before, filter, set_, remove, upto);
    forall id ensures id in Matching(Sources(m, cid), filter, upto) <==> id in AheadOf(before, filter, upto) {
      if id in before && !UpTo(id, upto) {
        assert c[id] == before[id];
      }
    }
  }

  /** Patching a page moves the cursor to its last id. */
  lemma PagePatched(before: map<Id, StoredRecord>, filter: Filter, set_: Metadata, remove: set<string>,
        upto: Option<Id>, page: seq<(Id, StoredRecord)>, last: Id)
    requires !TouchesExtId(set_, remove) && page != [] && last == page[|page| - 1].0 && Ascending(Ids(page))
    requires forall x :: x in Elements(Ids(page)) <==> x in AheadOf(before, filter, upto) && x <= last
    requires forall i :: 0 <= i < |page| ==> page[i].0 in before && page[i].1 == before[page[i].0]
    ensures KeepsExt(PatchedTo(before, filter, set_, remove, upto), PatchesOf(page, set_, remove))
    ensures WithMeta(PatchedTo(before, filter, set_, remove, upto), PatchesOf(page, set_, remove))
        == PatchedTo(before, filter, set_, remove, Some(last))
  {
    var live, updates := PatchedTo(before, filter, set_, remove, upto), PatchesOf(page, set_, remove);
    forall i | 0 <= i < |updates|
      ensures updates[i].0 in live && live[updates[i].0] == before[updates[i].0]
          && ExtOf(updates[i].1) == ExtOf(live[updates[i].0].metadata)
    {
      assert Ids(page)[i] == updates[i].0 && updates[i].0 in Elements(Ids(page));
      PatchKeepsExt(page[i].1.metadata, set_, remove);
    }
    forall i, j | 0 <= i < j < |updates| ensures updates[i].0 != updates[j].0 {
      assert Ids(page)[i] == updates[i].0 && Ids(page)[j] == updates[j].0;
    }
    var now, goal := WithMeta(live, updates), PatchedTo(before, filter, set_, remove, Some(last));
    KeysKept(live, updates);
    forall id | id in before ensures id in now && now[id] == goal[id] {
      PatchedAt(before, filter, set_, remove, upto, page, last, id);
    }
  }

  lemma PatchedAt(before: map<Id, StoredRecord>, filter: Filter, set_: Metadata, remove: set<string>, upto: Option<Id>,
                  page: seq<(Id, StoredRecord)>, last: Id, id: Id)
    requires page != [] && last == page[|page| - 1].0 && id in before
    requires forall x :: x in Elements(Ids(page)) <==> x in AheadOf(before, filter, upto) && x <= last
    requires forall i :: 0 <= i < |page| ==> page[i].0 in before && page[i].1 == before[page[i].0]
    requires KeepsExt(PatchedTo(before, filter, set_, remove, upto), PatchesOf(page, set_, remove))
    ensures id in WithMeta(PatchedTo(before, filter, set_, remove, upto), PatchesOf(page, set_, remove))
    ensures WithMeta(PatchedTo(before, filter, set_, remove, upto), PatchesOf(page, set_, remove))[id]
            == PatchedTo(before, filter, set_, remove, Some(last))[id]
  {
    var live, updates := PatchedTo(before, filter, set_, remove, upto), PatchesOf(page, set_, remove);
    assert id in live;
    WithMetaAt(live, updates, id);
    OnePatched(before, filter, set_, remove, upto, page, last, id);
    hide PatchedTo, KeepsExt, WithMeta, AheadOf;
    if id in Elements(Ids(page)) {
      var i :| 0 <= i < |page| && page[i].0 == id && live[id] == before[id]
               && PatchedTo(before, filter, set_, remove, Some(last))[id]
                    == live[id].(metadata := Patched(page[i].1.metadata, set_, remove));
      assert updates[i] == (id, Patched(page[i].1.metadata, set_, remove));
    } else {
      assert forall i :: 0 <= i < |updates| ==> updates[i].0 == page[i].0;
    }
  }

  lemma {:induction false} KeysKept(live: map<Id, StoredRecord>, updates: seq<(Id, Metadata)>)
    ensures WithMeta(live, updates).Keys == live.Keys
    decreases |updates|
  {
    if updates != [] {
      if updates[0].0 !in live {
        KeysKept(live, updates[1..]);
      } else {
        KeysKept(live[updates[0].0 := live[updates[0].0].(metadata := updates[0].1)], updates[1..]);
      }
    }
  }

  lemma OnePatched(before: map<Id, StoredRecord>, filter: Filter, set_: Metadata, remove: set<string>, upto: Option<Id>,
                   page: seq<(Id, StoredRecord)>, last: Id, id: Id)
    requires page != [] && last == page[|page| - 1].0 && id in before
    requires forall x :: x in Elements(Ids(page)) <==> x in AheadOf(before, filter, upto) && x <= last
    requires forall i :: 0 <= i < |page| ==> page[i].0 in before && page[i].1 == before[page[i].0]
    ensures
      var live := PatchedTo(before, filter, set_, remove, upto);
      var goal := PatchedTo(before, filter, set_, remove, Some(last));
      if id in Elements(Ids(page)) then
        exists i ::
          0 <= i < |page| && page[i].0 == id && live[id] == before[id] &&
          goal[id] == live[id].(metadata := Patched(page[i].1.metadata, set_, remove))
      else goal[id] == live[id] && forall i :: 0 <= i < |page| ==> page[i].0 != id
  {
    forall i | 0 <= i < |page| ensures page[i].0 in Elements(Ids(page)) {
      assert Ids(page)[i] == page[i].0;
    }
    if id in Elements(Ids(page)) {
      var i :| 0 <= i < |page| && Ids(page)[i] == id;
    } else if UpTo(id, upto) {
      assert Ids(page)[|page| - 1] in Elements(Ids(page));
    }
  }

  lemma CursorAdvances(before: map<Id, StoredRecord>, filter: Filter, upto: Option<Id>, ids: set<Id>, last: Id)
    requires forall x :: x in ids <==> x in AheadOf(before, filter, upto) && x <= last
    requires last in ids
    ensures Behind(before, filter, Some(last)) == Behind(before, filter, upto) + ids
    ensures |Behind(before, filter, Some(last))| == |Behind(before, filter, upto)| + |ids|
    ensures |AheadOf(before, filter, Some(last))| < |AheadOf(before, filter, upto)|
  {
    hide Behind, AheadOf;
    BehindGrows(before, filter, upto, ids, last);
    AheadShrinks(before, filter, upto, ids, last);
    SetSizes(Behind(before, filter, Some(last)), ids);
    SetSizes(AheadOf(before, filter, upto), ids);
  }

  lemma BehindGrows(before: map<Id, StoredRecord>, filter: Filter, upto: Option<Id>, ids: set<Id>, last: Id)
    requires forall x :: x in ids <==> x in AheadOf(before, filter, upto) && x <= last
    requires last in ids
    ensures Behind(before, filter, Some(last)) == Behind(before, filter, upto) + ids
    ensures Behind(before, filter, Some(last)) - ids == Behind(before, filter, upto)
  {
  }

  lemma AheadShrinks(before: map<Id, StoredRecord>, filter: Filter, upto: Option<Id>, ids: set<Id>, last: Id)
    requires forall x :: x in ids <==> x in AheadOf(before, filter, upto) && x <= last
    requires last in ids
    ensures AheadOf(before, filter, Some(last)) == AheadOf(before, filter, upto) - ids
    ensures ids <= AheadOf(before, filter, upto)
  {
  }

  /** Where the bulk update stands: everything up to the cursor is patched, and the cursor names a live record. */
  ghost predicate Updating(m: Mem, cid: Cid, before: map<Id, StoredRecord>, filter: Filter, set_: Metadata,
        remove: set<string>, upto: Option<Id>, cursor: Option<RecordId>, updated: nat)
  {
    && cid in m.cols && MemOk(m) && ExtOk(Live(m, cid))
    && Live(m, cid) == PatchedTo(before, filter, set_, remove, upto) && updated == |Behind(before, filter, upto)|
    && (cursor.None? <==> upto.None?)
    && (cursor.Some? ==> Resolve(m.cols[cid], cursor.value) == upto)
  }

  lemma UpdateStarts(m: Mem, cid: Cid, filter: Filter, set_: Metadata, remove: set<string>)
    requires cid in m.cols && MemOk(m) && ExtOk(Live(m, cid))
    ensures Updating(m, cid, Live(m, cid), filter, set_, remove, None, None, 0)
    ensures OnlyChanges(m, m, cid)
  {
    hide Live, MemOk, ExtOk;
    assert PatchedTo(Live(m, cid), filter, set_, remove, None) == Live(m, cid);
    assert Behind(Live(m, cid), filter, None) == {};
  }

  lemma UpdateEnds(m: Mem, cid: Cid, before: map<Id, StoredRecord>, filter: Filter, set_: Metadata, remove: set<string>,
                   upto: Option<Id>, cursor: Option<RecordId>, updated: nat)
    requires Updating(m, cid, before, filter, set_, remove, upto, cursor, updated)
        && AheadOf(before, filter, upto) == {}
    ensures Live(m, cid) == PatchedAll(before, filter, set_, remove) && updated == |Matches(before, filter)|
    ensures MatchesPatched(before, Live(m, cid), filter, set_, remove)
  {
    hide Live, MemOk, ExtOk, MatchesPatched;
    AllPatched(before, filter, set_, remove);
    forall id | id in before && filter(before[id].metadata) ensures UpTo(id, upto) {
      assert id !in AheadOf(before, filter, upto);
    }
    assert PatchedTo(before, filter, set_, remove, upto) == PatchedAll(before, filter, set_, remove);
    assert Behind(before, filter, upto) == Matches(before, filter);
  }

  /** The facts about one page that its processing needs. */
  lemma PageFacts(m: Mem, cid: Cid, before: map<Id, StoredRecord>, filter: Filter, set_: Metadata, remove: set<string>,
                  upto: Option<Id>, page: seq<(Id, StoredRecord)>)
    requires cid in m.cols && Live(m, cid) == PatchedTo(before, filter, set_, remove, upto)
    requires Ids(page) == Page(Sources(m, cid), filter, Some(UPDATE_CHUNK), upto)
    requires forall i :: 0 <= i < |page| ==> page[i].0 in Live(m, cid) && Live(m, cid)[page[i].0] == page[i].1
    ensures page == [] ==> AheadOf(before, filter, upto) == {}
    ensures Ascending(Ids(page))
    ensures forall i :: 0 <= i < |page| ==> page[i].0 in before && page[i].1 == before[page[i].0]
    ensures page != [] ==>
         forall x :: x in Elements(Ids(page)) <==> x in AheadOf(before, filter, upto) && x <= page[|page| - 1].0
  {
    AheadUnchanged(m, cid, before, filter, set_, remove, upto);
    PageCovers(Sources(m, cid), filter, UPDATE_CHUNK, upto, Ids(page));
    hide Page, Sources, Matching, Live;
    if page != [] {
      assert Ids(page)[|page| - 1] == page[|page| - 1].0;
    }
    forall i | 0 <= i < |page| ensures page[i].0 in before && page[i].1 == before[page[i].0] {
      assert Ids(page)[i] == page[i].0 && page[i].0 in Elements(Ids(page));
      assert page[i].0 in AheadOf(before, filter, upto);
    }
  }

  lemma UpdateAdvances(m: Mem, m': Mem, cid: Cid, before: map<Id, StoredRecord>, filter: Filter, set_: Metadata,
        remove: set<string>, upto: Option<Id>, cursor: Option<RecordId>, updated: nat, page: seq<(Id, StoredRecord)>,
        last: Id)
    requires Updating(m, cid, before, filter, set_, remove, upto, cursor, updated) && !TouchesExtId(set_, remove)
    requires Ids(page) == Page(Sources(m, cid), filter, Some(UPDATE_CHUNK), upto) && page != []
        && last == page[|page| - 1].0
    requires forall i :: 0 <= i < |page| ==> page[i].0 in Live(m, cid) && Live(m, cid)[page[i].0] == page[i].1
    requires ApplyAll(m, MetaUpdates(cid, PatchesOf(page, set_, remove))) == Some(m')
    ensures OnlyChanges(m, m', cid)
    ensures Updating(m', cid, before, filter, set_, remove, Some(last),
        Some(RecordIdOf(last, page[|page| - 1].1.metadata)), updated + |page|)
    ensures |AheadOf(before, filter, Some(last))| < |AheadOf(before, filter, upto)|
  {
    hide MemOk, ExtOk, Live, Page, ApplyAll, CollOk;
    PageFacts(m, cid, before, filter, set_, remove, upto, page);
    PagePatched(before, filter, set_, remove, upto, page, last);
    UpdatesEffect(m, cid, PatchesOf(page, set_, remove));
    assert Ids(page)[|page| - 1] == last && last in Elements(Ids(page));
    CursorAdvances(before, filter, upto, Elements(Ids(page)), last);
    DistinctCount(Ids(page));
    CollectionOk(m', cid);
    var meta := page[|page| - 1].1.metadata;
    PatchKeepsExt(meta, set_, remove);
    ResolvesBack(m', cid, last);
  }

  /** The page of updates that still resolves, which for live records is all of it. */
  method WriteMetadataBatch(store: Store, cid: Cid, page: seq<(Id, StoredRecord)>, set_: Metadata,
      remove: set<string>) returns (n: nat)
    requires store.Valid() && cid in store.collections && CollOk(store.State(), cid) && page != []
    requires forall i ::
        0 <= i < |page| ==>
          page[i].0 in Live(store.State(), cid) && Live(store.State(), cid)[page[i].0] == page[i].1
    modifies store
    ensures store.Valid() && n == |page|
    ensures ApplyAll(old(store.State()), MetaUpdates(cid, PatchesOf(page, set_, remove))) == Some(store.State())
  {
    hide CollOk, Live, ApplyAll;
    ghost var m := store.State();
    var ids := ResolvePage(store, cid, page);
    var batch := [];
    for i := 0 to |page|
      invariant batch == PatchesOf(page, set_, remove)[..i] && store.State() == m && store.Valid()
          && store.wal == old(store.wal)
    {
      batch := batch + [(ids[i], Patched(page[i].1.metadata, set_, remove))];
    }
    assert batch == PatchesOf(page, set_, remove);
    TargetsAll(m, cid, batch);
    var result := store.UpdateMetadataBatch(cid, batch);
    n := result.value;
  }

  /**
   * `MetaUpdate::run` with a filter: `None` is the refusal to touch string ids. Every record that
   * matched at the start is patched exactly once, even if it still matches afterwards.
   */
  method UpdateByFilter(store: Store, cid: Cid, filter: Filter, set_: Metadata,
      remove: set<string>) returns (updated: Option<nat>)
    requires store.Valid() && MemOk(store.State()) && cid in store.collections && ExtOk(Live(store.State(), cid))
    modifies store
    ensures store.Valid() && MemOk(store.State()) && OnlyChanges(old(store.State()), store.State(), cid)
    ensures updated.None? <==> TouchesExtId(set_, remove)
    ensures updated.None? ==> store.State() == old(store.State())
    ensures updated.Some? ==>
              var before := old(Live(store.State(), cid));
              && Live(store.State(), cid) == PatchedAll(before, filter, set_, remove)
              && MatchesPatched(before, Live(store.State(), cid), filter, set_, remove)
              && updated.value == if set_ == map[] && remove == {} then 0 else |Matches(before, filter)|
  {
    ghost var m := store.State();
    ghost var before := Live(m, cid);
    UpdateStarts(m, cid, filter, set_, remove);
    hide MatchesPatched, PatchedAll, Live, ExtOk, Matches, Updating, OnlyChanges, CollOk, ApplyAll, Store.Valid;
    if TouchesExtId(set_, remove) {
      return None;
    }
    if set_ == map[] && remove == {} {
      NothingToPatch(before, filter);
      return Some(0);
    }
    var count: nat := 0;
    var cursor: Option<RecordId> := None;
    ghost var upto: Option<Id> := None;
    while true
      invariant store.Valid() && Updating(store.State(), cid, before, filter, set_, remove, upto, cursor, count)
      invariant OnlyChanges(m, store.State(), cid)
      decreases |AheadOf(before, filter, upto)|
    {
      UpdatingFacts(store.State(), cid, before, filter, set_, remove, upto, cursor, count);
      var after := if cursor.None? then None else Resolve(store.collections[cid], cursor.value);
      var page := Scan(store, cid, filter, Some(UPDATE_CHUNK), after);
      ghost var m1 := store.State();
      if page == [] {
        PageFacts(m1, cid, before, filter, set_, remove, upto, page);
        UpdateEnds(m1, cid, before, filter, set_, remove, upto, cursor, count);
        return Some(count);
      }
      var last := page[|page| - 1];
      var n := WriteMetadataBatch(store, cid, page, set_, remove);
      UpdateAdvances(m1, store.State(), cid, before, filter, set_, remove, upto, cursor, count, page, last.0);
      ChangesChain(m, m1, store.State(), cid);
      cursor, upto := Some(RecordIdOf(last.0, last.1.metadata)), Some(last.0);
      count := count + n;
    }
  }

  lemma UpdatingFacts(m: Mem, cid: Cid, before: map<Id, StoredRecord>, filter: Filter, set_: Metadata,
        remove: set<string>, upto: Option<Id>, cursor: Option<RecordId>, updated: nat)
    requires Updating(m, cid, before, filter, set_, remove, upto, cursor, updated)
    ensures cid in m.cols && CollOk(m, cid) && MemOk(m) && Live(m, cid) == PatchedTo(before, filter, set_, remove, upto)
    ensures (if cursor.None? then None else Resolve(m.cols[cid], cursor.value)) == upto
  {
  }

  lemma NothingToPatch(before: map<Id, StoredRecord>, filter: Filter)
    ensures PatchedAll(before, filter, map[], {}) == before && MatchesPatched(before, before, filter, map[], {})
  {
    hide MatchesPatched;
    AllPatched(before, filter, map[], {});
    forall id | id in before ensures PatchedAll(before, filter, map[], {})[id] == before[id] {
      assert Patched(before[id].metadata, map[], {}) == before[id].metadata;
    }
  }
}
