/** Immutable segments: rows in ascending id order, sorted delete markers, binary search, merging. */
module Segments {
  import opened Records
  import opened Memtables
  import opened Layers

  ghost predicate Ascending(s: seq<Id>) {
    forall i, j :: 0 <= i < j < |s| ==> s[i] < s[j]
  }

  lemma HeadIsElement(s: seq<Id>)
    requires s != []
    ensures s[0] in Elements(s)
  {
  }

  /** Two ascending sequences of the same ids are the same sequence. */
  lemma {:induction false} AscendingUnique(a: seq<Id>, b: seq<Id>)
    requires Ascending(a) && Ascending(b) && Elements(a) == Elements(b)
    ensures a == b
  {
    if a == [] {
      if b != [] {
        HeadIsElement(b);
      }
    } else {
      assert a[0] in Elements(a) && a[0] in Elements(b);
      assert b[0] in Elements(b) && b[0] in Elements(a);
      assert a[0] == b[0];
      forall x | x in Elements(a[1..]) ensures x in Elements(b[1..]) {
        assert x in Elements(b);
      }
      forall x | x in Elements(b[1..]) ensures x in Elements(a[1..]) {
        assert x in Elements(a);
      }
      AscendingUnique(a[1..], b[1..]);
    }
  }

  ghost function Least(s: set<Id>): (x: Id)
    requires s != {}
    ensures x in s && forall y :: y in s ==> x <= y
  {
    var x :| x in s;
    if s == {x} then x else
      var m := Least(s - {x});
      assert forall y :: y in s ==> y == x || y in s - {x};
      if x <= m then x else m
  }

  lemma ConsSorted(x: Id, rest: seq<Id>, s: set<Id>)
    requires x in s && forall y :: y in s ==> x <= y
    requires Ascending(rest) && Elements(rest) == s - {x}
    ensures Ascending([x] + rest) && Elements([x] + rest) == s
  {
    var r := [x] + rest;
    forall i, j | 0 <= i < j < |r| ensures r[i] < r[j] {
      assert r[j] == rest[j - 1] && r[j] in Elements(rest);
    }
    forall y | y in s ensures y in r {
      if y != x {
        assert y in Elements(rest);
        var i :| 0 <= i < |rest| && rest[i] == y;
        assert r[i + 1] == y;
      } else {
        assert r[0] == y;
      }
    }
    forall y | y in r ensures y in s {
      var i :| 0 <= i < |r| && r[i] == y;
      if i > 0 {
        assert rest[i - 1] in Elements(rest);
      }
    }
  }

  /** The ids of a set in ascending order. */
  ghost function SortedIds(s: set<Id>): (r: seq<Id>)
    ensures Ascending(r) && Elements(r) == s
  {
    if s == {} then [] else
      var x := Least(s);
      var rest := SortedIds(s - {x});
      ConsSorted(x, rest, s);
      [x] + rest
  }

  ghost function IndexOf(s: seq<Id>, x: Id): (i: nat)
    requires x in s
    ensures i < |s| && s[i] == x
  {
    var i :| 0 <= i < |s| && s[i] == x;
    i
  }

  /** A segment as stored: parallel columns of ids and records, and a sorted list of delete markers. */
  datatype Segment = Segment(segId: nat, ids: seq<Id>, recs: seq<StoredRecord>, tombstones: seq<Id>) {
    ghost predicate Valid() {
      && |recs| == |ids|
      && Ascending(ids) && Ascending(tombstones)
      && Elements(ids) !! Elements(tombstones)
    }

    /** The value of a segment: the same kind of table a memtable holds. */
    ghost function Tbl(): Table {
      if |recs| == |ids|
      then Table(map id | id in ids :: recs[IndexOf(ids, id)], Elements(tombstones))
      else EMPTY_TABLE
    }

    lemma TblRow(i: nat)
      requires Valid() && i < |ids|
      ensures ids[i] in Tbl().rows && Tbl().rows[ids[i]] == recs[i]
    {
      assert ids[i] in ids;
      assert IndexOf(ids, ids[i]) == i;
    }

    lemma TblFacts()
      requires Valid()
      ensures Tbl().Valid()
      ensures Tbl().rows.Keys == Elements(ids) && Tbl().deletes == Elements(tombstones)
    {
    }
  }

  /** What `SegmentWriter::write` produces for a memtable value: rows and markers in id order. */
  ghost function Written(segId: nat, t: Table): (seg: Segment)
    requires t.Valid()
    ensures seg.Valid() && seg.segId == segId
  {
    var ids := SortedIds(t.rows.Keys);
    assert forall i :: 0 <= i < |ids| ==> ids[i] in Elements(ids);
    Segment(segId, ids, seq(|ids|, i requires 0 <= i < |ids| => t.rows[ids[i]]), SortedIds(t.deletes))
  }

  /** Writing a memtable as a segment loses nothing: the segment has the memtable's value. */
  lemma WrittenRoundTrip(segId: nat, t: Table)
    requires t.Valid()
    ensures Written(segId, t).Tbl() == t
  {
    var seg := Written(segId, t);
    seg.TblFacts();
    forall id | id in t.rows ensures id in seg.Tbl().rows && seg.Tbl().rows[id] == t.rows[id] {
      assert id in Elements(seg.ids);
      var i :| 0 <= i < |seg.ids| && seg.ids[i] == id;
      seg.TblRow(i);
    }
  }

  /** The writer's loop over the sorted rows, with the library sort taken as `SortedIds`. */
  method WriteSegment(segId: nat, t: Table, sortedIds: seq<Id>, sortedDeletes: seq<Id>) returns (seg: Segment)
    requires t.Valid()
    requires Ascending(sortedIds) && Elements(sortedIds) == t.rows.Keys
    requires Ascending(sortedDeletes) && Elements(sortedDeletes) == t.deletes
    ensures seg == Written(segId, t)
    ensures seg.Valid() && seg.Tbl() == t
  {
    hide SortedIds;
    var recs := [];
    for i := 0 to |sortedIds|
      invariant |recs| == i
      invariant forall k :: 0 <= k < i ==> sortedIds[k] in t.rows && recs[k] == t.rows[sortedIds[k]]
    {
      assert sortedIds[i] in Elements(sortedIds);
      recs := recs + [t.rows[sortedIds[i]]];
    }
    AscendingUnique(sortedIds, SortedIds(t.rows.Keys));
    AscendingUnique(sortedDeletes, SortedIds(t.deletes));
    WrittenRoundTrip(segId, t);
    seg := Segment(segId, sortedIds, recs, sortedDeletes);
    assert recs == Written(segId, t).recs;
  }

  /** Binary search in an ascending column (`row_of` and `is_tombstoned` share this loop). */
  method Search(column: seq<Id>, id: Id) returns (row: Option<nat>)
    requires Ascending(column)
    ensures row.Some? ==> row.value < |column| && column[row.value] == id
    ensures row.None? ==> id !in column
  {
    var lo, hi := 0, |column|;
    while lo < hi
      invariant 0 <= lo <= hi <= |column|
      invariant forall i :: 0 <= i < lo ==> column[i] < id
      invariant forall i :: hi <= i < |column| ==> column[i] > id
    {
      var mid := (lo + hi) / 2;
      if column[mid] == id {
        return Some(mid);
      } else if column[mid] < id {
        lo := mid + 1;
      } else {
        hi := mid;
      }
    }
    return None;
  }

  /** Point lookup in one segment: the early-return body of the segment loop of `current_record`. */
  method Probe(seg: Segment, id: Id) returns (decided: bool, rec: Option<StoredRecord>)
    requires seg.Valid()
    ensures decided <==> seg.Tbl().Mentions(id)
    ensures decided ==> rec == Lookup([seg.Tbl()], id)
  {
    seg.TblFacts();
    var t := Search(seg.tombstones, id);
    if t.Some? {
      assert id in Elements(seg.tombstones);
      return true, None;
    }
    var row := Search(seg.ids, id);
    if row.Some? {
      seg.TblRow(row.value);
      assert id in Elements(seg.ids);
      return true, Some(seg.recs[row.value]);
    }
    return false, None;
  }

  ghost predicate AllValid(segs: seq<Segment>) {
    forall i :: 0 <= i < |segs| ==> segs[i].Valid()
  }

  /** The values of a list of segments. */
  ghost function Tbls(segs: seq<Segment>): (t: seq<Table>)
    ensures |t| == |segs|
    ensures forall i :: 0 <= i < |segs| ==> t[i] == segs[i].Tbl()
  {
    seq(|segs|, i requires 0 <= i < |segs| => segs[i].Tbl())
  }

  lemma {:induction false} LookupSnoc(front: seq<Table>, t: Table, id: Id)
    ensures Lookup(front + [t], id) ==
            if Silent(front, id) && id !in t.deletes && id in t.rows then Some(t.rows[id]) else Lookup(front, id)
    ensures Silent(front + [t], id) <==> Silent(front, id) && !t.Mentions(id)
  {
    LookupAppend(front, [t], id);
    assert [t][1..] == [];
    var all := front + [t];
    assert forall i :: 0 <= i < |front| ==> all[i] == front[i];
    assert all[|front|] == t;
    if Silent(front, id) {
      SilentNone(front, id);
    }
  }

  lemma {:induction false} SilentNone(layers: seq<Table>, id: Id)
    requires Silent(layers, id)
    ensures Lookup(layers, id) == None
  {
    if layers != [] {
      assert !layers[0].Mentions(id);
      forall i | 0 <= i < |layers[1..]| ensures !layers[1..][i].Mentions(id) {
        assert layers[1..][i] == layers[i + 1];
      }
      SilentNone(layers[1..], id);
    }
  }

  lemma {:induction false} DeletesSnoc(front: seq<Table>, t: Table)
    ensures AllDeletes(front + [t]) == AllDeletes(front) + t.deletes
  {
    if front == [] {
      assert front + [t] == [t];
      assert [t][1..] == [];
    } else {
      assert (front + [t])[1..] == front[1..] + [t];
      DeletesSnoc(front[1..], t);
    }
  }

  /** What the two nested merge loops have built after `front` and the first `row` rows of `t`. */
  ghost predicate MergeState(front: seq<Table>, seg: Segment, row: nat, rows: map<Id, StoredRecord>, seen: set<Id>,
      deleted: set<Id>)
    requires seg.Valid() && row <= |seg.ids|
  {
    && deleted == AllDeletes(front)
    && (forall id :: id in seen <==> id in AllRows(front) || id in seg.ids[..row])
    && (forall id :: id in rows <==> Lookup(front, id).Some? || (Silent(front, id) && id in seg.ids[..row]))
    && (forall id :: id in rows && Lookup(front, id).Some? ==> Lookup(front, id) == Some(rows[id]))
    && (forall i :: 0 <= i < row && Silent(front, seg.ids[i]) ==> seg.ids[i] in rows && rows[seg.ids[i]] == seg.recs[i])
  }

  lemma {:induction false} SilentSplit(front: seq<Table>, id: Id)
    ensures Silent(front, id) <==> id !in AllRows(front) && id !in AllDeletes(front)
  {
    if front != [] {
      SilentSplit(front[1..], id);
      assert front == [front[0]] + front[1..];
      SilentCons(front[0], front[1..], id);
    }
  }

  /** One row of the merge: `seen.insert(id) && !deleted.contains(id)` is the liveness test. */
  lemma MergeRowStep(front: seq<Table>, seg: Segment, row: nat, rows: map<Id, StoredRecord>, seen: set<Id>,
      deleted: set<Id>)
    requires seg.Valid() && row < |seg.ids|
    requires MergeState(front, seg, row, rows, seen, deleted)
    ensures var id := seg.ids[row];
            var rows' := if id !in seen && id !in deleted then rows[id := seg.recs[row]] else rows;
            MergeState(front, seg, row + 1, rows', seen + {id}, deleted)
  {
    var id := seg.ids[row];
    SilentSplit(front, id);
    assert seg.ids[..row + 1] == seg.ids[..row] + [id];
    assert id !in seg.ids[..row];
    if Silent(front, id) {
      SilentNone(front, id);
    }
  }

  /** All rows of one segment merged: the state is that of the longer front. */
  lemma MergeSegmentDone(front: seq<Table>, seg: Segment, rows: map<Id, StoredRecord>, seen: set<Id>, deleted: set<Id>)
    requires seg.Valid() && MergeState(front, seg, |seg.ids|, rows, seen, deleted)
    ensures rows == Contents(front + [seg.Tbl()])
    ensures deleted + Elements(seg.tombstones) == AllDeletes(front + [seg.Tbl()])
    ensures seen == AllRows(front + [seg.Tbl()])
  {
    var t := seg.Tbl();
    seg.TblFacts();
    DeletesSnoc(front, t);
    AllRowsSnoc(front, t);
    assert seg.ids[..|seg.ids|] == seg.ids;
    MergedRows(front, seg, rows, seen, deleted);
  }

  lemma MergedRows(front: seq<Table>, seg: Segment, rows: map<Id, StoredRecord>, seen: set<Id>, deleted: set<Id>)
    requires seg.Valid() && MergeState(front, seg, |seg.ids|, rows, seen, deleted)
    ensures rows == Contents(front + [seg.Tbl()])
  {
    hide AllDeletes, AllRows;
    var t := seg.Tbl();
    var all := front + [t];
    seg.TblFacts();
    assert seg.ids[..|seg.ids|] == seg.ids;
    forall id ensures id in rows <==> Lookup(all, id).Some? {
      LookupSnoc(front, t, id);
      assert id in t.rows <==> id in seg.ids;
    }
    forall id | id in rows ensures Lookup(all, id) == Some(rows[id]) {
      LookupSnoc(front, t, id);
      if !Lookup(front, id).Some? {
        var i :| 0 <= i < |seg.ids| && seg.ids[i] == id;
        seg.TblRow(i);
      } else if Silent(front, id) {
        SilentNone(front, id);
      }
    }
  }

  lemma {:induction false} AllRowsSnoc(front: seq<Table>, t: Table)
    ensures AllRows(front + [t]) == AllRows(front) + t.rows.Keys
  {
    if front == [] {
      assert front + [t] == [t];
      assert [t][1..] == [];
    } else {
      assert (front + [t])[1..] == front[1..] + [t];
      AllRowsSnoc(front[1..], t);
    }
  }

  /** The inner loop over one segment's rows. */
  method MergeRows(ghost front: seq<Table>, seg: Segment, rows0: map<Id, StoredRecord>, seen0: set<Id>,
      deleted: set<Id>)
    returns (rows: map<Id, StoredRecord>, seen: set<Id>)
    requires seg.Valid()
    requires rows0 == Contents(front) && seen0 == AllRows(front) && deleted == AllDeletes(front)
    ensures rows == Contents(front + [seg.Tbl()])
    ensures seen == AllRows(front + [seg.Tbl()])
    ensures deleted + Elements(seg.tombstones) == AllDeletes(front + [seg.Tbl()])
  {
    rows, seen := rows0, seen0;
    assert MergeState(front, seg, 0, rows, seen, deleted);
    for row := 0 to |seg.ids|
      invariant MergeState(front, seg, row, rows, seen, deleted)
    {
      var id := seg.ids[row];
      MergeRowStep(front, seg, row, rows, seen, deleted);
      if id !in seen && id !in deleted {
        rows := rows[id := seg.recs[row]];
      }
      seen := seen + {id};
    }
    MergeSegmentDone(front, seg, rows, seen, deleted);
  }

  /** `for_each_tombstone`: add one segment's delete markers. */
  method AddTombstones(deleted0: set<Id>, tombstones: seq<Id>) returns (deleted: set<Id>)
    ensures deleted == deleted0 + Elements(tombstones)
  {
    deleted := deleted0;
    for i := 0 to |tombstones|
      invariant deleted == deleted0 + Elements(tombstones[..i])
    {
      assert Elements(tombstones[..i + 1]) == Elements(tombstones[..i]) + {tombstones[i]};
      deleted := deleted + {tombstones[i]};
    }
    assert tombstones[..|tombstones|] == tombstones;
  }

  /**
   * Phase 2 of `compact_collection`: scan the run newest to oldest, keep the first live row of
   * every id, collect delete markers, and carry them when older segments remain.
   */
  method MergeRun(run: seq<Segment>, olderRemains: bool) returns (merged: Table)
    requires AllValid(run)
    ensures merged == Merge(Tbls(run), olderRemains)
    ensures merged.Valid()
  {
    var rows: map<Id, StoredRecord> := map[];
    var seen: set<Id> := {};
    var deleted: set<Id> := {};
    for s := 0 to |run|
      invariant rows == Contents(Tbls(run[..s]))
      invariant seen == AllRows(Tbls(run[..s]))
      invariant deleted == AllDeletes(Tbls(run[..s]))
    {
      rows, seen := MergeRows(Tbls(run[..s]), run[s], rows, seen, deleted);
      deleted := AddTombstones(deleted, run[s].tombstones);
      assert Tbls(run[..s + 1]) == Tbls(run[..s]) + [run[s].Tbl()];
    }
    assert run[..|run|] == run;
    merged := Table(rows, if olderRemains then deleted - rows.Keys else {});
  }
}
