/**
 * Newest-wins resolution over a newest-first list of tables, the two read paths
 * built on it, and the newest-wins merge used by compaction.
 */
module Layers {
  import opened Records
  import opened Memtables

  /** The record `id` resolves to: the newest table that mentions it decides. */
  function Lookup(layers: seq<Table>, id: Id): Option<StoredRecord> {
    if layers == [] then None
    else if id in layers[0].deletes then None
    else if id in layers[0].rows then Some(layers[0].rows[id])
    else Lookup(layers[1..], id)
  }

  /** Every id that is a row of some table. */
  ghost function AllRows(layers: seq<Table>): set<Id> {
    if layers == [] then {} else layers[0].rows.Keys + AllRows(layers[1..])
  }

  lemma {:induction false} LookupInAllRows(layers: seq<Table>, id: Id)
    requires Lookup(layers, id).Some?
    ensures id in AllRows(layers)
  {
    if id !in layers[0].rows {
      LookupInAllRows(layers[1..], id);
    }
  }

  /** The logical contents: every id that resolves to a record, with that record. */
  ghost function Contents(layers: seq<Table>): (c: map<Id, StoredRecord>)
    ensures forall id :: id in c <==> Lookup(layers, id).Some?
    ensures forall id :: id in c ==> Lookup(layers, id) == Some(c[id])
  {
    forall id | Lookup(layers, id).Some? ensures id in AllRows(layers) {
      LookupInAllRows(layers, id);
    }
    map id | id in AllRows(layers) && Lookup(layers, id).Some? :: Lookup(layers, id).value
  }

  lemma SameLookupSameContents(a: seq<Table>, b: seq<Table>)
    requires forall id :: Lookup(a, id) == Lookup(b, id)
    ensures Contents(a) == Contents(b)
  {
    forall id | id in Contents(a)
      ensures id in Contents(b) && Contents(a)[id] == Contents(b)[id]
    {
      assert Lookup(a, id) == Lookup(b, id);
    }
    forall id | id in Contents(b) ensures id in Contents(a) {
      assert Lookup(a, id) == Lookup(b, id);
    }
  }

  /** No table of the list decides `id`. */
  ghost predicate Silent(layers: seq<Table>, id: Id) {
    forall i :: 0 <= i < |layers| ==> !layers[i].Mentions(id)
  }

  lemma SilentCons(t: Table, rest: seq<Table>, id: Id)
    ensures Silent([t] + rest, id) <==> !t.Mentions(id) && Silent(rest, id)
  {
    var all := [t] + rest;
    if !t.Mentions(id) && Silent(rest, id) {
      forall i | 0 <= i < |all| ensures !all[i].Mentions(id) {
        assert all[i] == if i == 0 then t else rest[i - 1];
      }
    }
    if Silent(all, id) {
      assert all[0] == t;
      forall i | 0 <= i < |rest| ensures !rest[i].Mentions(id) {
        assert all[i + 1] == rest[i];
      }
    }
  }

  lemma {:induction false} LookupAppend(a: seq<Table>, b: seq<Table>, id: Id)
    ensures Lookup(a + b, id) == if Silent(a, id) then Lookup(b, id) else Lookup(a, id)
  {
    if a == [] {
      assert a + b == b;
    } else {
      assert (a + b)[1..] == a[1..] + b;
      LookupAppend(a[1..], b, id);
      SilentCons(a[0], a[1..], id);
      assert a == [a[0]] + a[1..];
    }
  }

  /** Lookup depends on the part of the list in front of `b` only through what it decides. */
  lemma LookupPrefixChange(a: seq<Table>, a': seq<Table>, b: seq<Table>, id: Id)
    requires Silent(a, id) <==> Silent(a', id)
    requires Lookup(a, id) == Lookup(a', id)
    ensures Lookup(a + b, id) == Lookup(a' + b, id)
  {
    LookupAppend(a, b, id);
    LookupAppend(a', b, id);
  }

  /**
   * The two read paths agree: an id resolves to a record exactly when one of its rows passes
   * the liveness test of `is_live` (no newer source mentions the id), and that row is the record.
   */
  lemma {:induction false} LiveSomewhere(layers: seq<Table>, id: Id)
    requires forall t :: t in layers ==> t.Valid()
    ensures Lookup(layers, id).Some? <==>
         exists i :: 0 <= i < |layers| && id in layers[i].rows && Silent(layers[..i], id)
    ensures forall i :: 0 <= i < |layers| && id in layers[i].rows && Silent(layers[..i], id) ==>
                          Lookup(layers, id) == Some(layers[i].rows[id])
  {
    forall i | 0 <= i < |layers| && id in layers[i].rows && Silent(layers[..i], id)
      ensures Lookup(layers, id) == Some(layers[i].rows[id])
    {
      LookupAppend(layers[..i], layers[i..], id);
      assert layers[..i] + layers[i..] == layers;
      assert layers[i] in layers && layers[i].Valid();
    }
    if Lookup(layers, id).Some? {
      if id in layers[0].rows {
        assert Silent(layers[..0], id);
      } else {
        var rest := layers[1..];
        LiveSomewhere(rest, id);
        var i :| 0 <= i < |rest| && id in rest[i].rows && Silent(rest[..i], id);
        assert layers[..i + 1] == [layers[0]] + rest[..i];
        assert Silent(layers[..i + 1], id);
      }
    }
  }

  /** `current_record` / `LiveView::get`: the early-return loop over the sources. */
  method Get(layers: seq<Table>, id: Id) returns (r: Option<StoredRecord>)
    ensures r == Lookup(layers, id)
  {
    for i := 0 to |layers|
      invariant Lookup(layers, id) == Lookup(layers[i..], id)
    {
      if id in layers[i].deletes {
        return None;
      }
      if id in layers[i].rows {
        return Some(layers[i].rows[id]);
      }
    }
    return None;
  }

  /**
   * `LiveView::is_live`: `rank` counts the memtables first and the segments after them.
   */
  method IsLive(memtables: seq<Table>, segments: seq<Table>, id: Id, rank: nat) returns (live: bool)
    requires rank <= |memtables| + |segments|
    ensures live <==> Silent((memtables + segments)[..rank], id)
  {
    var mtCount := |memtables|;
    var upto := if rank < mtCount then rank else mtCount;
    for i := 0 to upto
      invariant Silent(memtables[..i], id)
    {
      if id in memtables[i].rows || id in memtables[i].deletes {
        assert (memtables + segments)[..rank][i] == memtables[i];
        return false;
      }
      assert memtables[..i + 1] == memtables[..i] + [memtables[i]];
    }
    if rank > mtCount {
      for i := 0 to rank - mtCount
        invariant Silent(segments[..i], id)
      {
        if id in segments[i].rows || id in segments[i].deletes {
          assert (memtables + segments)[..rank][mtCount + i] == segments[i];
          return false;
        }
        assert segments[..i + 1] == segments[..i] + [segments[i]];
      }
      assert (memtables + segments)[..rank] == memtables + segments[..rank - mtCount];
    } else {
      assert (memtables + segments)[..rank] == memtables[..rank];
    }
    return true;
  }

  // ---------------------------------------------------------------------
  // Compaction: the newest-wins merge of a newest-first run
  // ---------------------------------------------------------------------

  ghost function AllDeletes(run: seq<Table>): set<Id> {
    if run == [] then {} else run[0].deletes + AllDeletes(run[1..])
  }

  /**
   * What compaction leaves of a run: the run's contents and, when older segments remain,
   * the run's delete markers for ids that have no surviving row.
   */
  ghost function Merge(run: seq<Table>, olderRemains: bool): (t: Table)
    ensures t.Valid()
  {
    var rows := Contents(run);
    Table(rows, if olderRemains then AllDeletes(run) - rows.Keys else {})
  }

  lemma {:induction false} MergeDecides(run: seq<Table>, id: Id)
    ensures Silent(run, id) <==> id !in Contents(run) && id !in AllDeletes(run)
  {
    if run != [] {
      var rest := run[1..];
      MergeDecides(rest, id);
      assert run == [run[0]] + rest;
      SilentCons(run[0], rest, id);
      assert id in Contents(run) <==> Lookup(run, id).Some?;
      assert id in Contents(rest) <==> Lookup(rest, id).Some?;
    }
  }

  /** A partial merge changes no lookup, whatever older tables follow the run. */
  lemma PartialMergePreserves(run: seq<Table>, older: seq<Table>, id: Id)
    ensures Lookup([Merge(run, true)] + older, id) == Lookup(run + older, id)
  {
    var m := Merge(run, true);
    MergeDecides(run, id);
    SilentCons(m, [], id);
    assert [m] + [] == [m];
    assert Lookup([m], id) == Lookup(run, id) by {
      assert id in Contents(run) <==> Lookup(run, id).Some?;
      assert Lookup([m], id) == if id in m.deletes then None else if id in m.rows then Some(m.rows[id]) else None;
    }
    LookupPrefixChange([m], run, older, id);
  }

  /** A full merge may drop every delete marker: its rows are exactly the live rows of the run. */
  lemma FullMergePreserves(run: seq<Table>, id: Id)
    ensures Lookup([Merge(run, false)], id) == Lookup(run, id)
    ensures id in Merge(run, false).rows <==> Lookup(run, id).Some?
  {
    var m := Merge(run, false);
    assert id in Contents(run) <==> Lookup(run, id).Some?;
    assert Lookup([m][1..], id) == None;
  }

  /**
   * Dropping delete markers when older tables remain is wrong: a row that the run
   * deleted comes back. This is why a partial merge carries them.
   */
  lemma DroppingMarkersResurrects(id: Id, rec: StoredRecord)
    ensures var run := [Table(map[], {id})];
            var older := [Table(map[id := rec], {})];
            Lookup([Merge(run, false)] + older, id) != Lookup(run + older, id)
  {
    var run := [Table(map[], {id})];
    var older := [Table(map[id := rec], {})];
    FullMergePreserves(run, id);
    assert Lookup(run, id) == None;
    var m := Merge(run, false);
    assert Silent([m], id);
    LookupAppend([m], older, id);
    LookupAppend(run, older, id);
    assert run[0].Mentions(id);
  }
}
