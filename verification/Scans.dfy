/** `walk`: the k-way merge over ascending id lists that lists live matching records in id order, and paging with it. */
module Scans {
  import opened Records
  import opened Memtables
  import opened Layers
  import opened Segments

  /** Live matching ids above a cursor. */
  ghost function Matching(layers: seq<Table>, filter: Filter, after: Option<Id>): set<Id> {
    var c := Contents(layers);
    set id | id in c && filter(c[id].metadata) && (after.Some? ==> id > after.value)
  }

  /** The first `n` of a list, or all of it. */
  function Take<T>(s: seq<T>, n: nat): seq<T> {
    if n < |s| then s[..n] else s
  }

  /** What one call returns: a limit of zero is no limit at all. */
  ghost function Page(layers: seq<Table>, filter: Filter, limit: Option<nat>, after: Option<Id>): seq<Id> {
    var all := SortedIds(Matching(layers, filter, after));
    if limit.Some? && limit.value > 0 then Take(all, limit.value) else all
  }

  function Ids(out: seq<(Id, StoredRecord)>): (ids: seq<Id>)
    ensures |ids| == |out|
  {
    seq(|out|, i requires 0 <= i < |out| => out[i].0)
  }

  /** The ids of every source in ascending order: sorted memtables and segment columns. */
  ghost predicate Columns(layers: seq<Table>, sources: seq<seq<Id>>) {
    && |sources| == |layers|
    && forall i :: 0 <= i < |sources| ==> Ascending(sources[i]) && Elements(sources[i]) == layers[i].rows.Keys
  }

  /** `partition_point`: how many ids are at most `a`. */
  method PartitionPoint(ids: seq<Id>, a: Id) returns (n: nat)
    requires Ascending(ids)
    ensures n <= |ids| && (forall j :: 0 <= j < n ==> ids[j] <= a) && forall j :: n <= j < |ids| ==> ids[j] > a
  {
    var lo, hi := 0, |ids|;
    while lo < hi
      invariant 0 <= lo <= hi <= |ids|
      invariant (forall j :: 0 <= j < lo ==> ids[j] <= a) && forall j :: hi <= j < |ids| ==> ids[j] > a
    {
      var mid := (lo + hi) / 2;
      if ids[mid] <= a {
        lo := mid + 1;
      } else {
        hi := mid;
      }
    }
    n := lo;
  }

  ghost predicate CursorsOk(sources: seq<seq<Id>>, cursors: seq<nat>) {
    |cursors| == |sources| && forall i :: 0 <= i < |sources| ==> cursors[i] <= |sources[i]|
  }

  /** Everything up to `floor` has been passed; nothing below it remains. */
  ghost predicate PassedTo(sources: seq<seq<Id>>, cursors: seq<nat>, floor: int, strict: bool)
    requires CursorsOk(sources, cursors)
  {
    forall i, j :: 0 <= i < |sources| && 0 <= j < |sources[i]| ==>
      if j < cursors[i] then sources[i][j] <= floor
      else if strict then sources[i][j] > floor else sources[i][j] >= floor
  }

  /** The heap holds the next id of every source that has one. */
  ghost predicate HeapOk(sources: seq<seq<Id>>, cursors: seq<nat>, heap: set<(Id, nat)>)
    requires CursorsOk(sources, cursors)
  {
    forall id: Id, i: nat :: (id, i) in heap
         <==> i < |sources| && cursors[i] < |sources[i]| && sources[i][cursors[i]] == id
  }

  predicate Before(a: (Id, nat), b: (Id, nat)) {
    a.0 < b.0 || (a.0 == b.0 && a.1 < b.1)
  }

  ghost predicate IsMin(heap: set<(Id, nat)>, x: (Id, nat)) {
    x in heap && forall y :: y in heap && y != x ==> Before(x, y)
  }

  lemma MinExists(heap: set<(Id, nat)>) returns (least: (Id, nat))
    requires heap != {}
    ensures IsMin(heap, least)
  {
    var x :| x in heap;
    least := x;
    if heap != {x} {
      var m := MinExists(heap - {x});
      if Before(m, x) {
        least := m;
      }
      forall y | y in heap && y != least ensures Before(least, y) {
        assert y == x || y in heap - {x};
      }
    }
  }

  ghost function Remaining(sources: seq<seq<Id>>, cursors: seq<nat>): nat
    requires CursorsOk(sources, cursors)
  {
    if sources == [] then 0
    else |sources[|sources| - 1]| - cursors[|sources| - 1] + Remaining(sources[..|sources| - 1],
        cursors[..|sources| - 1])
  }

  lemma {:induction false} RemainingDrops(sources: seq<seq<Id>>, cursors: seq<nat>, i: nat)
    requires CursorsOk(sources, cursors) && i < |sources| && cursors[i] < |sources[i]|
    ensures Remaining(sources, cursors[i := cursors[i] + 1]) == Remaining(sources, cursors) - 1
  {
    var n := |sources| - 1;
    var cursors' := cursors[i := cursors[i] + 1];
    if i < n {
      RemainingDrops(sources[..n], cursors[..n], i);
      assert cursors'[..n] == cursors[..n][i := cursors[i] + 1];
    } else {
      assert cursors'[..n] == cursors[..n];
    }
  }

  /** What has been emitted so far: exactly the matching ids up to `floor`, in order. */
  ghost predicate Emitted(layers: seq<Table>, filter: Filter, after: Option<Id>, floor: int,
      out: seq<(Id, StoredRecord)>) {
    && Ascending(Ids(out))
    && (forall id :: id in Matching(layers, filter, after) && id <= floor ==> id in Ids(out))
    && forall i :: 0 <= i < |out| ==>
         out[i].0 in Matching(layers, filter, after) && out[i].0 <= floor && Lookup(layers, out[i].0) == Some(out[i].1)
  }

  lemma EmitOne(layers: seq<Table>, filter: Filter, after: Option<Id>, floor: int, out: seq<(Id, StoredRecord)>,
      id: Id, rec: StoredRecord)
    requires Emitted(layers, filter, after, floor, out) && floor < id && Lookup(layers, id) == Some(rec)
    requires id in Matching(layers, filter, after)
    requires forall x :: x in Matching(layers, filter, after) && floor < x <= id ==> x == id
    ensures Emitted(layers, filter, after, id, out + [(id, rec)])
  {
    var longer := out + [(id, rec)];
    var m := Matching(layers, filter, after);
    hide Matching;
    forall i, j | 0 <= i < j < |longer| ensures Ids(longer)[i] < Ids(longer)[j] {
      assert i < |out| && Ids(longer)[i] == Ids(out)[i];
      if j < |out| {
        assert Ids(longer)[j] == Ids(out)[j];
      }
    }
    forall x | x in m && x <= id ensures x in Ids(longer) {
      if x == id {
        assert Ids(longer)[|out|] == id;
      } else {
        assert x in Ids(out);
        var i :| 0 <= i < |out| && Ids(out)[i] == x;
        assert Ids(longer)[i] == x;
      }
    }
  }

  lemma SkipOne(layers: seq<Table>, filter: Filter, after: Option<Id>, floor: int, out: seq<(Id, StoredRecord)>, id: Id)
    requires Emitted(layers, filter, after, floor, out) && floor < id && id !in Matching(layers, filter, after)
    requires forall x :: x in Matching(layers, filter, after) && floor < x <= id ==> x == id
    ensures Emitted(layers, filter, after, id, out)
  {
    hide Matching;
  }

  /** The id popped is the next one: no matching id lies between the last one and it. */
  lemma NothingBetween(layers: seq<Table>, sources: seq<seq<Id>>, cursors: seq<nat>, heap: set<(Id, nat)>, floor: int,
        strict: bool, filter: Filter, after: Option<Id>, id: Id, source: nat, x: Id)
    requires Columns(layers, sources) && CursorsOk(sources, cursors) && PassedTo(sources, cursors, floor, strict)
        && HeapOk(sources, cursors, heap)
    requires IsMin(heap, (id, source))
    requires x in Matching(layers, filter, after) && floor < x
    ensures x >= id
  {
    LookupInAllRows(layers, x);
    RowOf(layers, x);
    var i :| 0 <= i < |layers| && x in layers[i].rows;
    assert x in Elements(sources[i]);
    var j :| 0 <= j < |sources[i]| && sources[i][j] == x;
    assert j >= cursors[i];
    var next := sources[i][cursors[i]];
    assert (next, i) in heap;
    assert next <= x;
  }

  lemma {:induction false} RowOf(layers: seq<Table>, id: Id)
    requires id in AllRows(layers)
    ensures exists i :: 0 <= i < |layers| && id in layers[i].rows
  {
    if id in layers[0].rows {
      assert id in layers[0].rows;
    } else {
      RowOf(layers[1..], id);
      var i :| 0 <= i < |layers[1..]| && id in layers[1..][i].rows;
      assert layers[i + 1] == layers[1..][i];
    }
  }

  lemma NextInHeap(sources: seq<seq<Id>>, cursors: seq<nat>, heap: set<(Id, nat)>, i: nat)
    requires CursorsOk(sources, cursors) && HeapOk(sources, cursors, heap) && i < |sources| && cursors[i] < |sources[i]|
    ensures heap != {}
  {
    assert (sources[i][cursors[i]], i) in heap;
  }

  /** When no source has anything left, everything has been emitted. */
  lemma AllEmitted(layers: seq<Table>, sources: seq<seq<Id>>, cursors: seq<nat>, heap: set<(Id, nat)>, floor: int,
      strict: bool, filter: Filter, after: Option<Id>, out: seq<(Id, StoredRecord)>)
    requires Columns(layers, sources) && CursorsOk(sources, cursors) && PassedTo(sources, cursors, floor, strict)
        && HeapOk(sources, cursors, heap) && heap == {}
    requires Emitted(layers, filter, after, floor, out)
    ensures Ids(out) == SortedIds(Matching(layers, filter, after))
  {
    forall x | x in Matching(layers, filter, after) ensures x in Ids(out) {
      LookupInAllRows(layers, x);
      RowOf(layers, x);
      var i :| 0 <= i < |layers| && x in layers[i].rows;
      assert x in Elements(sources[i]);
      var j :| 0 <= j < |sources[i]| && sources[i][j] == x;
      if cursors[i] < |sources[i]| {
        NextInHeap(sources, cursors, heap, i);
      }
    }
    forall x | x in Elements(Ids(out)) ensures x in Matching(layers, filter, after) {
      var i :| 0 <= i < |Ids(out)| && Ids(out)[i] == x;
    }
    assert Elements(Ids(out)) == Matching(layers, filter, after);
    AscendingUnique(Ids(out), SortedIds(Matching(layers, filter, after)));
  }

  /** What has been emitted is the beginning of the full list. */
  lemma EmittedPrefix(layers: seq<Table>, filter: Filter, after: Option<Id>, floor: int, out: seq<(Id, StoredRecord)>)
    requires Emitted(layers, filter, after, floor, out)
    ensures Ids(out) == Take(SortedIds(Matching(layers, filter, after)), |out|)
  {
    var all := SortedIds(Matching(layers, filter, after));
    var m := Matching(layers, filter, after);
    hide Matching, SortedIds;
    PrefixByBound(all, Ids(out), floor, m);
  }

  lemma {:induction false} PrefixByBound(all: seq<Id>, part: seq<Id>, floor: int, m: set<Id>)
    requires Ascending(all) && Elements(all) == m && Ascending(part)
    requires (forall x :: x in m && x <= floor ==> x in part) &&
         forall i :: 0 <= i < |part| ==> part[i] in m && part[i] <= floor
    ensures part == Take(all, |part|)
    decreases |all|
  {
    if all == [] {
      assert m == {};
    } else {
      HeadIsElement(all);
      if all[0] <= floor {
        assert all[0] in part;
        FirstEqual(all, part, m);
        PrefixByBound(all[1..], part[1..], floor, m - {all[0]}) by {
          TailElements(all, m);
          PartTail(all, part, floor, m);
        }
        assert all == [all[0]] + all[1..] && part == [part[0]] + part[1..];
      } else {
        NothingBelow(all, part, floor, m);
      }
    }
  }

  lemma FirstEqual(all: seq<Id>, part: seq<Id>, m: set<Id>)
    requires Ascending(all) && Elements(all) == m && Ascending(part) && all != [] && all[0] in part
    requires forall i :: 0 <= i < |part| ==> part[i] in m
    ensures part != [] && part[0] == all[0]
  {
    var i :| 0 <= i < |part| && part[i] == all[0];
    assert part[0] in m && part[0] in Elements(all);
    var j :| 0 <= j < |all| && all[j] == part[0];
  }

  lemma TailElements(all: seq<Id>, m: set<Id>)
    requires Ascending(all) && Elements(all) == m && all != []
    ensures Ascending(all[1..]) && Elements(all[1..]) == m - {all[0]}
  {
    forall x | x in m - {all[0]} ensures x in Elements(all[1..]) {
      assert x in Elements(all);
      var j :| 0 <= j < |all| && all[j] == x;
      assert all[1..][j - 1] == x;
    }
    forall x | x in Elements(all[1..]) ensures x in m - {all[0]} {
      var j :| 0 <= j < |all[1..]| && all[1..][j] == x;
      assert all[j + 1] == x && x in Elements(all);
    }
  }

  lemma PartTail(all: seq<Id>, part: seq<Id>, floor: int, m: set<Id>)
    requires Ascending(part) && part != [] && all != [] && part[0] == all[0]
    requires (forall x :: x in m && x <= floor ==> x in part) &&
         forall i :: 0 <= i < |part| ==> part[i] in m && part[i] <= floor
    ensures Ascending(part[1..])
    ensures forall x :: x in m - {all[0]} && x <= floor ==> x in part[1..]
    ensures forall i :: 0 <= i < |part[1..]| ==> part[1..][i] in m - {all[0]} && part[1..][i] <= floor
  {
    forall x | x in m - {all[0]} && x <= floor ensures x in part[1..] {
      var j :| 0 <= j < |part| && part[j] == x;
      assert part[1..][j - 1] == x;
    }
  }

  lemma NothingBelow(all: seq<Id>, part: seq<Id>, floor: int, m: set<Id>)
    requires Ascending(all) && Elements(all) == m && all != [] && all[0] > floor
    requires forall i :: 0 <= i < |part| ==> part[i] in m && part[i] <= floor
    ensures part == []
  {
    if part != [] {
      FirstIsLeast(all, m, part[0]);
    }
  }

  lemma FirstIsLeast(all: seq<Id>, m: set<Id>, x: Id)
    requires Ascending(all) && Elements(all) == m && x in m
    ensures all != [] && all[0] <= x
  {
    assert x in Elements(all);
    var j :| 0 <= j < |all| && all[j] == x;
  }

  /** `n` ids are passed over: those up to `after`, or none. */
  ghost predicate CursorAt(ids: seq<Id>, n: nat, after: Option<Id>) {
    && n <= |ids|
    && match after
       case None => n == 0
       case Some(a) => (forall j :: 0 <= j < n ==> ids[j] <= a) && forall j :: n <= j < |ids| ==> ids[j] > a
  }

  /** The cursors at the first id above `after`. */
  method StartCursors(sources: seq<seq<Id>>, after: Option<Id>) returns (cursors: seq<nat>)
    requires forall i :: 0 <= i < |sources| ==> Ascending(sources[i])
    ensures CursorsOk(sources, cursors)
    ensures PassedTo(sources, cursors, if after.Some? then after.value else -1, true)
  {
    cursors := [];
    for i := 0 to |sources|
      invariant |cursors| == i
      invariant forall k :: 0 <= k < i ==> CursorAt(sources[k], cursors[k], after)
    {
      var n: nat := 0;
      if after.Some? {
        n := PartitionPoint(sources[i], after.value);
      }
      cursors := cursors + [n];
    }
  }

  method StartHeap(sources: seq<seq<Id>>, cursors: seq<nat>) returns (heap: set<(Id, nat)>)
    requires CursorsOk(sources, cursors)
    ensures HeapOk(sources, cursors, heap)
  {
    heap := set i: nat | 0 <= i < |sources| && cursors[i] < |sources[i]| :: (sources[i][cursors[i]], i);
  }

  lemma MinIn(heap: set<(Id, nat)>, id: Id, source: nat)
    requires IsMin(heap, (id, source))
    ensures (id, source) in heap
  {
  }

  /** Pop the smallest entry. */
  method Least(heap: set<(Id, nat)>) returns (id: Id, source: nat)
    requires heap != {}
    ensures IsMin(heap, (id, source))
  {
    ghost var min := MinExists(heap);
    var least :| least in heap && forall y :: y in heap && y != least ==> Before(least, y);
    id, source := least.0, least.1;
  }

  /** Advance the source just popped and refill the heap from it. */
  method Advance(sources: seq<seq<Id>>, cursors: seq<nat>, heap: set<(Id, nat)>, id: Id, source: nat)
    returns (cursors': seq<nat>, heap': set<(Id, nat)>)
    requires CursorsOk(sources, cursors) && HeapOk(sources, cursors, heap) && (id, source) in heap
    ensures source < |sources| && cursors[source] < |sources[source]| && sources[source][cursors[source]] == id
    ensures cursors' == cursors[source := cursors[source] + 1] && CursorsOk(sources, cursors')
        && HeapOk(sources, cursors', heap')
  {
    cursors' := cursors[source := cursors[source] + 1];
    heap' := heap - {(id, source)};
    if cursors'[source] < |sources[source]| {
      heap' := heap' + {(sources[source][cursors'[source]], source)};
    }
    forall x: Id, i: nat
      ensures (x, i) in heap' <==> i < |sources| && cursors'[i] < |sources[i]| && sources[i][cursors'[i]] == x
    {
      if i != source {
        assert i < |sources| ==> cursors'[i] == cursors[i];
        assert (x, i) in heap' <==> (x, i) in heap;
      } else {
        assert (x, i) in heap ==> x == id;
      }
    }
  }

  lemma PassedMore(sources: seq<seq<Id>>, cursors: seq<nat>, heap: set<(Id, nat)>, floor: int, strict: bool, id: Id,
      source: nat, cursors': seq<nat>)
    requires CursorsOk(sources, cursors) && CursorsOk(sources, cursors') && PassedTo(sources, cursors, floor, strict)
        && HeapOk(sources, cursors, heap)
    requires IsMin(heap, (id, source))
    requires source < |sources| && cursors' == cursors[source := cursors[source] + 1]
    requires forall i :: 0 <= i < |sources| ==> Ascending(sources[i])
    ensures PassedTo(sources, cursors', id, false)
  {
    forall i, j | 0 <= i < |sources| && 0 <= j < |sources[i]|
      ensures if j < cursors'[i] then sources[i][j] <= id else sources[i][j] >= id
    {
      assert floor <= id;
      if j >= cursors[i] {
        var next := sources[i][cursors[i]];
        assert (next, i) in heap;
        assert next <= sources[i][j];
      }
    }
  }

  /** Resolve one id; emit it if it is live and matches. */
  method Visit(layers: seq<Table>, filter: Filter, after: Option<Id>, id: Id, ghost floor: int,
      out: seq<(Id, StoredRecord)>)
    returns (out': seq<(Id, StoredRecord)>, emitted: bool)
    requires Emitted(layers, filter, after, floor, out) && floor < id && (after.Some? ==> floor >= after.value)
    requires forall x :: x in Matching(layers, filter, after) && floor < x <= id ==> x == id
    ensures Emitted(layers, filter, after, id, out')
    ensures |out'| == if emitted then |out| + 1 else |out|
  {
    hide Emitted, Matching, Lookup, Contents;
    var stored := Get(layers, id);
    MatchingIff(layers, filter, after, id, stored);
    if stored.None? || !filter(stored.value.metadata) {
      SkipOne(layers, filter, after, floor, out, id);
      return out, false;
    }
    EmitOne(layers, filter, after, floor, out, id, stored.value);
    return out + [(id, stored.value)], true;
  }

  /** `walk` with a visitor that collects; the result is one page of the ascending list of live matching records. */
  method Walk(layers: seq<Table>, sources: seq<seq<Id>>, filter: Filter, limit: Option<nat>,
      after: Option<Id>) returns (out: seq<(Id, StoredRecord)>)
    requires Columns(layers, sources)
    ensures Ids(out) == Page(layers, filter, limit, after)
    ensures forall i :: 0 <= i < |out| ==> Lookup(layers, out[i].0) == Some(out[i].1)
  {
    var cursors: seq<nat> := StartCursors(sources, after);
    var heap := StartHeap(sources, cursors);
    out := [];
    var last: Option<Id> := None;
    ghost var floor: int := if after.Some? then after.value else -1;
    hide Columns, Emitted, PassedTo, HeapOk, Page, Matching, CursorsOk, IsMin, Remaining, SortedIds, Take, Ids, Lookup,
         Contents, Ascending;
    StartsEmpty(layers, filter, after);
    while heap != {}
      invariant Columns(layers, sources) && CursorsOk(sources, cursors) && HeapOk(sources, cursors, heap)
      invariant PassedTo(sources, cursors, floor, last.None?) && Emitted(layers, filter, after, floor, out)
      invariant last.Some? ==> floor == last.value
      invariant after.Some? ==> floor >= after.value
      invariant last.None? ==> floor == (if after.Some? then after.value else -1)
      invariant limit.Some? && limit.value > 0 ==> |out| < limit.value
      decreases Remaining(sources, cursors)
    {
      var id, source := Least(heap);
      MinIn(heap, id, source);
      var cursors', heap' := Advance(sources, cursors, heap, id, source);
      RemainingDrops(sources, cursors, source);
      StepFacts(layers, sources, cursors, heap, floor, last.None?, filter, after, id, source, cursors');
      cursors, heap := cursors', heap';
      if last == Some(id) {
        continue;
      }
      last := Some(id);
      var emitted;
      out, emitted := Visit(layers, filter, after, id, floor, out);
      floor := id;
      if emitted && Some(|out|) == limit {
        EmittedPrefix(layers, filter, after, floor, out);
        PageIsPrefix(layers, filter, limit, after, out, floor);
        return;
      }
    }
    AllEmitted(layers, sources, cursors, heap, floor, last.None?, filter, after, out);
    PageIsAll(layers, filter, limit, after, out, floor);
  }

  lemma StartsEmpty(layers: seq<Table>, filter: Filter, after: Option<Id>)
    ensures Emitted(layers, filter, after, if after.Some? then after.value else -1, [])
  {
  }

  /** What popping the smallest entry tells. */
  lemma StepFacts(layers: seq<Table>, sources: seq<seq<Id>>, cursors: seq<nat>, heap: set<(Id, nat)>, floor: int,
        strict: bool, filter: Filter, after: Option<Id>, id: Id, source: nat, cursors': seq<nat>)
    requires Columns(layers, sources) && CursorsOk(sources, cursors) && PassedTo(sources, cursors, floor, strict)
        && HeapOk(sources, cursors, heap)
    requires IsMin(heap, (id, source))
    requires source < |sources| && cursors' == cursors[source := cursors[source] + 1] && CursorsOk(sources, cursors')
    requires cursors[source] < |sources[source]| && sources[source][cursors[source]] == id
    ensures PassedTo(sources, cursors', id, false)
    ensures if strict then id > floor else id >= floor
    ensures forall x :: x in Matching(layers, filter, after) && floor < x <= id ==> x == id
  {
    PassedMore(sources, cursors, heap, floor, strict, id, source, cursors');
    forall x | x in Matching(layers, filter, after) && floor < x <= id ensures x == id {
      NothingBetween(layers, sources, cursors, heap, floor, strict, filter, after, id, source, x);
    }
  }

  lemma MatchingIff(layers: seq<Table>, filter: Filter, after: Option<Id>, id: Id, stored: Option<StoredRecord>)
    requires stored == Lookup(layers, id)
    ensures (after.Some? ==> id > after.value) ==> (id in Matching(layers, filter, after)
        <==> stored.Some? && filter(stored.value.metadata))
  {
    assert id in Contents(layers) <==> Lookup(layers, id).Some?;
  }

  lemma PageIsPrefix(layers: seq<Table>, filter: Filter, limit: Option<nat>, after: Option<Id>,
      out: seq<(Id, StoredRecord)>, floor: int)
    requires limit == Some(|out|) && |out| > 0 && Ids(out) == Take(SortedIds(Matching(layers, filter, after)), |out|)
    requires Emitted(layers, filter, after, floor, out)
    ensures Ids(out) == Page(layers, filter, limit, after)
    ensures forall i :: 0 <= i < |out| ==> Lookup(layers, out[i].0) == Some(out[i].1)
  {
  }

  lemma PageIsAll(layers: seq<Table>, filter: Filter, limit: Option<nat>, after: Option<Id>,
      out: seq<(Id, StoredRecord)>, floor: int)
    requires limit.Some? && limit.value > 0 ==> |out| < limit.value
    requires Ids(out) == SortedIds(Matching(layers, filter, after)) && Emitted(layers, filter, after, floor, out)
    ensures Ids(out) == Page(layers, filter, limit, after)
    ensures forall i :: 0 <= i < |out| ==> Lookup(layers, out[i].0) == Some(out[i].1)
  {
  }

  // ---------------------------------------------------------------------
  // Paging
  // ---------------------------------------------------------------------

  /** Following pages with the last id as the cursor, until an empty one. */
  ghost function AllPages(layers: seq<Table>, filter: Filter, limit: nat, after: Option<Id>): (ids: seq<Id>)
    requires limit > 0
    decreases |Matching(layers, filter, after)|
  {
    hide Page, Matching, SortedIds;
    var page := Page(layers, filter, Some(limit), after);
    if page == [] then []
    else
      MatchingShrinks(layers, filter, limit, after);
      page + AllPages(layers, filter, limit, Some(page[|page| - 1]))
  }

  lemma MatchingShrinks(layers: seq<Table>, filter: Filter, limit: nat, after: Option<Id>)
    requires limit > 0 && Page(layers, filter, Some(limit), after) != []
    ensures var page := Page(layers, filter, Some(limit), after);
            var m, rest := Matching(layers, filter, after), Matching(layers, filter, Some(page[|page| - 1]));
            && |rest| < |m| && SortedIds(m) == page + SortedIds(rest)
  {
    hide Matching, SortedIds;
    var all := SortedIds(Matching(layers, filter, after));
    var page := Page(layers, filter, Some(limit), after);
    var last := page[|page| - 1];
    var m, rest := Matching(layers, filter, after), Matching(layers, filter, Some(last));
    assert page == all[..|page|] && last in Elements(all);
    MatchingAbove(layers, filter, after, last);
    CardLess(rest, m, last);
    SplitSorted(all, |page|, m, rest);
  }

  /** Moving the cursor to a match leaves the matches above it. */
  lemma MatchingAbove(layers: seq<Table>, filter: Filter, after: Option<Id>, last: Id)
    requires last in Matching(layers, filter, after)
    ensures forall x :: x in Matching(layers, filter, Some(last)) <==> x in Matching(layers, filter, after) && x > last
  {
  }

  lemma CardLess(a: set<Id>, b: set<Id>, x: Id)
    requires a <= b && x in b && x !in a
    ensures |a| < |b|
  {
    assert b == a + (b - a);
    assert x in b - a && |b| == |a| + |b - a|;
  }

  lemma SplitSorted(all: seq<Id>, n: nat, m: set<Id>, rest: set<Id>)
    requires Ascending(all) && Elements(all) == m && 0 < n <= |all|
    requires forall x :: x in rest <==> x in m && x > all[n - 1]
    ensures all == all[..n] + SortedIds(rest)
  {
    hide SortedIds;
    forall x | x in rest ensures x in Elements(all[n..]) {
      assert x in Elements(all);
      var j :| 0 <= j < |all| && all[j] == x;
      assert all[n..][j - n] == x;
    }
    forall x | x in Elements(all[n..]) ensures x in rest {
      var j :| 0 <= j < |all[n..]| && all[n..][j] == x;
      assert all[n + j] == x && x in Elements(all);
    }
    AscendingUnique(all[n..], SortedIds(rest));
    assert all == all[..n] + all[n..];
  }

  lemma EmptyPage(layers: seq<Table>, filter: Filter, limit: nat, after: Option<Id>)
    requires limit > 0 && Page(layers, filter, Some(limit), after) == []
    ensures SortedIds(Matching(layers, filter, after)) == []
  {
    hide Matching, SortedIds;
  }

  /** Pages concatenate to the full scan, whatever the page size. */
  lemma {:induction false} PagesConcatenate(layers: seq<Table>, filter: Filter, limit: nat, after: Option<Id>)
    requires limit > 0
    ensures AllPages(layers, filter, limit, after) == SortedIds(Matching(layers, filter, after))
    decreases |Matching(layers, filter, after)|
  {
    hide Page, Matching, SortedIds;
    var page := Page(layers, filter, Some(limit), after);
    if page == [] {
      EmptyPage(layers, filter, limit, after);
    } else {
      MatchingShrinks(layers, filter, limit, after);
      PagesConcatenate(layers, filter, limit, Some(page[|page| - 1]));
    }
  }
}
