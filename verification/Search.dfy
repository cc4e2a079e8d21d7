/** The multi-source search: which candidates each source contributes, and what the merged answer is. */
module Search {
  import opened Records
  import opened Memtables
  import opened Layers
  import opened SearchLayers
  import opened HnswSelection
  import opened Query

  type Dist = StoredRecord -> real

  ghost function Least(s: set<Keyed>): (x: Keyed)
    requires s != {}
    ensures x in s && forall y :: y in s && y != x ==> Less(x, y)
  {
    var x :| x in s;
    if s == {x} then x else
      var m := Least(s - {x});
      assert forall y :: y in s && y != x ==> y in s - {x};
      LessTotal(x, m);
      if Less(x, m) then x else m
  }

  /** The top k, as a function. */
  ghost function TopK(s: set<Keyed>, k: nat): (r: seq<Keyed>)
    ensures IsTopK(r, s, k)
    decreases k
  {
    if k == 0 || s == {} then [] else
      var x := Least(s);
      LeastFirst(x, TopK(s - {x}, k - 1), s, k);
      [x] + TopK(s - {x}, k - 1)
  }

  lemma LeastFirst(x: Keyed, rest: seq<Keyed>, s: set<Keyed>, k: nat)
    requires x in s && (forall y :: y in s && y != x ==> Less(x, y)) && k > 0 && IsTopK(rest, s - {x}, k - 1)
    ensures IsTopK([x] + rest, s, k)
  {
    var r := [x] + rest;
    forall i, j | 0 <= i < j < |r| ensures Less(r[i], r[j]) {
      assert r[j] == rest[j - 1] && rest[j - 1] in rest;
    }
  }

  /** All rows of one source that pass the filter. */
  ghost function Rows(t: Table, dist: Dist, filter: Filter): set<Keyed> {
    set id | id in t.rows && filter(t.rows[id].metadata) :: Keyed(dist(t.rows[id]), id)
  }

  /** The rows of source `i` that no newer source shadows. */
  ghost function LiveRows(layers: seq<Table>, i: nat, dist: Dist, filter: Filter): set<Keyed>
    requires i < |layers|
  {
    LiveOnly(Rows(layers[i], dist, filter), layers, i)
  }

  ghost function LiveOnly(s: set<Keyed>, layers: seq<Table>, i: nat): set<Keyed>
    requires i <= |layers|
  {
    set x | x in s && Silent(layers[..i], x.node)
  }

  /** The right answer's domain: the filtered live records of the collection. */
  ghost function LiveHits(layers: seq<Table>, dist: Dist, filter: Filter): set<Keyed> {
    var c := Contents(layers);
    set id | id in c && filter(c[id].metadata) :: Keyed(dist(c[id]), id)
  }

  ghost function LiveParts(layers: seq<Table>, dist: Dist, filter: Filter): seq<set<Keyed>> {
    seq(|layers|, i requires 0 <= i < |layers| => LiveRows(layers, i, dist, filter))
  }

  lemma {:induction false} InUnion(parts: seq<set<Keyed>>, x: Keyed)
    ensures x in UnionOf(parts) <==> exists i :: 0 <= i < |parts| && x in parts[i]
  {
    if parts != [] {
      var front := parts[..|parts| - 1];
      InUnion(front, x);
      if i :| 0 <= i < |front| && x in front[i] {
        assert x in parts[i];
      }
      if i :| 0 <= i < |parts| && x in parts[i] {
        assert i < |front| ==> x in front[i];
      }
    }
  }

  /** Every live record is a live row of exactly one source, with the same contents. */
  lemma LiveHitsAreRows(layers: seq<Table>, dist: Dist, filter: Filter)
    requires forall t :: t in layers ==> t.Valid()
    ensures LiveHits(layers, dist, filter) == UnionOf(LiveParts(layers, dist, filter))
  {
    var c, parts := Contents(layers), LiveParts(layers, dist, filter);
    forall x ensures x in LiveHits(layers, dist, filter) <==> x in UnionOf(parts) {
      InUnion(parts, x);
      LiveSomewhere(layers, x.node);
      if x in LiveHits(layers, dist, filter) {
        var i :| 0 <= i < |layers| && x.node in layers[i].rows && Silent(layers[..i], x.node);
        assert x in parts[i];
      }
      if i :| 0 <= i < |parts| && x in parts[i] {
        assert x.node in layers[i].rows && Silent(layers[..i], x.node);
        assert Lookup(layers, x.node) == Some(layers[i].rows[x.node]);
        assert x.node in c;
      }
    }
  }

  /** Two live rows of the same id come from the same source. */
  lemma OneLiveSource(layers: seq<Table>, i: nat, j: nat, id: Id)
    requires i < j < |layers| && id in layers[i].rows
    ensures !Silent(layers[..j], id)
  {
    assert layers[..j][i].Mentions(id);
  }

  // ---------------------------------------------------------------------
  // What each source contributes
  // ---------------------------------------------------------------------

  /**
   * Source `i` of a view with `mts` memtables: a segment tests liveness before its top k, a memtable
   * after it.
   */
  ghost function Contribution(layers: seq<Table>, mts: nat, i: nat, dist: Dist, filter: Filter, k: nat): set<Keyed>
    requires i < |layers|
  {
    if i < mts then LiveOnly(Items(TopK(Rows(layers[i], dist, filter), k)), layers, i)
    else Items(TopK(LiveRows(layers, i, dist, filter), k))
  }

  ghost function Contributions(layers: seq<Table>, mts: nat, dist: Dist, filter: Filter, k: nat): seq<set<Keyed>> {
    seq(|layers|, i requires 0 <= i < |layers| => Contribution(layers, mts, i, dist, filter, k))
  }

  /** Candidate rows of a source in the order the source iterates them. */
  function Candidates(t: Table, order: seq<Id>, dist: Dist): (s: seq<Keyed>)
    requires forall i :: 0 <= i < |order| ==> order[i] in t.rows
    ensures |s| == |order|
  {
    seq(|order|, i requires 0 <= i < |order| => Keyed(dist(t.rows[order[i]]), order[i]))
  }

  ghost predicate Enumerates(order: seq<Id>, ids: set<Id>) {
    && (forall i, j :: 0 <= i < j < |order| ==> order[i] != order[j])
    && (forall i :: 0 <= i < |order| ==> order[i] in ids)
    && (forall id :: id in ids ==> exists i :: 0 <= i < |order| && order[i] == id)
  }

  lemma CandidatesAreRows(t: Table, order: seq<Id>, ids: set<Id>, dist: Dist, filter: Filter)
    requires Enumerates(order, ids) && ids <= t.rows.Keys
    ensures DistinctNodes(Candidates(t, order, dist))
    ensures AcceptedOf(Candidates(t, order, dist), id => id in t.rows && filter(t.rows[id].metadata), |order|)
            == set x | x in Rows(t, dist, filter) && x.node in ids
  {
    var s := Candidates(t, order, dist);
    var accept := (id: nat) => id in t.rows && filter(t.rows[id].metadata);
    forall x | x in Rows(t, dist, filter) && x.node in ids ensures x in AcceptedOf(s, accept, |order|) {
      var i :| 0 <= i < |order| && order[i] == x.node;
      assert s[i] == x;
    }
  }

  /** The memtable half of the search: top k first, liveness afterwards. */
  method SearchMemtable(layers: seq<Table>, i: nat, order: seq<Id>, dist: Dist, filter: Filter,
      k: nat) returns (hits: seq<Keyed>)
    requires i < |layers| && Enumerates(order, layers[i].rows.Keys)
    ensures Items(hits) == LiveOnly(Items(TopK(Rows(layers[i], dist, filter), k)), layers, i)
    ensures DistinctNodes(hits)
  {
    var t := layers[i];
    CandidatesAreRows(t, order, t.rows.Keys, dist, filter);
    var found := SearchFlat(Candidates(t, order, dist), id => id in t.rows && filter(t.rows[id].metadata), k);
    ghost var rows := Rows(t, dist, filter);
    assert (set x | x in rows && x.node in t.rows.Keys) == rows;
    TopKUnique(found, TopK(rows, k), rows, k);
    TopKNodes(found, rows, k, t, dist, filter);
    hits := KeepLive(found, layers, i);
  }

  /** The liveness test of a memtable's hits. */
  method KeepLive(found: seq<Keyed>, layers: seq<Table>, i: nat) returns (hits: seq<Keyed>)
    requires i <= |layers| && DistinctNodes(found)
    ensures Items(hits) == LiveOnly(Items(found), layers, i) && DistinctNodes(hits)
  {
    hits := [];
    hide Silent;
    for j := 0 to |found|
      invariant forall x :: x in hits <==> x in found[..j] && Silent(layers[..i], x.node)
      invariant DistinctNodes(hits)
    {
      assert found[..j + 1] == found[..j] + [found[j]];
      var live := IsLive(layers, [], found[j].node, i);
      assert layers + [] == layers;
      if live {
        forall h | 0 <= h < |hits| ensures hits[h].node != found[j].node {
          assert hits[h] in found[..j];
          var f :| 0 <= f < j && found[..j][f] == hits[h];
        }
        hits := hits + [found[j]];
      }
    }
    assert found[..|found|] == found;
  }

  lemma TopKNodes(r: seq<Keyed>, s: set<Keyed>, k: nat, t: Table, dist: Dist, filter: Filter)
    requires IsTopK(r, s, k) && s <= Rows(t, dist, filter)
    ensures DistinctNodes(r)
  {
    forall i, j | 0 <= i < j < |r| ensures r[i].node != r[j].node {
      assert r[i] in s && r[j] in s && Less(r[i], r[j]);
    }
  }

  ghost function LiveOf(order: seq<Id>, layers: seq<Table>, i: nat): set<Id>
    requires i <= |layers|
  {
    set id | id in order && Silent(layers[..i], id)
  }

  /** The flat path of `segment`: only live rows are looked at. */
  method SearchSegment(layers: seq<Table>, i: nat, order: seq<Id>, dist: Dist, filter: Filter,
      k: nat) returns (hits: seq<Keyed>)
    requires i < |layers| && Enumerates(order, layers[i].rows.Keys)
    ensures Items(hits) == Items(TopK(LiveRows(layers, i, dist, filter), k))
    ensures DistinctNodes(hits)
  {
    var t := layers[i];
    var live := [];
    for j := 0 to |order|
      invariant Enumerates(live, LiveOf(order[..j], layers, i))
    {
      assert order[..j + 1] == order[..j] + [order[j]];
      assert layers + [] == layers;
      var isLive := IsLive(layers, [], order[j], i);
      if isLive {
        ExtendEnumeration(live, LiveOf(order[..j], layers, i), order[j]);
        live := live + [order[j]];
      }
      assert LiveOf(order[..j + 1], layers, i) == LiveOf(order[..j], layers, i) + if isLive then {order[j]} else {};
    }
    assert order[..|order|] == order;
    ghost var ids := LiveOf(order, layers, i);
    CandidatesAreRows(t, live, ids, dist, filter);
    hits := SearchFlat(Candidates(t, live, dist), id => id in t.rows && filter(t.rows[id].metadata), k);
    assert (set x | x in Rows(t, dist, filter) && x.node in ids) == LiveRows(layers, i, dist, filter);
    TopKUnique(hits, TopK(LiveRows(layers, i, dist, filter), k), LiveRows(layers, i, dist, filter), k);
    TopKNodes(hits, LiveRows(layers, i, dist, filter), k, t, dist, filter);
  }

  lemma ExtendEnumeration(order: seq<Id>, ids: set<Id>, id: Id)
    requires Enumerates(order, ids) && id !in ids
    ensures Enumerates(order + [id], ids + {id})
  {
    var longer := order + [id];
    forall x | x in ids + {id} ensures exists i :: 0 <= i < |longer| && longer[i] == x {
      if x == id {
        assert longer[|order|] == id;
      } else {
        var i :| 0 <= i < |order| && order[i] == x;
        assert longer[i] == x;
      }
    }
  }

  /** `run_sequential`: all candidates of a view; the first `mts` layers are memtables. */
  method RunSequential(layers: seq<Table>, mts: nat, orders: seq<seq<Id>>, dist: Dist, filter: Filter, k: nat)
    returns (candidates: seq<Keyed>)
    requires mts <= |layers| == |orders| && forall i :: 0 <= i < |layers| ==> Enumerates(orders[i], layers[i].rows.Keys)
    ensures Items(candidates) == UnionOf(Contributions(layers, mts, dist, filter, k))
    ensures DistinctNodes(candidates)
  {
    candidates := [];
    ghost var all := Contributions(layers, mts, dist, filter, k);
    for i := 0 to |layers|
      invariant Items(candidates) == UnionOf(all[..i]) && DistinctNodes(candidates)
    {
      var hits;
      if i < mts {
        hits := SearchMemtable(layers, i, orders[i], dist, filter, k);
      } else {
        hits := SearchSegment(layers, i, orders[i], dist, filter, k);
      }
      assert Items(hits) == all[i];
      assert all[..i + 1][..i] == all[..i];
      SourcesDisjoint(layers, mts, dist, filter, k, i, candidates, hits);
      candidates := candidates + hits;
    }
    assert all[..|layers|] == all;
  }

  lemma SourcesDisjoint(layers: seq<Table>, mts: nat, dist: Dist, filter: Filter, k: nat, i: nat, a: seq<Keyed>,
      b: seq<Keyed>)
    requires i < |layers| && DistinctNodes(a) && DistinctNodes(b)
    requires Items(a) == UnionOf(Contributions(layers, mts, dist, filter, k)[..i])
    requires Items(b) == Contribution(layers, mts, i, dist, filter, k)
    ensures DistinctNodes(a + b)
    ensures Items(a + b) == Items(a) + Items(b)
  {
    hide Contribution;
    var all := Contributions(layers, mts, dist, filter, k);
    forall x, y | x in a && y in b ensures x.node != y.node {
      InUnion(all[..i], x);
      assert x in Items(a) && y in Items(b);
      var j :| 0 <= j < i && x in all[..i][j];
      ContributionRow(layers, mts, j, dist, filter, k, x);
      ContributionRow(layers, mts, i, dist, filter, k, y);
      OneLiveSource(layers, j, i, x.node);
    }
    var ab := a + b;
    forall p, q | 0 <= p < q < |ab| ensures ab[p].node != ab[q].node {
      if p < |a| <= q {
        assert ab[p] == a[p] && ab[q] == b[q - |a|] && a[p] in a && b[q - |a|] in b;
      }
    }
  }

  lemma ContributionRow(layers: seq<Table>, mts: nat, i: nat, dist: Dist, filter: Filter, k: nat, x: Keyed)
    requires i < |layers| && x in Contribution(layers, mts, i, dist, filter, k)
    ensures x in LiveRows(layers, i, dist, filter) && x.node in layers[i].rows && Silent(layers[..i], x.node)
  {
  }

  // ---------------------------------------------------------------------
  // Threshold and finalisation
  // ---------------------------------------------------------------------

  /** The internal key of a score. */
  function KeyFromScore(metric: Metric, score: real): real {
    if metric == L2 then score * score else -score
  }

  /** The test `finalize` applies: nothing passes a negative L2 threshold. */
  predicate Passes(metric: Metric, threshold: Option<real>, key: real) {
    match threshold
    case None => true
    case Some(t) => !(metric == L2 && t < 0.0) && key <= KeyFromScore(metric, t)
  }

  ghost function Passing(metric: Metric, threshold: Option<real>, s: set<Keyed>): set<Keyed> {
    set x | x in s && Passes(metric, threshold, x.key)
  }

  /** The test means what the caller asked: distance at most, or score at least, the threshold. */
  lemma ThresholdMeaning(metric: Metric, t: real, score: real)
    requires metric == L2 ==> score >= 0.0
    ensures Passes(metric, Some(t), KeyFromScore(metric, score)) <==> if metric == L2 then score <= t else score >= t
  {
    if metric == L2 && t >= 0.0 {
      SquareOrder(score, t);
    }
  }

  lemma SquareOrder(a: real, b: real)
    requires a >= 0.0 && b >= 0.0
    ensures a * a <= b * b <==> a <= b
  {
    if a <= b {
      assert a * a <= a * b <= b * b;
    } else {
      var d := a - b;
      assert a * a == b * b + d * (a + b);
      assert d * (a + b) > 0.0;
    }
  }

  /** Without the sign test a negative L2 threshold would let distances up to its absolute value through. */
  lemma NegativeThresholdNeedsItsCase()
    ensures 1.0 <= KeyFromScore(L2, -2.0) && !Passes(L2, Some(-2.0), 1.0)
  {
  }

  /** Testing after the cut is testing before the cut. */
  lemma ThresholdCommutes(metric: Metric, threshold: Option<real>, s: set<Keyed>, r: seq<Keyed>, kept: seq<Keyed>,
      k: nat)
    requires IsTopK(r, s, k) && Sorted(kept) && |kept| <= |r| &&
         forall x :: x in kept <==> x in r && Passes(metric, threshold, x.key)
    ensures IsTopK(kept, Passing(metric, threshold, s), k)
  {
    forall x | x in Passing(metric, threshold, s) && x !in kept
      ensures |kept| == k && forall y :: y in kept ==> Less(y, x)
    {
      assert |r| == k && forall y :: y in r ==> Less(y, x);
      forall y | y in r ensures y in kept {
        assert Less(y, x);
      }
      SortedItems(r);
      SortedItems(kept);
      assert Items(kept) == Items(r);
    }
  }

  /** `finalize`: drop what the threshold excludes, sort, keep the first `k`. */
  method Finalize(metric: Metric, candidates: seq<Keyed>, k: nat, threshold: Option<real>) returns (r: seq<Keyed>)
    requires DistinctNodes(candidates)
    ensures IsTopK(r, Passing(metric, threshold, Items(candidates)), k)
  {
    var kept := [];
    for i := 0 to |candidates|
      invariant DistinctNodes(kept)
      invariant forall x :: x in kept <==> x in candidates[..i] && Passes(metric, threshold, x.key)
    {
      assert candidates[..i + 1] == candidates[..i] + [candidates[i]];
      if Passes(metric, threshold, candidates[i].key) {
        forall h | 0 <= h < |kept| ensures kept[h].node != candidates[i].node {
          assert kept[h] in candidates[..i];
          var f :| 0 <= f < i && candidates[..i][f] == kept[h];
        }
        kept := kept + [candidates[i]];
      }
    }
    assert candidates[..|candidates|] == candidates;
    var sorted := Sort(kept);
    r := if |sorted| > k then sorted[..k] else sorted;
    FirstK(sorted, r, Passing(metric, threshold, Items(candidates)), k);
  }

  lemma FirstK(sorted: seq<Keyed>, r: seq<Keyed>, s: set<Keyed>, k: nat)
    requires Sorted(sorted) && (forall x :: x in sorted <==> x in s)
        && r == (if |sorted| > k then sorted[..k] else sorted)
    ensures IsTopK(r, s, k)
  {
    forall x | x in s && x !in r ensures |r| == k && forall y :: y in r ==> Less(y, x) {
      forall p | 0 <= p < |r| ensures sorted[p] in r {
        assert r[p] == sorted[p];
      }
      var i :| 0 <= i < |sorted| && sorted[i] == x;
      forall y | y in r ensures Less(y, x) {
        var j :| 0 <= j < |r| && r[j] == y;
        assert sorted[j] == y;
      }
    }
  }

  // ---------------------------------------------------------------------
  // Exactness
  // ---------------------------------------------------------------------

  /** The answer of the merge: what `finalize` returns for the candidates of all sources. */
  ghost predicate MergedAnswer(r: seq<Keyed>, layers: seq<Table>, mts: nat, dist: Dist, filter: Filter, k: nat,
      metric: Metric, threshold: Option<real>) {
    IsTopK(r, Passing(metric, threshold, UnionOf(Contributions(layers, mts, dist, filter, k))), k)
  }

  /** The right answer: the nearest `k` filtered live records within the threshold. */
  ghost predicate ExactAnswer(r: seq<Keyed>, layers: seq<Table>, dist: Dist, filter: Filter, k: nat, metric: Metric,
      threshold: Option<real>) {
    IsTopK(r, Passing(metric, threshold, LiveHits(layers, dist, filter)), k)
  }

  lemma {:induction false} PassingUnion(metric: Metric, threshold: Option<real>, parts: seq<set<Keyed>>)
    ensures Passing(metric, threshold, UnionOf(parts))
        == UnionOf(seq(|parts|, i requires 0 <= i < |parts| => Passing(metric, threshold, parts[i])))
  {
    var passing := seq(|parts|, i requires 0 <= i < |parts| => Passing(metric, threshold, parts[i]));
    forall x ensures x in Passing(metric, threshold, UnionOf(parts)) <==> x in UnionOf(passing) {
      InUnion(parts, x);
      InUnion(passing, x);
      if i :| 0 <= i < |parts| && x in parts[i] {
        assert x in passing[i] <==> Passes(metric, threshold, x.key);
      }
      if i :| 0 <= i < |passing| && x in passing[i] {
        assert x in parts[i];
      }
    }
  }

  /** Keep the passing prefix of a sorted list. */
  ghost function Kept(metric: Metric, threshold: Option<real>, r: seq<Keyed>): (kept: seq<Keyed>)
    requires Sorted(r)
    ensures Sorted(kept) && |kept| <= |r| && forall x :: x in kept <==> x in r && Passes(metric, threshold, x.key)
  {
    if r == [] then [] else
      var front, last := Kept(metric, threshold, r[..|r| - 1]), r[|r| - 1];
      assert r == r[..|r| - 1] + [last];
      if Passes(metric, threshold, last.key) then
        (assert forall y :: y in front ==> y in r[..|r| - 1];
         AppendSorted(front, r[..|r| - 1], last); front + [last])
      else
        front
  }

  lemma AppendSorted(a: seq<Keyed>, front: seq<Keyed>, last: Keyed)
    requires Sorted(a) && (forall y :: y in a ==> y in front) && Sorted(front + [last])
    ensures Sorted(a + [last])
  {
    forall i | 0 <= i < |a| ensures Less(a[i], last) {
      assert a[i] in front;
      var j :| 0 <= j < |front| && front[j] == a[i];
      assert (front + [last])[j] == a[i] && (front + [last])[|front|] == last;
    }
  }

  /**
   * Merging is exact when every source cuts its live rows: the top k of the sources' top k, with the
   * threshold applied at the end, is the top k of all live records within the threshold.
   */
  lemma LivePartsExact(layers: seq<Table>, dist: Dist, filter: Filter, k: nat, metric: Metric, threshold: Option<real>,
      cuts: seq<seq<Keyed>>, r: seq<Keyed>)
    requires forall t :: t in layers ==> t.Valid()
    requires |cuts| == |layers| &&
         forall i :: 0 <= i < |layers| ==> IsTopK(cuts[i], LiveRows(layers, i, dist, filter), k)
    ensures IsTopK(r, Passing(metric, threshold, UnionOf(seq(|cuts|, i requires 0 <= i < |cuts| => Items(cuts[i])))), k)
            <==> ExactAnswer(r, layers, dist, filter, k, metric, threshold)
  {
    hide UnionOf;
    var parts := LiveParts(layers, dist, filter);
    LiveHitsAreRows(layers, dist, filter);
    var items := seq(|cuts|, i requires 0 <= i < |cuts| => Items(cuts[i]));
    PassingUnion(metric, threshold, parts);
    PassingUnion(metric, threshold, items);
    var parts' := seq(|parts|, i requires 0 <= i < |parts| => Passing(metric, threshold, parts[i]));
    var cuts' := seq(|cuts|, i requires 0 <= i < |cuts| => Kept(metric, threshold, cuts[i]));
    forall i | 0 <= i < |parts'| ensures IsTopK(cuts'[i], parts'[i], k) {
      ThresholdCommutes(metric, threshold, parts[i], cuts[i], cuts'[i], k);
    }
    var passing := seq(|items|, i requires 0 <= i < |items| => Passing(metric, threshold, items[i]));
    var items' := seq(|cuts'|, i requires 0 <= i < |cuts'| => Items(cuts'[i]));
    forall i | 0 <= i < |passing| ensures passing[i] == items'[i] {
    }
    assert passing == items';
    MergeTopK(parts', cuts', k, {}, r);
    assert UnionOf(items') + {} == UnionOf(items') && UnionOf(parts') + {} == UnionOf(parts');
  }

  /** Without a memtable waiting for a flush, the merged answer is the exact one. */
  lemma ExactWithoutPending(layers: seq<Table>, dist: Dist, filter: Filter, k: nat, metric: Metric,
      threshold: Option<real>, r: seq<Keyed>)
    requires layers != [] && forall t :: t in layers ==> t.Valid()
    ensures MergedAnswer(r, layers, 1, dist, filter, k, metric, threshold)
        <==> ExactAnswer(r, layers, dist, filter, k, metric, threshold)
  {
    var cuts := seq(|layers|, i requires 0 <= i < |layers| => TopK(LiveRows(layers, i, dist, filter), k));
    var items := seq(|cuts|, i requires 0 <= i < |cuts| => Items(cuts[i]));
    forall i | 0 <= i < |layers| ensures items[i] == Contribution(layers, 1, i, dist, filter, k) {
      if i == 0 {
        NothingNewer(layers, dist, filter, k);
      }
    }
    assert items == Contributions(layers, 1, dist, filter, k);
    LivePartsExact(layers, dist, filter, k, metric, threshold, cuts, r);
  }

  lemma NothingNewer(layers: seq<Table>, dist: Dist, filter: Filter, k: nat)
    requires layers != []
    ensures LiveRows(layers, 0, dist, filter) == Rows(layers[0], dist, filter)
    ensures LiveOnly(Items(TopK(Rows(layers[0], dist, filter), k)), layers, 0)
        == Items(TopK(LiveRows(layers, 0, dist, filter), k))
  {
    var rows := Rows(layers[0], dist, filter);
    assert forall x :: Silent(layers[..0], x);
    assert LiveRows(layers, 0, dist, filter) == rows;
    assert LiveOnly(Items(TopK(rows, k)), layers, 0) == Items(TopK(rows, k));
  }

  /** `run_search` over flat sources. */
  method RunSearch(layers: seq<Table>, mts: nat, orders: seq<seq<Id>>, dist: Dist, filter: Filter, k: nat,
      metric: Metric, threshold: Option<real>)
    returns (r: seq<Keyed>)
    requires 1 <= mts <= |layers| == |orders| &&
         forall i :: 0 <= i < |layers| ==> Enumerates(orders[i], layers[i].rows.Keys)
    requires forall t :: t in layers ==> t.Valid()
    ensures MergedAnswer(r, layers, mts, dist, filter, k, metric, threshold)
    ensures mts == 1 ==> ExactAnswer(r, layers, dist, filter, k, metric, threshold)
  {
    var candidates := RunSequential(layers, mts, orders, dist, filter, k);
    r := Finalize(metric, candidates, k, threshold);
    ExactWithoutPending(layers, dist, filter, k, metric, threshold, r);
  }
}
