/**
 * The search while a memtable waits for a flush. That memtable is cut to its top k before the rows
 * that the active memtable shadows are removed, so a shadowed row can displace a live one. This
 * module proves exactly when that makes the answer wrong.
 */
module PendingSearch {
  import opened Records
  import opened Memtables
  import opened Layers
  import opened SearchLayers
  import opened Query
  import opened Search

  /** The elements nearer than `x`. */
  ghost function Ahead(s: set<Keyed>, x: Keyed): set<Keyed> {
    set y | y in s && Less(y, x)
  }

  /** Being among the k nearest is having fewer than k nearer elements. */
  lemma TopKRank(s: set<Keyed>, r: seq<Keyed>, k: nat, x: Keyed)
    requires IsTopK(r, s, k) && x in s
    ensures x in r <==> |Ahead(s, x)| < k
  {
    SortedItems(r);
    if x in r {
      forall y | y in Ahead(s, x) ensures y in Items(r) - {x} {
        if y !in r {
          LessTotal(x, y);
          assert false;
        }
      }
      SubsetSizes(Ahead(s, x), Items(r) - {x});
    } else {
      SubsetSizes(Items(r), Ahead(s, x));
    }
  }

  /**
   * A live row of the waiting memtable that belongs to the answer but has `k` waiting rows, shadowed ones included,
   * ahead of it.
   */
  ghost predicate Displaced(x: Keyed, layers: seq<Table>, dist: Dist, filter: Filter, k: nat, metric: Metric,
      threshold: Option<real>)
    requires |layers| >= 2
  {
    && x in LiveRows(layers, 1, dist, filter) && Passes(metric, threshold, x.key)
    && |Ahead(LiveHits(layers, dist, filter), x)| < k
    && |Ahead(Rows(layers[1], dist, filter), x)| >= k
  }

  lemma AheadPassing(s: set<Keyed>, x: Keyed, metric: Metric, threshold: Option<real>)
    requires Passes(metric, threshold, x.key)
    ensures Ahead(Passing(metric, threshold, s), x) == Ahead(s, x)
  {
  }

  lemma LiveRowIsHit(layers: seq<Table>, i: nat, dist: Dist, filter: Filter)
    requires i < |layers| && forall t :: t in layers ==> t.Valid()
    ensures LiveRows(layers, i, dist, filter) <= LiveHits(layers, dist, filter)
  {
    LiveHitsAreRows(layers, dist, filter);
    forall x | x in LiveRows(layers, i, dist, filter) ensures x in LiveHits(layers, dist, filter) {
      InUnion(LiveParts(layers, dist, filter), x);
      assert LiveParts(layers, dist, filter)[i] == LiveRows(layers, i, dist, filter);
    }
  }

  /** A live row among the k nearest live records is contributed by its source, unless it is displaced. */
  lemma Contributed(layers: seq<Table>, i: nat, dist: Dist, filter: Filter, k: nat, metric: Metric,
      threshold: Option<real>, x: Keyed)
    requires 2 <= |layers| && i < |layers| && forall t :: t in layers ==> t.Valid()
    requires x in LiveRows(layers, i, dist, filter) && Passes(metric, threshold, x.key)
    requires |Ahead(LiveHits(layers, dist, filter), x)| < k
    ensures x in Contribution(layers, 2, i, dist, filter, k)
        <==> !(i == 1 && Displaced(x, layers, dist, filter, k, metric, threshold))
  {
    LiveRowIsHit(layers, i, dist, filter);
    var rows := LiveRows(layers, i, dist, filter);
    SubsetSizes(Ahead(rows, x), Ahead(LiveHits(layers, dist, filter), x));
    if i == 0 {
      NothingNewer(layers, dist, filter, k);
      TopKRank(rows, TopK(rows, k), k, x);
    } else if i == 1 {
      var all := Rows(layers[1], dist, filter);
      TopKRank(all, TopK(all, k), k, x);
    } else {
      TopKRank(rows, TopK(rows, k), k, x);
    }
  }

  lemma ContributionsLive(layers: seq<Table>, mts: nat, dist: Dist, filter: Filter, k: nat)
    requires forall t :: t in layers ==> t.Valid()
    ensures UnionOf(Contributions(layers, mts, dist, filter, k)) <= LiveHits(layers, dist, filter)
  {
    var all := Contributions(layers, mts, dist, filter, k);
    forall x | x in UnionOf(all) ensures x in LiveHits(layers, dist, filter) {
      InUnion(all, x);
      var i :| 0 <= i < |all| && x in all[i];
      ContributionRow(layers, mts, i, dist, filter, k, x);
      LiveRowIsHit(layers, i, dist, filter);
    }
  }

  lemma SourceOf(layers: seq<Table>, dist: Dist, filter: Filter, x: Keyed) returns (i: nat)
    requires x in LiveHits(layers, dist, filter) && forall t :: t in layers ==> t.Valid()
    ensures i < |layers| && x in LiveRows(layers, i, dist, filter)
  {
    LiveHitsAreRows(layers, dist, filter);
    InUnion(LiveParts(layers, dist, filter), x);
    i :| 0 <= i < |layers| && x in LiveParts(layers, dist, filter)[i];
  }

  lemma InContributions(layers: seq<Table>, mts: nat, dist: Dist, filter: Filter, k: nat, i: nat, x: Keyed)
    requires i < |layers| && x in LiveRows(layers, i, dist, filter)
    ensures x in UnionOf(Contributions(layers, mts, dist, filter, k))
        <==> x in Contribution(layers, mts, i, dist, filter, k)
  {
    var all := Contributions(layers, mts, dist, filter, k);
    InUnion(all, x);
    assert all[i] == Contribution(layers, mts, i, dist, filter, k);
    if j :| 0 <= j < |all| && x in all[j] {
      ContributionRow(layers, mts, j, dist, filter, k, x);
      if j < i {
        OneLiveSource(layers, j, i, x.node);
      } else if i < j {
        OneLiveSource(layers, i, j, x.node);
      }
    }
  }

  /** Top k is determined inside any subset that contains it. */
  lemma TopKBetween(e: seq<Keyed>, small: set<Keyed>, all: set<Keyed>, k: nat)
    requires IsTopK(e, all, k) && small <= all && Items(e) <= small
    ensures IsTopK(e, small, k)
  {
  }

  /**
   * With a memtable waiting for a flush, the merged answer is the exact one if and only if no live
   * row of that memtable is displaced.
   */
  lemma PendingExactIff(layers: seq<Table>, dist: Dist, filter: Filter, k: nat, metric: Metric,
      threshold: Option<real>, r: seq<Keyed>)
    requires |layers| >= 2 && forall t :: t in layers ==> t.Valid()
    requires MergedAnswer(r, layers, 2, dist, filter, k, metric, threshold)
    ensures ExactAnswer(r, layers, dist, filter, k, metric, threshold)
            <==> !exists x :: Displaced(x, layers, dist, filter, k, metric, threshold)
  {
    var hits := LiveHits(layers, dist, filter);
    var merged := UnionOf(Contributions(layers, 2, dist, filter, k));
    ContributionsLive(layers, 2, dist, filter, k);
    var exact := TopK(Passing(metric, threshold, hits), k);
    if x :| Displaced(x, layers, dist, filter, k, metric, threshold) {
      DisplacedIsMissed(layers, dist, filter, k, metric, threshold, r, x);
    } else {
      forall x | x in exact ensures x in Passing(metric, threshold, merged) {
        AheadPassing(hits, x, metric, threshold);
        TopKRank(Passing(metric, threshold, hits), exact, k, x);
        var i := SourceOf(layers, dist, filter, x);
        Contributed(layers, i, dist, filter, k, metric, threshold, x);
        InContributions(layers, 2, dist, filter, k, i, x);
      }
      TopKBetween(exact, Passing(metric, threshold, merged), Passing(metric, threshold, hits), k);
      TopKUnique(exact, r, Passing(metric, threshold, merged), k);
    }
  }

  lemma DisplacedIsMissed(layers: seq<Table>, dist: Dist, filter: Filter, k: nat, metric: Metric,
      threshold: Option<real>, r: seq<Keyed>, x: Keyed)
    requires |layers| >= 2 && forall t :: t in layers ==> t.Valid()
    requires MergedAnswer(r, layers, 2, dist, filter, k, metric, threshold)
    requires Displaced(x, layers, dist, filter, k, metric, threshold)
    ensures !ExactAnswer(r, layers, dist, filter, k, metric, threshold)
  {
    var hits := LiveHits(layers, dist, filter);
    LiveRowIsHit(layers, 1, dist, filter);
    Contributed(layers, 1, dist, filter, k, metric, threshold, x);
    InContributions(layers, 2, dist, filter, k, 1, x);
    AheadPassing(hits, x, metric, threshold);
    if IsTopK(r, Passing(metric, threshold, hits), k) {
      TopKRank(Passing(metric, threshold, hits), r, k, x);
      assert false;
    }
  }

  /** In particular the answer is exact when the active memtable shadows no waiting row. */
  lemma ExactWhenNothingShadowed(layers: seq<Table>, dist: Dist, filter: Filter, k: nat, metric: Metric,
      threshold: Option<real>, r: seq<Keyed>)
    requires |layers| >= 2 && forall t :: t in layers ==> t.Valid()
    requires MergedAnswer(r, layers, 2, dist, filter, k, metric, threshold)
    requires forall id :: id in layers[1].rows ==> !layers[0].Mentions(id)
    ensures ExactAnswer(r, layers, dist, filter, k, metric, threshold)
  {
    PendingExactIff(layers, dist, filter, k, metric, threshold, r);
    LiveRowIsHit(layers, 1, dist, filter);
    AllLive(layers, dist, filter);
    hide LiveRows, LiveHits, Rows, IsTopK;
    forall x ensures !Displaced(x, layers, dist, filter, k, metric, threshold) {
      SubsetSizes(Ahead(Rows(layers[1], dist, filter), x), Ahead(LiveHits(layers, dist, filter), x));
    }
  }

  lemma AllLive(layers: seq<Table>, dist: Dist, filter: Filter)
    requires |layers| >= 2 && forall id :: id in layers[1].rows ==> !layers[0].Mentions(id)
    ensures Rows(layers[1], dist, filter) <= LiveRows(layers, 1, dist, filter)
  {
    forall y | y in Rows(layers[1], dist, filter) ensures y in LiveRows(layers, 1, dist, filter) {
      assert layers[..1][0] == layers[0];
    }
  }

  /**
   * A displacement exists: the active memtable deleted the nearest waiting row, and the second nearest is not found.
   */
  lemma DisplacementHappens(near: StoredRecord, far: StoredRecord, dist: Dist)
    requires dist(near) < dist(far)
    ensures var layers := [Table(map[], {1}), Table(map[1 := near, 2 := far], {})];
            Displaced(Keyed(dist(far), 2), layers, dist, _ => true, 1, L2, None)
  {
    var layers := [Table(map[], {1}), Table(map[1 := near, 2 := far], {})];
    var all := (m: Metadata) => true;
    var x := Keyed(dist(far), 2);
    assert Silent(layers[..1], 2) && !Silent(layers[..1], 1) by {
      assert layers[..1][0].Mentions(1);
    }
    var c := Contents(layers);
    var tail := layers[1..];
    assert tail == [layers[1]] && tail[1..] == [];
    forall id ensures Lookup(layers, id) == if id == 2 then Some(far) else None {
      assert Lookup(tail[1..], id) == None;
      assert Lookup(tail, id) == if id == 2 then Some(far) else if id == 1 then Some(near) else None;
    }
    forall id ensures id in c <==> id == 2 {
      assert id in c <==> Lookup(layers, id).Some?;
    }
    forall y ensures y !in Ahead(LiveHits(layers, dist, all), x) {
      assert c[2] == far;
    }
    assert Ahead(LiveHits(layers, dist, all), x) == {};
    var rows := Rows(layers[1], dist, all);
    assert layers[1].rows[1] == near && Keyed(dist(near), 1) in rows;
    assert {Keyed(dist(near), 1)} <= Ahead(rows, x);
    SubsetSizes({Keyed(dist(near), 1)}, Ahead(rows, x));
    assert layers[1].rows[2] == far && x in LiveRows(layers, 1, dist, all);
  }
}
