/** Heuristic neighbour selection (Algorithm 4), candidate extension, and greedy descent. */
module HnswSelection {
  import opened Records
  import opened SearchLayers
  import opened HnswGraphs

  /** Distance keys between two nodes. */
  type KeyFunction = (nat, nat) -> real

  /** Keys of a list as seen from one node. */
  function KeyedList(d: KeyFunction, base: nat, list: seq<nat>): (s: seq<Keyed>)
    ensures |s| == |list|
  {
    seq(|list|, i requires 0 <= i < |list| => Keyed(d(base, list[i]), list[i]))
  }

  function NodeList(s: seq<Keyed>): (list: seq<nat>)
    ensures |list| == |s|
  {
    seq(|s|, i requires 0 <= i < |s| => s[i].node)
  }

  /** Nearer to the query than to every node chosen so far. */
  predicate IsDiverse(d: KeyFunction, chosen: seq<Keyed>, c: Keyed) {
    forall i :: 0 <= i < |chosen| ==> d(c.node, chosen[i].node) > c.key
  }

  /** First pass over the candidates: keep the diverse ones, up to `m`. */
  function Greedy(d: KeyFunction, candidates: seq<Keyed>, m: nat): (r: seq<Keyed>)
  {
    if candidates == [] then []
    else
      var last, prev := candidates[|candidates| - 1], Greedy(d, candidates[..|candidates| - 1], m);
      if |prev| < m && IsDiverse(d, prev, last) then prev + [last] else prev
  }

  predicate HasNode(s: seq<Keyed>, node: nat) {
    exists i :: 0 <= i < |s| && s[i].node == node
  }

  /** Second pass: fill up to `m` with the nearest candidates not chosen yet. */
  function Fill(chosen: seq<Keyed>, candidates: seq<Keyed>, m: nat): (r: seq<Keyed>)
  {
    if candidates == [] then chosen
    else
      var last, prev := candidates[|candidates| - 1], Fill(chosen, candidates[..|candidates| - 1], m);
      if |prev| < m && !HasNode(prev, last.node) then prev + [last] else prev
  }

  function Selection(d: KeyFunction, candidates: seq<Keyed>, m: nat): seq<Keyed> {
    Fill(Greedy(d, candidates, m), candidates, m)
  }

  /** `select_heuristic`: two early-stopping passes. */
  method Select(d: KeyFunction, candidates: seq<Keyed>, m: nat) returns (selected: seq<Keyed>)
    ensures selected == Selection(d, candidates, m)
  {
    hide HasNode;
    selected := [];
    var i := 0;
    while i < |candidates| && |selected| < m
      invariant 0 <= i <= |candidates| && selected == Greedy(d, candidates[..i], m)
    {
      assert candidates[..i + 1][..i] == candidates[..i];
      if IsDiverse(d, selected, candidates[i]) {
        selected := selected + [candidates[i]];
      }
      i := i + 1;
    }
    FullStays(d, candidates, m, i);
    assert candidates[..|candidates|] == candidates;
    ghost var chosen := selected;
    if |selected| < m {
      i := 0;
      while i < |candidates| && |selected| < m
        invariant 0 <= i <= |candidates| && selected == Fill(chosen, candidates[..i], m)
      {
        assert candidates[..i + 1][..i] == candidates[..i];
        if !HasNode(selected, candidates[i].node) {
          selected := selected + [candidates[i]];
        }
        i := i + 1;
      }
      FillStays(chosen, candidates, m, i);
    } else {
      FillStays(chosen, candidates, m, 0);
    }
  }

  lemma {:induction false} FullStays(d: KeyFunction, candidates: seq<Keyed>, m: nat, i: nat)
    requires i <= |candidates| && (i == |candidates| || |Greedy(d, candidates[..i], m)| >= m)
    ensures Greedy(d, candidates, m) == Greedy(d, candidates[..i], m)
    decreases |candidates|
  {
    assert candidates[..|candidates|] == candidates;
    if i < |candidates| {
      var front := candidates[..|candidates| - 1];
      assert front[..i] == candidates[..i];
      FullStays(d, front, m, i);
    }
  }

  lemma {:induction false} FillStays(chosen: seq<Keyed>, candidates: seq<Keyed>, m: nat, i: nat)
    requires i <= |candidates| && (i == |candidates| || |Fill(chosen, candidates[..i], m)| >= m)
    ensures Fill(chosen, candidates, m) == Fill(chosen, candidates[..i], m)
    decreases |candidates|
  {
    assert candidates[..|candidates|] == candidates;
    if i < |candidates| {
      var front := candidates[..|candidates| - 1];
      assert front[..i] == candidates[..i];
      FillStays(chosen, front, m, i);
    }
  }

  // ---------------------------------------------------------------------
  // What is selected
  // ---------------------------------------------------------------------

  /** The chosen nodes are candidates, in order of appearance, without duplicates. */
  lemma {:induction false} GreedyFacts(d: KeyFunction, candidates: seq<Keyed>, m: nat)
    requires DistinctNodes(candidates)
    ensures var r := Greedy(d, candidates, m);
            && |r| <= m && |r| <= |candidates| && DistinctNodes(r) && (forall y :: y in r ==> y in candidates)
            && (m > 0 && candidates != [] ==> r != [] && r[0] == candidates[0])
  {
    if candidates != [] {
      var front, last := candidates[..|candidates| - 1], candidates[|candidates| - 1];
      GreedyFacts(d, front, m);
      var prev := Greedy(d, front, m);
      forall i | 0 <= i < |prev| ensures prev[i].node != last.node {
        assert prev[i] in prev && prev[i] in front;
        var k :| 0 <= k < |front| && front[k] == prev[i];
        assert candidates[k] == prev[i];
      }
    }
  }

  /** Diversity: a node chosen by the first pass is nearer to the query than to every node chosen before it. */
  lemma {:induction false} GreedyDiverse(d: KeyFunction, candidates: seq<Keyed>, m: nat, i: nat, j: nat)
    requires i < j < |Greedy(d, candidates, m)|
    ensures var r := Greedy(d, candidates, m); d(r[j].node, r[i].node) > r[j].key
  {
    var front := candidates[..|candidates| - 1];
    if j < |Greedy(d, front, m)| {
      GreedyDiverse(d, front, m, i, j);
    }
  }

  /** A candidate passed over while there was room is at least as near to some chosen node as to the query. */
  lemma {:induction false} GreedyBlocked(d: KeyFunction, candidates: seq<Keyed>, m: nat, k: nat)
    requires k < |candidates| && candidates[k] !in Greedy(d, candidates, m) && |Greedy(d, candidates, m)| < m
    ensures exists i ::
        0 <= i < |Greedy(d, candidates, m)| &&
        d(candidates[k].node, Greedy(d, candidates, m)[i].node) <= candidates[k].key
  {
    var front, last := candidates[..|candidates| - 1], candidates[|candidates| - 1];
    var prev, all := Greedy(d, front, m), Greedy(d, candidates, m);
    if k < |front| {
      assert front[k] == candidates[k];
      GreedyBlocked(d, front, m, k);
      var i :| 0 <= i < |prev| && d(candidates[k].node, prev[i].node) <= candidates[k].key;
      assert all[i] == prev[i];
    } else {
      assert last in prev + [last];
    }
  }

  lemma {:induction false} FillFacts(chosen: seq<Keyed>, candidates: seq<Keyed>, m: nat)
    requires DistinctNodes(chosen) && |chosen| <= m &&
         forall y :: y in chosen ==> y in candidates || HasNode(chosen, y.node)
    ensures var r := Fill(chosen, candidates, m);
            && |chosen| <= |r| <= m && r[..|chosen|] == chosen && DistinctNodes(r)
            && (forall y :: y in r ==> y in chosen || y in candidates)
            && (|r| < m ==> forall k :: 0 <= k < |candidates| ==> HasNode(r, candidates[k].node))
  {
    if candidates != [] {
      var front, last := candidates[..|candidates| - 1], candidates[|candidates| - 1];
      forall y | y in chosen ensures HasNode(chosen, y.node) {
        var i :| 0 <= i < |chosen| && chosen[i] == y;
      }
      FillFacts(chosen, front, m);
      var prev, r := Fill(chosen, front, m), Fill(chosen, candidates, m);
      forall k | |r| < m && 0 <= k < |candidates| ensures HasNode(r, candidates[k].node) {
        if k < |front| {
          assert front[k] == candidates[k] && HasNode(prev, front[k].node);
          var i :| 0 <= i < |prev| && prev[i].node == front[k].node;
          assert r[i] == prev[i];
        } else if r == prev + [last] {
          assert r[|prev|] == last;
        }
      }
    }
  }

  /**
   * What `select_heuristic` returns: distinct candidates, the nearest one first, and exactly
   * `m` of them unless there are fewer candidates, in which case all of them.
   */
  lemma SelectionFacts(d: KeyFunction, candidates: seq<Keyed>, m: nat)
    requires DistinctNodes(candidates)
    ensures var r := Selection(d, candidates, m);
            && DistinctNodes(r) && |r| <= m && (forall y :: y in r ==> y in candidates)
            && |r| == (if m <= |candidates| then m else |candidates|)
            && (m > 0 && candidates != [] ==> r[0] == candidates[0])
  {
    var chosen, r := Greedy(d, candidates, m), Selection(d, candidates, m);
    GreedyFacts(d, candidates, m);
    FillFacts(chosen, candidates, m);
    SubsetSize(r, candidates);
    if |r| < m {
      forall k | 0 <= k < |candidates| ensures candidates[k].node in Nodes(r) {
        var i :| 0 <= i < |r| && r[i].node == candidates[k].node;
      }
      SizeAtLeast(candidates, r);
    }
    if m > 0 && candidates != [] {
      assert r[0] == r[..|chosen|][0];
    }
  }

  lemma SubsetSize(r: seq<Keyed>, s: seq<Keyed>)
    requires DistinctNodes(r) && DistinctNodes(s) && forall y :: y in r ==> y in s
    ensures |r| <= |s|
  {
    forall v | v in Nodes(r) ensures v in Nodes(s) {
      var i :| 0 <= i < |r| && r[i].node == v;
      assert r[i] in s;
      var k :| 0 <= k < |s| && s[k] == r[i];
    }
    NodesCount(r);
    NodesCount(s);
    SubsetCard(Nodes(r), Nodes(s));
  }

  lemma SizeAtLeast(s: seq<Keyed>, r: seq<Keyed>)
    requires DistinctNodes(r) && DistinctNodes(s) && forall k :: 0 <= k < |s| ==> s[k].node in Nodes(r)
    ensures |s| <= |r|
  {
    NodesCount(r);
    NodesCount(s);
    SubsetCard(Nodes(s), Nodes(r));
  }

  // ---------------------------------------------------------------------
  // The selection, said without its passes
  // ---------------------------------------------------------------------

  /** Nearer to the base, ties by number. */
  predicate Closer(d: KeyFunction, base: nat, x: nat, y: nat) {
    d(base, x) < d(base, y) || (d(base, x) == d(base, y) && x < y)
  }

  /** A node chosen earlier is at least as near to `x` as the base is. */
  ghost predicate Blocked(d: KeyFunction, base: nat, chosen: seq<nat>, x: nat) {
    exists i :: 0 <= i < |chosen| && Closer(d, base, chosen[i], x) && d(x, chosen[i]) <= d(base, x)
  }

  /** There was no room left when it was the turn of `x`. */
  predicate NoRoom(d: KeyFunction, base: nat, chosen: seq<nat>, m: nat, x: nat) {
    |chosen| == m && (m == 0 || Closer(d, base, chosen[m - 1], x))
  }

  /** Nearest first. */
  ghost predicate InOrder(d: KeyFunction, base: nat, s: seq<nat>) {
    forall i, j :: 0 <= i < j < |s| ==> Closer(d, base, s[i], s[j])
  }

  /** Every node is nearer to the base than to all before it. */
  ghost predicate Diverse(d: KeyFunction, base: nat, s: seq<nat>) {
    forall i, j :: 0 <= i < j < |s| ==> d(s[j], s[i]) > d(base, s[j])
  }

  /**
   * The neighbours that Algorithm 4 picks for `base` out of a pool: `m` of them if there are so many. The first `c`
   * are nearest first and diverse, and whoever is not among them came too late or is blocked. The others are the
   * nearest of the rest, nearest first.
   */
  ghost predicate PickedAt(d: KeyFunction, base: nat, pool: set<nat>, r: seq<nat>, m: nat, c: nat) {
    && c <= |r| == (if m <= |pool| then m else |pool|)
    && Distinct(r) && (forall x :: x in r ==> x in pool)
    && InOrder(d, base, r[..c]) && Diverse(d, base, r[..c])
    && (forall x :: x in pool && x !in r[..c] ==> NoRoom(d, base, r[..c], m, x) || Blocked(d, base, r[..c], x))
    && InOrder(d, base, r[c..])
    && (forall x, y :: x in r[c..] && y in pool && y !in r ==> Closer(d, base, x, y))
  }

  ghost predicate Picked(d: KeyFunction, base: nat, pool: set<nat>, r: seq<nat>, m: nat) {
    exists c :: PickedAt(d, base, pool, r, m, c)
  }

  /** The keys are distances from one node. */
  ghost predicate KeyedFrom(d: KeyFunction, base: nat, s: seq<Keyed>) {
    forall i :: 0 <= i < |s| ==> s[i].key == d(base, s[i].node)
  }

  lemma {:induction false} GreedyPicks(d: KeyFunction, base: nat, candidates: seq<Keyed>, m: nat)
    requires Sorted(candidates) && KeyedFrom(d, base, candidates)
    ensures var r := NodeList(Greedy(d, candidates, m));
            && |r| <= m && InOrder(d, base, r) && Diverse(d, base, r) && KeyedFrom(d, base, Greedy(d, candidates, m))
            && (forall y :: y in Greedy(d, candidates, m) ==> y in candidates)
            && (forall k :: 0 <= k < |candidates| && candidates[k].node !in r ==>
                  NoRoom(d, base, r, m, candidates[k].node) || Blocked(d, base, r, candidates[k].node))
  {
    if candidates != [] {
      var front, last := candidates[..|candidates| - 1], candidates[|candidates| - 1];
      GreedyPicks(d, base, front, m);
      var prev, all := Greedy(d, front, m), Greedy(d, candidates, m);
      forall i | 0 <= i < |prev| ensures Closer(d, base, prev[i].node, last.node) {
        assert prev[i] in prev && prev[i] in front;
        var k :| 0 <= k < |front| && front[k] == prev[i];
        assert Less(candidates[k], candidates[|candidates| - 1]);
      }
      hide Blocked, Closer;
      if all == prev {
        LastPassed(d, base, prev, last, m);
        forall k | 0 <= k < |candidates| && candidates[k].node !in NodeList(all)
          ensures NoRoom(d, base, NodeList(all), m, candidates[k].node)
              || Blocked(d, base, NodeList(all), candidates[k].node)
        {
          if k < |front| {
            assert front[k] == candidates[k];
          }
        }
      } else {
        GrowsInOrder(d, base, prev, last);
        forall k | 0 <= k < |candidates| && candidates[k].node !in NodeList(all)
          ensures Blocked(d, base, NodeList(all), candidates[k].node)
        {
          assert front[k] == candidates[k];
          StillBlocked(d, base, NodeList(prev), last.node, candidates[k].node);
        }
      }
    }
  }

  lemma GrowsInOrder(d: KeyFunction, base: nat, prev: seq<Keyed>, last: Keyed)
    requires InOrder(d, base, NodeList(prev)) && Diverse(d, base, NodeList(prev)) && IsDiverse(d, prev, last)
    requires last.key == d(base, last.node) && forall i :: 0 <= i < |prev| ==> Closer(d, base, prev[i].node, last.node)
    ensures NodeList(prev + [last]) == NodeList(prev) + [last.node]
    ensures InOrder(d, base, NodeList(prev + [last])) && Diverse(d, base, NodeList(prev + [last]))
  {
  }

  lemma StillBlocked(d: KeyFunction, base: nat, chosen: seq<nat>, last: nat, x: nat)
    requires Blocked(d, base, chosen, x)
    ensures Blocked(d, base, chosen + [last], x)
  {
    var i :| 0 <= i < |chosen| && Closer(d, base, chosen[i], x) && d(x, chosen[i]) <= d(base, x);
    assert (chosen + [last])[i] == chosen[i];
  }

  lemma LastPassed(d: KeyFunction, base: nat, prev: seq<Keyed>, last: Keyed, m: nat)
    requires |prev| == m || (|prev| < m && !IsDiverse(d, prev, last))
    requires last.key == d(base, last.node)
    requires forall i :: 0 <= i < |prev| ==> Closer(d, base, prev[i].node, last.node)
    ensures NoRoom(d, base, NodeList(prev), m, last.node) || Blocked(d, base, NodeList(prev), last.node)
  {
    if |prev| < m {
      var i :| 0 <= i < |prev| && d(last.node, prev[i].node) <= last.key;
      assert NodeList(prev)[i] == prev[i].node;
    }
  }

  /** The second pass adds the nearest candidates that are left. */
  lemma {:induction false} FillNearest(chosen: seq<Keyed>, candidates: seq<Keyed>, m: nat)
    requires Sorted(candidates) && |chosen| <= m
    ensures var r := Fill(chosen, candidates, m);
            && |chosen| <= |r| <= m && r[..|chosen|] == chosen && Sorted(r[|chosen|..])
            && (forall y :: y in r[|chosen|..] ==> y in candidates)
            && (|r| < m ==> forall k :: 0 <= k < |candidates| ==> HasNode(r, candidates[k].node))
            && (forall i, k :: |chosen| <= i < |r| && 0 <= k < |candidates| && !HasNode(r, candidates[k].node) ==>
                  Less(r[i], candidates[k]))
  {
    if candidates != [] {
      var front, last := candidates[..|candidates| - 1], candidates[|candidates| - 1];
      FillNearest(chosen, front, m);
      var prev, r, c := Fill(chosen, front, m), Fill(chosen, candidates, m), |chosen|;
      forall i | c <= i < |prev| ensures prev[i] in candidates && Less(prev[i], last) {
        assert prev[i] in prev[c..];
        var k :| 0 <= k < |front| && front[k] == prev[i];
        assert candidates[k] == prev[i];
      }
      if r == prev {
        forall k | 0 <= k < |front| ensures front[k] == candidates[k] {
        }
      } else {
        assert r == prev + [last] && r[c..] == prev[c..] + [last];
        forall k | 0 <= k < |candidates| ensures HasNode(r, candidates[k].node) {
          if k < |front| {
            assert front[k] == candidates[k] && HasNode(prev, front[k].node);
            var i :| 0 <= i < |prev| && prev[i].node == front[k].node;
            assert r[i] == prev[i];
          } else {
            assert r[|prev|] == last;
          }
        }
      }
    }
  }

  lemma NodeOf(s: seq<Keyed>, v: nat) returns (k: nat)
    requires v in Nodes(s)
    ensures k < |s| && s[k].node == v
  {
    k :| k < |s| && s[k].node == v;
  }

  /** What `select_heuristic` makes of sorted candidates is the pick of Algorithm 4 from their nodes. */
  lemma SelectionPicked(d: KeyFunction, base: nat, candidates: seq<Keyed>, m: nat)
    requires Sorted(candidates) && DistinctNodes(candidates) && KeyedFrom(d, base, candidates)
    ensures Picked(d, base, Nodes(candidates), NodeList(Selection(d, candidates, m)), m)
  {
    hide Greedy, Fill, Closer, IsDiverse, HasNode, NoRoom, Blocked, Sorted, KeyedFrom, InOrder, Diverse, Nodes;
    var chosen, r := Greedy(d, candidates, m), Selection(d, candidates, m);
    GreedyPicks(d, base, candidates, m);
    FillNearest(chosen, candidates, m);
    SelectionFacts(d, candidates, m);
    NodesCount(candidates);
    var c, list := |chosen|, NodeList(r);
    assert list[..c] == NodeList(chosen) by {
      assert forall i :: 0 <= i < c ==> r[i] == r[..c][i];
    }
    assert list[c..] == NodeList(r[c..]);
    ListedFrom(d, base, candidates, r);
    FirstPart(d, base, candidates, m);
    RestPart(d, base, candidates, r, c);
    assert PickedAt(d, base, Nodes(candidates), list, m, c);
  }

  lemma ListedFrom(d: KeyFunction, base: nat, candidates: seq<Keyed>, r: seq<Keyed>)
    requires DistinctNodes(r) && (forall y :: y in r ==> y in candidates)
    ensures Distinct(NodeList(r)) && forall x :: x in NodeList(r) ==> x in Nodes(candidates)
  {
    forall i | 0 <= i < |r| ensures NodeList(r)[i] in Nodes(candidates) {
      assert r[i] in r;
      var k :| 0 <= k < |candidates| && candidates[k] == r[i];
    }
  }

  lemma FirstPart(d: KeyFunction, base: nat, candidates: seq<Keyed>, m: nat)
    requires Sorted(candidates) && KeyedFrom(d, base, candidates)
    ensures var first := NodeList(Greedy(d, candidates, m));
            forall x :: x in Nodes(candidates) && x !in first ==>
              NoRoom(d, base, first, m, x) || Blocked(d, base, first, x)
  {
    hide Greedy, NoRoom, Blocked, Sorted, Closer, NodeList, InOrder, Diverse;
    GreedyPicks(d, base, candidates, m);
    forall x | x in Nodes(candidates) && x !in NodeList(Greedy(d, candidates, m))
      ensures NoRoom(d, base, NodeList(Greedy(d, candidates, m)), m, x)
          || Blocked(d, base, NodeList(Greedy(d, candidates, m)), x)
    {
      var k := NodeOf(candidates, x);
    }
  }

  lemma RestPart(d: KeyFunction, base: nat, candidates: seq<Keyed>, r: seq<Keyed>, c: nat)
    requires KeyedFrom(d, base, candidates) && c <= |r| && Sorted(r[c..])
    requires forall y :: y in r[c..] ==> y in candidates
    requires forall i, k :: c <= i < |r| && 0 <= k < |candidates| && !HasNode(r, candidates[k].node) ==>
               Less(r[i], candidates[k])
    ensures var list := NodeList(r);
            && InOrder(d, base, list[c..])
            && forall x, y :: x in list[c..] && y in Nodes(candidates) && y !in list ==> Closer(d, base, x, y)
  {
    var list := NodeList(r);
    forall i | c <= i < |r| ensures r[i].key == d(base, list[i]) {
      assert r[i] == r[c..][i - c] && r[i] in r[c..];
      var k :| 0 <= k < |candidates| && candidates[k] == r[i];
    }
    forall i, j | 0 <= i < j < |list[c..]| ensures Closer(d, base, list[c..][i], list[c..][j]) {
      assert Less(r[c..][i], r[c..][j]);
    }
    forall x, y | x in list[c..] && y in Nodes(candidates) && y !in list ensures Closer(d, base, x, y) {
      var i :| c <= i < |list| && list[i] == x;
      var k := NodeOf(candidates, y);
      forall j | 0 <= j < |r| ensures r[j].node != y {
        assert list[j] in list;
      }
      assert Less(r[i], candidates[k]);
    }
  }

  // ---------------------------------------------------------------------
  // What a pick is
  // ---------------------------------------------------------------------

  lemma PickedFacts(d: KeyFunction, base: nat, pool: set<nat>, r: seq<nat>, m: nat)
    requires Picked(d, base, pool, r, m)
    ensures Distinct(r) && |r| == (if m <= |pool| then m else |pool|) && forall x :: x in r ==> x in pool
  {
  }

  /** The nearest of the pool comes first. */
  lemma PickedNearest(d: KeyFunction, base: nat, pool: set<nat>, r: seq<nat>, m: nat, x: nat)
    requires Picked(d, base, pool, r, m) && m > 0 && x in pool
    ensures r != [] && (r[0] == x || Closer(d, base, r[0], x))
  {
    var c: nat :| PickedAt(d, base, pool, r, m, c);
    assert pool != {};
    var first := r[..c];
    assert first[0] == r[0];
    if x !in first {
      if NoRoom(d, base, first, m, x) {
        if m > 1 {
          assert Closer(d, base, first[0], first[m - 1]);
        }
      } else {
        var i :| 0 <= i < |first| && Closer(d, base, first[i], x) && d(x, first[i]) <= d(base, x);
        if i > 0 {
          assert Closer(d, base, first[0], first[i]);
        }
      }
    }
  }

  lemma {:induction false} InsertKeyed(s: seq<Keyed>, x: Keyed) returns (r: seq<Keyed>)
    requires Sorted(s) && DistinctNodes(s) && x.node !in Nodes(s)
    ensures Sorted(r) && DistinctNodes(r) && |r| == |s| + 1 && forall y :: y in r <==> y in s || y == x
    decreases |s|
  {
    if s == [] || Less(s[|s| - 1], x) {
      r := s + [x];
      Pushed(s, x, r, |s|);
    } else {
      var front, last := s[..|s| - 1], s[|s| - 1];
      assert s == front + [last] && last.node in Nodes(s);
      forall v | v in Nodes(front) ensures v in Nodes(s) {
        var i :| 0 <= i < |front| && front[i].node == v;
        assert s[i] == front[i];
      }
      var before := InsertKeyed(front, x);
      r := before + [last];
      forall i | 0 <= i < |before| ensures Less(before[i], last) && before[i].node != last.node {
        assert before[i] in before;
        if before[i] != x {
          var k :| 0 <= k < |front| && front[k] == before[i];
          assert Less(s[k], s[|s| - 1]) && s[k].node != s[|s| - 1].node;
        }
      }
    }
  }

  /** Every set of nodes can be lined up by distance. */
  lemma {:induction false} LineUp(d: KeyFunction, base: nat, pool: set<nat>) returns (s: seq<Keyed>)
    ensures Sorted(s) && DistinctNodes(s) && KeyedFrom(d, base, s) && Nodes(s) == pool
    decreases |pool|
  {
    if pool == {} {
      s := [];
    } else {
      var x :| x in pool;
      var rest := LineUp(d, base, pool - {x});
      s := InsertKeyed(rest, Keyed(d(base, x), x));
      forall i | 0 <= i < |s| ensures s[i].node in pool && s[i].key == d(base, s[i].node) {
        assert s[i] in s;
        if s[i] != Keyed(d(base, x), x) {
          var k :| 0 <= k < |rest| && rest[k] == s[i];
          assert rest[k].node in Nodes(rest);
        }
      }
      forall v | v in pool ensures v in Nodes(s) {
        if v == x {
          assert Keyed(d(base, x), x) in s;
        } else {
          var k := NodeOf(rest, v);
          assert rest[k] in s;
        }
      }
    }
  }

  /** There is always a pick. */
  lemma PickExists(d: KeyFunction, base: nat, pool: set<nat>, m: nat) returns (r: seq<nat>)
    ensures Picked(d, base, pool, r, m)
  {
    var candidates := LineUp(d, base, pool);
    SelectionPicked(d, base, candidates, m);
    r := NodeList(Selection(d, candidates, m));
  }

  /** A pool determines the pick. */
  lemma PickedUnique(d: KeyFunction, base: nat, pool: set<nat>, r: seq<nat>, s: seq<nat>, m: nat)
    requires Picked(d, base, pool, r, m) && Picked(d, base, pool, s, m)
    ensures r == s
  {
    hide PickedAt;
    var c: nat :| PickedAt(d, base, pool, r, m, c);
    var e: nat :| PickedAt(d, base, pool, s, m, e);
    PickedBounds(d, base, pool, r, m, c);
    PickedBounds(d, base, pool, s, m, e);
    SameFirst(d, base, pool, r, s, m, c, e, if c <= e then c else e);
    if c < e {
      NoneLeft(d, base, pool, r, s, m, c, e);
    } else {
      NoneLeft(d, base, pool, s, r, m, e, c);
    }
    SameRest(d, base, pool, r, s, m, c, |r|);
    assert r[..|r|] == r && s[..|s|] == s;
  }

  /** After a common beginning, a node nearer than the next diverse one is not blocked. */
  lemma NextUnblocked(d: KeyFunction, base: nat, r: seq<nat>, s: seq<nat>, k: nat)
    requires InOrder(d, base, r) && Diverse(d, base, r) && InOrder(d, base, s)
    requires k < |r| && k < |s| && r[..k] == s[..k] && Closer(d, base, r[k], s[k])
    ensures r[k] !in s && !Blocked(d, base, s, r[k])
    ensures Closer(d, base, r[k], s[|s| - 1])
  {
    forall j | 0 <= j < |s| ensures if j < k then s[j] == r[j] else Closer(d, base, r[k], s[j]) {
      if j < k {
        assert s[..k][j] == r[..k][j];
      }
    }
  }

  lemma PickedFirst(d: KeyFunction, base: nat, pool: set<nat>, r: seq<nat>, m: nat, c: nat)
    requires PickedAt(d, base, pool, r, m, c)
    ensures c <= |r| <= m && InOrder(d, base, r[..c]) && Diverse(d, base, r[..c]) && forall x :: x in r ==> x in pool
  {
  }

  lemma PassedOver(d: KeyFunction, base: nat, pool: set<nat>, r: seq<nat>, m: nat, c: nat, x: nat)
    requires PickedAt(d, base, pool, r, m, c) && x in pool
    ensures x in r[..c] || NoRoom(d, base, r[..c], m, x) || Blocked(d, base, r[..c], x)
  {
  }

  lemma SamePrefix(r: seq<nat>, s: seq<nat>, c: nat, e: nat, k: nat)
    requires k <= c <= |r| && k <= e <= |s| && r[..k] == s[..k]
    ensures r[..c][..k] == s[..e][..k]
  {
    assert r[..c][..k] == r[..k] && s[..e][..k] == s[..k];
  }

  lemma CloserOneWay(d: KeyFunction, base: nat, x: nat, y: nat)
    requires Closer(d, base, x, y)
    ensures !Closer(d, base, y, x)
  {
  }

  /** If the diverse parts agree so far, the next node of one cannot be nearer than the next of the other. */
  lemma NotCloser(d: KeyFunction, base: nat, pool: set<nat>, r: seq<nat>, s: seq<nat>, m: nat, c: nat, e: nat, k: nat)
    requires PickedAt(d, base, pool, r, m, c) && PickedAt(d, base, pool, s, m, e)
    requires k < c && k < e && r[..k] == s[..k]
    ensures !Closer(d, base, r[k], s[k])
  {
    hide PickedAt, Blocked, InOrder, Diverse, Closer;
    PickedFirst(d, base, pool, r, m, c);
    PickedFirst(d, base, pool, s, m, e);
    SamePrefix(r, s, c, e, k);
    assert r[k] in r;
    PassedOver(d, base, pool, s, m, e, r[k]);
    if Closer(d, base, r[k], s[k]) {
      NextUnblocked(d, base, r[..c], s[..e], k);
      CloserOneWay(d, base, r[k], s[..e][e - 1]);
    }
  }

  lemma {:induction false} SameFirst(d: KeyFunction, base: nat, pool: set<nat>, r: seq<nat>, s: seq<nat>, m: nat,
      c: nat, e: nat, k: nat)
    requires PickedAt(d, base, pool, r, m, c) && PickedAt(d, base, pool, s, m, e) && k <= c && k <= e
    ensures r[..k] == s[..k]
    decreases k
  {
    hide PickedAt;
    if k > 0 {
      SameFirst(d, base, pool, r, s, m, c, e, k - 1);
      PickedBounds(d, base, pool, r, m, c);
      PickedBounds(d, base, pool, s, m, e);
      NotCloser(d, base, pool, r, s, m, c, e, k - 1);
      NotCloser(d, base, pool, s, r, m, e, c, k - 1);
      assert r[..k] == r[..k - 1] + [r[k - 1]] && s[..k] == s[..k - 1] + [s[k - 1]];
    }
  }

  lemma PickedBounds(d: KeyFunction, base: nat, pool: set<nat>, r: seq<nat>, m: nat, c: nat)
    requires PickedAt(d, base, pool, r, m, c)
    ensures c <= |r| <= m && |r| == (if m <= |pool| then m else |pool|)
  {
  }

  lemma DiverseUnblocked(d: KeyFunction, base: nat, s: seq<nat>, k: nat)
    requires Diverse(d, base, s) && k < |s|
    ensures !Blocked(d, base, s[..k], s[k])
  {
  }

  /** A diverse part leaves nothing diverse behind. */
  lemma NoneLeft(d: KeyFunction, base: nat, pool: set<nat>, r: seq<nat>, s: seq<nat>, m: nat, c: nat, e: nat)
    requires PickedAt(d, base, pool, r, m, c) && PickedAt(d, base, pool, s, m, e)
    requires c <= |s| && r[..c] == s[..c]
    ensures e <= c
  {
    if c < e {
      var x := s[c];
      assert x in s;
      assert s[..e][..c] == s[..c] && x !in s[..c];
      hide Blocked, InOrder, Diverse, Distinct;
      DiverseUnblocked(d, base, s[..e], c);
    }
  }

  lemma {:induction false} SameRest(d: KeyFunction, base: nat, pool: set<nat>, r: seq<nat>, s: seq<nat>, m: nat, c: nat,
      k: nat)
    requires PickedAt(d, base, pool, r, m, c) && PickedAt(d, base, pool, s, m, c) && r[..c] == s[..c] && c <= k <= |r|
    ensures |r| == |s| && r[..k] == s[..k]
    decreases k
  {
    hide PickedAt;
    PickedBounds(d, base, pool, r, m, c);
    PickedBounds(d, base, pool, s, m, c);
    if k > c {
      SameRest(d, base, pool, r, s, m, c, k - 1);
      RestNotCloser(d, base, pool, r, s, m, c, k - 1);
      RestNotCloser(d, base, pool, s, r, m, c, k - 1);
      assert r[..k] == r[..k - 1] + [r[k - 1]] && s[..k] == s[..k - 1] + [s[k - 1]];
    }
  }

  lemma PickedRest(d: KeyFunction, base: nat, pool: set<nat>, r: seq<nat>, m: nat, c: nat)
    requires PickedAt(d, base, pool, r, m, c)
    ensures c <= |r| && InOrder(d, base, r[c..]) && Distinct(r) && forall x :: x in r ==> x in pool
    ensures forall x, y :: x in r[c..] && y in pool && y !in r ==> Closer(d, base, x, y)
  {
  }

  lemma RestNotCloser(d: KeyFunction, base: nat, pool: set<nat>, r: seq<nat>, s: seq<nat>, m: nat, c: nat, k: nat)
    requires PickedAt(d, base, pool, r, m, c) && PickedAt(d, base, pool, s, m, c)
    requires c <= k < |r| == |s| && r[..k] == s[..k]
    ensures !Closer(d, base, r[k], s[k])
  {
    hide PickedAt, Closer;
    PickedRest(d, base, pool, r, m, c);
    PickedRest(d, base, pool, s, m, c);
    var x := r[k];
    assert x in r && s[k] == s[c..][k - c] && s[k] in s[c..];
    forall j | 0 <= j < k ensures s[j] != x {
      assert r[..k][j] == s[..k][j];
    }
    forall j | k < j < |s| ensures Closer(d, base, s[k], s[j]) {
      assert Closer(d, base, s[c..][k - c], s[c..][j - c]);
    }
    CloserStrict(d, base, x, s[k]);
  }

  lemma CloserStrict(d: KeyFunction, base: nat, x: nat, y: nat)
    ensures !(Closer(d, base, x, y) && Closer(d, base, y, x))
    ensures !Closer(d, base, x, x)
  {
  }

  // ---------------------------------------------------------------------
  // Sorting, extension, descent
  // ---------------------------------------------------------------------

  /** The library sort, as repeated insertion. */
  method Sort(s: seq<Keyed>) returns (r: seq<Keyed>)
    requires DistinctNodes(s)
    ensures Sorted(r) && DistinctNodes(r) && |r| == |s| && Nodes(r) == Nodes(s) && forall y :: y in r <==> y in s
  {
    r := [];
    for i := 0 to |s|
      invariant Sorted(r) && DistinctNodes(r) && |r| == i && Nodes(r) == Nodes(s[..i])
      invariant forall y :: y in r <==> y in s[..i]
    {
      assert s[i].node !in Nodes(s[..i]);
      var r' := Push(r, s[i]);
      ghost var p :| 0 <= p <= |r| && r' == r[..p] + [s[i]] + r[p..];
      Pushed(r, s[i], r', p);
      assert s[..i + 1] == s[..i] + [s[i]];
      Pushed(s[..i], s[i], s[..i + 1], i);
      r := r';
    }
    assert s[..|s|] == s;
  }

  /** The candidates and their neighbours at one level. */
  ghost function Extended(g: Graph, level: nat, candidates: seq<Keyed>): set<nat> {
    Nodes(candidates) +
    set i, k | 0 <= i < |candidates| && candidates[i].node < |g.lists| &&
               0 <= k < |g.Neighbors(level, candidates[i].node)|
      :: g.Neighbors(level, candidates[i].node)[k]
  }

  ghost predicate ExtendState(g: Graph, level: nat, dist: nat -> real, candidates: seq<Keyed>, seen: set<nat>,
      extended: seq<Keyed>) {
    && DistinctNodes(extended) && KeyedBy(extended, dist) && seen == Nodes(extended)
    && Nodes(candidates) <= seen <= Extended(g, level, candidates)
  }

  lemma ExtendOne(g: Graph, level: nat, dist: nat -> real, candidates: seq<Keyed>, seen: set<nat>,
      extended: seq<Keyed>, i: nat, k: nat)
    requires ExtendState(g, level, dist, candidates, seen, extended)
    requires i < |candidates| && candidates[i].node < |g.lists| && k < |g.Neighbors(level, candidates[i].node)|
    requires g.Neighbors(level, candidates[i].node)[k] !in seen
    ensures var nb := g.Neighbors(level, candidates[i].node)[k];
            ExtendState(g, level, dist, candidates, seen + {nb}, extended + [Keyed(dist(nb), nb)])
  {
    var nb := g.Neighbors(level, candidates[i].node)[k];
    Pushed(extended, Keyed(dist(nb), nb), extended + [Keyed(dist(nb), nb)], |extended|);
    assert nb in Extended(g, level, candidates);
  }

  /** `extend_candidates` */
  method Extend(g: Graph, level: nat, dist: nat -> real, candidates: seq<Keyed>) returns (r: seq<Keyed>)
    requires DistinctNodes(candidates) && KeyedBy(candidates, dist)
    requires forall i :: 0 <= i < |candidates| ==> candidates[i].node < |g.lists|
    ensures Sorted(r) && DistinctNodes(r) && KeyedBy(r, dist)
    ensures Nodes(r) == Extended(g, level, candidates)
  {
    var seen := set c | c in candidates :: c.node;
    var extended := candidates;
    NodesOf(candidates);
    hide ExtendState;
    ExtendStart(g, level, dist, candidates);
    for i := 0 to |candidates|
      invariant ExtendState(g, level, dist, candidates, seen, extended)
      invariant forall a :: 0 <= a < i ==> AllIn(g.Neighbors(level, candidates[a].node), seen)
    {
      var list := g.Neighbors(level, candidates[i].node);
      for k := 0 to |list|
        invariant ExtendState(g, level, dist, candidates, seen, extended)
        invariant forall a :: 0 <= a < i ==> AllIn(g.Neighbors(level, candidates[a].node), seen)
        invariant AllIn(list[..k], seen)
      {
        var nb := list[k];
        assert list[..k + 1] == list[..k] + [nb];
        if nb !in seen {
          ExtendOne(g, level, dist, candidates, seen, extended, i, k);
          extended := extended + [Keyed(dist(nb), nb)];
          seen := seen + {nb};
        }
      }
      assert list[..|list|] == list;
    }
    ExtendDone(g, level, dist, candidates, seen, extended);
    r := Sort(extended);
    SameKeys(extended, r, dist);
  }

  lemma NodesOf(s: seq<Keyed>)
    ensures (set c | c in s :: c.node) == Nodes(s)
  {
    forall v | v in Nodes(s) ensures v in set c | c in s :: c.node {
      var i :| 0 <= i < |s| && s[i].node == v;
      assert s[i] in s;
    }
  }

  lemma ExtendStart(g: Graph, level: nat, dist: nat -> real, candidates: seq<Keyed>)
    requires DistinctNodes(candidates) && KeyedBy(candidates, dist)
    ensures ExtendState(g, level, dist, candidates, Nodes(candidates), candidates)
  {
  }

  lemma ExtendDone(g: Graph, level: nat, dist: nat -> real, candidates: seq<Keyed>, seen: set<nat>,
      extended: seq<Keyed>)
    requires ExtendState(g, level, dist, candidates, seen, extended)
    requires forall i :: 0 <= i < |candidates| ==> candidates[i].node < |g.lists|
    requires forall a :: 0 <= a < |candidates| ==> AllIn(g.Neighbors(level, candidates[a].node), seen)
    ensures DistinctNodes(extended) && KeyedBy(extended, dist) && Nodes(extended) == Extended(g, level, candidates)
  {
    forall v | v in Extended(g, level, candidates) ensures v in seen {
      if v !in Nodes(candidates) {
        var i, k :| 0 <= i < |candidates| && 0 <= k < |g.Neighbors(level, candidates[i].node)|
            && g.Neighbors(level, candidates[i].node)[k] == v;
        assert AllIn(g.Neighbors(level, candidates[i].node), seen);
      }
    }
  }

  lemma SameKeys(s: seq<Keyed>, r: seq<Keyed>, dist: nat -> real)
    requires KeyedBy(s, dist) && forall y :: y in r <==> y in s
    ensures KeyedBy(r, dist)
  {
    forall i | 0 <= i < |r| ensures r[i].key == dist(r[i].node) {
      assert r[i] in s;
      var k :| 0 <= k < |s| && s[k] == r[i];
    }
  }

  /** Nodes strictly nearer than a key: what greedy descent still has in front of it. */
  ghost function Nearer(n: nat, dist: nat -> real, key: real): set<nat> {
    set v | v in Below(n) && dist(v) < key
  }

  lemma NearerShrinks(n: nat, dist: nat -> real, key: real, ep: Keyed)
    requires ep.node < n && ep.key == dist(ep.node) && ep.key < key
    ensures Nearer(n, dist, ep.key) < Nearer(n, dist, key)
  {
    assert ep.node in Nearer(n, dist, key) && ep.node !in Nearer(n, dist, ep.key);
  }

  /** No neighbour at the level is nearer. */
  ghost predicate LocalMinimum(g: Graph, level: nat, dist: nat -> real, ep: Keyed) {
    ep.node < |g.lists| &&
         forall i :: 0 <= i < |g.Neighbors(level, ep.node)| ==> dist(g.Neighbors(level, ep.node)[i]) >= ep.key
  }

  /** A move to a neighbour that is nearer: the nearest, and the first of them in the list. */
  ghost predicate MovesTo(g: Graph, level: nat, dist: nat -> real, a: nat, b: nat) {
    && a < |g.lists| && dist(b) < dist(a)
    && exists i :: 0 <= i < |g.Neighbors(level, a)| && FirstNearest(g.Neighbors(level, a), dist, i, b)
  }

  ghost predicate FirstNearest(list: seq<nat>, dist: nat -> real, i: nat, b: nat) {
    && i < |list| && list[i] == b && (forall k :: 0 <= k < |list| ==> dist(list[k]) >= dist(b))
    && (forall k :: 0 <= k < i ==> dist(list[k]) > dist(b))
  }

  /** The moves on one level, from one node to a local minimum. */
  ghost predicate Moves(g: Graph, level: nat, dist: nat -> real, path: seq<nat>) {
    && path != [] && (forall i, j :: 0 <= i && j == i + 1 && j < |path| ==> MovesTo(g, level, dist, path[i], path[j]))
    && LocalMinimum(g, level, dist, Keyed(dist(path[|path| - 1]), path[|path| - 1]))
  }

  ghost predicate LevelDescent(g: Graph, level: nat, dist: nat -> real, a: nat, b: nat) {
    exists path :: Moves(g, level, dist, path) && path[0] == a && path[|path| - 1] == b
  }

  /** The descent from one level to another: `ends` are where it stands before and after each level. */
  ghost predicate WholeDescent(g: Graph, dist: nat -> real, fromLevel: nat, toLevel: nat, ends: seq<nat>) {
    && toLevel <= fromLevel && |ends| == fromLevel - toLevel + 1
    && forall i, j :: 0 <= i && j == i + 1 && j < |ends| ==> LevelDescent(g, fromLevel - i, dist, ends[i], ends[j])
  }

  ghost predicate DescendsTo(g: Graph, dist: nat -> real, fromLevel: nat, toLevel: nat, a: nat, b: nat) {
    exists ends :: WholeDescent(g, dist, fromLevel, toLevel, ends) && ends[0] == a && ends[|ends| - 1] == b
  }

  lemma MoveOn(g: Graph, level: nat, dist: nat -> real, path: seq<nat>, b: nat)
    requires path != [] && MovesTo(g, level, dist, path[|path| - 1], b)
    requires forall i, j :: 0 <= i && j == i + 1 && j < |path| ==> MovesTo(g, level, dist, path[i], path[j])
    ensures var all := path + [b];
            forall i, j :: 0 <= i && j == i + 1 && j < |all| ==> MovesTo(g, level, dist, all[i], all[j])
  {
    hide MovesTo;
    var all := path + [b];
    forall i, j | 0 <= i && j == i + 1 && j < |all| ensures MovesTo(g, level, dist, all[i], all[j]) {
      if j < |path| {
        assert all[i] == path[i] && all[j] == path[j];
      }
    }
  }

  lemma LevelDown(g: Graph, dist: nat -> real, fromLevel: nat, level: nat, ends: seq<nat>, b: nat)
    requires level >= 1 && WholeDescent(g, dist, fromLevel, level, ends)
    requires LevelDescent(g, level, dist, ends[|ends| - 1], b)
    ensures WholeDescent(g, dist, fromLevel, level - 1, ends + [b])
  {
    hide LevelDescent;
    var all := ends + [b];
    forall i, j | 0 <= i && j == i + 1 && j < |all| ensures LevelDescent(g, fromLevel - i, dist, all[i], all[j]) {
      if j < |ends| {
        assert all[i] == ends[i] && all[j] == ends[j];
      }
    }
  }

  /** One level of greedy descent: terminates because every move is to a strictly nearer node. */
  method DescendLevel(g: Graph, level: nat, dist: nat -> real, start: Keyed) returns (ep: Keyed)
    requires g.Shape() && LevelClosed(g, level) && g.At(level, start.node) && start.key == dist(start.node)
    ensures g.At(level, ep.node) && ep.key == dist(ep.node) && ep.key <= start.key && LocalMinimum(g, level, dist, ep)
    ensures LevelDescent(g, level, dist, start.node, ep.node)
  {
    hide MovesTo, FirstNearest;
    ep := start;
    ghost var path := [start.node];
    while true
      invariant g.At(level, ep.node) && ep.key == dist(ep.node) && ep.key <= start.key
      invariant path != [] && path[0] == start.node && path[|path| - 1] == ep.node
      invariant forall i, j :: 0 <= i && j == i + 1 && j < |path| ==> MovesTo(g, level, dist, path[i], path[j])
      decreases Nearer(|g.levels|, dist, ep.key)
    {
      var improved := false;
      var from := ep;
      var list := g.Neighbors(level, ep.node);
      ghost var at: nat := 0;
      for i := 0 to |list|
        invariant g.At(level, ep.node) && ep.key == dist(ep.node)
        invariant if improved then ep.key < from.key else ep == from
        invariant forall k :: 0 <= k < i ==> dist(list[k]) >= ep.key
        invariant improved ==> at < i && list[at] == ep.node && forall k :: 0 <= k < at ==> dist(list[k]) > ep.key
      {
        var nb := list[i];
        assert g.At(level, g.Neighbors(level, from.node)[i]);
        if dist(nb) < ep.key {
          ep, at := Keyed(dist(nb), nb), i;
          improved := true;
        }
      }
      if !improved {
        break;
      }
      NearerShrinks(|g.levels|, dist, from.key, ep);
      NearestMove(g, level, dist, from.node, ep.node, at);
      MoveOn(g, level, dist, path, ep.node);
      path := path + [ep.node];
    }
    assert Moves(g, level, dist, path);
  }

  lemma NearestMove(g: Graph, level: nat, dist: nat -> real, a: nat, b: nat, at: nat)
    requires a < |g.lists| && at < |g.Neighbors(level, a)| && g.Neighbors(level, a)[at] == b && dist(b) < dist(a)
    requires forall k :: 0 <= k < |g.Neighbors(level, a)| ==> dist(g.Neighbors(level, a)[k]) >= dist(b)
    requires forall k :: 0 <= k < at ==> dist(g.Neighbors(level, a)[k]) > dist(b)
    ensures MovesTo(g, level, dist, a, b)
  {
    assert FirstNearest(g.Neighbors(level, a), dist, at, b);
  }

  /** `greedy_descend` */
  method GreedyDescend(g: Graph, dist: nat -> real, start: Keyed, fromLevel: nat, toLevel: nat) returns (ep: Keyed)
    requires g.Shape() && (forall l: nat :: LevelClosed(g, l)) && g.At(fromLevel, start.node)
        && start.key == dist(start.node)
    requires toLevel <= fromLevel
    ensures g.At(toLevel, ep.node) && ep.key == dist(ep.node) && ep.key <= start.key
    ensures toLevel < fromLevel ==> g.At(toLevel + 1, ep.node) && LocalMinimum(g, toLevel + 1, dist, ep)
    ensures DescendsTo(g, dist, fromLevel, toLevel, start.node, ep.node)
  {
    hide LevelDescent, WholeDescent;
    ep := start;
    var lc := fromLevel;
    ghost var ends := [start.node];
    StartsDescent(g, dist, fromLevel, start.node);
    while lc > toLevel
      invariant toLevel <= lc <= fromLevel && g.At(lc, ep.node) && ep.key == dist(ep.node) && ep.key <= start.key
      invariant lc < fromLevel ==> g.At(lc + 1, ep.node) && LocalMinimum(g, lc + 1, dist, ep)
      invariant WholeDescent(g, dist, fromLevel, lc, ends)
      invariant ends != [] && ends[0] == start.node && ends[|ends| - 1] == ep.node
    {
      ep := DescendLevel(g, lc, dist, ep);
      LevelDown(g, dist, fromLevel, lc, ends, ep.node);
      ends := ends + [ep.node];
      lc := lc - 1;
    }
  }

  lemma StartsDescent(g: Graph, dist: nat -> real, level: nat, a: nat)
    ensures WholeDescent(g, dist, level, level, [a])
  {
  }
}
