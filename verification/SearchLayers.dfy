/**
 * Best-first search of one layer of an HNSW graph (Algorithm 2 of Malkov and Yashunin): the
 * visited bitset, the two heaps, and what the result means in terms of reachability and keys.
 */
module SearchLayers {
  import opened Records

  /** A node with its distance key; ordered by key, then by node. */
  datatype Keyed = Keyed(key: real, node: nat)

  predicate Less(a: Keyed, b: Keyed) {
    a.key < b.key || (a.key == b.key && a.node < b.node)
  }

  ghost predicate Sorted(s: seq<Keyed>) {
    forall i, j :: 0 <= i < j < |s| ==> Less(s[i], s[j])
  }

  ghost function Nodes(s: seq<Keyed>): set<nat> {
    set i | 0 <= i < |s| :: s[i].node
  }

  ghost predicate DistinctNodes(s: seq<Keyed>) {
    forall i, j :: 0 <= i < j < |s| ==> s[i].node != s[j].node
  }

  ghost predicate KeyedBy(s: seq<Keyed>, dist: nat -> real) {
    forall i :: 0 <= i < |s| ==> s[i].key == dist(s[i].node)
  }

  // ---------------------------------------------------------------------
  // The visited bitset
  // ---------------------------------------------------------------------

  /** A 64-bit word as its bits. */
  type Word = w: seq<bool> | |w| == 64 witness seq(64, _ => false)

  const EMPTY_WORD: Word := seq(64, _ => false)

  /** `Visited`: one bit a node, 64 to a word. */
  class Visited {
    const words: array<Word>

    /** The bit of a node is set. */
    predicate Has(node: nat)
      reads words
    {
      node / 64 < words.Length && words[node / 64][node % 64]
    }

    ghost function Seen(n: nat): set<nat>
      reads words
    {
      set v: nat | v < n && Has(v)
    }

    constructor (n: nat)
      ensures n <= 64 * words.Length && Seen(n) == {} && fresh(words)
    {
      words := new Word[(n + 63) / 64](_ => EMPTY_WORD);
    }

    /** True exactly for the first visit of a node. */
    method Insert(node: nat, n: nat) returns (unseen: bool)
      requires n <= 64 * words.Length && node < n
      modifies words
      ensures Seen(n) == old(Seen(n)) + {node}
      ensures unseen <==> node !in old(Seen(n))
    {
      var w, b := node / 64, node % 64;
      unseen := !words[w][b];
      words[w] := words[w][b := true];
      forall v: nat | v < n ensures Has(v) <==> v == node || old(Has(v)) {
        assert v / 64 == w && v % 64 == b ==> v == node;
      }
    }
  }

  // ---------------------------------------------------------------------
  // Heaps, seen as the ordered list of their contents
  // ---------------------------------------------------------------------

  /** An element put where it belongs in an ordered list. */
  function Placed(s: seq<Keyed>, x: Keyed): seq<Keyed> {
    if s != [] && Less(x, s[|s| - 1]) then Placed(s[..|s| - 1], x) + [s[|s| - 1]] else s + [x]
  }

  lemma PlacedBefore(s: seq<Keyed>, x: Keyed, p: nat)
    requires 0 < p <= |s| && Less(x, s[p - 1]) && Placed(s, x) == Placed(s[..p], x) + s[p..]
    ensures Placed(s, x) == Placed(s[..p - 1], x) + s[p - 1..]
  {
    assert s[..p][..p - 1] == s[..p - 1] && s[..p][p - 1] == s[p - 1];
    assert s[p - 1..] == [s[p - 1]] + s[p..];
    assert Placed(s[..p], x) == Placed(s[..p - 1], x) + [s[p - 1]];
    hide Placed, Less;
  }

  lemma PlacedHere(s: seq<Keyed>, x: Keyed, p: nat)
    requires p <= |s| && (p == 0 || !Less(x, s[p - 1])) && Placed(s, x) == Placed(s[..p], x) + s[p..]
    ensures Placed(s, x) == s[..p] + [x] + s[p..]
  {
    assert p > 0 ==> s[..p][p - 1] == s[p - 1];
  }

  /** `BinaryHeap::push`: the contents grow by one element and stay ordered. */
  method Push(s: seq<Keyed>, x: Keyed) returns (r: seq<Keyed>)
    requires Sorted(s) && x.node !in Nodes(s)
    ensures Sorted(r) && r == Placed(s, x)
    ensures exists p :: 0 <= p <= |s| && r == s[..p] + [x] + s[p..]
  {
    hide Placed;
    var p := |s|;
    assert s[..p] == s && s[p..] == [];
    while p > 0 && Less(x, s[p - 1])
      invariant 0 <= p <= |s|
      invariant forall i :: p <= i < |s| ==> Less(x, s[i])
      invariant Placed(s, x) == Placed(s[..p], x) + s[p..]
    {
      PlacedBefore(s, x, p);
      p := p - 1;
    }
    PlacedHere(s, x, p);
    r := s[..p] + [x] + s[p..];
    forall i | 0 <= i < p ensures Less(s[i], x) {
      assert s[p - 1].node in Nodes(s) && Less(s[p - 1], x);
    }
  }

  lemma Pushed(s: seq<Keyed>, x: Keyed, r: seq<Keyed>, p: nat)
    requires p <= |s| && r == s[..p] + [x] + s[p..]
    ensures |r| == |s| + 1 && Nodes(r) == Nodes(s) + {x.node}
    ensures forall y :: y in r <==> y in s || y == x
    ensures DistinctNodes(s) && x.node !in Nodes(s) ==> DistinctNodes(r)
  {
    forall v | v in Nodes(s) ensures v in Nodes(r) {
      var i :| 0 <= i < |s| && s[i].node == v;
      assert r[if i < p then i else i + 1] == s[i];
    }
    assert r[p] == x;
    forall i | 0 <= i < |r| ensures r[i] == if i < p then s[i] else if i == p then x else s[i - 1] {
    }
    forall y | y in s ensures y in r {
      var i :| 0 <= i < |s| && s[i] == y;
      assert r[if i < p then i else i + 1] == y;
    }
  }

  // ---------------------------------------------------------------------
  // The search problem
  // ---------------------------------------------------------------------

  /**
   * Neighbour lists of one level (empty for a node that does not reach the level), keys, filter, entry points,
   * width.
   */
  datatype Problem = Problem(layer: seq<seq<nat>>, dist: nat -> real, mask: nat -> bool, eps: seq<Keyed>, ef: nat) {
    ghost predicate Valid() {
      && (forall v :: 0 <= v < |layer| ==> ListValid(layer[v]))
      && (forall i :: 0 <= i < |eps| ==> eps[i].node < |layer| && eps[i].key == dist(eps[i].node))
    }

    ghost predicate ListValid(list: seq<nat>) {
      forall i :: 0 <= i < |list| ==> list[i] < |layer|
    }

    ghost predicate Edge(a: nat, b: nat) {
      a < |layer| && b in layer[a]
    }

    /** A walk along neighbour lists from an entry point. */
    ghost predicate Walk(p: seq<nat>) {
      && |p| > 0 && (exists i :: 0 <= i < |eps| && eps[i].node == p[0])
      && forall i, j :: 0 <= i && j == i + 1 && j < |p| ==> Edge(p[i], p[j])
    }

    ghost predicate Reach(v: nat) {
      exists p :: Walk(p) && p[|p| - 1] == v
    }
  }

  lemma EntryReach(q: Problem, i: nat)
    requires i < |q.eps|
    ensures q.Reach(q.eps[i].node)
  {
    var p := [q.eps[i].node];
    assert q.Walk(p) && p[|p| - 1] == q.eps[i].node;
  }

  lemma StepReach(q: Problem, v: nat, i: nat)
    requires q.Reach(v) && v < |q.layer| && i < |q.layer[v]|
    ensures q.Reach(q.layer[v][i])
  {
    var p :| q.Walk(p) && p[|p| - 1] == v;
    var p' := p + [q.layer[v][i]];
    assert q.Walk(p') && p'[|p'| - 1] == q.layer[v][i];
  }

  ghost predicate AllIn(list: seq<nat>, s: set<nat>) {
    forall i :: 0 <= i < |list| ==> list[i] in s
  }

  /** A set with all entry points that is closed under neighbours holds everything reachable. */
  lemma {:induction false} ClosedHoldsReach(q: Problem, s: set<nat>, p: seq<nat>)
    requires forall i :: 0 <= i < |q.eps| ==> q.eps[i].node in s
    requires forall v :: v in s && v < |q.layer| ==> AllIn(q.layer[v], s)
    requires q.Walk(p)
    ensures p[|p| - 1] in s
    decreases |p|
  {
    if |p| > 1 {
      var front := p[..|p| - 1];
      assert q.Walk(front);
      ClosedHoldsReach(q, s, front);
      assert q.Edge(p[|p| - 2], p[|p| - 1]);
    }
  }

  // ---------------------------------------------------------------------
  // The loop
  // ---------------------------------------------------------------------

  /** The results are full and `key` is no better than the furthest of them. */
  ghost predicate Beaten(res: seq<Keyed>, ef: nat, key: real) {
    |res| >= ef && (res == [] || key >= res[|res| - 1].key)
  }

  ghost predicate Heap(q: Problem, s: seq<Keyed>, visited: set<nat>) {
    Sorted(s) && DistinctNodes(s) && KeyedBy(s, q.dist) && Nodes(s) <= visited
  }

  ghost predicate Accepted(q: Problem, s: seq<Keyed>) {
    forall i :: 0 <= i < |s| ==> q.mask(s[i].node)
  }

  /** Every accepted visited node is a result, or the results are full of nodes at least as near. */
  ghost predicate Settled(q: Problem, visited: set<nat>, res: seq<Keyed>) {
    forall v :: v in visited && q.mask(v) ==> v in Nodes(res) || Beaten(res, q.ef, q.dist(v))
  }

  /** Every visited node waits, or has all its neighbours visited, or was dropped for being too far. */
  ghost predicate Expanded(q: Problem, visited: set<nat>, cand: seq<Keyed>, res: seq<Keyed>, open: set<nat>) {
    forall v :: v in visited && v < |q.layer| ==>
      || v in open || v in Nodes(cand) || AllIn(q.layer[v], visited)
      || (v !in Nodes(res) && Beaten(res, q.ef, q.dist(v)))
  }

  ghost predicate SearchInv(q: Problem, visited: set<nat>, cand: seq<Keyed>, res: seq<Keyed>, open: set<nat>) {
    && (forall v :: v in visited ==> v < |q.layer| && q.Reach(v))
    && Heap(q, cand, visited) && Heap(q, res, visited) && Accepted(q, res)
    && |res| <= (if q.ef >= |q.eps| then q.ef else |q.eps|)
    && Settled(q, visited, res) && Expanded(q, visited, cand, res, open)
  }

  /** A result added, and the furthest dropped when there are more than `ef`. */
  function Offered(res: seq<Keyed>, x: Keyed, ef: nat): seq<Keyed> {
    var r := Placed(res, x);
    if |r| > ef && r != [] then r[..|r| - 1] else r
  }

  /** Push a result and pop the furthest when there are more than `ef`. */
  method Offer(res: seq<Keyed>, x: Keyed, ef: nat) returns (r: seq<Keyed>)
    requires Sorted(res) && DistinctNodes(res) && x.node !in Nodes(res)
    requires |res| < ef || res == [] || x.key < res[|res| - 1].key
    ensures Sorted(r) && DistinctNodes(r) && |r| == (if |res| < ef then |res| + 1 else |res|)
    ensures forall y :: y in r ==> y in res || y == x
    ensures forall y :: y in res || y == x ==> y in r || Beaten(r, ef, y.key)
    ensures forall key :: Beaten(res, ef, key) ==> Beaten(r, ef, key)
    ensures r == Offered(res, x, ef)
  {
    r := Push(res, x);
    var p :| 0 <= p <= |res| && r == res[..p] + [x] + res[p..];
    Pushed(res, x, r, p);
    if |r| > ef {
      ghost var full := r;
      r := r[..|r| - 1];
      LastDropped(res, x, full, p, r, ef);
    }
  }

  lemma LastDropped(res: seq<Keyed>, x: Keyed, full: seq<Keyed>, p: nat, r: seq<Keyed>, ef: nat)
    requires p <= |res| && full == res[..p] + [x] + res[p..] && Sorted(full) && |res| >= ef
    requires res == [] || x.key < res[|res| - 1].key
    requires r == full[..|full| - 1]
    requires forall y :: y in full <==> y in res || y == x
    ensures forall y :: y in r ==> y in res || y == x
    ensures forall y :: y in res || y == x ==> y in r || Beaten(r, ef, y.key)
    ensures forall key :: Beaten(res, ef, key) ==> Beaten(r, ef, key)
  {
    var last := full[|full| - 1];
    forall y | y in full ensures y in r || y == last {
      var i :| 0 <= i < |full| && full[i] == y;
      assert i < |r| ==> r[i] == y;
    }
    if r != [] {
      assert r[|r| - 1] == full[|full| - 2];
      assert Less(full[|full| - 2], last);
      assert p < |res|;
      assert last == res[|res| - 1];
    }
  }

  lemma OfferKeeps(q: Problem, visited: set<nat>, res: seq<Keyed>, x: Keyed, r: seq<Keyed>)
    requires Heap(q, res, visited) && Accepted(q, res) && q.mask(x.node) && x.key == q.dist(x.node)
        && x.node !in visited
    requires Sorted(r) && DistinctNodes(r)
    requires forall y :: y in r ==> y in res || y == x
    ensures Heap(q, r, visited + {x.node}) && Accepted(q, r) && Nodes(r) <= Nodes(res) + {x.node}
  {
    forall i | 0 <= i < |r| ensures r[i].node in Nodes(res) + {x.node} && r[i].key == q.dist(r[i].node)
        && q.mask(r[i].node) {
      assert r[i] in r;
      if r[i] != x {
        var k :| 0 <= k < |res| && res[k] == r[i];
        assert res[k].node in Nodes(res);
      }
    }
  }

  /** `push` of a node seen for the first time. */
  method Add(q: Problem, ghost visited: set<nat>, s: seq<Keyed>, x: Keyed) returns (r: seq<Keyed>)
    requires Heap(q, s, visited) && x.node !in visited && x.key == q.dist(x.node)
    ensures Heap(q, r, visited + {x.node}) && Nodes(r) == Nodes(s) + {x.node} && |r| == |s| + 1
    ensures r == Placed(s, x) && forall y :: y in r <==> y in s || y == x
  {
    r := Push(s, x);
    ghost var p :| 0 <= p <= |s| && r == s[..p] + [x] + s[p..];
    Pushed(s, x, r, p);
    PushKeyed(q, s, x, r);
  }

  /** What becomes of one newly visited node. */
  ghost predicate Visit(q: Problem, visited: set<nat>, nb: nat, cand: seq<Keyed>, res: seq<Keyed>, cand': seq<Keyed>,
      res': seq<Keyed>) {
    && Heap(q, cand', visited + {nb}) && Nodes(cand) <= Nodes(cand') <= Nodes(cand) + {nb}
    && Heap(q, res', visited + {nb}) && Accepted(q, res') && Nodes(res') <= Nodes(res) + {nb}
    && (forall key :: Beaten(res, q.ef, key) ==> Beaten(res', q.ef, key))
    && (forall v :: v in Nodes(res) ==> v in Nodes(res') || Beaten(res', q.ef, q.dist(v)))
    && (nb in Nodes(cand') || (nb !in Nodes(res') && Beaten(res', q.ef, q.dist(nb))))
    && (q.mask(nb) ==> nb in Nodes(res') || Beaten(res', q.ef, q.dist(nb)))
    && |res'| <= (if |res| < q.ef then q.ef else |res|)
  }

  lemma OfferVisit(q: Problem, res: seq<Keyed>, x: Keyed, r: seq<Keyed>)
    requires KeyedBy(res, q.dist) && x.key == q.dist(x.node)
    requires forall y :: y in res || y == x ==> y in r || Beaten(r, q.ef, y.key)
    ensures forall v :: v in Nodes(res) + {x.node} ==> v in Nodes(r) || Beaten(r, q.ef, q.dist(v))
  {
    forall v | v in Nodes(res) + {x.node} ensures v in Nodes(r) || Beaten(r, q.ef, q.dist(v)) {
      if v == x.node {
        InNodes(x, r);
      } else {
        var i :| 0 <= i < |res| && res[i].node == v;
        assert res[i] in res;
        InNodes(res[i], r);
      }
    }
  }

  lemma InNodes(y: Keyed, r: seq<Keyed>)
    ensures y in r ==> y.node in Nodes(r)
  {
  }

  /** The body of the neighbour loop for a node not seen before. */
  method Consider(q: Problem, ghost visited: set<nat>, nb: nat, cand: seq<Keyed>,
      res: seq<Keyed>) returns (cand': seq<Keyed>, res': seq<Keyed>)
    requires Heap(q, cand, visited) && Heap(q, res, visited) && Accepted(q, res) && nb !in visited
    ensures Visit(q, visited, nb, cand, res, cand', res')
    ensures Sweep(visited + {nb}, cand', res') == Met(q, Sweep(visited, cand, res), nb)
  {
    cand', res' := cand, res;
    var key := q.dist(nb);
    if |res| < q.ef || res == [] || key < res[|res| - 1].key {
      var x := Keyed(key, nb);
      cand' := Add(q, visited, cand, x);
      if q.mask(nb) {
        res' := Offer(res, x, q.ef);
        OfferKeeps(q, visited, res, x, res');
        OfferVisit(q, res, x, res');
      }
    } else {
      assert Beaten(res, q.ef, key);
    }
  }

  lemma PushKeyed(q: Problem, s: seq<Keyed>, x: Keyed, r: seq<Keyed>)
    requires KeyedBy(s, q.dist) && x.key == q.dist(x.node)
    requires forall y :: y in r <==> y in s || y == x
    ensures KeyedBy(r, q.dist)
  {
    forall i | 0 <= i < |r| ensures r[i].key == q.dist(r[i].node) {
      assert r[i] in r;
      if r[i] != x {
        var k :| 0 <= k < |s| && s[k] == r[i];
      }
    }
  }

  lemma VisitKeeps(q: Problem, visited: set<nat>, nb: nat, cand: seq<Keyed>, res: seq<Keyed>, cand': seq<Keyed>,
      res': seq<Keyed>, open: set<nat>)
    requires SearchInv(q, visited, cand, res, open) && nb < |q.layer| && q.Reach(nb) && nb !in visited
    requires Visit(q, visited, nb, cand, res, cand', res')
    ensures SearchInv(q, visited + {nb}, cand', res', open)
  {
    hide Heap, Accepted, Beaten;
    forall v | v in visited + {nb} && v < |q.layer|
      ensures v in open || v in Nodes(cand') || AllIn(q.layer[v], visited + {nb})
          || (v !in Nodes(res') && Beaten(res', q.ef, q.dist(v)))
    {
    }
  }

  method VisitOne(q: Problem, visited: Visited, nb: nat, ghost current: nat, cand0: seq<Keyed>, res0: seq<Keyed>)
    returns (cand: seq<Keyed>, res: seq<Keyed>)
    requires nb < |q.layer| && q.Reach(nb) && |q.layer| <= 64 * visited.words.Length
    requires SearchInv(q, visited.Seen(|q.layer|), cand0, res0, {current})
    modifies visited.words
    ensures visited.Seen(|q.layer|) == old(visited.Seen(|q.layer|)) + {nb}
    ensures SearchInv(q, visited.Seen(|q.layer|), cand, res, {current})
    ensures visited.Seen(|q.layer|) == old(visited.Seen(|q.layer|)) ==> cand == cand0
    ensures Sweep(visited.Seen(|q.layer|), cand, res) == Met(q, Sweep(old(visited.Seen(|q.layer|)), cand0, res0), nb)
  {
    hide SearchInv, Visit, Visited.Seen, Problem.Reach, Placed, Offered;
    cand, res := cand0, res0;
    ghost var before := visited.Seen(|q.layer|);
    var unseen := visited.Insert(nb, |q.layer|);
    if unseen {
      InvHeaps(q, before, cand, res, {current});
      cand, res := Consider(q, before, nb, cand0, res0);
      VisitKeeps(q, before, nb, cand0, res0, cand, res, {current});
      assert nb in visited.Seen(|q.layer|) && nb !in before;
    } else {
      assert visited.Seen(|q.layer|) == before;
    }
  }

  /** The neighbour loop for the candidate just taken from the heap. */
  method Expand(q: Problem, visited: Visited, current: nat, cand0: seq<Keyed>,
      res0: seq<Keyed>) returns (cand: seq<Keyed>, res: seq<Keyed>)
    requires q.Valid() && current < |q.layer| && |q.layer| <= 64 * visited.words.Length
    requires SearchInv(q, visited.Seen(|q.layer|), cand0, res0, {current}) && current in visited.Seen(|q.layer|)
    modifies visited.words
    ensures SearchInv(q, visited.Seen(|q.layer|), cand, res, {})
    ensures old(visited.Seen(|q.layer|)) <= visited.Seen(|q.layer|)
    ensures visited.Seen(|q.layer|) == old(visited.Seen(|q.layer|)) ==> cand == cand0
    ensures Sweep(visited.Seen(|q.layer|), cand, res)
            == MetAll(q, Sweep(old(visited.Seen(|q.layer|)), cand0, res0), q.layer[current])
  {
    hide SearchInv, Visit, Visited.Seen, Met;
    cand, res := cand0, res0;
    var n := |q.layer|;
    var list := q.layer[current];
    assert q.ListValid(list);
    for i := 0 to |list|
      invariant SearchInv(q, visited.Seen(n), cand, res, {current})
      invariant old(visited.Seen(n)) <= visited.Seen(n)
      invariant visited.Seen(n) == old(visited.Seen(n)) ==> cand == cand0
      invariant AllIn(list[..i], visited.Seen(n))
      invariant Sweep(visited.Seen(n), cand, res) == MetAll(q, Sweep(old(visited.Seen(n)), cand0, res0), list[..i])
    {
      assert list[..i + 1] == list[..i] + [list[i]];
      MetOneMore(q, Sweep(old(visited.Seen(n)), cand0, res0), list, i);
      ReachNeighbor(q, visited.Seen(n), cand, res, current, i);
      cand, res := VisitOne(q, visited, list[i], current, cand, res);
    }
    assert list[..|list|] == list;
    ClosedNow(q, visited.Seen(n), cand, res, current);
  }

  lemma InvHeaps(q: Problem, visited: set<nat>, cand: seq<Keyed>, res: seq<Keyed>, open: set<nat>)
    requires SearchInv(q, visited, cand, res, open)
    ensures Heap(q, cand, visited) && Heap(q, res, visited) && Accepted(q, res)
  {
  }

  lemma ReachNeighbor(q: Problem, visited: set<nat>, cand: seq<Keyed>, res: seq<Keyed>, current: nat, i: nat)
    requires SearchInv(q, visited, cand, res, {current}) && current in visited && current < |q.layer|
        && i < |q.layer[current]|
    ensures q.Reach(q.layer[current][i])
  {
    StepReach(q, current, i);
  }

  lemma ClosedNow(q: Problem, visited: set<nat>, cand: seq<Keyed>, res: seq<Keyed>, current: nat)
    requires SearchInv(q, visited, cand, res, {current}) && current < |q.layer| && AllIn(q.layer[current], visited)
    ensures SearchInv(q, visited, cand, res, {})
  {
  }

  /** What a layer search promises about its result. */
  ghost predicate Answer(q: Problem, res: seq<Keyed>) {
    && Sorted(res) && DistinctNodes(res) && KeyedBy(res, q.dist) && Accepted(q, res)
    && (forall v :: v in Nodes(res) ==> q.Reach(v))
    && |res| <= (if q.ef >= |q.eps| then q.ef else |q.eps|)
    // not full: nothing reachable was missed
    && (|res| < q.ef ==> forall v :: q.Reach(v) && q.mask(v) ==> v in Nodes(res))
    // full: no accepted neighbour of a result, and no accepted entry point, is nearer than the furthest result
    && (|res| >= q.ef && res != [] ==> LocallyClosed(q, res) && EntriesCovered(q, res))
  }

  ghost predicate LocallyClosed(q: Problem, res: seq<Keyed>)
    requires res != []
  {
    forall r, i :: r in Nodes(res) && r < |q.layer| && 0 <= i < |q.layer[r]| && q.mask(q.layer[r][i]) ==>
      q.layer[r][i] in Nodes(res) || q.dist(q.layer[r][i]) >= res[|res| - 1].key
  }

  ghost predicate EntriesCovered(q: Problem, res: seq<Keyed>)
    requires res != []
  {
    forall i :: 0 <= i < |q.eps| && q.mask(q.eps[i].node) ==>
      q.eps[i].node in Nodes(res) || q.eps[i].key >= res[|res| - 1].key
  }

  /** The loop has ended: no candidate is left, or the nearest one is further than the furthest of enough results. */
  ghost predicate Ended(q: Problem, cand: seq<Keyed>, res: seq<Keyed>) {
    cand == [] || (|res| >= q.ef && res != [] && cand[0].key > res[|res| - 1].key)
  }

  lemma KeyBounds(s: seq<Keyed>, k: nat)
    requires Sorted(s) && k < |s|
    ensures s[0].key <= s[k].key <= s[|s| - 1].key
  {
  }

  ghost predicate EntriesIn(q: Problem, s: set<nat>) {
    forall i :: 0 <= i < |q.eps| ==> q.eps[i].node in s
  }

  lemma EntriesStay(q: Problem, s: set<nat>, t: set<nat>)
    requires EntriesIn(q, s) && s <= t
    ensures EntriesIn(q, t)
  {
  }

  /** At the end every result has all its neighbours visited. */
  lemma ResultsExpanded(q: Problem, visited: set<nat>, cand: seq<Keyed>, res: seq<Keyed>, v: nat)
    requires SearchInv(q, visited, cand, res, {}) && Ended(q, cand, res) && v in Nodes(res)
    ensures v < |q.layer| && AllIn(q.layer[v], visited)
  {
    var i :| 0 <= i < |res| && res[i].node == v;
    if v in Nodes(cand) {
      var k :| 0 <= k < |cand| && cand[k].node == v;
      assert res[i].key == cand[k].key;
      KeyBounds(cand, k);
      KeyBounds(res, i);
    }
  }

  lemma ShortAnswer(q: Problem, visited: set<nat>, cand: seq<Keyed>, res: seq<Keyed>, v: nat)
    requires q.Valid() && SearchInv(q, visited, cand, res, {}) && Ended(q, cand, res) && |res| < q.ef
    requires EntriesIn(q, visited)
    requires q.Reach(v) && q.mask(v)
    ensures v in Nodes(res)
  {
    VisitedClosed(q, visited, cand, res);
    hide Problem.Walk, Expanded, Heap, AllIn, Nodes;
    var p :| q.Walk(p) && p[|p| - 1] == v;
    ClosedHoldsReach(q, visited, p);
  }

  lemma VisitedClosed(q: Problem, visited: set<nat>, cand: seq<Keyed>, res: seq<Keyed>)
    requires SearchInv(q, visited, cand, res, {}) && Ended(q, cand, res) && |res| < q.ef
    ensures forall v :: v in visited && v < |q.layer| ==> AllIn(q.layer[v], visited)
  {
    hide Problem.Reach, Heap, Settled, AllIn;
    assert Nodes([]) == {};
  }

  lemma FullAnswer(q: Problem, visited: set<nat>, cand: seq<Keyed>, res: seq<Keyed>)
    requires SearchInv(q, visited, cand, res, {}) && Ended(q, cand, res) && res != []
    ensures LocallyClosed(q, res)
  {
    forall r, i | r in Nodes(res) && r < |q.layer| && 0 <= i < |q.layer[r]| && q.mask(q.layer[r][i])
      ensures q.layer[r][i] in Nodes(res) || q.dist(q.layer[r][i]) >= res[|res| - 1].key
    {
      ResultsExpanded(q, visited, cand, res, r);
      hide Expanded, Nodes, Heap, Accepted;
      assert q.layer[r][i] in visited;
    }
  }

  lemma SearchAnswer(q: Problem, visited: set<nat>, cand: seq<Keyed>, res: seq<Keyed>)
    requires q.Valid() && SearchInv(q, visited, cand, res, {}) && Ended(q, cand, res)
    requires EntriesIn(q, visited)
    ensures Answer(q, res)
  {
    hide Expanded, LocallyClosed, Ended, Problem.Reach, Nodes;
    if |res| < q.ef {
      forall v | q.Reach(v) && q.mask(v) ensures v in Nodes(res) {
        ShortAnswer(q, visited, cand, res, v);
      }
    } else if res != [] {
      FullAnswer(q, visited, cand, res);
    }
  }

  /** The entry points, with duplicates skipped, are the first candidates and, if accepted, the first results. */
  method Start(q: Problem, visited: Visited) returns (cand: seq<Keyed>, res: seq<Keyed>)
    requires q.Valid() && |q.layer| <= 64 * visited.words.Length && visited.Seen(|q.layer|) == {}
    modifies visited.words
    ensures SearchInv(q, visited.Seen(|q.layer|), cand, res, {})
    ensures EntriesIn(q, visited.Seen(|q.layer|))
    ensures Sweep(visited.Seen(|q.layer|), cand, res) == EntriesMet(q, |q.eps|)
  {
    cand, res := [], [];
    var n := |q.layer|;
    hide Visited.Seen, StartInv, Accepted, Placed;
    StartEmpty(q);
    for i := 0 to |q.eps|
      invariant StartInv(q, visited.Seen(n), cand, res, i)
      invariant Sweep(visited.Seen(n), cand, res) == EntriesMet(q, i)
    {
      var ep := q.eps[i];
      ghost var before := visited.Seen(n);
      StartHeaps(q, before, cand, res, i);
      var unseen := visited.Insert(ep.node, n);
      if unseen {
        var c := Add(q, before, cand, ep);
        var r := res;
        if q.mask(ep.node) {
          r := Add(q, before, res, ep);
          PushAccepted(q, res, ep, r);
        } else {
          HeapGrows(q, res, before, ep.node);
        }
        StartStep(q, before, cand, res, i, c, r);
        cand, res := c, r;
      } else {
        assert visited.Seen(n) == before;
        StartSkip(q, before, cand, res, i);
      }
    }
    StartDone(q, visited.Seen(n), cand, res);
  }

  lemma PushAccepted(q: Problem, s: seq<Keyed>, x: Keyed, r: seq<Keyed>)
    requires Accepted(q, s) && q.mask(x.node) && forall y :: y in r <==> y in s || y == x
    ensures Accepted(q, r)
  {
    forall i | 0 <= i < |r| ensures q.mask(r[i].node) {
      assert r[i] in r;
      if r[i] != x {
        var k :| 0 <= k < |s| && s[k] == r[i];
      }
    }
  }

  ghost predicate StartInv(q: Problem, visited: set<nat>, cand: seq<Keyed>, res: seq<Keyed>, i: nat)
    requires i <= |q.eps|
  {
    && (forall v :: v in visited ==> v < |q.layer| && q.Reach(v) && v in Nodes(cand) && (q.mask(v) ==> v in Nodes(res)))
    && Heap(q, cand, visited) && Heap(q, res, visited) && Accepted(q, res) && |res| <= i
    && (forall k :: 0 <= k < i ==> q.eps[k].node in visited)
  }

  lemma StartEmpty(q: Problem)
    ensures StartInv(q, {}, [], [], 0)
  {
    assert Nodes([]) == {};
  }

  lemma StartHeaps(q: Problem, visited: set<nat>, cand: seq<Keyed>, res: seq<Keyed>, i: nat)
    requires i <= |q.eps| && StartInv(q, visited, cand, res, i)
    ensures Heap(q, cand, visited) && Heap(q, res, visited) && Accepted(q, res)
  {
  }

  lemma StartSkip(q: Problem, visited: set<nat>, cand: seq<Keyed>, res: seq<Keyed>, i: nat)
    requires i < |q.eps| && StartInv(q, visited, cand, res, i) && q.eps[i].node in visited
    ensures StartInv(q, visited, cand, res, i + 1)
  {
  }

  lemma StartStep(q: Problem, visited: set<nat>, cand: seq<Keyed>, res: seq<Keyed>, i: nat, c: seq<Keyed>,
      r: seq<Keyed>)
    requires i < |q.eps| && StartInv(q, visited, cand, res, i) && q.eps[i].node < |q.layer|
    requires Heap(q, c, visited + {q.eps[i].node}) && Heap(q, r, visited + {q.eps[i].node}) && Accepted(q, r)
    requires Nodes(c) == Nodes(cand) + {q.eps[i].node} && |r| <= |res| + 1
    requires Nodes(r) == if q.mask(q.eps[i].node) then Nodes(res) + {q.eps[i].node} else Nodes(res)
    ensures StartInv(q, visited + {q.eps[i].node}, c, r, i + 1)
  {
    EntryReach(q, i);
    hide Problem.Reach, Heap, Accepted, Nodes;
  }

  lemma HeapGrows(q: Problem, s: seq<Keyed>, visited: set<nat>, v: nat)
    requires Heap(q, s, visited)
    ensures Heap(q, s, visited + {v})
  {
  }

  lemma StartDone(q: Problem, visited: set<nat>, cand: seq<Keyed>, res: seq<Keyed>)
    requires StartInv(q, visited, cand, res, |q.eps|)
    ensures SearchInv(q, visited, cand, res, {}) && EntriesIn(q, visited)
  {
  }

  /** Taking the nearest candidate out of the heap leaves it to be expanded. */
  lemma TakeFirst(q: Problem, visited: set<nat>, cand: seq<Keyed>, res: seq<Keyed>)
    requires SearchInv(q, visited, cand, res, {}) && cand != []
    ensures SearchInv(q, visited, cand[1..], res, {cand[0].node})
    ensures cand[0].node in visited && cand[0].node < |q.layer|
  {
    var rest := cand[1..];
    assert cand[0].node in Nodes(cand);
    forall v | v in Nodes(cand) && v != cand[0].node ensures v in Nodes(rest) {
      var i :| 0 <= i < |cand| && cand[i].node == v;
      assert rest[i - 1] == cand[i];
    }
    forall v | v in Nodes(rest) ensures v in Nodes(cand) {
      var i :| 0 <= i < |rest| && rest[i].node == v;
      assert cand[i + 1] == rest[i];
    }
  }

  /** `search_layer_by`: the whole search terminates, and its result is an `Answer`. */
  method SearchLayer(q: Problem) returns (res: seq<Keyed>, ghost path: seq<Sweep>)
    requires q.Valid()
    ensures Answer(q, res)
    ensures IsSearch(q, path) && res == path[|path| - 1].res
  {
    hide SearchInv, Visited.Seen, Answer, Problem.Valid, Sorted, EntriesIn, EntriesMet, MetAll, PathTo;
    var n := |q.layer|;
    var visited := new Visited(n);
    var cand;
    cand, res := Start(q, visited);
    ghost var all := Below(n);
    path := [Sweep(visited.Seen(n), cand, res)];
    FirstStop(q);
    while cand != []
      invariant SearchInv(q, visited.Seen(n), cand, res, {})
      invariant EntriesIn(q, visited.Seen(n))
      invariant PathTo(q, path, Sweep(visited.Seen(n), cand, res))
      decreases all - visited.Seen(n), |cand|
    {
      var current := cand[0];
      if |res| >= q.ef && res != [] && current.key > res[|res| - 1].key {
        break;
      }
      TakeFirst(q, visited.Seen(n), cand, res);
      ghost var before := visited.Seen(n);
      ghost var now := Sweep(before, cand, res);
      SeenBelow(visited, n);
      cand, res := Expand(q, visited, current.node, cand[1..], res);
      SeenBelow(visited, n);
      Shrinks(all, before, visited.Seen(n));
      EntriesStay(q, before, visited.Seen(n));
      NextStop(q, path, now, Sweep(visited.Seen(n), cand, res));
      path := path + [Sweep(visited.Seen(n), cand, res)];
    }
    SearchAnswer(q, visited.Seen(n), cand, res);
    LastStop(q, path, Sweep(visited.Seen(n), cand, res));
  }

  // ---------------------------------------------------------------------
  // What the search does, step by step
  // ---------------------------------------------------------------------

  /** Visited nodes, open candidates, results. */
  datatype Sweep = Sweep(visited: set<nat>, cand: seq<Keyed>, res: seq<Keyed>)

  /** A neighbour is met: a new one that is near enough becomes a candidate and, if accepted, a result. */
  function Met(q: Problem, s: Sweep, nb: nat): Sweep {
    var x := Keyed(q.dist(nb), nb);
    if nb in s.visited then s
    else if |s.res| < q.ef || s.res == [] || x.key < s.res[|s.res| - 1].key then
      Sweep(s.visited + {nb}, Placed(s.cand, x), if q.mask(nb) then Offered(s.res, x, q.ef) else s.res)
    else s.(visited := s.visited + {nb})
  }

  function MetAll(q: Problem, s: Sweep, list: seq<nat>): Sweep {
    if list == [] then s else Met(q, MetAll(q, s, list[..|list| - 1]), list[|list| - 1])
  }

  lemma MetOneMore(q: Problem, s: Sweep, list: seq<nat>, i: nat)
    requires i < |list|
    ensures MetAll(q, s, list[..i + 1]) == Met(q, MetAll(q, s, list[..i]), list[i])
  {
    hide Met;
    assert list[..i + 1][..i] == list[..i];
  }

  /** The first `i` entry points are in. */
  function EntriesMet(q: Problem, i: nat): Sweep
    requires i <= |q.eps|
  {
    if i == 0 then Sweep({}, [], []) else
      var s, ep := EntriesMet(q, i - 1), q.eps[i - 1];
      if ep.node in s.visited then s
      else Sweep(s.visited + {ep.node}, Placed(s.cand, ep), if q.mask(ep.node) then Placed(s.res, ep) else s.res)
  }

  /** Nothing is open, or the nearest that is open is further than the furthest of enough results. */
  predicate Stops(q: Problem, s: Sweep) {
    s.cand == [] || (|s.res| >= q.ef && s.res != [] && s.cand[0].key > s.res[|s.res| - 1].key)
  }

  /** The nearest open candidate is taken and its neighbours are met. */
  predicate Follows(q: Problem, s: Sweep, next: Sweep) {
    && !Stops(q, s) && s.cand[0].node < |q.layer|
    && next == MetAll(q, s.(cand := s.cand[1..]), q.layer[s.cand[0].node])
  }

  ghost predicate PathTo(q: Problem, path: seq<Sweep>, last: Sweep) {
    && path != [] && path[0] == EntriesMet(q, |q.eps|) && path[|path| - 1] == last
    && forall i, j :: 0 <= i && j == i + 1 && j < |path| ==> Follows(q, path[i], path[j])
  }

  /** A whole search: from the entry points on until it stops. */
  ghost predicate IsSearch(q: Problem, path: seq<Sweep>) {
    path != [] && PathTo(q, path, path[|path| - 1]) && Stops(q, path[|path| - 1])
  }

  lemma FirstStop(q: Problem)
    ensures PathTo(q, [EntriesMet(q, |q.eps|)], EntriesMet(q, |q.eps|))
  {
  }

  lemma NextStop(q: Problem, path: seq<Sweep>, now: Sweep, next: Sweep)
    requires PathTo(q, path, now) && Follows(q, now, next)
    ensures PathTo(q, path + [next], next)
  {
    hide Follows, EntriesMet;
    var all := path + [next];
    forall i, j | 0 <= i && j == i + 1 && j < |all| ensures Follows(q, all[i], all[j]) {
      if j < |path| {
        assert all[i] == path[i] && all[j] == path[j];
      }
    }
  }

  lemma LastStop(q: Problem, path: seq<Sweep>, last: Sweep)
    requires PathTo(q, path, last) && Stops(q, last)
    ensures IsSearch(q, path) && path[|path| - 1] == last
  {
  }

  /** A problem has one search. */
  lemma SearchUnique(q: Problem, a: seq<Sweep>, b: seq<Sweep>)
    requires IsSearch(q, a) && IsSearch(q, b) && |a| <= |b|
    ensures a == b
  {
    SameSoFar(q, a, b, |a|);
    assert a[..|a|][|a| - 1] == b[..|a|][|a| - 1];
    forall i | 0 <= i < |b| - 1 ensures !Stops(q, b[i]) {
      assert Follows(q, b[i], b[i + 1]);
    }
    hide Stops, PathTo;
    assert b[..|b|] == b && a[..|a|] == a;
  }

  lemma {:induction false} SameSoFar(q: Problem, a: seq<Sweep>, b: seq<Sweep>, k: nat)
    requires IsSearch(q, a) && IsSearch(q, b) && k <= |a| <= |b|
    ensures a[..k] == b[..k]
    decreases k
  {
    hide MetAll, EntriesMet, Stops;
    if k > 0 {
      SameSoFar(q, a, b, k - 1);
      if k > 1 {
        assert Follows(q, a[k - 2], a[k - 1]) && Follows(q, b[k - 2], b[k - 1]);
        assert a[k - 2] == a[..k - 1][k - 2] && b[k - 2] == b[..k - 1][k - 2];
      }
      assert a[..k] == a[..k - 1] + [a[k - 1]] && b[..k] == b[..k - 1] + [b[k - 1]];
    }
  }

  lemma SeenBelow(visited: Visited, n: nat)
    ensures visited.Seen(n) <= Below(n)
  {
  }

  lemma Shrinks(all: set<nat>, before: set<nat>, now: set<nat>)
    requires before <= now <= all
    ensures now == before || all - now < all - before
  {
    if now != before {
      var v :| v in now && v !in before;
      assert v in all - before && v !in all - now;
    }
  }

  lemma NodesCount(s: seq<Keyed>)
    requires DistinctNodes(s)
    ensures |Nodes(s)| == |s|
  {
    if s == [] {
      assert Nodes(s) == {};
    } else {
      var front := s[..|s| - 1];
      NodesCount(front);
      assert Nodes(s) == Nodes(front) + {s[|s| - 1].node};
      assert s[|s| - 1].node !in Nodes(front);
    }
  }

  lemma {:induction false} SubsetCard(a: set<nat>, b: set<nat>)
    requires a <= b
    ensures |a| <= |b|
  {
    if a != {} {
      var x :| x in a;
      SubsetCard(a - {x}, b - {x});
    }
  }
}
