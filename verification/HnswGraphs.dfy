/**
 * HNSW graphs: the structural invariant, k-nearest search through the layers (Algorithm 5), greedy
 * descent, and the heuristic neighbour selection (Algorithm 4).
 */
module HnswGraphs {
  import opened Records
  import opened SearchLayers

  /** Connection limits and construction width. */
  datatype Params = Params(m: nat, m0: nat, efConstruction: nat, extendCandidates: bool)

  /** `lists[node][level]` are the neighbours of a node at each level up to its own. */
  datatype Graph = Graph(levels: seq<nat>, lists: seq<seq<seq<nat>>>, entry: Option<nat>, maxLevel: nat) {

    function Neighbors(level: nat, node: nat): seq<nat>
      requires node < |lists|
    {
      if level < |lists[node]| then lists[node][level] else []
    }

    /** All neighbour lists of one level. */
    function Layer(level: nat): (layer: seq<seq<nat>>)
      ensures |layer| == |lists|
    {
      seq(|lists|, v requires 0 <= v < |lists| => Neighbors(level, v))
    }

    /** The node exists at the level. */
    predicate At(level: nat, node: nat) {
      node < |levels| && level <= levels[node]
    }

    ghost predicate Shape() {
      |lists| == |levels| && forall v :: 0 <= v < |lists| ==> |lists[v]| == levels[v] + 1
    }

    /** Within the cap, free of duplicates and of the node itself, and only nodes of this level. */
    ghost predicate ListOk(level: nat, node: nat, cap: nat)
      requires node < |lists|
    {
      var list := Neighbors(level, node);
      && |list| <= cap
      && (forall i, j :: 0 <= i < j < |list| ==> list[i] != list[j])
      && (forall i :: 0 <= i < |list| ==> list[i] != node && At(level, list[i]))
    }

    ghost predicate EntryOk() {
      && (entry.None? <==> levels == [])
      && (entry.Some? ==> entry.value < |levels| && levels[entry.value] == maxLevel)
      && (forall v :: 0 <= v < |levels| ==> levels[v] <= maxLevel)
    }

    /** The structural invariant of a finished graph. */
    ghost predicate Valid(p: Params) {
      && Shape() && EntryOk()
      && forall v, l: nat :: 0 <= v < |lists| ==> ListOk(l, v, Cap(p, l))
    }
  }

  function Cap(p: Params, level: nat): nat {
    if level == 0 then p.m0 else p.m
  }

  /** The caps in the parameters' own terms: `m0` on the bottom level, `m` above. */
  lemma ValidCaps(g: Graph, p: Params)
    requires g.Valid(p)
    ensures forall v :: 0 <= v < |g.lists| ==> |g.Neighbors(0, v)| <= p.m0
    ensures forall v, l: nat :: 0 <= v < |g.lists| && l >= 1 ==> |g.Neighbors(l, v)| <= p.m
  {
    forall v, l: nat | 0 <= v < |g.lists| ensures |g.Neighbors(l, v)| <= Cap(p, l) {
      assert g.ListOk(l, v, Cap(p, l));
    }
  }

  ghost predicate All(mask: nat -> bool) {
    forall v :: mask(v)
  }

  /** Searches while building and on upper levels accept every node. */
  const EVERY_NODE: nat -> bool := _ => true

  // ---------------------------------------------------------------------
  // Searching
  // ---------------------------------------------------------------------

  /** Every list of the level leads to nodes of the level. */
  ghost predicate LevelClosed(g: Graph, level: nat) {
    forall v, i :: 0 <= v < |g.lists| && 0 <= i < |g.Neighbors(level, v)| ==> g.At(level, g.Neighbors(level, v)[i])
  }

  ghost predicate StartsAt(g: Graph, level: nat, dist: nat -> real, eps: seq<Keyed>) {
    forall i :: 0 <= i < |eps| ==> g.At(level, eps[i].node) && eps[i].key == dist(eps[i].node)
  }

  lemma LayerValid(g: Graph, level: nat, dist: nat -> real, mask: nat -> bool, eps: seq<Keyed>, ef: nat)
    requires g.Shape() && LevelClosed(g, level) && StartsAt(g, level, dist, eps)
    ensures Problem(g.Layer(level), dist, mask, eps, ef).Valid()
  {
    var q := Problem(g.Layer(level), dist, mask, eps, ef);
    forall v | 0 <= v < |q.layer| ensures q.ListValid(q.layer[v]) {
      forall i | 0 <= i < |q.layer[v]| ensures q.layer[v][i] < |q.layer| {
        assert g.At(level, g.Neighbors(level, v)[i]);
      }
    }
  }

  /** What is reachable at a level exists at that level. */
  lemma {:induction false} WalkStaysAt(g: Graph, level: nat, q: Problem, p: seq<nat>)
    requires g.Shape() && LevelClosed(g, level) && StartsAt(g, level, q.dist, q.eps) && q.layer == g.Layer(level)
    requires q.Walk(p)
    ensures g.At(level, p[|p| - 1])
    decreases |p|
  {
    if |p| > 1 {
      var front := p[..|p| - 1];
      assert q.Walk(front);
      WalkStaysAt(g, level, q, front);
      var a := p[|p| - 2];
      assert q.Edge(a, p[|p| - 1]);
      var i :| 0 <= i < |q.layer[a]| && q.layer[a][i] == p[|p| - 1];
      assert g.At(level, g.Neighbors(level, a)[i]);
    }
  }

  /** The result of a layer search can start a search of the same or a lower level. */
  lemma AnswerStartsAt(g: Graph, level: nat, lower: nat, q: Problem, res: seq<Keyed>)
    requires g.Shape() && LevelClosed(g, level) && StartsAt(g, level, q.dist, q.eps) && q.layer == g.Layer(level)
    requires Answer(q, res) && lower <= level
    ensures StartsAt(g, lower, q.dist, res)
  {
    forall i | 0 <= i < |res| ensures g.At(lower, res[i].node) && res[i].key == q.dist(res[i].node) {
      assert res[i].node in Nodes(res);
      var p :| q.Walk(p) && p[|p| - 1] == res[i].node;
      WalkStaysAt(g, level, q, p);
    }
  }

  /** A layer search never ends further away than an accepted entry point. */
  lemma AnswerBest(q: Problem, res: seq<Keyed>, i: nat)
    requires q.Valid() && Answer(q, res) && q.ef >= 1 && i < |q.eps| && q.mask(q.eps[i].node)
    ensures res != [] && res[0].key <= q.eps[i].key
  {
    EntryReach(q, i);
    if q.eps[i].node in Nodes(res) {
      var k :| 0 <= k < |res| && res[k].node == q.eps[i].node;
      KeyBounds(res, k);
    } else {
      KeyBounds(res, 0);
    }
  }

  const EF_UPPER_LAYERS: nat := 8

  /**
   * The way down: `tiers[l]` are the starts on level `l`, the entry point on top, and on every other level what the
   * search of the level above it found, eight nodes wide.
   */
  ghost predicate Descent(g: Graph, dist: nat -> real, tiers: seq<seq<Keyed>>) {
    && g.entry.Some? && |tiers| == g.maxLevel + 1
    && tiers[g.maxLevel] == [Keyed(dist(g.entry.value), g.entry.value)]
    && forall l :: 0 <= l < g.maxLevel ==> Answer(Tier(g, dist, tiers, l + 1), tiers[l])
  }

  /** The search of one upper level. */
  ghost function Tier(g: Graph, dist: nat -> real, tiers: seq<seq<Keyed>>, level: nat): Problem
    requires level < |tiers|
  {
    Problem(g.Layer(level), dist, EVERY_NODE, tiers[level], EF_UPPER_LAYERS)
  }

  /** The search of the bottom level. */
  ghost function Bottom(g: Graph, dist: nat -> real, mask: nat -> bool, k: nat, ef: nat,
      tiers: seq<seq<Keyed>>): Problem
    requires tiers != []
  {
    Problem(g.Layer(0), dist, mask, tiers[0], if ef >= k then ef else k)
  }

  /** `found` is the best `k` of an exhaustive-or-locally-closed answer on layer 0, reached by the descent. */
  ghost predicate Found(g: Graph, dist: nat -> real, mask: nat -> bool, k: nat, ef: nat, tiers: seq<seq<Keyed>>,
      full: seq<Keyed>, found: seq<Keyed>) {
    && Descent(g, dist, tiers) && Answer(Bottom(g, dist, mask, k, ef, tiers), full)
    && found == (if |full| > k then full[..k] else full)
  }

  lemma ValidClosed(g: Graph, p: Params, level: nat)
    requires g.Valid(p)
    ensures LevelClosed(g, level)
  {
    forall v, i | 0 <= v < |g.lists| && 0 <= i < |g.Neighbors(level, v)| ensures g.At(level, g.Neighbors(level, v)[i]) {
      assert g.ListOk(level, v, Cap(p, level));
    }
  }

  /** One call of the layer search on a level of a graph. */
  method SearchLevel(g: Graph, p: Params, level: nat, dist: nat -> real, mask: nat -> bool, starts: seq<Keyed>, ef: nat)
    returns (res: seq<Keyed>)
    requires g.Valid(p) && StartsAt(g, level, dist, starts)
    ensures Answer(Problem(g.Layer(level), dist, mask, starts, ef), res)
    ensures StartsAt(g, level, dist, res)
    ensures starts != [] && ef >= 1 && mask(starts[0].node) ==> res != [] && res[0].key <= starts[0].key
  {
    hide Answer, StartsAt, LevelClosed, Problem.Valid, Graph.Layer;
    ValidClosed(g, p, level);
    LayerValid(g, level, dist, mask, starts, ef);
    var q := Problem(g.Layer(level), dist, mask, starts, ef);
    ghost var path;
    res, path := SearchLayer(q);
    AnswerStartsAt(g, level, level, q, res);
    if starts != [] && ef >= 1 && mask(starts[0].node) {
      AnswerBest(q, res, 0);
    }
  }

  lemma StartsLower(g: Graph, level: nat, lower: nat, dist: nat -> real, eps: seq<Keyed>)
    requires StartsAt(g, level, dist, eps) && lower <= level
    ensures StartsAt(g, lower, dist, eps)
  {
    forall i | 0 <= i < |eps| ensures g.At(lower, eps[i].node) {
      assert g.At(level, eps[i].node);
    }
  }

  /** What an answer cut to `k` keeps. */
  lemma CutFacts(g: Graph, q: Problem, full: seq<Keyed>, k: nat, found: seq<Keyed>)
    requires Answer(q, full) && StartsAt(g, 0, q.dist, full) && found == (if |full| > k then full[..k] else full)
    ensures |found| <= k && Sorted(found) && DistinctNodes(found) && KeyedBy(found, q.dist)
    ensures forall i :: 0 <= i < |found| ==> found[i].node < |g.levels| && q.mask(found[i].node)
  {
    hide LocallyClosed, EntriesCovered, Nodes, Problem.Reach;
    forall i | 0 <= i < |found| ensures found[i].node < |g.levels| && q.mask(found[i].node) {
      assert found[i] == full[i] && g.At(0, full[i].node);
    }
  }

  /** While going down: the starts of the levels from `level` on, kept in `tiers` from the lowest up. */
  ghost predicate DescentTo(g: Graph, dist: nat -> real, tiers: seq<seq<Keyed>>, level: nat) {
    && g.entry.Some? && level <= g.maxLevel && |tiers| == g.maxLevel + 1 - level
    && tiers[|tiers| - 1] == [Keyed(dist(g.entry.value), g.entry.value)]
    && forall j :: 0 <= j < |tiers| - 1 ==>
         Answer(Problem(g.Layer(level + j + 1), dist, EVERY_NODE, tiers[j + 1], EF_UPPER_LAYERS), tiers[j])
  }

  lemma DescentStep(g: Graph, dist: nat -> real, tiers: seq<seq<Keyed>>, level: nat, lower: seq<Keyed>)
    requires level >= 1 && DescentTo(g, dist, tiers, level)
    requires Answer(Problem(g.Layer(level), dist, EVERY_NODE, tiers[0], EF_UPPER_LAYERS), lower)
    ensures DescentTo(g, dist, [lower] + tiers, level - 1)
  {
    hide Answer, Graph.Layer;
    var all := [lower] + tiers;
    forall j | 0 <= j < |all| - 1
      ensures Answer(Problem(g.Layer(level + j), dist, EVERY_NODE, all[j + 1], EF_UPPER_LAYERS), all[j])
    {
      if j > 0 {
        assert all[j] == tiers[j - 1];
      }
    }
  }

  /** The way down to the bottom level in `search_hnsw_by`. */
  method Descend(g: Graph, p: Params, dist: nat -> real) returns (starts: seq<Keyed>, ghost tiers: seq<seq<Keyed>>)
    requires g.Valid(p) && g.entry.Some?
    ensures Descent(g, dist, tiers) && starts == tiers[0]
    ensures StartsAt(g, 0, dist, starts) && starts != [] && starts[0].key <= dist(g.entry.value)
  {
    hide Answer, StartsAt, DescentTo, Descent, Graph.Valid;
    var entry := g.entry.value;
    starts := [Keyed(dist(entry), entry)];
    EntryStarts(g, p, dist);
    tiers := [starts];
    var level: nat := g.maxLevel;
    while level >= 1
      invariant level <= g.maxLevel && StartsAt(g, level, dist, starts) && starts != [] && starts[0].key <= dist(entry)
      invariant tiers != [] && tiers[0] == starts && DescentTo(g, dist, tiers, level)
      decreases level
    {
      var lower := SearchLevel(g, p, level, dist, EVERY_NODE, starts, EF_UPPER_LAYERS);
      DescentStep(g, dist, tiers, level, lower);
      starts, tiers := lower, [lower] + tiers;
      StartsLower(g, level, level - 1, dist, starts);
      level := level - 1;
    }
    DescentDone(g, dist, tiers);
  }

  /** `search_hnsw_by` */
  method Search(g: Graph, p: Params, dist: nat -> real, mask: nat -> bool, k: nat, ef: nat)
    returns (found: seq<Keyed>, ghost tiers: seq<seq<Keyed>>, ghost full: seq<Keyed>)
    requires g.Valid(p)
    ensures g.entry.None? || k == 0 ==> found == []
    ensures g.entry.Some? && k > 0 ==> Found(g, dist, mask, k, ef, tiers, full, found)
    ensures |found| <= k && Sorted(found) && DistinctNodes(found) && KeyedBy(found, dist)
    ensures forall i :: 0 <= i < |found| ==> found[i].node < |g.levels| && mask(found[i].node)
    ensures g.entry.Some? && k > 0 && All(mask) ==> found != [] && found[0].key <= dist(g.entry.value)
  {
    if g.entry.None? || k == 0 {
      return [], [], [];
    }
    hide Answer, StartsAt, Sorted, DistinctNodes, KeyedBy, Descent, Graph.Valid;
    var starts;
    starts, tiers := Descend(g, p, dist);
    var width := if ef >= k then ef else k;
    var all := SearchLevel(g, p, 0, dist, mask, starts, width);
    found := if |all| > k then all[..k] else all;
    CutFacts(g, Problem(g.Layer(0), dist, mask, starts, width), all, k, found);
    full := all;
  }

  lemma DescentDone(g: Graph, dist: nat -> real, tiers: seq<seq<Keyed>>)
    requires DescentTo(g, dist, tiers, 0)
    ensures Descent(g, dist, tiers) && tiers != []
  {
    hide Answer, Graph.Layer;
  }

  lemma EntryStarts(g: Graph, p: Params, dist: nat -> real)
    requires g.Valid(p) && g.entry.Some?
    ensures StartsAt(g, g.maxLevel, dist, [Keyed(dist(g.entry.value), g.entry.value)])
    ensures DescentTo(g, dist, [[Keyed(dist(g.entry.value), g.entry.value)]], g.maxLevel)
  {
  }

  // ---------------------------------------------------------------------
  // What the search finds
  // ---------------------------------------------------------------------

  /** The accepted nodes that a search can reach. */
  ghost function Reachable(q: Problem): set<nat> {
    set v: nat | v < |q.layer| && q.Reach(v) && q.mask(v)
  }

  /** A search at least as wide as there is something to find misses nothing. */
  lemma WideAnswer(q: Problem, res: seq<Keyed>)
    requires q.Valid() && Answer(q, res) && |Reachable(q)| <= q.ef
    ensures Nodes(res) == Reachable(q)
  {
    forall v | v in Nodes(res) ensures v in Reachable(q) {
      var i :| 0 <= i < |res| && res[i].node == v;
      ReachValid(q, v);
    }
    NodesCount(res);
    if |res| >= q.ef {
      SameSize(Nodes(res), Reachable(q));
    }
  }

  lemma SameSize(a: set<nat>, b: set<nat>)
    requires a <= b && |a| >= |b|
    ensures a == b
  {
    SubsetCard(b - a, b);
    assert b == a + (b - a);
  }

  lemma ReachValid(q: Problem, v: nat)
    requires q.Valid() && q.Reach(v)
    ensures v < |q.layer|
  {
    var p :| q.Walk(p) && p[|p| - 1] == v;
    if |p| > 1 {
      assert q.Edge(p[|p| - 2], p[|p| - 1]);
    }
  }

  lemma ValidShape(g: Graph, p: Params)
    requires g.Valid(p)
    ensures g.Shape()
  {
  }

  /** The starts of a level can be searched from, and the nearest gets no further away on the way down. */
  lemma {:induction false} DescentStarts(g: Graph, p: Params, dist: nat -> real, tiers: seq<seq<Keyed>>, level: nat)
    requires g.Valid(p) && Descent(g, dist, tiers) && level <= g.maxLevel
    ensures StartsAt(g, level, dist, tiers[level])
    ensures tiers[level] != [] && tiers[level][0].key <= dist(g.entry.value)
    ensures level > 0 ==> Tier(g, dist, tiers, level).Valid()
    decreases g.maxLevel - level
  {
    hide Answer, StartsAt, LevelClosed, Problem.Valid, Graph.Layer;
    if level == g.maxLevel {
      EntryStarts(g, p, dist);
    } else {
      DescentStarts(g, p, dist, tiers, level + 1);
      var q := Tier(g, dist, tiers, level + 1);
      ValidClosed(g, p, level + 1);
      AnswerStartsAt(g, level + 1, level, q, tiers[level]);
      AnswerBest(q, tiers[level], 0);
    }
    ValidClosed(g, p, level);
    LayerValid(g, level, dist, EVERY_NODE, tiers[level], EF_UPPER_LAYERS);
  }

  /**
   * The descent ends at a local minimum of level 1, and with all that can be reached there if that is no more than
   * eight nodes.
   */
  lemma DescentEnds(g: Graph, p: Params, dist: nat -> real, tiers: seq<seq<Keyed>>)
    requires g.Valid(p) && Descent(g, dist, tiers) && g.maxLevel >= 1
    ensures tiers[0] != [] && tiers[0][0].node < |g.lists| && tiers[0][0].key == dist(tiers[0][0].node)
    ensures forall i :: 0 <= i < |g.Neighbors(1, tiers[0][0].node)| ==>
              dist(g.Neighbors(1, tiers[0][0].node)[i]) >= tiers[0][0].key
    ensures |Reachable(Tier(g, dist, tiers, 1))| <= EF_UPPER_LAYERS ==>
              Nodes(tiers[0]) == Reachable(Tier(g, dist, tiers, 1))
  {
    hide Problem.Reach, Graph.Valid;
    ValidShape(g, p);
    DescentStarts(g, p, dist, tiers, 0);
    DescentStarts(g, p, dist, tiers, 1);
    var q := Tier(g, dist, tiers, 1);
    assert g.At(0, tiers[0][0].node);
    NearestFirst(q, tiers[0]);
    assert q.layer[tiers[0][0].node] == g.Neighbors(1, tiers[0][0].node);
    if |Reachable(q)| <= EF_UPPER_LAYERS {
      WideAnswer(q, tiers[0]);
    }
  }

  /** No neighbour of the nearest result is nearer, when every node is accepted. */
  lemma NearestFirst(q: Problem, res: seq<Keyed>)
    requires q.Valid() && Answer(q, res) && res != [] && res[0].node < |q.layer| && All(q.mask)
    ensures forall i :: 0 <= i < |q.layer[res[0].node]| ==> q.dist(q.layer[res[0].node][i]) >= res[0].key
  {
    var first := res[0];
    assert first.node in Nodes(res);
    forall i | 0 <= i < |q.layer[first.node]| ensures q.dist(q.layer[first.node][i]) >= first.key {
      var nb := q.layer[first.node][i];
      if nb in Nodes(res) {
        var k :| 0 <= k < |res| && res[k].node == nb;
        KeyBounds(res, k);
      } else {
        KeyBounds(res, 0);
        if |res| < q.ef {
          StepReach(q, first.node, i);
        }
      }
    }
  }

  /** A search as wide as there is something to find on the bottom level gives the `k` nearest accepted nodes. */
  lemma SearchExact(g: Graph, p: Params, dist: nat -> real, mask: nat -> bool, k: nat, ef: nat,
      tiers: seq<seq<Keyed>>, full: seq<Keyed>, found: seq<Keyed>, x: nat)
    requires g.Valid(p) && Found(g, dist, mask, k, ef, tiers, full, found) && k > 0
    requires |Reachable(Bottom(g, dist, mask, k, ef, tiers))| <= (if ef >= k then ef else k)
    requires x in Reachable(Bottom(g, dist, mask, k, ef, tiers))
    ensures x in Nodes(found) || (|found| == k && forall i :: 0 <= i < k ==> Less(found[i], Keyed(dist(x), x)))
  {
    hide Problem.Reach, Graph.Valid;
    var q := Bottom(g, dist, mask, k, ef, tiers);
    ValidShape(g, p);
    DescentStarts(g, p, dist, tiers, 0);
    ValidClosed(g, p, 0);
    LayerValid(g, 0, dist, mask, tiers[0], q.ef);
    WideAnswer(q, full);
    assert x in Nodes(full);
    var j :| 0 <= j < |full| && full[j].node == x;
    if j < |found| {
      assert found[j] == full[j];
    }
  }
}
