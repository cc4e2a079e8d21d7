/** Sequential construction: insertion of one node, reverse edges, and pruning. */
module HnswBuilding {
  import opened Records
  import opened SearchLayers
  import opened HnswGraphs
  import opened HnswSelection

  /** The graph with one neighbour list replaced. */
  function SetList(g: Graph, level: nat, node: nat, list: seq<nat>): Graph
    requires node < |g.lists| && level < |g.lists[node]|
  {
    g.(lists := g.lists[node := g.lists[node][level := list]])
  }

  lemma SetListFacts(g: Graph, level: nat, node: nat, list: seq<nat>)
    requires g.Shape() && node < |g.lists| && level < |g.lists[node]|
    ensures var g' := SetList(g, level, node, list);
            && g'.Shape() && |g'.lists| == |g.lists|
            && forall l: nat, v :: 0 <= v < |g.lists| ==>
                 g'.Neighbors(l, v) == if l == level && v == node then list else g.Neighbors(l, v)
  {
  }

  ghost predicate ListsOk(g: Graph, p: Params) {
    forall v, l: nat :: 0 <= v < |g.lists| ==> g.ListOk(l, v, Cap(p, l))
  }

  /** The lists of levels below `lc` do not know the new node yet. */
  ghost predicate Unlinked(g: Graph, node: nat, lc: nat) {
    && (forall v, l: nat :: 0 <= v < |g.lists| && l < lc ==> node !in g.Neighbors(l, v))
    && (node < |g.lists| ==> forall l: nat :: l < lc ==> g.Neighbors(l, node) == [])
  }

  /** The old nodes' entry point is still in charge while the newest node is being linked. */
  ghost predicate OldEntry(g: Graph, node: nat) {
    && |g.levels| == node + 1 && g.entry.Some? && g.entry.value < node && g.levels[g.entry.value] == g.maxLevel
    && forall v :: 0 <= v < node ==> g.levels[v] <= g.maxLevel
  }

  /** Between levels of an insertion: structure intact, levels below `lc` still to be linked. */
  ghost predicate Linking(g: Graph, p: Params, node: nat, lc: nat) {
    g.Shape() && |g.levels| == node + 1 && ListsOk(g, p) && Unlinked(g, node, lc)
  }

  /** `prune` / `prune_list`; its de-duplication finds nothing to do, since lists have no duplicates. */
  method PruneList(d: KeyFunction, base: nat, list: seq<nat>, m: nat) returns (pruned: seq<nat>)
    requires Distinct(list)
    ensures Picked(d, base, Elements(list), pruned, m)
    ensures Distinct(pruned) && |pruned| == (if m <= |list| then m else |list|)
    ensures forall x :: x in pruned ==> x in list
  {
    var keyed := KeyedList(d, base, list);
    var candidates := Sort(keyed);
    SortedList(d, base, list, candidates);
    SelectionPicked(d, base, candidates, m);
    var selected := Select(d, candidates, m);
    pruned := NodeList(selected);
    DistinctCount(list);
    PickedFacts(d, base, Elements(list), pruned, m);
  }

  lemma SortedList(d: KeyFunction, base: nat, list: seq<nat>, sorted: seq<Keyed>)
    requires Nodes(sorted) == Nodes(KeyedList(d, base, list))
    requires forall y :: y in sorted <==> y in KeyedList(d, base, list)
    ensures Nodes(sorted) == Elements(list) && KeyedFrom(d, base, sorted)
  {
    var keyed := KeyedList(d, base, list);
    forall x | x in Elements(list) ensures x in Nodes(keyed) {
      var i :| 0 <= i < |list| && list[i] == x;
      assert keyed[i].node == x;
    }
    forall i | 0 <= i < |sorted| ensures sorted[i].key == d(base, sorted[i].node) {
      assert sorted[i] in sorted && sorted[i] in keyed;
    }
  }

  /**
   * What a neighbour's list becomes when it gains the new node: longer by one while there is room, and otherwise the
   * pick from the list and the node.
   */
  ghost predicate ReverseLinked(d: KeyFunction, nb: nat, old_: seq<nat>, new_: seq<nat>, node: nat, cap: nat) {
    if |old_| < cap then new_ == old_ + [node] else Picked(d, nb, Elements(old_) + {node}, new_, cap)
  }

  /** One list gains the new node, and is cut back if that makes it too long. */
  ghost predicate GainsNode(old_: seq<nat>, new_: seq<nat>, node: nat, cap: nat) {
    Distinct(new_) && |new_| <= cap && forall x :: x in new_ ==> x in old_ || x == node
  }

  lemma ReverseGains(d: KeyFunction, nb: nat, old_: seq<nat>, new_: seq<nat>, node: nat, cap: nat)
    requires Distinct(old_) && node !in old_ && ReverseLinked(d, nb, old_, new_, node, cap)
    ensures GainsNode(old_, new_, node, cap)
  {
    if |old_| >= cap {
      PickedFacts(d, nb, Elements(old_) + {node}, new_, cap);
    }
  }

  /** A new node that is nearer to the neighbour than everything in its list stands in the list afterwards. */
  lemma NearNodeKept(d: KeyFunction, nb: nat, old_: seq<nat>, new_: seq<nat>, node: nat, cap: nat)
    requires ReverseLinked(d, nb, old_, new_, node, cap) && cap > 0
    requires forall x :: x in old_ ==> d(nb, node) < d(nb, x)
    ensures node in new_
  {
    if |old_| >= cap {
      PickedNearest(d, nb, Elements(old_) + {node}, new_, cap, node);
      PickedFacts(d, nb, Elements(old_) + {node}, new_, cap);
      assert new_[0] in new_;
    }
  }

  method AddReverse(d: KeyFunction, nb: nat, list: seq<nat>, node: nat, m: nat) returns (list': seq<nat>)
    requires Distinct(list) && node !in list && |list| <= m
    ensures ReverseLinked(d, nb, list, list', node, m)
  {
    list' := list + [node];
    if |list'| > m {
      assert Elements(list') == Elements(list) + {node};
      list' := PruneList(d, nb, list', m);
    }
  }

  /** While linking one level: `selected[..i]` are done, everything else is as in `g0`. */
  ghost predicate LinkState(g0: Graph, g: Graph, p: Params, d: KeyFunction, node: nat, lc: nat, selected: seq<nat>,
      i: nat)
    requires i <= |selected|
  {
    && g.Shape() && g == g0.(lists := g.lists) && |g.lists| == |g0.lists| && node < |g.lists| && lc < |g.lists[node]|
    && g.Neighbors(lc, node) == selected[..i]
    && forall l: nat, v :: 0 <= v < |g.lists| && !(l == lc && v == node) ==>
         if l == lc && v in selected[..i]
         then ReverseLinked(d, v, g0.Neighbors(l, v), g.Neighbors(l, v), node, Cap(p, lc))
         else g.Neighbors(l, v) == g0.Neighbors(l, v)
  }

  lemma LinkStep(g0: Graph, g: Graph, p: Params, d: KeyFunction, node: nat, lc: nat, selected: seq<nat>, i: nat,
      list: seq<nat>)
    requires i < |selected| && LinkState(g0, g, p, d, node, lc, selected, i)
    requires Distinct(selected) && selected[i] != node && selected[i] < |g.lists| && lc < |g.lists[selected[i]]|
    requires ReverseLinked(d, selected[i], g0.Neighbors(lc, selected[i]), list, node, Cap(p, lc))
    ensures lc < |SetList(g, lc, node, selected[..i + 1]).lists[selected[i]]|
    ensures LinkState(g0, SetList(SetList(g, lc, node, selected[..i + 1]), lc, selected[i], list), p, d, node,
        lc, selected, i + 1)
  {
    SetListFacts(g, lc, node, selected[..i + 1]);
    SetListFacts(SetList(g, lc, node, selected[..i + 1]), lc, selected[i], list);
    assert selected[..i + 1] == selected[..i] + [selected[i]];
    assert selected[i] !in selected[..i];
    hide SetList, ReverseLinked;
  }

  /** New edges of a level: what a selection may contain. */
  ghost predicate GoodSelection(g: Graph, p: Params, node: nat, lc: nat, selected: seq<nat>) {
    && Distinct(selected) && |selected| <= Cap(p, lc)
    && forall i :: 0 <= i < |selected| ==> selected[i] != node && g.At(lc, selected[i])
  }

  lemma LinkDone(g0: Graph, g: Graph, p: Params, d: KeyFunction, node: nat, lc: nat, selected: seq<nat>)
    requires Linking(g0, p, node, lc + 1) && g0.At(lc, node) && GoodSelection(g0, p, node, lc, selected)
    requires LinkState(g0, g, p, d, node, lc, selected, |selected|)
    ensures Linking(g, p, node, lc)
  {
    assert selected[..|selected|] == selected;
    forall v, l: nat | 0 <= v < |g.lists| ensures g.ListOk(l, v, Cap(p, l)) {
      assert g0.ListOk(l, v, Cap(p, l));
      if l == lc && v == node {
      } else if l == lc && v in selected {
        var list := g.Neighbors(l, v);
        ReverseGains(d, v, g0.Neighbors(l, v), list, node, Cap(p, lc));
        forall i | 0 <= i < |list| ensures list[i] != v && g.At(l, list[i]) {
          assert list[i] in list;
        }
      }
    }
  }

  /** No list holds anything it did not hold before, other than the new node. */
  ghost predicate OnlyGains(g0: Graph, g: Graph, node: nat) {
    && g.levels == g0.levels && |g.lists| == |g0.lists|
    && forall l: nat, v, x :: 0 <= v < |g.lists| && v != node && x in g.Neighbors(l, v)
         ==> x in g0.Neighbors(l, v) || x == node
  }

  lemma LinkGains(g0: Graph, g: Graph, p: Params, d: KeyFunction, node: nat, lc: nat, selected: seq<nat>)
    requires Linking(g0, p, node, lc + 1) && LinkState(g0, g, p, d, node, lc, selected, |selected|)
    ensures OnlyGains(g0, g, node)
  {
    forall l: nat, v, x | 0 <= v < |g.lists| && v != node && x in g.Neighbors(l, v)
      ensures x in g0.Neighbors(l, v) || x == node
    {
      if l == lc && v in selected {
        assert g0.ListOk(l, v, Cap(p, l));
        ReverseGains(d, v, g0.Neighbors(l, v), g.Neighbors(l, v), node, Cap(p, lc));
      }
    }
  }

  /** The lists of one level are the same. */
  ghost predicate SameLevel(g0: Graph, g: Graph, l: nat) {
    |g.lists| == |g0.lists| && forall v :: 0 <= v < |g.lists| ==> g.Neighbors(l, v) == g0.Neighbors(l, v)
  }

  /** One level after linking: exactly the new node's neighbours have gained it. */
  ghost predicate LevelLinked(g0: Graph, g: Graph, p: Params, d: KeyFunction, node: nat, l: nat) {
    && |g.lists| == |g0.lists| && node < |g.lists|
    && forall v :: 0 <= v < |g.lists| && v != node ==>
         if v in g.Neighbors(l, node)
         then ReverseLinked(d, v, g0.Neighbors(l, v), g.Neighbors(l, v), node, Cap(p, l))
         else g.Neighbors(l, v) == g0.Neighbors(l, v)
  }

  /** The nodes to pick from: the candidates, with their neighbours if so configured. */
  ghost function Pool(p: Params, g: Graph, l: nat, candidates: seq<Keyed>): set<nat> {
    if p.extendCandidates then Extended(g, l, candidates) else Nodes(candidates)
  }

  /** The search of one level while the new node is inserted. */
  ghost function Around(p: Params, g: Graph, dist: nat -> real, l: nat, starts: seq<Keyed>): Problem {
    Problem(g.Layer(l), dist, EVERY_NODE, starts, p.efConstruction)
  }

  /**
   * One level of an insertion: the candidates are the answer of a search around the new node in the level as it was,
   * its neighbours are the pick from them by distance from the node, and these have gained it.
   */
  ghost predicate LevelInserted(g0: Graph, g: Graph, p: Params, d: KeyFunction, dist: nat -> real, node: nat, l: nat,
      starts: seq<Keyed>, candidates: seq<Keyed>) {
    && node < |g.lists| && Answer(Around(p, g0, dist, l, starts), candidates)
    && Picked(d, node, Pool(p, g0, l, candidates), g.Neighbors(l, node), Cap(p, l))
    && LevelLinked(g0, g, p, d, node, l)
  }

  lemma LevelInsertedFrame(g0: Graph, g: Graph, g0': Graph, g': Graph, p: Params, d: KeyFunction, dist: nat -> real,
      node: nat, l: nat, starts: seq<Keyed>, candidates: seq<Keyed>)
    requires LevelInserted(g0, g, p, d, dist, node, l, starts, candidates)
    requires SameLevel(g0, g0', l) && SameLevel(g, g', l)
    ensures LevelInserted(g0', g', p, d, dist, node, l, starts, candidates)
  {
    hide Answer, Picked, ReverseLinked;
    assert g0'.Layer(l) == g0.Layer(l);
    assert Extended(g0', l, candidates) == Extended(g0, l, candidates);
  }

  /** Where the search for `answers[j]` starts. */
  ghost function From(starts: seq<Keyed>, answers: seq<seq<Keyed>>, j: nat): seq<Keyed> {
    if j + 1 < |answers| then answers[j + 1] else starts
  }

  /** All levels from `lc` to the top of an insertion, each starting from the candidates of the one above. */
  ghost predicate LevelsInserted(g0: Graph, g: Graph, p: Params, d: KeyFunction, dist: nat -> real, node: nat, lc: nat,
      starts: seq<Keyed>, answers: seq<seq<Keyed>>) {
    forall j :: 0 <= j < |answers| ==>
      LevelInserted(g0, g, p, d, dist, node, lc + j, From(starts, answers, j), answers[j])
  }

  lemma LevelsStep(g0: Graph, g1: Graph, g2: Graph, p: Params, d: KeyFunction, dist: nat -> real, node: nat, lc: nat,
      starts: seq<Keyed>, answers: seq<seq<Keyed>>, candidates: seq<Keyed>)
    requires LevelsInserted(g0, g1, p, d, dist, node, lc + 1, starts, answers) && SameLevel(g1, g0, lc)
    requires LevelInserted(g1, g2, p, d, dist, node, lc, if answers == [] then starts else answers[0], candidates)
    requires forall l: nat :: l != lc ==> SameLevel(g1, g2, l)
    ensures LevelsInserted(g0, g2, p, d, dist, node, lc, starts, [candidates] + answers)
  {
    hide LevelInserted, SameLevel, From;
    var all := [candidates] + answers;
    forall j | 0 <= j < |all|
      ensures LevelInserted(g0, g2, p, d, dist, node, lc + j, From(starts, all, j), all[j])
    {
      FromShift(starts, candidates, answers, j);
      if j == 0 {
        SameLevelSelf(g2, lc);
        LevelInsertedFrame(g1, g2, g0, g2, p, d, dist, node, lc, From(starts, all, 0), candidates);
      } else {
        assert LevelInserted(g0, g1, p, d, dist, node, lc + 1 + (j - 1), From(starts, answers, j - 1), answers[j - 1]);
        SameLevelSelf(g0, lc + j);
        LevelInsertedFrame(g0, g1, g0, g2, p, d, dist, node, lc + j, From(starts, all, j), all[j]);
      }
    }
  }

  lemma FromShift(starts: seq<Keyed>, candidates: seq<Keyed>, answers: seq<seq<Keyed>>, j: nat)
    requires j <= |answers|
    ensures var all := [candidates] + answers;
            if j == 0 then all[j] == candidates && From(starts, all, j) == if answers == [] then starts else answers[0]
            else all[j] == answers[j - 1] && From(starts, all, j) == From(starts, answers, j - 1)
  {
  }

  lemma SameLevelSelf(g: Graph, l: nat)
    ensures SameLevel(g, g, l)
  {
  }

  /** The lists of a node without neighbours. */
  function NoLists(level: nat): seq<seq<nat>> {
    seq(level + 1, _ => [])
  }

  /** The graph with one more node that nobody knows yet. */
  function Grown(g: Graph, level: nat): Graph {
    g.(levels := g.levels + [level], lists := g.lists + [NoLists(level)])
  }

  /** While linking downwards: the levels from `lc` to the top are done, and nothing else has changed. */
  ghost predicate LinkedDown(grown: Graph, g: Graph, p: Params, d: KeyFunction, dist: nat -> real, node: nat, lc: nat,
      top: nat, starts: seq<Keyed>, answers: seq<seq<Keyed>>) {
    && Linking(g, p, node, lc) && OldEntry(g, node) && g.At(top, node)
    && g == grown.(lists := g.lists) && OnlyGains(grown, g, node)
    && lc <= top + 1 && |answers| == top + 1 - lc && LevelsInserted(grown, g, p, d, dist, node, lc, starts, answers)
    && (forall l: nat :: l < lc || l > top ==> SameLevel(grown, g, l))
    && (forall l: nat :: lc <= l <= top && Cap(p, l) > 0 && p.efConstruction > 0 ==> g.Neighbors(l, node) != [])
  }

  lemma NothingLinked(g: Graph, p: Params, d: KeyFunction, dist: nat -> real, node: nat, top: nat, starts: seq<Keyed>)
    requires Linking(g, p, node, top + 1) && OldEntry(g, node) && g.At(top, node)
    ensures LinkedDown(g, g, p, d, dist, node, top + 1, top, starts, [])
  {
  }

  lemma LinkedFacts(grown: Graph, g: Graph, p: Params, d: KeyFunction, dist: nat -> real, node: nat, lc: nat,
      top: nat, starts: seq<Keyed>, answers: seq<seq<Keyed>>)
    requires LinkedDown(grown, g, p, d, dist, node, lc + 1, top, starts, answers)
    ensures Linking(g, p, node, lc + 1) && g.At(lc, node)
  {
    hide Linking, OldEntry, OnlyGains, LevelsInserted, SameLevel;
  }

  lemma OneLevelDown(grown: Graph, g1: Graph, g2: Graph, p: Params, d: KeyFunction, dist: nat -> real, node: nat,
      lc: nat, top: nat, starts: seq<Keyed>, answers: seq<seq<Keyed>>, candidates: seq<Keyed>)
    requires LinkedDown(grown, g1, p, d, dist, node, lc + 1, top, starts, answers)
    requires Linking(g2, p, node, lc) && OnlyGains(g1, g2, node) && g2 == g1.(lists := g2.lists)
    requires LevelInserted(g1, g2, p, d, dist, node, lc, if answers == [] then starts else answers[0], candidates)
    requires p.efConstruction > 0 && Cap(p, lc) > 0 ==> node < |g2.lists| && g2.Neighbors(lc, node) != []
    requires forall l: nat :: l != lc ==> SameLevel(g1, g2, l)
    ensures LinkedDown(grown, g2, p, d, dist, node, lc, top, starts, [candidates] + answers)
  {
    hide LevelsInserted, LevelInserted, SameLevel, OnlyGains, ListsOk, Unlinked;
    assert SameLevel(grown, g1, lc);
    SameSymmetric(grown, g1, lc);
    LevelsStep(grown, g1, g2, p, d, dist, node, lc, starts, answers, candidates);
    SameChain(grown, g1, g2, node, lc, top);
    GainsTwice(grown, g1, g2, node);
  }

  lemma GainsTwice(g0: Graph, g1: Graph, g2: Graph, node: nat)
    requires OnlyGains(g0, g1, node) && OnlyGains(g1, g2, node)
    ensures OnlyGains(g0, g2, node)
  {
  }

  /**
   * What inserting the next row does. Distances are those from the new node. Above its own level the start is brought
   * down to a local minimum; from there on every level is searched and linked, beginning with the highest level that
   * both have; nothing else changes.
   */
  ghost predicate Inserted(g0: Graph, g: Graph, p: Params, d: KeyFunction, level: nat, dist: nat -> real, start: Keyed,
      answers: seq<seq<Keyed>>)
    requires g0.entry.Some?
  {
    var node, grown := |g0.levels|, Grown(g0, level);
    && (forall v :: dist(v) == d(node, v))
    && (if g0.maxLevel > level
        then g0.At(level + 1, start.node) && LocalMinimum(grown, level + 1, dist, start)
             && DescendsTo(grown, dist, g0.maxLevel, level, g0.entry.value, start.node)
        else start.node == g0.entry.value)
    && start.key == dist(start.node) <= dist(g0.entry.value)
    && |answers| == (if level <= g0.maxLevel then level else g0.maxLevel) + 1
    && LevelsInserted(grown, g, p, d, dist, node, 0, [start], answers)
    && forall l: nat :: l >= |answers| ==> SameLevel(grown, g, l)
  }

  /** `HnswBuilder`; `d` is the metric's distance key between two rows of the source. */
  class Builder {
    const params: Params
    const d: KeyFunction
    var levels: seq<nat>
    var lists: seq<seq<seq<nat>>>
    var entry: Option<nat>
    var maxLevel: nat

    function Value(): Graph
      reads this
    {
      Graph(levels, lists, entry, maxLevel)
    }

    constructor (params: Params, d: KeyFunction)
      ensures Value() == Graph([], [], None, 0) && Value().Valid(params) && this.params == params && this.d == d
    {
      this.params, this.d := params, d;
      levels, lists, entry, maxLevel := [], [], None, 0;
    }

    /** Edges in both directions between the new node and the selected ones at one level. */
    method LinkLevel(node: nat, lc: nat, selected: seq<nat>)
      requires Linking(Value(), params, node, lc + 1) && Value().At(lc, node)
      requires GoodSelection(Value(), params, node, lc, selected)
      modifies this`lists
      ensures Linking(Value(), params, node, lc) && OnlyGains(old(Value()), Value(), node)
      ensures node < |lists| && Value().Neighbors(lc, node) == selected
      ensures LevelLinked(old(Value()), Value(), params, d, node, lc)
      ensures forall l: nat :: l != lc ==> SameLevel(old(Value()), Value(), l)
    {
      ghost var g0 := Value();
      hide LinkState, ReverseLinked, OnlyGains, SameLevel, LevelLinked;
      LinkStart(g0, params, d, node, lc, selected);
      for i := 0 to |selected|
        invariant LinkState(g0, Value(), params, d, node, lc, selected, i)
      {
        var nb := selected[i];
        LinkFacts(g0, Value(), params, d, node, lc, selected, i);
        ghost var g := Value();
        lists := lists[node := lists[node][lc := lists[node][lc] + [nb]]];
        assert selected[..i + 1] == selected[..i] + [nb];
        var list := AddReverse(d, nb, lists[nb][lc], node, Cap(params, lc));
        LinkStep(g0, g, params, d, node, lc, selected, i, list);
        lists := lists[nb := lists[nb][lc := list]];
      }
      LinkDone(g0, Value(), params, d, node, lc, selected);
      LinkGains(g0, Value(), params, d, node, lc, selected);
      LinkFrame(g0, Value(), params, d, node, lc, selected);
    }

    /**
     * Links the new node at every level from `top` down, each search starting from the candidates of the level
     * above.
     */
    method LinkLevels(node: nat, top: nat, dist: nat -> real, starts: seq<Keyed>)
      returns (ghost answers: seq<seq<Keyed>>)
      requires Linking(Value(), params, node, top + 1) && OldEntry(Value(), node) && Value().At(top, node)
      requires forall v :: dist(v) == d(node, v)
      requires StartsAt(Value(), top, dist, starts) && starts != [] &&
           forall i :: 0 <= i < |starts| ==> starts[i].node != node
      modifies this`lists
      ensures LinkedDown(old(Value()), Value(), params, d, dist, node, 0, top, starts, answers)
    {
      hide LinkedDown, LevelInserted, Linking, StartsAt, OnlyGains, SameLevel, OldEntry;
      ghost var grown := Value();
      var eps := starts;
      var lc: nat := top + 1;
      answers := [];
      NothingLinked(grown, params, d, dist, node, top, starts);
      while lc > 0
        invariant lc <= top + 1 && LinkedDown(grown, Value(), params, d, dist, node, lc, top, starts, answers)
        invariant eps == (if answers == [] then starts else answers[0]) && (eps != [] || params.efConstruction == 0)
        invariant StartsAt(Value(), if lc > 0 then lc - 1 else 0, dist, eps)
        invariant forall i :: 0 <= i < |eps| ==> eps[i].node != node
      {
        lc := lc - 1;
        ghost var g1 := Value();
        LinkedFacts(grown, g1, params, d, dist, node, lc, top, starts, answers);
        var candidates := InsertAt(node, lc, dist, eps);
        OneLevelDown(grown, g1, Value(), params, d, dist, node, lc, top, starts, answers, candidates);
        eps, answers := candidates, [candidates] + answers;
        StartsLower(Value(), lc, if lc > 0 then lc - 1 else 0, dist, eps);
      }
    }

    /** `insert` of the next row at a level drawn by the caller. */
    method Insert(level: nat) returns (ghost dist: nat -> real, ghost start: Keyed, ghost answers: seq<seq<Keyed>>)
      requires Value().Valid(params)
      modifies this
      ensures Value().Valid(params) && levels == old(levels) + [level]
      ensures entry == if old(entry).None? || level > old(maxLevel) then Some(|old(levels)|) else old(entry)
      ensures old(entry).None? ==> lists == [NoLists(level)]
      ensures old(entry).Some? ==> Inserted(old(Value()), Value(), params, d, level, dist, start, answers)
      ensures forall l: nat, v, x :: 0 <= v < |old(levels)| && x in Value().Neighbors(l, v) ==>
                x in old(Value()).Neighbors(l, v) || x == |old(levels)|
      ensures forall l: nat ::
                l <= level && l <= old(maxLevel) && old(entry).Some? && Cap(params, l) > 0 &&
                params.efConstruction > 0 ==>
                  Value().Neighbors(l, |old(levels)|) != []
    {
      var node := |levels|;
      ghost var g0 := Value();
      levels := levels + [level];
      lists := lists + [NoLists(level)];
      AppendNode(g0, params, level, Value());
      var key: nat -> real := (v: nat) => d(node, v);
      dist, answers := key, [];
      if entry.None? {
        entry, maxLevel, start := Some(node), level, Keyed(0.0, node);
        FirstNode(g0, params, level, Value());
        return;
      }
      var ep := Keyed(key(entry.value), entry.value);
      if maxLevel > level {
        AllLevelsClosed(Value(), params);
        ep := GreedyDescend(Value(), key, ep, maxLevel, level);
      }
      start := ep;
      var top := if level <= maxLevel then level else maxLevel;
      answers := LinkLevels(node, top, key, [ep]);
      ghost var linked := Value();
      if level > maxLevel {
        maxLevel, entry := level, Some(node);
      }
      InsertDone(g0, linked, Value(), params, d, level, key, ep, answers);
    }

    /** One level of an insertion: search, select, link; the candidates start the next level's search. */
    method InsertAt(node: nat, lc: nat, dist: nat -> real, eps: seq<Keyed>) returns (candidates: seq<Keyed>)
      requires Linking(Value(), params, node, lc + 1) && Value().At(lc, node) && forall v :: dist(v) == d(node, v)
      requires StartsAt(Value(), lc, dist, eps) && forall i :: 0 <= i < |eps| ==> eps[i].node != node
      modifies this`lists
      ensures Linking(Value(), params, node, lc) && OnlyGains(old(Value()), Value(), node)
      ensures Value() == old(Value()).(lists := lists) && node < |lists|
      ensures LevelInserted(old(Value()), Value(), params, d, dist, node, lc, eps, candidates)
      ensures StartsAt(Value(), lc, dist, candidates) &&
           forall i :: 0 <= i < |candidates| ==> candidates[i].node != node
      ensures eps != [] && params.efConstruction > 0 ==>
                candidates != [] && (Cap(params, lc) > 0 ==> Value().Neighbors(lc, node) != [])
      ensures forall l: nat :: l != lc ==> SameLevel(old(Value()), Value(), l)
    {
      hide Answer, Picked, LevelLinked, SameLevel, OnlyGains, Linking, StartsAt, GoodSelection;
      candidates := SearchAround(node, lc, dist, eps);
      var selected := Choose(node, lc, dist, candidates);
      LinkLevel(node, lc, selected);
      KeepsStarts(old(Value()), Value(), lc, dist, candidates);
    }

    /** The candidates of one level, found among the nodes linked before. */
    method SearchAround(node: nat, lc: nat, dist: nat -> real, eps: seq<Keyed>) returns (candidates: seq<Keyed>)
      requires Linking(Value(), params, node, lc + 1)
      requires StartsAt(Value(), lc, dist, eps) && forall i :: 0 <= i < |eps| ==> eps[i].node != node
      ensures Answer(Around(params, Value(), dist, lc, eps), candidates) && StartsAt(Value(), lc, dist, candidates)
      ensures forall i :: 0 <= i < |candidates| ==> candidates[i].node != node
      ensures Sorted(candidates) && DistinctNodes(candidates) && KeyedBy(candidates, dist)
      ensures eps != [] && params.efConstruction > 0 ==> candidates != []
    {
      var g := Value();
      LinkingClosed(g, params, node, lc);
      LayerValid(g, lc, dist, EVERY_NODE, eps, params.efConstruction);
      var q := Problem(g.Layer(lc), dist, EVERY_NODE, eps, params.efConstruction);
      ghost var path;
      candidates, path := SearchLayer(q);
      CandidatesOld(g, params, node, lc, q, candidates);
      hide Linking, StartsAt, Unlinked, LevelClosed;
      if eps != [] && params.efConstruction > 0 {
        AnswerBest(q, candidates, 0);
      }
    }

    /** The neighbours picked from the candidates, extended by their neighbours if so configured. */
    method Choose(node: nat, lc: nat, dist: nat -> real, candidates: seq<Keyed>) returns (selected: seq<nat>)
      requires Linking(Value(), params, node, lc + 1) && forall v :: dist(v) == d(node, v)
      requires StartsAt(Value(), lc, dist, candidates)
      requires forall i :: 0 <= i < |candidates| ==> candidates[i].node != node
      requires Sorted(candidates) && DistinctNodes(candidates) && KeyedBy(candidates, dist)
      ensures Picked(d, node, Pool(params, Value(), lc, candidates), selected, Cap(params, lc))
      ensures GoodSelection(Value(), params, node, lc, selected)
      ensures candidates != [] && Cap(params, lc) > 0 ==> selected != []
    {
      var g := Value();
      LinkingClosed(g, params, node, lc);
      hide Selection, Picked, Linking, LevelClosed;
      var extended := candidates;
      if params.extendCandidates {
        extended := Extend(g, lc, dist, candidates);
        ExtendedOld(g, params, node, lc, candidates, extended);
      }
      hide Extended;
      var m := Cap(params, lc);
      var chosen := Select(d, extended, m);
      SelectedGood(g, params, d, node, lc, extended, m, chosen);
      SelectionPicked(d, node, extended, m);
      selected := NodeList(chosen);
    }
  }

  lemma KeepsStarts(g: Graph, g': Graph, level: nat, dist: nat -> real, starts: seq<Keyed>)
    requires StartsAt(g, level, dist, starts) && g'.levels == g.levels
    ensures StartsAt(g', level, dist, starts)
  {
  }

  /** What is left to do when all levels are linked: the entry point. */
  lemma InsertDone(g0: Graph, linked: Graph, g: Graph, p: Params, d: KeyFunction, level: nat, dist: nat -> real,
      start: Keyed, answers: seq<seq<Keyed>>)
    requires g0.Valid(p) && g0.entry.Some? && forall v :: dist(v) == d(|g0.levels|, v)
    requires var top := if level <= g0.maxLevel then level else g0.maxLevel;
             LinkedDown(Grown(g0, level), linked, p, d, dist, |g0.levels|, 0, top, [start], answers)
    requires if g0.maxLevel > level
             then g0.At(level + 1, start.node) && LocalMinimum(Grown(g0, level), level + 1, dist, start)
                  && DescendsTo(Grown(g0, level), dist, g0.maxLevel, level, g0.entry.value, start.node)
             else start.node == g0.entry.value
    requires start.key == dist(start.node) <= dist(g0.entry.value)
    requires g == if level > g0.maxLevel then linked.(maxLevel := level, entry := Some(|g0.levels|)) else linked
    ensures g.Valid(p) && Inserted(g0, g, p, d, level, dist, start, answers)
    ensures forall l: nat, v, x :: 0 <= v < |g0.levels| && x in g.Neighbors(l, v) ==>
              x in g0.Neighbors(l, v) || x == |g0.levels|
    ensures |g0.levels| < |g.lists| && forall l: nat ::
              l <= level && l <= g0.maxLevel && Cap(p, l) > 0 && p.efConstruction > 0 ==>
                g.Neighbors(l, |g0.levels|) != []
  {
    hide LevelsInserted, LocalMinimum, SameLevel;
    var grown, node := Grown(g0, level), |g0.levels|;
    AppendNode(g0, p, level, grown);
    EntryApart(grown, linked, g, p, d, dist, node, [start], answers);
    InsertedGains(g0, grown, g, level);
    hide OnlyGains, Unlinked;
    InsertedValid(linked, g, p, node);
  }

  lemma AllSame(g: Graph)
    ensures forall l: nat :: SameLevel(g, g, l)
  {
  }

  lemma SameSymmetric(g: Graph, g': Graph, l: nat)
    requires SameLevel(g, g', l)
    ensures SameLevel(g', g, l)
  {
  }

  /** Linking one level leaves the others as they were: those below, those above the top, and the node's neighbours. */
  lemma SameChain(g0: Graph, g1: Graph, g2: Graph, node: nat, lc: nat, top: nat)
    requires lc <= top && node < |g1.lists|
    requires forall l: nat :: l < lc + 1 || l > top ==> SameLevel(g0, g1, l)
    requires forall l: nat :: l != lc ==> SameLevel(g1, g2, l)
    ensures forall l: nat :: l < lc || l > top ==> SameLevel(g0, g2, l)
    ensures node < |g2.lists| && forall l: nat :: l != lc ==> g2.Neighbors(l, node) == g1.Neighbors(l, node)
  {
    assert SameLevel(g1, g2, lc + 1);
    forall l: nat | l < lc || l > top ensures SameLevel(g0, g2, l) {
      SameTwice(g0, g1, g2, l);
    }
    forall l: nat | l != lc ensures g2.Neighbors(l, node) == g1.Neighbors(l, node) {
      assert SameLevel(g1, g2, l);
    }
  }

  lemma SameTwice(g0: Graph, g1: Graph, g2: Graph, l: nat)
    requires SameLevel(g0, g1, l) && SameLevel(g1, g2, l)
    ensures SameLevel(g0, g2, l)
  {
  }

  lemma SameLists(g: Graph, g': Graph, l: nat)
    requires g'.lists == g.lists
    ensures SameLevel(g, g', l)
  {
  }

  /** Entry point and level count play no part in what was linked. */
  lemma EntryApart(grown: Graph, linked: Graph, g: Graph, p: Params, d: KeyFunction, dist: nat -> real, node: nat,
      starts: seq<Keyed>, answers: seq<seq<Keyed>>)
    requires LevelsInserted(grown, linked, p, d, dist, node, 0, starts, answers) && g.lists == linked.lists
    requires forall l: nat :: l >= |answers| ==> SameLevel(grown, linked, l)
    ensures LevelsInserted(grown, g, p, d, dist, node, 0, starts, answers)
    ensures forall l: nat :: l >= |answers| ==> SameLevel(grown, g, l)
  {
    hide SameLevel, LevelInserted;
    AllSame(grown);
    forall l: nat | l >= |answers| ensures SameLevel(grown, g, l) {
      SameLists(linked, g, l);
      SameTwice(grown, linked, g, l);
    }
    forall j | 0 <= j < |answers|
      ensures LevelInserted(grown, g, p, d, dist, node, j, From(starts, answers, j), answers[j])
    {
      SameLists(linked, g, j);
      LevelInsertedFrame(grown, linked, grown, g, p, d, dist, node, j, From(starts, answers, j), answers[j]);
    }
  }

  lemma LinkStart(g0: Graph, p: Params, d: KeyFunction, node: nat, lc: nat, selected: seq<nat>)
    requires Linking(g0, p, node, lc + 1) && g0.At(lc, node)
    ensures LinkState(g0, g0, p, d, node, lc, selected, 0)
  {
  }

  lemma LinkFacts(g0: Graph, g: Graph, p: Params, d: KeyFunction, node: nat, lc: nat, selected: seq<nat>, i: nat)
    requires Linking(g0, p, node, lc + 1) && GoodSelection(g0, p, node, lc, selected)
    requires i < |selected| && LinkState(g0, g, p, d, node, lc, selected, i)
    ensures g.Shape() && node < |g.lists| && lc < |g.lists[node]| && g.lists[node][lc] == selected[..i]
    ensures selected[i] != node && selected[i] < |g.lists| && lc < |g.lists[selected[i]]|
    ensures g.lists[selected[i]][lc] == g0.Neighbors(lc, selected[i])
    ensures Distinct(g.lists[selected[i]][lc]) && node !in g.lists[selected[i]][lc]
        && |g.lists[selected[i]][lc]| <= Cap(p, lc)
  {
    assert g0.At(lc, selected[i]);
    assert selected[i] !in selected[..i];
    assert g0.ListOk(lc, selected[i], Cap(p, lc));
    assert g.Neighbors(lc, selected[i]) == g0.Neighbors(lc, selected[i]);
  }

  lemma LinkFrame(g0: Graph, g: Graph, p: Params, d: KeyFunction, node: nat, lc: nat, selected: seq<nat>)
    requires LinkState(g0, g, p, d, node, lc, selected, |selected|)
    ensures node < |g.lists| && g.Neighbors(lc, node) == selected && LevelLinked(g0, g, p, d, node, lc)
    ensures forall l: nat :: l != lc ==> SameLevel(g0, g, l)
  {
    hide ReverseLinked;
    assert selected[..|selected|] == selected;
  }

  lemma LinkingClosed(g: Graph, p: Params, node: nat, lc: nat)
    requires Linking(g, p, node, lc + 1)
    ensures LevelClosed(g, lc)
  {
    forall v, i | 0 <= v < |g.lists| && 0 <= i < |g.Neighbors(lc, v)| ensures g.At(lc, g.Neighbors(lc, v)[i]) {
      assert g.ListOk(lc, v, Cap(p, lc));
    }
  }

  lemma AllLevelsClosed(g: Graph, p: Params)
    requires ListsOk(g, p)
    ensures forall l: nat :: LevelClosed(g, l)
  {
    forall l: nat ensures LevelClosed(g, l) {
      forall v, i | 0 <= v < |g.lists| && 0 <= i < |g.Neighbors(l, v)| ensures g.At(l, g.Neighbors(l, v)[i]) {
        assert g.ListOk(l, v, Cap(p, l));
      }
    }
  }

  /** A search over levels that do not know the new node does not find it. */
  lemma {:induction false} WalkAvoids(g: Graph, node: nat, lc: nat, q: Problem, p: seq<nat>)
    requires Unlinked(g, node, lc + 1) && q.layer == g.Layer(lc) && q.Walk(p)
    requires forall i :: 0 <= i < |q.eps| ==> q.eps[i].node != node
    ensures p[|p| - 1] != node
  {
    if |p| > 1 {
      assert q.Edge(p[|p| - 2], p[|p| - 1]);
    }
  }

  lemma CandidatesOld(g: Graph, p: Params, node: nat, lc: nat, q: Problem, candidates: seq<Keyed>)
    requires Linking(g, p, node, lc + 1) && LevelClosed(g, lc) && q.layer == g.Layer(lc) && Answer(q, candidates)
    requires StartsAt(g, lc, q.dist, q.eps) && forall i :: 0 <= i < |q.eps| ==> q.eps[i].node != node
    ensures StartsAt(g, lc, q.dist, candidates) && forall i :: 0 <= i < |candidates| ==> candidates[i].node != node
    ensures DistinctNodes(candidates) && KeyedBy(candidates, q.dist)
  {
    AnswerStartsAt(g, lc, lc, q, candidates);
    forall i | 0 <= i < |candidates| ensures candidates[i].node != node {
      assert candidates[i].node in Nodes(candidates);
      var walk :| q.Walk(walk) && walk[|walk| - 1] == candidates[i].node;
      WalkAvoids(g, node, lc, q, walk);
    }
  }

  lemma ExtendedOld(g: Graph, p: Params, node: nat, lc: nat, candidates: seq<Keyed>, extended: seq<Keyed>)
    requires Linking(g, p, node, lc + 1) && LevelClosed(g, lc)
    requires forall i :: 0 <= i < |candidates| ==> candidates[i].node != node && g.At(lc, candidates[i].node)
    requires Nodes(extended) == Extended(g, lc, candidates)
    ensures forall i :: 0 <= i < |extended| ==> extended[i].node != node && g.At(lc, extended[i].node)
    ensures candidates != [] ==> extended != []
  {
    forall i | 0 <= i < |extended| ensures extended[i].node != node && g.At(lc, extended[i].node) {
      var x := extended[i].node;
      assert x in Nodes(extended);
      if x in Nodes(candidates) {
        var k :| 0 <= k < |candidates| && candidates[k].node == x;
      } else {
        var k, j :| 0 <= k < |candidates| && candidates[k].node < |g.lists|
            && 0 <= j < |g.Neighbors(lc, candidates[k].node)|
                    && g.Neighbors(lc, candidates[k].node)[j] == x;
        assert g.At(lc, g.Neighbors(lc, candidates[k].node)[j]);
        assert x in g.Neighbors(lc, candidates[k].node);
      }
    }
    if candidates != [] {
      assert candidates[0].node in Nodes(candidates) && candidates[0].node in Nodes(extended);
    }
  }

  lemma SelectedGood(g: Graph, p: Params, d: KeyFunction, node: nat, lc: nat, extended: seq<Keyed>, m: nat,
      selected: seq<Keyed>)
    requires DistinctNodes(extended) && m == Cap(p, lc) && selected == Selection(d, extended, m)
    requires forall i :: 0 <= i < |extended| ==> extended[i].node != node && g.At(lc, extended[i].node)
    ensures GoodSelection(g, p, node, lc, NodeList(selected))
    ensures m > 0 && extended != [] ==> selected != []
  {
    SelectionFacts(d, extended, m);
    forall i | 0 <= i < |selected| ensures selected[i].node != node && g.At(lc, selected[i].node) {
      assert selected[i] in extended;
      var k :| 0 <= k < |extended| && extended[k] == selected[i];
    }
  }

  /** Adding a node without edges keeps the lists. */
  lemma AppendNode(g0: Graph, p: Params, level: nat, g: Graph)
    requires g0.Valid(p)
    requires g == Grown(g0, level)
    ensures g.Shape() && ListsOk(g, p) && Unlinked(g, |g0.levels|, level + 1) && g.At(level, |g0.levels|)
    ensures forall lc: nat :: lc <= level + 1 ==> Linking(g, p, |g0.levels|, lc)
    ensures g0.entry.Some? ==> OldEntry(g, |g0.levels|)
    ensures forall l: nat, v :: 0 <= v < |g0.lists| ==> g.Neighbors(l, v) == g0.Neighbors(l, v)
  {
    forall v, l: nat | 0 <= v < |g.lists| ensures g.ListOk(l, v, Cap(p, l)) {
      if v < |g0.lists| {
        assert g0.ListOk(l, v, Cap(p, l));
        forall i | 0 <= i < |g.Neighbors(l, v)| ensures g.At(l, g.Neighbors(l, v)[i]) {
          assert g0.At(l, g0.Neighbors(l, v)[i]);
        }
      }
    }
    forall v, l: nat | 0 <= v < |g.lists| && l < level + 1 ensures |g0.levels| !in g.Neighbors(l, v) {
      if v < |g0.lists| {
        assert g0.ListOk(l, v, Cap(p, l));
      }
    }
  }

  lemma FirstNode(g0: Graph, p: Params, level: nat, g: Graph)
    requires g0.Valid(p) && g0.entry.None?
    requires g == Graph(g0.levels + [level], g0.lists + [NoLists(level)], Some(|g0.levels|), level)
    ensures g.Valid(p) && g.lists == [NoLists(level)]
  {
  }

  lemma InsertedGains(g0: Graph, grown: Graph, g: Graph, level: nat)
    requires OnlyGains(grown, g, |g0.levels|) && g0.Shape() && |grown.lists| == |g0.lists| + 1
    requires forall l: nat, v :: 0 <= v < |g0.lists| ==> grown.Neighbors(l, v) == g0.Neighbors(l, v)
    ensures forall l: nat, v, x ::
        0 <= v < |g0.levels| && x in g.Neighbors(l, v) ==>
          x in g0.Neighbors(l, v) || x == |g0.levels|
  {
  }

  lemma InsertedValid(linked: Graph, g: Graph, p: Params, node: nat)
    requires Linking(linked, p, node, 0) && g == linked.(entry := g.entry, maxLevel := g.maxLevel)
    requires g.entry.Some? && g.entry.value <= node && g.levels[g.entry.value] == g.maxLevel
    requires forall v :: 0 <= v <= node ==> g.levels[v] <= g.maxLevel
    ensures g.Valid(p)
  {
    forall v, l: nat | 0 <= v < |g.lists| ensures g.ListOk(l, v, Cap(p, l)) {
      assert linked.ListOk(l, v, Cap(p, l));
    }
  }

  // ---------------------------------------------------------------------
  // What an insertion means for the new node
  // ---------------------------------------------------------------------

  /** The search at one level of an insertion. */
  ghost function LevelSearch(g0: Graph, p: Params, level: nat, dist: nat -> real, start: Keyed,
      answers: seq<seq<Keyed>>, l: nat): Problem {
    Around(p, Grown(g0, level), dist, l, From([start], answers, l))
  }

  lemma LevelAnswer(g0: Graph, g: Graph, p: Params, d: KeyFunction, level: nat, dist: nat -> real, start: Keyed,
      answers: seq<seq<Keyed>>, l: nat)
    requires g0.entry.Some? && Inserted(g0, g, p, d, level, dist, start, answers) && l < |answers|
    ensures LevelInserted(Grown(g0, level), g, p, d, dist, |g0.levels|, l, From([start], answers, l), answers[l])
    ensures Answer(LevelSearch(g0, p, level, dist, start, answers, l), answers[l])
  {
    hide Answer, Picked, LevelLinked, From, Grown, LocalMinimum;
    assert LevelInserted(Grown(g0, level), g, p, d, dist, |g0.levels|, 0 + l, From([start], answers, l), answers[l]);
  }

  lemma TopStarts(g0: Graph, g: Graph, p: Params, d: KeyFunction, level: nat, dist: nat -> real, start: Keyed,
      answers: seq<seq<Keyed>>)
    requires g0.Valid(p) && g0.entry.Some? && Inserted(g0, g, p, d, level, dist, start, answers)
    ensures answers != [] && StartsAt(Grown(g0, level), |answers| - 1, dist, [start])
  {
    hide LevelsInserted, LocalMinimum, Graph.ListOk;
  }

  lemma GrownClosed(g0: Graph, p: Params, level: nat, l: nat)
    requires g0.Valid(p)
    ensures Grown(g0, level).Shape() && LevelClosed(Grown(g0, level), l)
  {
    AppendNode(g0, p, level, Grown(g0, level));
    AllLevelsClosed(Grown(g0, level), p);
  }

  /** Searches of an insertion have starting points, and find something. */
  lemma {:induction false} InsertStarts(g0: Graph, g: Graph, p: Params, d: KeyFunction, level: nat, dist: nat -> real,
      start: Keyed, answers: seq<seq<Keyed>>, l: nat)
    requires g0.Valid(p) && g0.entry.Some? && Inserted(g0, g, p, d, level, dist, start, answers)
    requires l < |answers| && p.efConstruction > 0
    ensures LevelSearch(g0, p, level, dist, start, answers, l).Valid()
    ensures StartsAt(Grown(g0, level), l, dist, From([start], answers, l))
    ensures From([start], answers, l) != [] && answers[l] != []
    decreases |answers| - l
  {
    hide Answer, Problem.Valid, Inserted, LevelInserted, Grown, StartsAt, LevelClosed, Graph.Shape, Graph.Valid;
    if l + 1 == |answers| {
      TopStarts(g0, g, p, d, level, dist, start, answers);
    } else {
      InsertStarts(g0, g, p, d, level, dist, start, answers, l + 1);
      LevelAnswer(g0, g, p, d, level, dist, start, answers, l + 1);
      GrownClosed(g0, p, level, l + 1);
      var above := LevelSearch(g0, p, level, dist, start, answers, l + 1);
      AnswerStartsAt(Grown(g0, level), l + 1, l, above, answers[l + 1]);
    }
    GrownClosed(g0, p, level, l);
    LayerValid(Grown(g0, level), l, dist, EVERY_NODE, From([start], answers, l), p.efConstruction);
    LevelAnswer(g0, g, p, d, level, dist, start, answers, l);
    AnswerBest(LevelSearch(g0, p, level, dist, start, answers, l), answers[l], 0);
  }

  /**
   * The nearest node is linked first: if a level's search is at least as wide as there is something to find, the
   * first neighbour is nearer to the new node than every other node that can be reached.
   */
  lemma NearestLinked(g0: Graph, g: Graph, p: Params, d: KeyFunction, level: nat, dist: nat -> real, start: Keyed,
      answers: seq<seq<Keyed>>, l: nat, x: nat)
    requires g0.Valid(p) && g0.entry.Some? && Inserted(g0, g, p, d, level, dist, start, answers)
    requires l < |answers| && p.efConstruction > 0 && Cap(p, l) > 0
    requires |Reachable(LevelSearch(g0, p, level, dist, start, answers, l))| <= p.efConstruction
    requires x in Reachable(LevelSearch(g0, p, level, dist, start, answers, l))
    ensures |g0.levels| < |g.lists| && g.Neighbors(l, |g0.levels|) != []
    ensures var first := g.Neighbors(l, |g0.levels|)[0];
            && first in Reachable(LevelSearch(g0, p, level, dist, start, answers, l))
            && (first == x || Closer(d, |g0.levels|, first, x))
  {
    hide Answer, Problem.Valid, Inserted, Grown, StartsAt, Picked, LevelLinked, Reachable;
    var q, node := LevelSearch(g0, p, level, dist, start, answers, l), |g0.levels|;
    InsertStarts(g0, g, p, d, level, dist, start, answers, l);
    LevelAnswer(g0, g, p, d, level, dist, start, answers, l);
    WideAnswer(q, answers[l]);
    var pool := Pool(p, Grown(g0, level), l, answers[l]);
    PoolReachable(p, g0, level, dist, start, answers, l);
    PickedNearest(d, node, pool, g.Neighbors(l, node), Cap(p, l), x);
    PickedFacts(d, node, pool, g.Neighbors(l, node), Cap(p, l));
    assert g.Neighbors(l, node)[0] in g.Neighbors(l, node);
  }

  /** Whatever the width, the nearest candidate of a level is no further from the new node than the start. */
  lemma {:induction false} CandidatesNoFurther(g0: Graph, g: Graph, p: Params, d: KeyFunction, level: nat,
      dist: nat -> real, start: Keyed, answers: seq<seq<Keyed>>, l: nat)
    requires g0.Valid(p) && g0.entry.Some? && Inserted(g0, g, p, d, level, dist, start, answers)
    requires l < |answers| && p.efConstruction > 0
    ensures answers[l] != [] && answers[l][0].key <= start.key
    decreases |answers| - l
  {
    hide Answer, Problem.Valid, Inserted, LevelInserted, Grown, StartsAt;
    InsertStarts(g0, g, p, d, level, dist, start, answers, l);
    LevelAnswer(g0, g, p, d, level, dist, start, answers, l);
    AnswerBest(LevelSearch(g0, p, level, dist, start, answers, l), answers[l], 0);
    if l + 1 < |answers| {
      CandidatesNoFurther(g0, g, p, d, level, dist, start, answers, l + 1);
    }
  }

  /** So the first neighbour is no further from the new node than the entry point was. */
  lemma LinkedNoFurther(g0: Graph, g: Graph, p: Params, d: KeyFunction, level: nat, dist: nat -> real, start: Keyed,
      answers: seq<seq<Keyed>>, l: nat)
    requires g0.Valid(p) && g0.entry.Some? && Inserted(g0, g, p, d, level, dist, start, answers)
    requires l < |answers| && p.efConstruction > 0 && Cap(p, l) > 0
    ensures |g0.levels| < |g.lists| && g.Neighbors(l, |g0.levels|) != []
    ensures d(|g0.levels|, g.Neighbors(l, |g0.levels|)[0]) <= d(|g0.levels|, start.node)
    ensures d(|g0.levels|, start.node) <= d(|g0.levels|, g0.entry.value)
  {
    hide Problem.Valid, Grown, StartsAt, Picked, LevelLinked, LevelsInserted, LocalMinimum, Problem.Reach;
    CandidatesNoFurther(g0, g, p, d, level, dist, start, answers, l);
    LevelAnswer(g0, g, p, d, level, dist, start, answers, l);
    var best := answers[l][0];
    assert best.node in Nodes(answers[l]);
    var pool := Pool(p, Grown(g0, level), l, answers[l]);
    PickedNearest(d, |g0.levels|, pool, g.Neighbors(l, |g0.levels|), Cap(p, l), best.node);
  }

  /** Extending an exhaustive answer by neighbours adds nothing. */
  lemma PoolReachable(p: Params, g0: Graph, level: nat, dist: nat -> real, start: Keyed, answers: seq<seq<Keyed>>,
      l: nat)
    requires l < |answers| && LevelSearch(g0, p, level, dist, start, answers, l).Valid()
    requires Nodes(answers[l]) == Reachable(LevelSearch(g0, p, level, dist, start, answers, l))
    ensures Pool(p, Grown(g0, level), l, answers[l]) == Reachable(LevelSearch(g0, p, level, dist, start, answers, l))
  {
    var q, grown, found := LevelSearch(g0, p, level, dist, start, answers, l), Grown(g0, level), answers[l];
    hide Problem.Reach, Problem.Valid, Grown;
    forall v | v in Extended(grown, l, found) ensures v in Reachable(q) {
      if v !in Nodes(found) {
        var i, k :| 0 <= i < |found| && found[i].node < |grown.lists| && 0 <= k < |grown.Neighbors(l, found[i].node)|
            && grown.Neighbors(l, found[i].node)[k] == v;
        assert found[i].node in Nodes(found) && q.layer[found[i].node] == grown.Neighbors(l, found[i].node);
        StepReach(q, found[i].node, k);
        ReachValid(q, v);
      }
    }
  }
}
