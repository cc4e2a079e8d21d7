/**
 * Parallel construction: any number of threads insert nodes with one lock per node. The state is
 * the shared graph as it stands at a lock release; every step takes at most one lock. What a search
 * sees is left open: a thread may read any list of a node it knows, at any time.
 */
module HnswParallel {
  import opened Records
  import opened HnswGraphs
  import opened HnswSelection
  import opened HnswBuilding

  /** What a thread is doing at level `lc`; `seen` and `keep` are nodes it has met at that level. */
  datatype Phase =
    | Looking(seen: set<nat>)
    | Own(selected: seq<nat>, keep: set<nat>)
    | Back(selected: seq<nat>, i: nat, keep: set<nat>)

  datatype Thread =
    | Idle
    | Done
    | Entering(node: nat)
    | Work(node: nat, top: nat, lc: nat, phase: Phase)
    | Raising(node: nat)

  /**
   * The graph's entry and level are the mutex-guarded entry state; `next` is the shared row counter. `linked` is a
   * history variable: the rows and levels where the row's own list has been written.
   */
  datatype State = State(g: Graph, next: nat, threads: seq<Thread>, linked: set<(nat, nat)>)

  datatype Action =
    | Take
    | Enter
    | Read(v: nat)
    | Lower(keep: set<nat>)
    | Choose(pool: set<nat>, selected: seq<nat>, keep: set<nat>)
    | LinkOwn(pruned: seq<nat>)
    | LinkBack(pruned: seq<nat>)
    | NextLevel
    | Raise

  /** A node's list after the cut, if it was too long: the pick of `m` of its elements. */
  ghost predicate Cut(d: KeyFunction, base: nat, list: seq<nat>, pruned: seq<nat>, m: nat) {
    if |list| <= m then pruned == list else Picked(d, base, Elements(list), pruned, m)
  }

  lemma CutFacts(d: KeyFunction, base: nat, list: seq<nat>, pruned: seq<nat>, m: nat)
    requires Distinct(list) && Cut(d, base, list, pruned, m)
    ensures Distinct(pruned) && |pruned| <= m && forall x :: x in pruned ==> x in list
  {
    if |list| > m {
      PickedFacts(d, base, Elements(list), pruned, m);
    }
  }

  /** Append the selected nodes that the list does not contain yet. */
  function AppendNew(list: seq<nat>, selected: seq<nat>): (r: seq<nat>)
    ensures Distinct(list) ==> Distinct(r)
    ensures list <= r && forall x :: x in r <==> x in list || x in selected
    decreases |selected|
  {
    if selected == [] then list
    else if selected[0] in list then AppendNew(list, selected[1..])
    else AppendNew(list + [selected[0]], selected[1..])
  }

  /** The prune made under the node's lock is a `Cut`. */
  method PruneIsCut(d: KeyFunction, base: nat, list: seq<nat>, m: nat) returns (pruned: seq<nat>)
    requires Distinct(list)
    ensures Cut(d, base, list, pruned, m)
  {
    pruned := list;
    if |list| > m {
      pruned := PruneList(d, base, list, m);
    }
  }

  ghost predicate Enabled(p: Params, d: KeyFunction, s: State, t: nat, a: Action)
    requires t < |s.threads|
  {
    var th := s.threads[t];
    match a
    case Take => th.Idle?
    case Enter => th.Entering? && s.g.entry.Some?
    case Read(v) => th.Work? && th.phase.Looking? && v in th.phase.seen && v < |s.g.lists|
    case Lower(keep) =>
      th.Work? && th.phase.Looking? && th.node < |s.g.levels| && th.lc > s.g.levels[th.node] && keep <= th.phase.seen
    case Choose(pool, selected, keep) =>
      && th.Work? && th.phase.Looking? && th.node < |s.g.levels| && th.lc <= s.g.levels[th.node]
      && keep <= th.phase.seen && pool <= th.phase.seen - {th.node}
      && Picked(d, th.node, pool, selected, Cap(p, th.lc))
    case LinkOwn(pruned) =>
      && th.Work? && th.phase.Own? && th.node < |s.g.lists| && th.lc < |s.g.lists[th.node]|
      && Cut(d, th.node, AppendNew(s.g.lists[th.node][th.lc], th.phase.selected), pruned, Cap(p, th.lc))
    case LinkBack(pruned) =>
      && th.Work? && th.phase.Back? && th.phase.i < |th.phase.selected| && th.phase.selected[th.phase.i] < |s.g.lists|
      && var nb := th.phase.selected[th.phase.i];
         ReverseMissing(s.g, th) ==> Cut(d, nb, s.g.Neighbors(th.lc, nb) + [th.node], pruned, Cap(p, th.lc))
    case NextLevel => th.Work? && th.phase.Back? && th.phase.i == |th.phase.selected| && th.node < |s.g.levels|
    case Raise => th.Raising? && th.node < |s.g.levels|
  }

  /** The other end exists at the level and does not list the node yet. */
  predicate ReverseMissing(g: Graph, th: Thread)
    requires th.Work? && th.phase.Back? && th.phase.i < |th.phase.selected| && th.phase.selected[th.phase.i] < |g.lists|
  {
    var nb := th.phase.selected[th.phase.i];
    th.lc < |g.lists[nb]| && th.node !in g.lists[nb][th.lc]
  }

  ghost function Do(p: Params, d: KeyFunction, s: State, t: nat, a: Action): State
    requires t < |s.threads| && Enabled(p, d, s, t, a)
  {
    var th := s.threads[t];
    match a
    case Take =>
      s.(next := s.next + 1, threads := s.threads[t := if s.next < |s.g.levels| then Entering(s.next) else Done])
    case Enter =>
      s.(threads := s.threads[t := Work(th.node, s.g.maxLevel, s.g.maxLevel, Looking({s.g.entry.value}))])
    case Read(v) =>
      s.(threads := s.threads[t := th.(phase := Looking(th.phase.seen + set x | x in s.g.Neighbors(th.lc, v)))])
    case Lower(keep) =>
      s.(threads := s.threads[t := th.(lc := th.lc - 1, phase := Looking(keep))])
    case Choose(pool, selected, keep) =>
      s.(threads := s.threads[t := th.(phase := Own(selected, keep))])
    case LinkOwn(pruned) =>
      s.(g := SetList(s.g, th.lc, th.node, pruned), linked := s.linked + {(th.node, th.lc)},
         threads := s.threads[t := th.(phase := Back(th.phase.selected, 0, th.phase.keep))])
    case LinkBack(pruned) =>
      s.(g := if ReverseMissing(s.g, th) then SetList(s.g, th.lc, th.phase.selected[th.phase.i], pruned) else s.g,
         threads := s.threads[t := th.(phase := th.phase.(i := th.phase.i + 1))])
    case NextLevel =>
      s.(threads := s.threads[t :=
        if th.lc > 0 then th.(lc := th.lc - 1, phase := Looking(th.phase.keep))
        else if s.g.levels[th.node] > th.top then Raising(th.node) else Idle])
    case Raise =>
      s.(g := if s.g.levels[th.node] > s.g.maxLevel then s.g.(entry := Some(th.node), maxLevel := s.g.levels[th.node])
          else s.g,
         threads := s.threads[t := Idle])
  }

  // ---------------------------------------------------------------------
  // The invariant
  // ---------------------------------------------------------------------

  ghost predicate AllAt(g: Graph, level: nat, nodes: set<nat>) {
    forall x :: x in nodes ==> g.At(level, x)
  }

  ghost predicate PhaseOk(p: Params, g: Graph, node: nat, lc: nat, phase: Phase) {
    match phase
    case Looking(seen) => AllAt(g, lc, seen)
    case Own(selected, keep) => AllAt(g, lc, keep) && GoodSelection(g, p, node, lc, selected) && g.At(lc, node)
    case Back(selected, i, keep) =>
         AllAt(g, lc, keep) && GoodSelection(g, p, node, lc, selected) && g.At(lc, node) && i <= |selected|
  }

  ghost predicate ThreadOk(p: Params, g: Graph, th: Thread) {
    match th
    case Idle => true
    case Done => true
    case Entering(node) => node < |g.levels|
    case Work(node, top, lc, phase) => node < |g.levels| && lc <= top <= g.maxLevel && PhaseOk(p, g, node, lc, phase)
    case Raising(node) => node < |g.levels|
  }

  predicate Busy(th: Thread, v: nat) {
    !th.Idle? && !th.Done? && th.node == v
  }

  /** A node that a thread has taken is either still being inserted or is no higher than the entry. */
  ghost predicate Covered(s: State, v: nat)
    requires v < |s.g.levels|
  {
    s.g.levels[v] <= s.g.maxLevel || exists t :: 0 <= t < |s.threads| && Busy(s.threads[t], v)
  }

  ghost predicate GraphOk(p: Params, g: Graph) {
    && g.Shape() && ListsOk(g, p)
    && g.entry.Some? && g.entry.value < |g.levels| && g.levels[g.entry.value] == g.maxLevel
  }

  ghost predicate Inv(p: Params, s: State) {
    && GraphOk(p, s.g)
    && (forall t :: 0 <= t < |s.threads| ==> ThreadOk(p, s.g, s.threads[t]))
    && (forall v :: 0 <= v < s.next && v < |s.g.levels| ==> Covered(s, v))
    && (forall t :: 0 <= t < |s.threads| && s.threads[t].Done? ==> s.next >= |s.g.levels|)
  }

  /** A list of a valid graph replaced by a good one keeps the graph valid, and every thread's knowledge. */
  lemma ReplaceList(p: Params, g: Graph, level: nat, node: nat, list: seq<nat>)
    requires GraphOk(p, g) && node < |g.lists| && level < |g.lists[node]|
    requires Distinct(list) && |list| <= Cap(p, level) && forall x :: x in list ==> x != node && g.At(level, x)
    ensures GraphOk(p, SetList(g, level, node, list))
  {
    var g' := SetList(g, level, node, list);
    SetListFacts(g, level, node, list);
    forall v, l: nat | 0 <= v < |g'.lists| ensures g'.ListOk(l, v, Cap(p, l)) {
      assert g.ListOk(l, v, Cap(p, l));
      if l == level && v == node {
        forall i | 0 <= i < |list| ensures list[i] != node && g'.At(l, list[i]) {
          assert list[i] in list;
        }
      }
    }
  }

  lemma ThreadKept(p: Params, g: Graph, g': Graph, th: Thread)
    requires ThreadOk(p, g, th) && g'.levels == g.levels && g'.maxLevel >= g.maxLevel
    ensures ThreadOk(p, g', th)
  {
  }

  /** A step of one thread that keeps the levels, does not lower the entry and leaves its node covered. */
  lemma StepInv(p: Params, s: State, t: nat, s': State)
    requires Inv(p, s) && t < |s.threads| && GraphOk(p, s'.g)
    requires s'.g.levels == s.g.levels && s'.g.maxLevel >= s.g.maxLevel
    requires |s'.threads| == |s.threads| &&
        (forall k :: 0 <= k < |s.threads| && k != t ==> s'.threads[k] == s.threads[k])
    requires ThreadOk(p, s'.g, s'.threads[t])
    requires forall v ::
        0 <= v < |s.g.levels| && Busy(s.threads[t], v) ==>
          Busy(s'.threads[t], v) || s.g.levels[v] <= s'.g.maxLevel
    requires s'.threads[t].Done? ==> s'.next >= |s.g.levels|
    requires s'.next == s.next || (s'.next == s.next + 1 && (s.next < |s.g.levels| ==> Busy(s'.threads[t], s.next)))
    ensures Inv(p, s')
  {
    forall k | 0 <= k < |s'.threads| ensures ThreadOk(p, s'.g, s'.threads[k]) {
      if k != t {
        ThreadKept(p, s.g, s'.g, s.threads[k]);
      }
    }
    forall v | 0 <= v < s'.next && v < |s'.g.levels| ensures Covered(s', v) {
      hide ThreadOk, GraphOk;
      if v == s.next {
        assert Busy(s'.threads[t], v);
      } else {
        assert Covered(s, v);
        if s.g.levels[v] > s'.g.maxLevel {
          var k :| 0 <= k < |s.threads| && Busy(s.threads[k], v);
          assert Busy(s'.threads[k], v);
        }
      }
    }
  }

  lemma KeepRead(p: Params, d: KeyFunction, s: State, t: nat, v: nat)
    requires Inv(p, s) && t < |s.threads| && Enabled(p, d, s, t, Read(v))
    ensures Inv(p, Do(p, d, s, t, Read(v)))
  {
    var th := s.threads[t];
    assert ThreadOk(p, s.g, th);
    assert s.g.ListOk(th.lc, v, Cap(p, th.lc));
    var list := s.g.Neighbors(th.lc, v);
    forall x | x in list ensures s.g.At(th.lc, x) {
      var i :| 0 <= i < |list| && list[i] == x;
    }
    StepInv(p, s, t, Do(p, d, s, t, Read(v)));
  }

  lemma KeepLinkOwn(p: Params, d: KeyFunction, s: State, t: nat, pruned: seq<nat>)
    requires Inv(p, s) && t < |s.threads| && Enabled(p, d, s, t, LinkOwn(pruned))
    ensures Inv(p, Do(p, d, s, t, LinkOwn(pruned)))
  {
    var th := s.threads[t];
    assert ThreadOk(p, s.g, th);
    assert s.g.ListOk(th.lc, th.node, Cap(p, th.lc));
    var list, selected := s.g.lists[th.node][th.lc], th.phase.selected;
    CutFacts(d, th.node, AppendNew(list, selected), pruned, Cap(p, th.lc));
    assert s.g.Neighbors(th.lc, th.node) == list;
    forall x | x in pruned ensures x != th.node && s.g.At(th.lc, x) {
      assert x in list || x in selected;
      if x in list {
        var i :| 0 <= i < |list| && list[i] == x;
      } else {
        var i :| 0 <= i < |selected| && selected[i] == x;
      }
    }
    ReplaceList(p, s.g, th.lc, th.node, pruned);
    ThreadKept(p, s.g, SetList(s.g, th.lc, th.node, pruned), th.(phase := Back(selected, 0, th.phase.keep)));
    StepInv(p, s, t, Do(p, d, s, t, LinkOwn(pruned)));
  }

  lemma KeepLinkBack(p: Params, d: KeyFunction, s: State, t: nat, pruned: seq<nat>)
    requires Inv(p, s) && t < |s.threads| && Enabled(p, d, s, t, LinkBack(pruned))
    ensures Inv(p, Do(p, d, s, t, LinkBack(pruned)))
  {
    var th := s.threads[t];
    assert ThreadOk(p, s.g, th);
    var nb := th.phase.selected[th.phase.i];
    if ReverseMissing(s.g, th) {
      assert s.g.ListOk(th.lc, nb, Cap(p, th.lc));
      var list := s.g.Neighbors(th.lc, nb);
      ReverseGood(p, d, s.g, th, nb, pruned);
      ReplaceList(p, s.g, th.lc, nb, pruned);
      ThreadKept(p, s.g, SetList(s.g, th.lc, nb, pruned), th.(phase := th.phase.(i := th.phase.i + 1)));
    }
    StepInv(p, s, t, Do(p, d, s, t, LinkBack(pruned)));
  }

  lemma ReverseGood(p: Params, d: KeyFunction, g: Graph, th: Thread, nb: nat, pruned: seq<nat>)
    requires GraphOk(p, g) && ThreadOk(p, g, th) && th.Work? && th.phase.Back? && th.phase.i < |th.phase.selected|
    requires nb == th.phase.selected[th.phase.i] && nb < |g.lists| && ReverseMissing(g, th)
    requires Cut(d, nb, g.Neighbors(th.lc, nb) + [th.node], pruned, Cap(p, th.lc)) && g.At(th.lc, th.node)
    ensures Distinct(pruned) && |pruned| <= Cap(p, th.lc) && forall x :: x in pruned ==> x != nb && g.At(th.lc, x)
  {
    assert g.ListOk(th.lc, nb, Cap(p, th.lc));
    var list := g.Neighbors(th.lc, nb);
    CutFacts(d, nb, list + [th.node], pruned, Cap(p, th.lc));
    forall x | x in pruned ensures x != nb && g.At(th.lc, x) {
      assert x in list || x == th.node;
      if x in list {
        var i :| 0 <= i < |list| && list[i] == x;
      }
    }
  }

  lemma KeepRaise(p: Params, d: KeyFunction, s: State, t: nat)
    requires Inv(p, s) && t < |s.threads| && Enabled(p, d, s, t, Raise)
    ensures Inv(p, Do(p, d, s, t, Raise))
  {
    var s' := Do(p, d, s, t, Raise);
    forall v, l: nat | 0 <= v < |s'.g.lists| ensures s'.g.ListOk(l, v, Cap(p, l)) {
      assert s.g.ListOk(l, v, Cap(p, l));
    }
    StepInv(p, s, t, s');
  }

  /** Every step of every thread keeps the invariant, whatever the interleaving. */
  lemma Keep(p: Params, d: KeyFunction, s: State, t: nat, a: Action)
    requires Inv(p, s) && t < |s.threads| && Enabled(p, d, s, t, a)
    ensures Inv(p, Do(p, d, s, t, a))
  {
    var th, s' := s.threads[t], Do(p, d, s, t, a);
    assert ThreadOk(p, s.g, th);
    match a
    case Read(v) => KeepRead(p, d, s, t, v);
    case LinkOwn(pruned) => KeepLinkOwn(p, d, s, t, pruned);
    case LinkBack(pruned) => KeepLinkBack(p, d, s, t, pruned);
    case Raise => KeepRaise(p, d, s, t);
    case Choose(pool, selected, keep) =>
      PickedFacts(d, th.node, pool, selected, Cap(p, th.lc));
      forall i | 0 <= i < |selected| ensures selected[i] != th.node && s.g.At(th.lc, selected[i]) {
        assert selected[i] in selected;
      }
      StepInv(p, s, t, s');
    case _ => StepInv(p, s, t, s');
  }

  /** Under the lock of the other end: a node nearer to it than everything in its list is in the list afterwards. */
  lemma NearBackLinkKept(p: Params, d: KeyFunction, s: State, t: nat, pruned: seq<nat>)
    requires Inv(p, s) && t < |s.threads| && Enabled(p, d, s, t, LinkBack(pruned)) && ReverseMissing(s.g, s.threads[t])
    requires var th := s.threads[t];
             var nb := th.phase.selected[th.phase.i];
             Cap(p, th.lc) > 0 && forall x :: x in s.g.Neighbors(th.lc, nb) ==> d(nb, th.node) < d(nb, x)
    ensures var th, s' := s.threads[t], Do(p, d, s, t, LinkBack(pruned));
            var nb := th.phase.selected[th.phase.i];
            nb < |s'.g.lists| && th.node in s'.g.Neighbors(th.lc, nb)
  {
    hide Inv;
    var th := s.threads[t];
    var nb := th.phase.selected[th.phase.i];
    var list := s.g.Neighbors(th.lc, nb) + [th.node];
    assert th.node in list;
    if |list| > Cap(p, th.lc) {
      PickedNearest(d, nb, Elements(list), pruned, Cap(p, th.lc), th.node);
      PickedFacts(d, nb, Elements(list), pruned, Cap(p, th.lc));
      assert pruned[0] in pruned && pruned[0] in list;
    }
  }

  // ---------------------------------------------------------------------
  // Runs
  // ---------------------------------------------------------------------

  /** The start of `parallel::build`: empty lists, row 0 registered as the entry, `threads` idle workers. */
  ghost function Initial(levels: seq<nat>, threads: nat): State
    requires levels != []
  {
    State(Graph(levels, seq(|levels|, v requires 0 <= v < |levels| => seq(levels[v] + 1, _ => [])), Some(0), levels[0]),
          1, seq(threads, _ => Idle), {})
  }

  lemma InitialInv(p: Params, levels: seq<nat>, threads: nat)
    requires levels != []
    ensures Inv(p, Initial(levels, threads))
  {
  }

  ghost predicate IsRun(p: Params, d: KeyFunction, s: State, run: seq<(nat, Action)>)
    decreases |run|
  {
    run == [] || (run[0].0 < |s.threads| && Enabled(p, d, s, run[0].0, run[0].1)
        && IsRun(p, d, Do(p, d, s, run[0].0, run[0].1), run[1..]))
  }

  ghost function End(p: Params, d: KeyFunction, s: State, run: seq<(nat, Action)>): State
    requires IsRun(p, d, s, run)
    decreases |run|
  {
    if run == [] then s else End(p, d, Do(p, d, s, run[0].0, run[0].1), run[1..])
  }

  lemma {:induction false} RunInv(p: Params, d: KeyFunction, s: State, run: seq<(nat, Action)>)
    requires Inv(p, s) && IsRun(p, d, s, run)
    ensures Inv(p, End(p, d, s, run)) && End(p, d, s, run).g.levels == s.g.levels
    ensures |End(p, d, s, run).threads| == |s.threads|
    decreases |run|
  {
    hide Inv, Enabled;
    if run != [] {
      Keep(p, d, s, run[0].0, run[0].1);
      RunInv(p, d, Do(p, d, s, run[0].0, run[0].1), run[1..]);
    }
  }

  /**
   * Parallel construction: in every interleaving the lists are well formed at every lock release, and
   * when all threads have finished, the graph satisfies the same invariant as a sequentially built
   * one: in particular its entry point has the greatest level.
   */
  lemma BuildResult(p: Params, d: KeyFunction, levels: seq<nat>, threads: nat, run: seq<(nat, Action)>)
    requires levels != [] && IsRun(p, d, Initial(levels, threads), run)
    ensures var s := End(p, d, Initial(levels, threads), run);
            && GraphOk(p, s.g) && s.g.levels == levels
            && (threads > 0 && (forall t :: 0 <= t < |s.threads| ==> s.threads[t].Done?) ==> s.g.Valid(p))
  {
    InitialInv(p, levels, threads);
    RunInv(p, d, Initial(levels, threads), run);
    var s := End(p, d, Initial(levels, threads), run);
    if threads > 0 && forall t :: 0 <= t < |s.threads| ==> s.threads[t].Done? {
      assert s.threads[0].Done?;
      forall v | 0 <= v < |levels| ensures levels[v] <= s.g.maxLevel {
        assert Covered(s, v);
      }
    }
  }

  // ---------------------------------------------------------------------
  // Every row is linked
  // ---------------------------------------------------------------------

  /** The row's list has been written on every level that the first row has as well. */
  ghost predicate Linked(s: State, v: nat)
    requires s.g.levels != [] && v < |s.g.levels|
  {
    forall l: nat :: l <= s.g.levels[v] && l <= s.g.levels[0] ==> (v, l) in s.linked
  }

  /** The levels that a thread has been through are written. */
  ghost predicate ThreadLinked(s: State, th: Thread)
    requires s.g.levels != []
  {
    match th
    case Work(node, top, lc, phase) =>
      && node < |s.g.levels| && s.g.levels[0] <= top && (phase.Back? ==> (node, lc) in s.linked)
      && (forall l: nat :: lc < l <= s.g.levels[node] && l <= top ==> (node, l) in s.linked)
    case Raising(node) => node < |s.g.levels| && Linked(s, node)
    case _ => true
  }

  /** A row that was taken is being worked on, or is linked. */
  ghost predicate LinkedInv(s: State) {
    && s.g.levels != [] && s.g.levels[0] <= s.g.maxLevel
    && (forall t :: 0 <= t < |s.threads| ==> ThreadLinked(s, s.threads[t]))
    && forall v :: 1 <= v < s.next && v < |s.g.levels| ==>
         Linked(s, v) || exists t :: 0 <= t < |s.threads| && Busy(s.threads[t], v)
  }

  lemma LinkedMore(s: State, s': State, th: Thread)
    requires s.g.levels != [] && ThreadLinked(s, th) && s'.g.levels == s.g.levels && s.linked <= s'.linked
    ensures ThreadLinked(s', th)
  {
  }

  /** What a step must do for its own thread. */
  lemma LinkedStep(s: State, t: nat, s': State)
    requires LinkedInv(s) && t < |s.threads| && s'.g.levels == s.g.levels && s'.g.maxLevel >= s.g.maxLevel
    requires s.linked <= s'.linked && |s'.threads| == |s.threads|
    requires forall k :: 0 <= k < |s.threads| && k != t ==> s'.threads[k] == s.threads[k]
    requires ThreadLinked(s', s'.threads[t])
    requires forall v :: 1 <= v < |s.g.levels| && Busy(s.threads[t], v) ==> Busy(s'.threads[t], v) || Linked(s', v)
    requires s'.next == s.next || (s'.next == s.next + 1 && (s.next < |s.g.levels| ==> Busy(s'.threads[t], s.next)))
    ensures LinkedInv(s')
  {
    hide Linked, ThreadLinked;
    forall k | 0 <= k < |s'.threads| ensures ThreadLinked(s', s'.threads[k]) {
      if k != t {
        LinkedMore(s, s', s.threads[k]);
      }
    }
    forall v | 1 <= v < s'.next && v < |s'.g.levels|
      ensures Linked(s', v) || exists k :: 0 <= k < |s'.threads| && Busy(s'.threads[k], v)
    {
      if v == s.next {
        assert Busy(s'.threads[t], v);
      } else if Linked(s, v) {
        StaysLinked(s, s', v);
      } else {
        var k :| 0 <= k < |s.threads| && Busy(s.threads[k], v);
        assert k != t ==> Busy(s'.threads[k], v);
      }
    }
  }

  lemma StaysLinked(s: State, s': State, v: nat)
    requires s.g.levels != [] && v < |s.g.levels| && Linked(s, v)
    requires s'.g.levels == s.g.levels && s.linked <= s'.linked
    ensures Linked(s', v)
  {
  }

  lemma KeepLinked(p: Params, d: KeyFunction, s: State, t: nat, a: Action)
    requires Inv(p, s) && LinkedInv(s) && t < |s.threads| && Enabled(p, d, s, t, a)
    ensures LinkedInv(Do(p, d, s, t, a))
  {
    var th, s' := s.threads[t], Do(p, d, s, t, a);
    assert ThreadOk(p, s.g, th) && ThreadLinked(s, th);
    hide Inv, Picked, Cut, ListsOk;
    LinkedStep(s, t, s');
  }

  lemma {:induction false} RunLinked(p: Params, d: KeyFunction, s: State, run: seq<(nat, Action)>)
    requires Inv(p, s) && LinkedInv(s) && IsRun(p, d, s, run)
    ensures LinkedInv(End(p, d, s, run))
    decreases |run|
  {
    hide Inv, LinkedInv, Enabled;
    if run != [] {
      Keep(p, d, s, run[0].0, run[0].1);
      KeepLinked(p, d, s, run[0].0, run[0].1);
      RunLinked(p, d, Do(p, d, s, run[0].0, run[0].1), run[1..]);
    }
  }

  /**
   * When all threads have finished, every row but the first has had its list written on every level that it shares
   * with the first row, level 0 in any case.
   */
  lemma EveryRowLinked(p: Params, d: KeyFunction, levels: seq<nat>, threads: nat, run: seq<(nat, Action)>, v: nat,
      l: nat)
    requires levels != [] && threads > 0 && IsRun(p, d, Initial(levels, threads), run)
    requires forall t :: 0 <= t < |End(p, d, Initial(levels, threads), run).threads| ==>
               End(p, d, Initial(levels, threads), run).threads[t].Done?
    requires 1 <= v < |levels| && l <= levels[v] && l <= levels[0]
    ensures (v, l) in End(p, d, Initial(levels, threads), run).linked
  {
    hide Inv, IsRun, Enabled;
    var s := Initial(levels, threads);
    InitialInv(p, levels, threads);
    RunInv(p, d, s, run);
    RunLinked(p, d, s, run);
    var end := End(p, d, s, run);
    AllTaken(p, end);
    assert Linked(end, v);
  }

  lemma AllTaken(p: Params, s: State)
    requires Inv(p, s) && s.threads != [] && s.threads[0].Done?
    ensures s.next >= |s.g.levels|
  {
  }

  /** Reading a list adds it to what the thread has seen. */
  lemma ReadSees(p: Params, d: KeyFunction, s: State, t: nat, v: nat)
    requires t < |s.threads| && Enabled(p, d, s, t, Read(v))
    ensures var th, th' := s.threads[t], Do(p, d, s, t, Read(v)).threads[t];
            && th'.Work? && th'.phase.Looking? && th.phase.seen <= th'.phase.seen
            && forall x :: x in s.g.Neighbors(th.lc, v) ==> x in th'.phase.seen
  {
  }

  /** The entry point is replaced only by a node of a higher level. */
  lemma EntryRises(p: Params, d: KeyFunction, s: State, t: nat, a: Action)
    requires t < |s.threads| && Enabled(p, d, s, t, a)
    ensures var s' := Do(p, d, s, t, a); s'.g.entry == s.g.entry || s'.g.maxLevel > s.g.maxLevel
  {
  }

  // ---------------------------------------------------------------------
  // The build ends
  // ---------------------------------------------------------------------

  /** More neighbours than this no list has. */
  function MaxCap(p: Params): nat {
    if p.m0 >= p.m then p.m0 else p.m
  }

  /** Steps that one level takes at most, apart from reading. */
  function Span(p: Params): nat {
    MaxCap(p) + 4
  }

  /** Steps that a node of a graph with levels up to `top` takes at most, apart from reading. */
  function NodeSpan(p: Params, top: nat): nat {
    3 + (top + 1) * Span(p)
  }

  /** A bound on the steps a thread still makes for the node it has. */
  function Left(p: Params, top: nat, th: Thread): int {
    match th
    case Done => 0
    case Idle => 1
    case Raising(_) => 2
    case Entering(_) => NodeSpan(p, top)
    case Work(_, _, lc, Looking(_)) => 2 + lc * Span(p) + MaxCap(p) + 4
    case Work(_, _, lc, Own(_, _)) => 2 + lc * Span(p) + MaxCap(p) + 3
    case Work(_, _, lc, Back(_, i, _)) => 2 + lc * Span(p) + MaxCap(p) + 2 - i
  }

  function LeftAll(p: Params, top: nat, threads: seq<Thread>): int {
    if threads == [] then 0 else LeftAll(p, top, threads[..|threads| - 1]) + Left(p, top, threads[|threads| - 1])
  }

  /** Rows not taken yet. */
  function Untaken(s: State): nat {
    if s.next < |s.g.levels| then |s.g.levels| - s.next else 0
  }

  function Total(p: Params, top: nat, s: State): int {
    LeftAll(p, top, s.threads) + Untaken(s) * NodeSpan(p, top)
  }

  lemma {:induction false} LeftUpdate(p: Params, top: nat, threads: seq<Thread>, t: nat, th: Thread)
    requires t < |threads|
    ensures LeftAll(p, top, threads[t := th]) == LeftAll(p, top, threads) - Left(p, top, threads[t]) + Left(p, top, th)
    decreases |threads|
  {
    var n := |threads| - 1;
    if t < n {
      assert threads[t := th][..n] == threads[..n][t := th];
      LeftUpdate(p, top, threads[..n], t, th);
    } else {
      assert threads[t := th][..n] == threads[..n];
    }
  }

  lemma LevelsMultiply(a: nat, b: nat, span: nat)
    requires a <= b
    ensures a * span <= b * span && (a + 1) * span == a * span + span
  {
  }

  /** The step of one thread, apart from the counter: it gets closer to its end, and reading keeps it where it is. */
  lemma ThreadShrinks(p: Params, d: KeyFunction, s: State, t: nat, a: Action, top: nat)
    requires Inv(p, s) && t < |s.threads| && Enabled(p, d, s, t, a) && !a.Take? && s.g.maxLevel <= top
    ensures var th, th' := s.threads[t], Do(p, d, s, t, a).threads[t];
            if a.Read? then Left(p, top, th') == Left(p, top, th) else Left(p, top, th') < Left(p, top, th)
  {
    var th := s.threads[t];
    assert ThreadOk(p, s.g, th);
    match a
    case Enter => LevelsMultiply(s.g.maxLevel, top, Span(p));
    case Lower(_) => LevelsMultiply(th.lc - 1, th.lc, Span(p));
    case NextLevel =>
      LevelsMultiply(0, th.lc, Span(p));
      if th.lc > 0 {
        LevelsMultiply(th.lc - 1, th.lc, Span(p));
      }
    case _ =>
  }

  /** Every step but a read brings the build closer to its end. */
  lemma StepShrinks(p: Params, d: KeyFunction, s: State, t: nat, a: Action, top: nat)
    requires Inv(p, s) && t < |s.threads| && Enabled(p, d, s, t, a) && s.g.maxLevel <= top
    ensures var s' := Do(p, d, s, t, a);
            if a.Read? then Total(p, top, s') == Total(p, top, s) else Total(p, top, s') < Total(p, top, s)
  {
    var s' := Do(p, d, s, t, a);
    assert s'.threads == s.threads[t := s'.threads[t]];
    LeftUpdate(p, top, s.threads, t, s'.threads[t]);
    if a.Take? {
      if s.next < |s.g.levels| {
        LevelsMultiply(Untaken(s'), Untaken(s), NodeSpan(p, top));
      }
    } else {
      ThreadShrinks(p, d, s, t, a, top);
      assert Untaken(s') == Untaken(s);
    }
  }

  /** Steps other than reads. */
  function Steps(run: seq<(nat, Action)>): nat {
    if run == [] then 0 else (if run[0].1.Read? then 0 else 1) + Steps(run[1..])
  }

  lemma {:induction false} LeftPositive(p: Params, g: Graph, top: nat, threads: seq<Thread>)
    requires forall t :: 0 <= t < |threads| ==> ThreadOk(p, g, threads[t])
    ensures LeftAll(p, top, threads) >= 0
    decreases |threads|
  {
    if threads != [] {
      var last := threads[|threads| - 1];
      LeftPositive(p, g, top, threads[..|threads| - 1]);
      assert ThreadOk(p, g, last);
      if last.Work? {
        LevelsMultiply(0, last.lc, Span(p));
      } else if last.Entering? {
        LevelsMultiply(0, top + 1, Span(p));
      }
    }
  }

  lemma {:induction false} RunShrinks(p: Params, d: KeyFunction, s: State, run: seq<(nat, Action)>, top: nat)
    requires Inv(p, s) && IsRun(p, d, s, run) && forall v :: 0 <= v < |s.g.levels| ==> s.g.levels[v] <= top
    ensures Steps(run) + Total(p, top, End(p, d, s, run)) <= Total(p, top, s)
    decreases |run|
  {
    if run != [] {
      var s' := Do(p, d, s, run[0].0, run[0].1);
      Keep(p, d, s, run[0].0, run[0].1);
      StepShrinks(p, d, s, run[0].0, run[0].1, top);
      RunShrinks(p, d, s', run[1..], top);
    }
  }

  lemma {:induction false} IdleLeft(p: Params, top: nat, n: nat)
    ensures LeftAll(p, top, seq(n, _ => Idle)) == n
  {
    if n > 0 {
      assert seq(n, _ => Idle)[..n - 1] == seq(n - 1, _ => Idle);
      IdleLeft(p, top, n - 1);
    }
  }

  /**
   * The build ends: apart from reads inside searches, no interleaving of any number of threads makes more steps than
   * so many for each row, and one for each thread to find that no row is left.
   */
  lemma BoundedBuild(p: Params, d: KeyFunction, levels: seq<nat>, threads: nat, run: seq<(nat, Action)>, top: nat)
    requires levels != [] && IsRun(p, d, Initial(levels, threads), run)
    requires forall v :: 0 <= v < |levels| ==> levels[v] <= top
    ensures Steps(run) <= threads + (|levels| - 1) * (3 + (top + 1) * (MaxCap(p) + 4))
  {
    hide Inv;
    var s := Initial(levels, threads);
    InitialInv(p, levels, threads);
    RunInv(p, d, s, run);
    RunShrinks(p, d, s, run, top);
    IdleLeft(p, top, threads);
    TotalPositive(p, top, End(p, d, s, run));
    assert s.threads == seq(threads, _ => Idle);
  }

  lemma TotalPositive(p: Params, top: nat, s: State)
    requires Inv(p, s)
    ensures Total(p, top, s) >= 0
  {
    LeftPositive(p, s.g, top, s.threads);
    LevelsMultiply(0, Untaken(s), NodeSpan(p, top));
  }

  /** A thread that is not done always has a step other than reading: no lock is waited for while holding another. */
  lemma NeverStuck(p: Params, d: KeyFunction, s: State, t: nat) returns (a: Action)
    requires Inv(p, s) && t < |s.threads| && !s.threads[t].Done?
    ensures !a.Read? && Enabled(p, d, s, t, a)
  {
    var th := s.threads[t];
    assert ThreadOk(p, s.g, th);
    match th
    case Idle => a := Take;
    case Entering(_) => a := Enter;
    case Raising(_) => a := Raise;
    case Work(node, _, lc, Looking(_)) =>
      if lc > s.g.levels[node] {
        a := Lower({});
      } else {
        assert PickedAt(d, node, {}, [], Cap(p, lc), 0);
        a := Choose({}, [], {});
      }
    case Work(node, _, lc, Own(selected, _)) =>
      var pruned := CutExists(d, node, AppendNew(s.g.lists[node][lc], selected), Cap(p, lc));
      a := LinkOwn(pruned);
    case Work(node, _, lc, Back(selected, i, _)) =>
      if i < |selected| {
        assert s.g.At(lc, selected[i]);
        var pruned := CutExists(d, selected[i], s.g.Neighbors(lc, selected[i]) + [node], Cap(p, lc));
        a := LinkBack(pruned);
      } else {
        a := NextLevel;
      }
  }

  lemma CutExists(d: KeyFunction, base: nat, list: seq<nat>, m: nat) returns (pruned: seq<nat>)
    ensures Cut(d, base, list, pruned, m)
  {
    if |list| <= m {
      pruned := list;
    } else {
      pruned := PickExists(d, base, Elements(list), m);
    }
  }
}
