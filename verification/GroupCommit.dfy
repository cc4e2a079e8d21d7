/**
 * Group commit (`SyncPolicy::Batch`): any number of threads append under the store's lock, take a
 * ticket and wait for an fsync that covers it; whoever finds no fsync running leads one. The state
 * machine has one step for every stretch that holds the batch mutex, and one for the fsync itself.
 */
module GroupCommit {

  /** Where a thread stands in `SyncToken::wait`; `ticket` is the number of records it needs durable. */
  datatype Thread =
    | Outside
    | Checking(ticket: nat)
    | Leading(ticket: nat, target: nat)
    | Returning(ticket: nat, target: nat, ok: bool)
    | Blocked(ticket: nat)
    | Acknowledged(ticket: nat)
    | Failed(ticket: nat)

  /**
   * `written` counts records whose bytes have been written, `durable` those that would survive a
   * crash; neither is a field of `BatchState`. The other three are its fields.
   */
  datatype State = State(written: nat, durable: nat, appended: nat, synced: nat, syncing: bool, threads: seq<Thread>)

  datatype Action =
    | Write
    | Count
    | Take(t: nat)
    | Evaluate(t: nat)
    | Fsync(t: nat, ok: bool, reached: nat)
    | Finish(t: nat)
    | Wake(t: nat)

  predicate Leads(th: Thread) {
    th.Leading? || th.Returning?
  }

  ghost predicate Enabled(s: State, a: Action) {
    match a
    case Write => s.written == s.appended
    case Count => s.written == s.appended + 1
    case Take(t) => t < |s.threads| && s.threads[t].Outside? && s.written == s.appended
    case Evaluate(t) => t < |s.threads| && s.threads[t].Checking?
    case Fsync(t, ok, reached) =>
      && t < |s.threads| && s.threads[t].Leading?
      && s.durable <= reached <= s.written && (ok ==> reached == s.written)
    case Finish(t) => t < |s.threads| && s.threads[t].Returning?
    case Wake(t) => t < |s.threads| && s.threads[t].Blocked?
  }

  /** `notify_all`: every blocked thread re-evaluates its condition. */
  function Notified(threads: seq<Thread>): (r: seq<Thread>)
    ensures |r| == |threads|
  {
    seq(|threads|, i requires 0 <= i < |threads| =>
      if threads[i].Blocked? then Checking(threads[i].ticket) else threads[i])
  }

  ghost function Do(s: State, a: Action): State
    requires Enabled(s, a)
  {
    match a
    case Write => s.(written := s.written + 1)
    case Count => s.(appended := s.appended + 1)
    case Take(t) => s.(threads := s.threads[t := Checking(s.appended)])
    case Evaluate(t) =>
      var ticket := s.threads[t].ticket;
      if s.synced >= ticket then s.(threads := s.threads[t := Acknowledged(ticket)])
      else if !s.syncing then s.(syncing := true, threads := s.threads[t := Leading(ticket, s.appended)])
      else s.(threads := s.threads[t := Blocked(ticket)])
    case Fsync(t, ok, reached) =>
      s.(durable := reached, threads := s.threads[t := Returning(s.threads[t].ticket, s.threads[t].target, ok)])
    case Finish(t) =>
      var th := s.threads[t];
      var next := if th.ok then Checking(th.ticket) else Failed(th.ticket);
      s.(syncing := false, synced := if th.ok && th.target > s.synced then th.target else s.synced,
         threads := Notified(s.threads[t := next]))
    case Wake(t) => s.(threads := s.threads[t := Checking(s.threads[t].ticket)])
  }

  // ---------------------------------------------------------------------
  // The invariant
  // ---------------------------------------------------------------------

  ghost predicate Counters(s: State) {
    s.synced <= s.durable <= s.written && s.synced <= s.appended <= s.written <= s.appended + 1
  }

  ghost predicate ThreadOk(s: State, th: Thread) {
    match th
    case Outside => true
    case Checking(ticket) => ticket <= s.appended
    case Leading(ticket, target) => ticket <= target <= s.appended && s.syncing
    case Returning(ticket, target, ok) => ticket <= target <= s.appended && s.syncing && (ok ==> target <= s.durable)
    case Blocked(ticket) => ticket <= s.appended && s.syncing
    case Acknowledged(ticket) => ticket <= s.synced
    case Failed(ticket) => ticket <= s.appended
  }

  /** At most one thread leads, and one does whenever the flag says so. */
  ghost predicate OneLeader(s: State) {
    && (forall i, j :: 0 <= i < |s.threads| && 0 <= j < |s.threads| && Leads(s.threads[i]) && Leads(s.threads[j])
         ==> i == j)
    && (s.syncing ==> exists i :: 0 <= i < |s.threads| && Leads(s.threads[i]))
  }

  ghost predicate Inv(s: State) {
    Counters(s) && OneLeader(s) && forall i :: 0 <= i < |s.threads| ==> ThreadOk(s, s.threads[i])
  }

  /** A step that changes one thread only. */
  lemma StepOne(s: State, t: nat, s': State)
    requires Inv(s) && t < |s.threads| && |s'.threads| == |s.threads| && Counters(s')
    requires forall i :: 0 <= i < |s.threads| && i != t ==> s'.threads[i] == s.threads[i]
    requires s'.appended >= s.appended && s'.synced >= s.synced && s'.durable >= s.durable
    requires ThreadOk(s', s'.threads[t])
    requires s.syncing ==> s'.syncing && (Leads(s.threads[t]) <==> Leads(s'.threads[t]))
    requires !s.syncing ==> (s'.syncing <==> Leads(s'.threads[t]))
    ensures Inv(s')
  {
    forall i | 0 <= i < |s'.threads| ensures ThreadOk(s', s'.threads[i]) {
      assert ThreadOk(s, s.threads[i]);
    }
    if s'.syncing {
      if s.syncing {
        var i :| 0 <= i < |s.threads| && Leads(s.threads[i]);
        assert Leads(s'.threads[i]);
      } else {
        assert Leads(s'.threads[t]);
      }
    }
    forall i, j | 0 <= i < |s'.threads| && 0 <= j < |s'.threads| && Leads(s'.threads[i]) && Leads(s'.threads[j])
      ensures i == j {
      assert ThreadOk(s, s.threads[i]) && ThreadOk(s, s.threads[j]);
    }
  }

  lemma KeepFinish(s: State, t: nat)
    requires Inv(s) && Enabled(s, Finish(t))
    ensures Inv(Do(s, Finish(t)))
  {
    var s' := Do(s, Finish(t));
    assert ThreadOk(s, s.threads[t]) && Leads(s.threads[t]);
    forall i | 0 <= i < |s'.threads| ensures ThreadOk(s', s'.threads[i]) && !Leads(s'.threads[i]) {
      assert ThreadOk(s, s.threads[i]);
      assert i != t ==> !Leads(s.threads[i]);
    }
  }

  lemma KeepCounting(s: State, s': State)
    requires Inv(s) && Counters(s') && s' == s.(written := s'.written, appended := s'.appended)
        && s'.appended >= s.appended
    ensures Inv(s')
  {
    forall i | 0 <= i < |s'.threads| ensures ThreadOk(s', s'.threads[i]) {
      assert ThreadOk(s, s.threads[i]);
    }
  }

  lemma KeepCount(s: State, a: Action)
    requires Inv(s) && Enabled(s, a) && (a.Write? || a.Count?)
    ensures Inv(Do(s, a))
  {
    hide OneLeader, ThreadOk;
    KeepCounting(s, Do(s, a));
  }

  lemma KeepTake(s: State, t: nat)
    requires Inv(s) && Enabled(s, Take(t))
    ensures Inv(Do(s, Take(t)))
  {
    hide OneLeader;
    StepOne(s, t, Do(s, Take(t)));
  }

  lemma KeepEvaluate(s: State, t: nat)
    requires Inv(s) && Enabled(s, Evaluate(t))
    ensures Inv(Do(s, Evaluate(t)))
  {
    hide OneLeader;
    assert ThreadOk(s, s.threads[t]);
    StepOne(s, t, Do(s, Evaluate(t)));
  }

  lemma KeepFsync(s: State, t: nat, ok: bool, reached: nat)
    requires Inv(s) && Enabled(s, Fsync(t, ok, reached))
    ensures Inv(Do(s, Fsync(t, ok, reached)))
  {
    hide OneLeader;
    assert ThreadOk(s, s.threads[t]);
    StepOne(s, t, Do(s, Fsync(t, ok, reached)));
  }

  lemma KeepWake(s: State, t: nat)
    requires Inv(s) && Enabled(s, Wake(t))
    ensures Inv(Do(s, Wake(t)))
  {
    hide OneLeader;
    assert ThreadOk(s, s.threads[t]);
    StepOne(s, t, Do(s, Wake(t)));
  }

  lemma Keep(s: State, a: Action)
    requires Inv(s) && Enabled(s, a)
    ensures Inv(Do(s, a))
  {
    hide Inv, OneLeader, ThreadOk, Notified;
    match a
    case Write => KeepCount(s, a);
    case Count => KeepCount(s, a);
    case Finish(t) => KeepFinish(s, t);
    case Take(t) => KeepTake(s, t);
    case Evaluate(t) => KeepEvaluate(s, t);
    case Fsync(t, ok, reached) => KeepFsync(s, t, ok, reached);
    case Wake(t) => KeepWake(s, t);
  }

  // ---------------------------------------------------------------------
  // Runs
  // ---------------------------------------------------------------------

  ghost function Initial(threads: nat): State {
    State(0, 0, 0, 0, false, seq(threads, _ => Outside))
  }

  ghost predicate IsRun(s: State, run: seq<Action>)
    decreases |run|
  {
    run == [] || (Enabled(s, run[0]) && IsRun(Do(s, run[0]), run[1..]))
  }

  ghost function End(s: State, run: seq<Action>): State
    requires IsRun(s, run)
    decreases |run|
  {
    if run == [] then s else End(Do(s, run[0]), run[1..])
  }

  lemma {:induction false} RunInv(s: State, run: seq<Action>)
    requires Inv(s) && IsRun(s, run)
    ensures Inv(End(s, run))
    decreases |run|
  {
    hide Inv, Enabled;
    if run != [] {
      Keep(s, run[0]);
      RunInv(Do(s, run[0]), run[1..]);
    }
  }

  /**
   * Safety over every run of any number of threads: a thread that was told Ok has its records in the
   * durable prefix, `synced` never runs ahead of what is durable or appended, and there is at most
   * one leader.
   */
  lemma AcknowledgedIsDurable(threads: nat, run: seq<Action>, t: nat)
    requires IsRun(Initial(threads), run)
    ensures var s := End(Initial(threads), run);
            && s.synced <= s.durable && s.synced <= s.appended && OneLeader(s)
            && (t < |s.threads| && s.threads[t].Acknowledged? ==> s.threads[t].ticket <= s.durable)
  {
    RunInv(Initial(threads), run);
    var s := End(Initial(threads), run);
    if t < |s.threads| {
      assert ThreadOk(s, s.threads[t]);
    }
  }

  predicate Waiting(th: Thread) {
    th.Checking? || th.Leading? || th.Returning? || th.Blocked?
  }

  /**
   * No lost wakeup and no deadlock: whenever a thread is waiting, a thread inside `wait` can take a
   * step other than a spurious wakeup; a blocked thread implies a leader that will notify it.
   */
  lemma SomeoneCanStep(s: State, t: nat)
    requires Inv(s) && t < |s.threads| && Waiting(s.threads[t])
    ensures exists k ::
        0 <= k < |s.threads| &&
        (Enabled(s, Evaluate(k)) || Enabled(s, Fsync(k, true, s.written)) || Enabled(s, Finish(k)))
    ensures s.threads[t].Blocked? ==> exists k :: 0 <= k < |s.threads| && k != t && Leads(s.threads[k])
  {
    assert ThreadOk(s, s.threads[t]);
    if s.threads[t].Blocked? {
      var k :| 0 <= k < |s.threads| && Leads(s.threads[k]);
      assert Enabled(s, Fsync(k, true, s.written)) || Enabled(s, Finish(k));
    } else {
      assert Enabled(s, Evaluate(t)) || Enabled(s, Fsync(t, true, s.written)) || Enabled(s, Finish(t));
    }
  }

  /**
   * When a leader returns from a successful fsync, it and everyone it covered leave at their next look, and nobody
   * stays blocked.
   */
  lemma RoundReleases(s: State, t: nat, k: nat)
    requires Inv(s) && Enabled(s, Finish(t)) && s.threads[t].ok && k < |s.threads|
    ensures var s' := Do(s, Finish(t));
            && !s'.syncing && !s'.threads[k].Blocked?
            && s'.threads[t].Checking? && Do(s', Evaluate(t)).threads[t] == Acknowledged(s.threads[t].ticket)
            && (s.threads[k].Blocked? && s.threads[k].ticket <= s.threads[t].target ==>
                  s'.threads[k].Checking? && Do(s', Evaluate(k)).threads[k] == Acknowledged(s.threads[k].ticket))
  {
    assert ThreadOk(s, s.threads[t]);
  }

  /** A ticket taken before the leader looked at the counter is covered by the leader's fsync. */
  lemma LeaderCovers(s: State, t: nat, k: nat)
    requires Inv(s) && Enabled(s, Evaluate(t)) && k < |s.threads| && k != t
    requires s.synced < s.threads[t].ticket && !s.syncing
    requires s.threads[k].Checking?
    ensures Do(s, Evaluate(t)).threads[t].Leading? && s.threads[k].ticket <= Do(s, Evaluate(t)).threads[t].target
  {
    assert ThreadOk(s, s.threads[k]);
  }

  // ---------------------------------------------------------------------
  // Everybody leaves
  // ---------------------------------------------------------------------

  /** The thread is on its way in, or waits for records not known to be durable. */
  predicate Uncovered(th: Thread, synced: nat) {
    th.Outside? || (Waiting(th) && th.ticket > synced)
  }

  function Rounds(threads: seq<Thread>, synced: nat): nat {
    if threads == [] then 0
    else Rounds(threads[..|threads| - 1], synced) + if Uncovered(threads[|threads| - 1], synced) then 1 else 0
  }

  /** Steps to the end of `wait` at most, until the next notification. */
  function Phase(th: Thread): nat {
    match th
    case Outside => 5
    case Checking(_) => 3
    case Leading(_, _) => 2
    case Returning(_, _, _) => 1
    case _ => 0
  }

  function Phases(threads: seq<Thread>): nat {
    if threads == [] then 0 else Phases(threads[..|threads| - 1]) + Phase(threads[|threads| - 1])
  }

  /** Every round takes its leader out; within a round every thread only moves on. */
  function Potential(s: State): nat {
    Rounds(s.threads, s.synced) * (5 * |s.threads| + 1) + Phases(s.threads)
  }

  lemma {:induction false} RoundsUpdate(threads: seq<Thread>, t: nat, th: Thread, synced: nat)
    requires t < |threads|
    ensures Rounds(threads[t := th], synced) + (if Uncovered(threads[t], synced) then 1 else 0)
         == Rounds(threads, synced) + (if Uncovered(th, synced) then 1 else 0)
  {
    var front := threads[..|threads| - 1];
    if t < |threads| - 1 {
      RoundsUpdate(front, t, th, synced);
      assert threads[t := th][..|threads| - 1] == front[t := th];
    } else {
      assert threads[t := th][..|threads| - 1] == front;
    }
  }

  lemma {:induction false} PhasesUpdate(threads: seq<Thread>, t: nat, th: Thread)
    requires t < |threads|
    ensures Phases(threads[t := th]) + Phase(threads[t]) == Phases(threads) + Phase(th)
  {
    var front := threads[..|threads| - 1];
    if t < |threads| - 1 {
      PhasesUpdate(front, t, th);
      assert threads[t := th][..|threads| - 1] == front[t := th];
    } else {
      assert threads[t := th][..|threads| - 1] == front;
    }
  }

  lemma {:induction false} PhasesBound(threads: seq<Thread>)
    ensures Phases(threads) <= 5 * |threads|
  {
    if threads != [] {
      PhasesBound(threads[..|threads| - 1]);
    }
  }

  /** A notification covers nobody anew, and a larger `synced` only covers more. */
  lemma {:induction false} RoundsNotified(threads: seq<Thread>, synced: nat, synced': nat)
    requires synced <= synced'
    ensures Rounds(Notified(threads), synced') <= Rounds(threads, synced)
  {
    if threads != [] {
      var front := threads[..|threads| - 1];
      RoundsNotified(front, synced, synced');
      assert Notified(threads)[..|threads| - 1] == Notified(front);
    }
  }

  ghost predicate LeadersUncovered(s: State) {
    forall i :: 0 <= i < |s.threads| && Leads(s.threads[i]) ==> s.threads[i].ticket > s.synced
  }

  lemma KeepUncovered(s: State, a: Action)
    requires Inv(s) && LeadersUncovered(s) && Enabled(s, a)
    ensures LeadersUncovered(Do(s, a))
  {
    if a.Finish? {
      forall i | 0 <= i < |s.threads| ensures !Leads(Do(s, a).threads[i]) {
        assert i != a.t ==> !Leads(s.threads[i]);
      }
    }
  }

  lemma {:induction false} FewerRounds(r': nat, r: nat, k: nat)
    requires r' < r
    ensures r' * k + k <= r * k
  {
    assert r * k == (r - 1) * k + k;
    if r' < r - 1 {
      FewerRounds(r', r - 1, k);
    }
  }

  /** The end of a round: the leader leaves or is covered. */
  lemma FinishCost(s: State, t: nat)
    requires Inv(s) && LeadersUncovered(s) && Enabled(s, Finish(t))
    ensures Potential(Do(s, Finish(t))) < Potential(s)
  {
    hide Rounds, Phases, Notified, OneLeader, Counters;
    var s' := Do(s, Finish(t));
    var th := s.threads[t];
    assert ThreadOk(s, th) && Leads(th);
    var next := if th.ok then Checking(th.ticket) else Failed(th.ticket);
    var moved := s.threads[t := next];
    RoundsUpdate(s.threads, t, next, s'.synced);
    RoundsNotified(moved, s'.synced, s'.synced);
    RoundsLess(s.threads, s.synced, s'.synced, t);
    PhasesBound(s'.threads);
    FewerRounds(Rounds(s'.threads, s'.synced), Rounds(s.threads, s.synced), 5 * |s.threads| + 1);
  }

  /** Covering more, not counting one thread that was uncovered. */
  lemma {:induction false} RoundsLess(threads: seq<Thread>, synced: nat, synced': nat, t: nat)
    requires t < |threads| && synced <= synced' && Uncovered(threads[t], synced)
    ensures Rounds(threads, synced') < Rounds(threads, synced) + if Uncovered(threads[t], synced') then 1 else 0
  {
    var front := threads[..|threads| - 1];
    if t < |threads| - 1 {
      RoundsLess(front, synced, synced', t);
    } else {
      RoundsFall(front, synced, synced');
    }
  }

  lemma {:induction false} RoundsFall(threads: seq<Thread>, synced: nat, synced': nat)
    requires synced <= synced'
    ensures Rounds(threads, synced') <= Rounds(threads, synced)
  {
    if threads != [] {
      RoundsFall(threads[..|threads| - 1], synced, synced');
    }
  }

  /** A step of one thread that covers nobody anew. */
  lemma MoveCost(s: State, t: nat, th: Thread, s': State)
    requires t < |s.threads| && s'.threads == s.threads[t := th] && s'.synced == s.synced
    requires Uncovered(th, s.synced) ==> Uncovered(s.threads[t], s.synced)
    ensures Potential(s') <= Potential(s) + Phase(th) - Phase(s.threads[t])
  {
    RoundsUpdate(s.threads, t, th, s.synced);
    PhasesUpdate(s.threads, t, th);
    if Rounds(s'.threads, s.synced) < Rounds(s.threads, s.synced) {
      FewerRounds(Rounds(s'.threads, s.synced), Rounds(s.threads, s.synced), 5 * |s.threads| + 1);
    }
  }

  predicate InWait(a: Action) {
    a.Take? || a.Evaluate? || a.Fsync? || a.Finish?
  }

  /** Every step inside `wait` uses up some of the potential; only a spurious wakeup gives any back. */
  lemma StepCost(s: State, a: Action)
    requires Inv(s) && LeadersUncovered(s) && Enabled(s, a)
    ensures InWait(a) ==> Potential(Do(s, a)) < Potential(s)
    ensures !InWait(a) ==> Potential(Do(s, a)) <= Potential(s) + if a.Wake? then 3 else 0
  {
    hide Potential, Inv, LeadersUncovered, Notified;
    var s' := Do(s, a);
    match a
    case Write => SamePotential(s, s');
    case Count => SamePotential(s, s');
    case Finish(t) => FinishCost(s, t);
    case Take(t) => MoveCost(s, t, s'.threads[t], s');
    case Evaluate(t) => MoveCost(s, t, s'.threads[t], s');
    case Fsync(t, _, _) => MoveCost(s, t, s'.threads[t], s');
    case Wake(t) => MoveCost(s, t, s'.threads[t], s');
  }

  lemma SamePotential(s: State, s': State)
    requires s'.threads == s.threads && s'.synced == s.synced
    ensures Potential(s') == Potential(s)
  {
  }

  function Writes(run: seq<Action>): nat {
    if run == [] then 0 else (if run[0].Write? then 1 else 0) + Writes(run[1..])
  }

  function Counts(run: seq<Action>): nat {
    if run == [] then 0 else (if run[0].Count? then 1 else 0) + Counts(run[1..])
  }

  /** Records written and counted are those of the run. */
  lemma {:induction false} RunCounts(s: State, run: seq<Action>)
    requires IsRun(s, run)
    ensures End(s, run).written == s.written + Writes(run) && End(s, run).appended == s.appended + Counts(run)
    decreases |run|
  {
    if run != [] {
      RunCounts(Do(s, run[0]), run[1..]);
    }
  }

  /** A thread that wakes up looks again. */
  lemma WokenLooks(s: State, t: nat)
    requires Enabled(s, Wake(t))
    ensures Enabled(Do(s, Wake(t)), Evaluate(t)) && !Do(s, Wake(t)).threads[t].Blocked?
    ensures Do(s, Wake(t)).threads[t].ticket == s.threads[t].ticket
  {
  }

  function Steps(run: seq<Action>): nat {
    if run == [] then 0 else (if InWait(run[0]) then 1 else 0) + Steps(run[1..])
  }

  function Wakeups(run: seq<Action>): nat {
    if run == [] then 0 else (if run[0].Wake? then 1 else 0) + Wakeups(run[1..])
  }

  lemma {:induction false} BoundedFrom(s: State, run: seq<Action>)
    requires Inv(s) && LeadersUncovered(s) && IsRun(s, run)
    ensures Steps(run) <= Potential(s) + 3 * Wakeups(run)
    decreases |run|
  {
    hide Inv, LeadersUncovered, Enabled, Potential, Do;
    if run != [] {
      Keep(s, run[0]);
      KeepUncovered(s, run[0]);
      StepCost(s, run[0]);
      BoundedFrom(Do(s, run[0]), run[1..]);
    }
  }

  lemma {:induction false} InitialPotential(threads: nat)
    ensures Rounds(Initial(threads).threads, 0) == threads && Phases(Initial(threads).threads) == 5 * threads
  {
    if threads > 0 {
      InitialPotential(threads - 1);
      assert Initial(threads).threads[..threads - 1] == Initial(threads - 1).threads;
    }
  }

  /**
   * Spurious wakeups apart, no run of `n` threads takes more than so many steps inside `wait`, however often fsync
   * fails.
   */
  lemma BoundedWaiting(n: nat, run: seq<Action>)
    requires IsRun(Initial(n), run)
    ensures Steps(run) <= n * (5 * n + 1) + 5 * n + 3 * Wakeups(run)
  {
    hide IsRun;
    InitialPotential(n);
    BoundedFrom(Initial(n), run);
  }

  ghost predicate AllSucceed(run: seq<Action>) {
    forall i :: 0 <= i < |run| && run[i].Fsync? ==> run[i].ok
  }

  ghost predicate NoneFailed(s: State) {
    forall i :: 0 <= i < |s.threads| ==> !s.threads[i].Failed? && (s.threads[i].Returning? ==> s.threads[i].ok)
  }

  lemma {:induction false} NoneFails(s: State, run: seq<Action>)
    requires IsRun(s, run) && NoneFailed(s) && AllSucceed(run)
    ensures NoneFailed(End(s, run))
    decreases |run|
  {
    if run != [] {
      assert NoneFailed(Do(s, run[0]));
      assert forall i :: 0 <= i < |run[1..]| ==> run[1..][i] == run[i + 1];
      NoneFails(Do(s, run[0]), run[1..]);
    }
  }

  /** Nobody inside `wait` can take another step. */
  ghost predicate Settled(s: State) {
    forall k :: 0 <= k < |s.threads|
         ==> !Enabled(s, Evaluate(k)) && !Enabled(s, Fsync(k, true, s.written)) && !Enabled(s, Finish(k))
  }

  /**
   * A run can only settle with nobody left inside `wait`; when every fsync succeeded, everybody who
   * came in was acknowledged.
   */
  lemma SettledMeansReleased(n: nat, run: seq<Action>, t: nat)
    requires IsRun(Initial(n), run) && Settled(End(Initial(n), run)) && t < |End(Initial(n), run).threads|
    ensures var th := End(Initial(n), run).threads[t];
            !Waiting(th) && (AllSucceed(run) ==> th.Outside? || th.Acknowledged?)
  {
    hide IsRun, Inv, Enabled;
    InitialInv(n);
    RunInv(Initial(n), run);
    var s := End(Initial(n), run);
    if Waiting(s.threads[t]) {
      SomeoneCanStep(s, t);
      assert false;
    }
    if AllSucceed(run) {
      NoneFails(Initial(n), run);
    }
  }

  lemma InitialInv(n: nat)
    ensures Inv(Initial(n))
  {
  }
}
