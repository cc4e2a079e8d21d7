/**
 * What reopening gives at any time after a flush: the flushed checkpoint with its window and any
 * further legal records replayed on it. Whether the log is rejected and whether the records are right
 * is decided by the window alone; this module proves exactly when the directory is right as well.
 */
module LogBehind {
  import opened Records
  import opened Image
  import opened Window
  import opened WindowNames

  // ---------------------------------------------------------------------
  // Records
  // ---------------------------------------------------------------------

  ghost predicate SameOne(s: Img, t: Img, c: Cid)
    requires c in s.cols && c in t.cols
  {
    t.cols[c].recs == s.cols[c].recs && t.cols[c].dim == s.cols[c].dim && t.cols[c].metric == s.cols[c].metric
  }

  /** A record that is legal on an image is accepted by any image with the same records, whatever its names. */
  lemma SameStep(s: Img, t: Img, r: WalRecord)
    requires SameRecords(s, t) && Legal(s, r)
    ensures Step(t, r).Some? && SameRecords(Next(s, r), Step(t, r).value)
  {
    hide Step, Legal, SameRecords;
    SameAccepts(s, t, r);
    LegalSteps(s, r);
    forall c ensures c in Next(s, r).cols <==> c in Step(t, r).value.cols {
      SameKey(s, t, r, c);
    }
    forall c | c in Next(s, r).cols ensures SameOne(Next(s, r), Step(t, r).value, c) {
      SameKey(s, t, r, c);
    }
    SameAll(Next(s, r), Step(t, r).value);
  }

  lemma SameAccepts(s: Img, t: Img, r: WalRecord)
    requires SameRecords(s, t) && Legal(s, r)
    ensures Step(t, r).Some? && Step(t, r).value.next == Next(s, r).next
  {
    hide UpdateRecs, ExtOk;
  }

  lemma SameKey(s: Img, t: Img, r: WalRecord, c: Cid)
    requires SameRecords(s, t) && Legal(s, r) && Step(t, r).Some?
    ensures c in Next(s, r).cols <==> c in Step(t, r).value.cols
    ensures c in Next(s, r).cols ==> SameOne(Next(s, r), Step(t, r).value, c)
  {
    hide ExtOk;
    assert c in s.cols ==> SameOne(s, t, c);
  }

  lemma SameAll(s: Img, t: Img)
    requires s.next == t.next && (forall c :: c in s.cols <==> c in t.cols) &&
         forall c :: c in s.cols ==> SameOne(s, t, c)
    ensures SameRecords(s, t)
  {
  }

  lemma SameExtOk(s: Img, t: Img)
    requires SameRecords(s, t) && AllExtOk(s)
    ensures AllExtOk(t)
  {
    forall c | c in t.cols ensures ExtOk(t.cols[c].recs) {
      assert c in s.cols && SameOne(s, t, c);
    }
  }

  lemma {:induction false} SameLog(s: Img, t: Img, log: seq<WalRecord>)
    requires SameRecords(s, t) && GoodLog(s, log) && AllExtOk(s)
    ensures Replayable(t, log) && Replay(s, log).Some? && Replay(t, log).Some?
    ensures SameRecords(Replay(s, log).value, Replay(t, log).value)
    decreases |log|
  {
    hide Step, Legal, SameRecords, AllExtOk;
    SameExtOk(s, t);
    if log != [] {
      SameStep(s, t, log[0]);
      LegalSteps(s, log[0]);
      LegalKeepsExt(s, log[0]);
      SameLog(Next(s, log[0]), Step(t, log[0]).value, log[1..]);
    }
  }

  // ---------------------------------------------------------------------
  // Which directory entries the replay edits
  // ---------------------------------------------------------------------

  /** The name `c` stands under after `i` records of a replay that starts from the names of `mid`. */
  function Standing(mid: Img, log: seq<WalRecord>, i: nat, c: Cid): Option<string>
    requires i <= |log|
  {
    match NameSource(log, i, c)
    case Kept(d) => if d in mid.cols then Some(mid.cols[d].name) else None
    case Given(n) => Some(n)
    case Gone => None
  }

  /** Record `i` of the replay writes or removes the directory entry `n`. */
  predicate Takes(mid: Img, log: seq<WalRecord>, i: nat, n: string)
    requires i < |log|
  {
    match log[i]
    case CreateCollection(_, name, _, _) => name == n
    case RenameCollection(c, name) => name == n || Standing(mid, log, i, c) == Some(n)
    case SwapCollectionNames(a, b) => Standing(mid, log, i, a) == Some(n) || Standing(mid, log, i, b) == Some(n)
    case DropCollection(c) => Standing(mid, log, i, c) == Some(n)
    case _ => false
  }

  /** The same for one record on an image. */
  predicate Edits(s: Img, r: WalRecord, n: string) {
    match r
    case CreateCollection(_, name, _, _) => name == n
    case RenameCollection(c, name) => name == n || StandsAs(s, c, n)
    case SwapCollectionNames(a, b) => StandsAs(s, a, n) || StandsAs(s, b, n)
    case DropCollection(c) => StandsAs(s, c, n)
    case _ => false
  }

  predicate StandsAs(s: Img, c: Cid, n: string) {
    c in s.cols && s.cols[c].name == n
  }

  ghost predicate SameEntry(s: Img, t: Img, n: string) {
    (n in s.names <==> n in t.names) && (n in s.names ==> s.names[n] == t.names[n])
  }

  lemma EditLeaves(s: Img, r: WalRecord, n: string)
    requires Step(s, r).Some? && !Edits(s, r, n)
    ensures SameEntry(s, Step(s, r).value, n)
  {
    hide UpdateRecs;
  }

  /** An entry that was just written belongs to a collection the record names, which stands under that name. */
  lemma EditWrites(s: Img, r: WalRecord, n: string)
    requires Step(s, r).Some? && Edits(s, r, n) && n in Step(s, r).value.names
    ensures var s' := Step(s, r).value; Moves(r, s'.names[n]) && StandsAs(s', s'.names[n], n)
  {
    hide UpdateRecs;
  }

  /** Whoever is named is entered, possibly to be overwritten in the same record. */
  lemma NamedIsEntered(s: Img, r: WalRecord, c: Cid, n: string)
    requires Step(s, r).Some? && Moves(r, c) && StandsAs(Step(s, r).value, c, n)
    ensures Edits(s, r, n) && n in Step(s, r).value.names
  {
    hide UpdateRecs;
  }

  lemma EditStands(s: Img, r: WalRecord, c: Cid, n: string)
    requires Step(s, r).Some? && !Edits(s, r, n) && StandsAs(s, c, n) && !(r.CreateCollection? && r.cid == c)
    ensures StandsAs(Step(s, r).value, c, n)
  {
    hide UpdateRecs;
  }

  // ---------------------------------------------------------------------
  // The replay, record by record
  // ---------------------------------------------------------------------

  /** The image after `i` records. */
  ghost function Now(start: Img, log: seq<WalRecord>, i: nat): Img
    requires i <= |log| && Replay(start, log).Some?
    ensures Replay(start, log[..i]) == Some(Now(start, log, i))
  {
    assert log == log[..i] + log[i..];
    ReplayAppend(start, log[..i], log[i..]);
    Replay(start, log[..i]).value
  }

  lemma NowStep(start: Img, log: seq<WalRecord>, i: nat)
    requires i < |log| && Replay(start, log).Some?
    ensures Step(Now(start, log, i), log[i]) == Some(Now(start, log, i + 1))
  {
    hide Step, Replay;
    ReplaySnoc(start, log, i + 1);
  }

  lemma NowEnds(start: Img, log: seq<WalRecord>)
    requires Replay(start, log).Some?
    ensures Now(start, log, 0) == start && Now(start, log, |log|) == Replay(start, log).value
  {
    assert log[..0] == [] && log[..|log|] == log;
  }

  /** A collection of the start that is missing has been dropped. */
  lemma {:induction false} MissingIsGone(start: Img, log: seq<WalRecord>, i: nat, c: Cid)
    requires i <= |log| && Replay(start, log).Some? && c in start.cols && c !in Now(start, log, i).cols
    ensures NameSource(log, i, c) == Gone
    decreases i
  {
    hide Step, Replay, Now;
    NowEnds(start, log);
    if i > 0 {
      NowStep(start, log, i - 1);
      MissingStep(Now(start, log, i - 1), log[i - 1], c);
      if c !in Now(start, log, i - 1).cols {
        MissingIsGone(start, log, i - 1, c);
      }
    }
  }

  lemma MissingStep(s: Img, r: WalRecord, c: Cid)
    requires Step(s, r).Some? && c !in Step(s, r).value.cols
    ensures r == DropCollection(c) || (c !in s.cols && !Moves(r, c))
  {
    hide UpdateRecs;
  }

  /** Standing names are the names of the replay. */
  lemma StandingIs(start: Img, mid: Img, log: seq<WalRecord>, i: nat, c: Cid, n: string)
    requires i <= |log| && Replay(start, log).Some? && SameColNames(start, mid)
    ensures Standing(mid, log, i, c) == Some(n) <==> StandsAs(Now(start, log, i), c, n)
  {
    hide Step, Replay, Now, NameSource;
    var now := Now(start, log, i);
    SourceNames(start, log, i, now, c);
    if c in start.cols && c !in now.cols {
      MissingIsGone(start, log, i, c);
    }
  }

  ghost predicate SameColNames(s: Img, t: Img) {
    s.cols.Keys == t.cols.Keys && forall c :: c in s.cols ==> s.cols[c].name == t.cols[c].name
  }

  lemma TakesIs(start: Img, mid: Img, log: seq<WalRecord>, i: nat, n: string)
    requires i < |log| && Replay(start, log).Some? && SameColNames(start, mid)
    ensures Takes(mid, log, i, n) <==> Edits(Now(start, log, i), log[i], n)
  {
    hide Standing, StandsAs, Now, Replay, SameColNames;
    match log[i]
    case RenameCollection(c, _) => StandingIs(start, mid, log, i, c, n);
    case SwapCollectionNames(a, b) => StandingIs(start, mid, log, i, a, n); StandingIs(start, mid, log, i, b, n);
    case DropCollection(c) => StandingIs(start, mid, log, i, c, n);
    case _ =>
  }

  /** How many records there are up to the last one that takes the entry `n`. */
  function LastTaking(mid: Img, log: seq<WalRecord>, i: nat, n: string): (t: nat)
    requires i <= |log|
    ensures t <= i && (t > 0 ==> Takes(mid, log, t - 1, n))
    ensures forall j :: t <= j < i ==> !Takes(mid, log, j, n)
  {
    if i == 0 then 0 else if Takes(mid, log, i - 1, n) then i else LastTaking(mid, log, i - 1, n)
  }

  ghost predicate Untaken(mid: Img, log: seq<WalRecord>, from: nat, n: string) {
    forall j :: from <= j < |log| ==> !Takes(mid, log, j, n)
  }

  lemma {:induction false} EntryStays(start: Img, mid: Img, log: seq<WalRecord>, i: nat, k: nat, n: string)
    requires i <= k <= |log| && Replay(start, log).Some? && SameColNames(start, mid) && Untaken(mid, log, i, n)
    ensures SameEntry(Now(start, log, i), Now(start, log, k), n)
    decreases k
  {
    hide Step, Replay, Takes, Now, SameColNames, Edits;
    if i < k {
      EntryStays(start, mid, log, i, k - 1, n);
      TakesIs(start, mid, log, k - 1, n);
      NowStep(start, log, k - 1);
      EditLeaves(Now(start, log, k - 1), log[k - 1], n);
    }
  }

  lemma {:induction false} HolderStays(start: Img, mid: Img, log: seq<WalRecord>, i: nat, k: nat, c: Cid, n: string)
    requires i <= k <= |log| && Replay(start, log).Some? && SameColNames(start, mid) && Untaken(mid, log, i, n)
    requires StandsAs(Now(start, log, i), c, n)
    requires forall j :: i <= j < |log| ==> !(log[j].CreateCollection? && log[j].cid == c)
    ensures StandsAs(Now(start, log, k), c, n)
    decreases k
  {
    hide Step, Replay, Takes, Now, SameColNames, Edits, StandsAs;
    if i < k {
      HolderStays(start, mid, log, i, k - 1, c, n);
      TakesIs(start, mid, log, k - 1, n);
      NowStep(start, log, k - 1);
      EditStands(Now(start, log, k - 1), log[k - 1], c, n);
    }
  }

  /** A collection id is used for one creation only, and never by a record in front of it. */
  lemma {:induction false} CreatedAfter(base: Img, log: seq<WalRecord>, i: nat, j: nat, c: Cid)
    requires Consistent(base) && GoodLog(base, log) && i < j < |log| && Moves(log[i], c) && log[j].CreateCollection?
    ensures log[j].cid != c
    decreases |log|
  {
    hide Consistent, Step, Legal, Moves;
    LegalKeepsConsistent(base, log[0]);
    if i > 0 {
      CreatedAfter(Next(base, log[0]), log[1..], i - 1, j - 1, c);
    } else {
      MovedIsOld(base, log[0], c);
      CreatedIsNew(Next(base, log[0]), log[1..], j - 1);
    }
  }

  lemma MovedIsOld(s: Img, r: WalRecord, c: Cid)
    requires Consistent(s) && Legal(s, r) && Moves(r, c)
    ensures c < Next(s, r).next
  {
  }

  /** An entry that some record took belongs in the end to a collection that stands under it. */
  lemma EntryHolder(base: Img, start: Img, mid: Img, log: seq<WalRecord>, n: string)
    requires Consistent(base) && GoodLog(base, log) && Replay(start, log).Some? && SameColNames(start, mid)
    requires LastTaking(mid, log, |log|, n) > 0 && n in Replay(start, log).value.names
    ensures var end, t := Replay(start, log).value, LastTaking(mid, log, |log|, n);
            Moves(log[t - 1], end.names[n]) && StandsAs(end, end.names[n], n)
  {
    hide Step, Replay, Takes, Now, SameColNames, Edits, StandsAs, Moves;
    var t := LastTaking(mid, log, |log|, n);
    NowEnds(start, log);
    TakesIs(start, mid, log, t - 1, n);
    NowStep(start, log, t - 1);
    EntryStays(start, mid, log, t, |log|, n);
    EditWrites(Now(start, log, t - 1), log[t - 1], n);
    var d := Now(start, log, t).names[n];
    forall j | t <= j < |log| ensures !(log[j].CreateCollection? && log[j].cid == d) {
      if log[j].CreateCollection? {
        CreatedAfter(base, log, t - 1, j, d);
      }
    }
    HolderStays(start, mid, log, t, |log|, d, n);
  }

  // ---------------------------------------------------------------------
  // The condition
  // ---------------------------------------------------------------------

  /**
   * On replay `c` ends under its own name: a record gave the name, or it comes from a collection that was called the
   * same at the checkpoint as before the window.
   */
  predicate RightName(base: Img, mid: Img, log: seq<WalRecord>, c: Cid) {
    match NameSource(log, |log|, c)
    case Kept(d) => d in base.cols && d in mid.cols && base.cols[d].name == mid.cols[d].name
    case _ => true
  }

  /** After the last naming of `c`, no record of the replay takes the entry of its name. */
  ghost predicate Undisturbed(mid: Img, log: seq<WalRecord>, c: Cid, n: string) {
    Untaken(mid, log, LastNaming(log, |log|, c), n)
  }

  /** A name of the checkpoint is in use at the end, or some record of the replay takes its entry. */
  ghost predicate NotStale(mid: Img, log: seq<WalRecord>, live: Img, n: string) {
    n in live.names || !Untaken(mid, log, 0, n)
  }

  /** The directory comes back: every collection under its name, every name at its collection, nothing else. */
  ghost predicate DirectoryReturns(base: Img, mid: Img, log: seq<WalRecord>, live: Img) {
    && (forall c :: c in live.cols ==> RightName(base, mid, log, c))
    && (forall c :: c in live.cols ==> Undisturbed(mid, log, c, live.cols[c].name))
    && (forall n :: n in mid.names ==> NotStale(mid, log, live, n))
  }

  /** The live run and the replay, side by side. */
  ghost predicate Both(base: Img, mid: Img, start: Img, log: seq<WalRecord>, live: Img, end: Img) {
    && Consistent(base) && Consistent(mid) && Consistent(live) && GoodLog(base, log)
    && Replay(base, log) == Some(live) && Replay(start, log) == Some(end)
    && SameColNames(start, mid) && start.names == mid.names
    && end.cols.Keys == live.cols.Keys
  }

  lemma EndNameIff(base: Img, mid: Img, start: Img, log: seq<WalRecord>, live: Img, end: Img, c: Cid)
    requires Both(base, mid, start, log, live, end) && c in live.cols
    ensures end.cols[c].name == live.cols[c].name <==> RightName(base, mid, log, c)
  {
    hide NameSource, Step, Consistent, GoodLog, Replay;
    assert log[..|log|] == log && c in end.cols.Keys;
    SourceNames(base, log, |log|, live, c);
    SourceNames(start, log, |log|, end, c);
  }

  lemma LiveHolder(live: Img, c: Cid, n: string)
    requires Consistent(live) && c in live.cols && live.cols[c].name == n
    ensures n in live.names && live.names[n] == c
  {
  }

  /** Where a collection is named last, it is entered, unless the same record enters another one under that name. */
  lemma NamedAt(base: Img, mid: Img, start: Img, log: seq<WalRecord>, live: Img, end: Img, c: Cid, n: string)
    requires Both(base, mid, start, log, live, end) && c in live.cols && end.cols[c].name == n
    requires LastNaming(log, |log|, c) > 0
    ensures var i := LastNaming(log, |log|, c); Takes(mid, log, i - 1, n) && n in Now(start, log, i).names
  {
    hide Step, Replay, Now, Takes, Edits, SameColNames, NameSource, Consistent, GoodLog, Moves;
    var i := LastNaming(log, |log|, c);
    NowStep(start, log, i - 1);
    NowEnds(start, log);
    var now := Now(start, log, i);
    QuietSource(log, i, |log|, c);
    assert c in end.cols.Keys;
    SourceNames(start, log, |log|, end, c);
    SourceNames(start, log, i, now, c);
    NamedStays(Now(start, log, i - 1), log[i - 1], c, log, i);
    NamedIsEntered(Now(start, log, i - 1), log[i - 1], c, n);
    TakesIs(start, mid, log, i - 1, n);
  }

  lemma NamedStays(s: Img, r: WalRecord, c: Cid, log: seq<WalRecord>, i: nat)
    requires Step(s, r).Some? && Moves(r, c) && 0 < i <= |log| && log[i - 1] == r
    ensures c in Step(s, r).value.cols || NameSource(log, i, c) == Gone
  {
    hide UpdateRecs;
  }

  /** Never named: the collection is as old as the window and keeps its first name. */
  lemma NeverNamed(base: Img, mid: Img, start: Img, log: seq<WalRecord>, live: Img, end: Img, c: Cid)
    requires Both(base, mid, start, log, live, end) && c in live.cols && RightName(base, mid, log, c)
    requires LastNaming(log, |log|, c) == 0
    ensures c in mid.cols && mid.cols[c].name == live.cols[c].name
  {
    hide Step, Replay, NameSource, Consistent, GoodLog, Moves;
    QuietSource(log, 0, |log|, c);
    assert NameSource(log, 0, c) == Kept(c) by {
      FirstSource(log, c);
    }
    assert log[..|log|] == log;
    SourceNames(base, log, |log|, live, c);
  }

  lemma FirstSource(log: seq<WalRecord>, c: Cid)
    ensures NameSource(log, 0, c) == Kept(c)
  {
  }

  /** Under the condition, a live name leads to its collection. */
  lemma LiveEntry(base: Img, mid: Img, start: Img, log: seq<WalRecord>, live: Img, end: Img, c: Cid)
    requires Both(base, mid, start, log, live, end) && DirectoryReturns(base, mid, log, live) && c in live.cols
    ensures var n := live.cols[c].name; n in end.names && end.names[n] == c
  {
    hide Step, Replay, Now, Takes, SameColNames, NameSource, Consistent, GoodLog, Moves, RightName;
    var n, i := live.cols[c].name, LastNaming(log, |log|, c);
    var t := LastTaking(mid, log, |log|, n);
    assert Undisturbed(mid, log, c, n);
    EndNameIff(base, mid, start, log, live, end, c);
    NowEnds(start, log);
    EntryStays(start, mid, log, i, |log|, n);
    if i > 0 {
      NamedAt(base, mid, start, log, live, end, c, n);
      EntryHolder(base, start, mid, log, n);
      var d := end.names[n];
      assert d in live.cols.Keys && RightName(base, mid, log, d);
      EndNameIff(base, mid, start, log, live, end, d);
      SameNameSameColl(live, c, d);
    } else {
      NeverNamed(base, mid, start, log, live, end, c);
      LiveHolder(mid, c, n);
    }
  }

  /** Under the condition, the directory holds live names only. */
  lemma NoOtherEntry(base: Img, mid: Img, start: Img, log: seq<WalRecord>, live: Img, end: Img, n: string)
    requires Both(base, mid, start, log, live, end) && DirectoryReturns(base, mid, log, live) && n in end.names
    ensures n in live.names
  {
    hide Step, Replay, Now, Takes, SameColNames, NameSource, Consistent, GoodLog, Moves, RightName, Undisturbed;
    if LastTaking(mid, log, |log|, n) > 0 {
      EntryHolder(base, start, mid, log, n);
      var d := end.names[n];
      assert d in live.cols.Keys && RightName(base, mid, log, d);
      EndNameIff(base, mid, start, log, live, end, d);
      LiveHolder(live, d, n);
    } else {
      NowEnds(start, log);
      EntryStays(start, mid, log, 0, |log|, n);
      assert NotStale(mid, log, live, n);
    }
  }

  /** If the directory is right, no record disturbed it. */
  lemma RightMeansUndisturbed(base: Img, mid: Img, start: Img, log: seq<WalRecord>, live: Img, c: Cid)
    requires Both(base, mid, start, log, live, live) && c in live.cols
    ensures Undisturbed(mid, log, c, live.cols[c].name)
  {
    hide Step, Replay, Takes, SameColNames, NameSource, Consistent, GoodLog, Moves, StandsAs;
    var n := live.cols[c].name;
    LiveHolder(live, c, n);
    if LastTaking(mid, log, |log|, n) > 0 {
      EntryHolder(base, start, mid, log, n);
    }
  }

  lemma RightMeansNotStale(base: Img, mid: Img, start: Img, log: seq<WalRecord>, live: Img, n: string)
    requires Both(base, mid, start, log, live, live) && n in mid.names
    ensures NotStale(mid, log, live, n)
  {
    hide Step, Replay, Now, Takes, SameColNames, Consistent, GoodLog;
    NowEnds(start, log);
    if Untaken(mid, log, 0, n) {
      EntryStays(start, mid, log, 0, |log|, n);
    }
  }

  lemma RightIff(base: Img, mid: Img, start: Img, log: seq<WalRecord>, live: Img, end: Img)
    requires Both(base, mid, start, log, live, end) && SameRecords(live, end)
    ensures end == live <==> DirectoryReturns(base, mid, log, live)
  {
    hide Both, RightName, Undisturbed, NotStale;
    if end == live {
      forall c | c in live.cols ensures RightName(base, mid, log, c) && Undisturbed(mid, log, c, live.cols[c].name) {
        EndNameIff(base, mid, start, log, live, end, c);
        RightMeansUndisturbed(base, mid, start, log, live, c);
      }
      forall n | n in mid.names ensures NotStale(mid, log, live, n) {
        RightMeansNotStale(base, mid, start, log, live, n);
      }
    } else if DirectoryReturns(base, mid, log, live) {
      SameDirectory(base, mid, start, log, live, end);
    }
  }

  lemma SameDirectory(base: Img, mid: Img, start: Img, log: seq<WalRecord>, live: Img, end: Img)
    requires Both(base, mid, start, log, live, end) && SameRecords(live, end) && DirectoryReturns(base, mid, log, live)
    ensures end == live
  {
    hide GoodLog, Replay, DirectoryReturns, SameColNames;
    forall c | c in live.cols ensures c in end.cols && end.cols[c] == live.cols[c] {
      ReturnsName(base, mid, log, live, c);
      EndNameIff(base, mid, start, log, live, end, c);
    }
    assert end.cols == live.cols;
    forall n | n in end.names ensures n in live.names {
      NoOtherEntry(base, mid, start, log, live, end, n);
    }
    forall n | n in live.names ensures n in end.names && end.names[n] == live.names[n] {
      LiveEntry(base, mid, start, log, live, end, live.names[n]);
    }
    assert end.names == live.names;
  }

  lemma ReturnsName(base: Img, mid: Img, log: seq<WalRecord>, live: Img, c: Cid)
    requires DirectoryReturns(base, mid, log, live) && c in live.cols
    ensures RightName(base, mid, log, c)
  {
  }

  // ---------------------------------------------------------------------
  // The theorem
  // ---------------------------------------------------------------------

  /** The window `tail` led from `base` to `mid`, and `more` from there to `live`. */
  ghost predicate Passed(base: Img, tail: seq<WalRecord>, mid: Img, more: seq<WalRecord>, live: Img) {
    && Consistent(base) && AllExtOk(base) && GoodLog(base, tail) && Replay(base, tail) == Some(mid)
    && GoodLog(mid, more) && Replay(mid, more) == Some(live)
  }

  /**
   * Replaying the window and everything after it on the flushed checkpoint, whatever records that is: the log is
   * rejected if and only if the window used a collection older than itself and dropped it later;
   * otherwise all collections and records come back, and the whole image does if and only if the
   * directory returns, which an exact window makes sure of.
   */
  lemma BehindIff(base: Img, tail: seq<WalRecord>, mid: Img, more: seq<WalRecord>, live: Img)
    requires Passed(base, tail, mid, more, live)
    ensures var seen := Replay(Checkpoint(base, mid), tail + more);
            && (seen.None? <==> UsedThenDropped(base.cols.Keys, tail))
            && (seen.Some? ==> Replayable(Checkpoint(base, mid), tail + more) && SameRecords(live, seen.value))
            && (seen == Some(live) <==>
                  !UsedThenDropped(base.cols.Keys, tail) && DirectoryReturns(base, mid, tail + more, live))
            && (WindowExact(base, tail, mid) ==> seen == Some(live))
  {
    hide Consistent, AllExtOk, Replay, Replayable, GoodLog, Checkpoint, UsedThenDropped, NamesReturn, SameRecords,
         DirectoryReturns;
    var start := Checkpoint(base, mid);
    WindowReplayIff(base, tail);
    ReplayAppend(start, tail, more);
    if !UsedThenDropped(base.cols.Keys, tail) {
      var t := Replay(start, tail).value;
      GoodLogKeeps(base, tail);
      SameLog(mid, t, more);
      ReplayableAppend(start, tail, more);
      BehindBoth(base, tail, mid, more, live, Replay(t, more).value);
      RightIff(base, mid, start, tail + more, live, Replay(t, more).value);
    }
  }

  lemma BehindBoth(base: Img, tail: seq<WalRecord>, mid: Img, more: seq<WalRecord>, live: Img, end: Img)
    requires Passed(base, tail, mid, more, live) && SameRecords(live, end)
    requires Replay(Checkpoint(base, mid), tail + more) == Some(end)
    ensures Both(base, mid, Checkpoint(base, mid), tail + more, live, end)
  {
    hide Consistent, AllExtOk, Replay, GoodLog;
    GoodLogKeeps(base, tail);
    GoodLogKeeps(mid, more);
    GoodLogAppend(base, tail, more);
    ReplayAppend(base, tail, more);
  }

  /** A window that is not exact can come right later: the two collections whose names it swapped are dropped. */
  lemma DroppedAnyway(s: Img, a: Cid, b: Cid)
    requires Consistent(s) && a in s.cols && b in s.cols && a != b
    ensures var tail, more := [SwapCollectionNames(a, b)], [DropCollection(a), DropCollection(b)];
            && GoodLog(s, tail + more) && Replay(s, tail).Some? && Replay(s, tail + more).Some?
            && !WindowExact(s, tail, Replay(s, tail).value)
            && Replay(Checkpoint(s, Replay(s, tail).value), tail + more) == Replay(s, tail + more)
  {
    hide Consistent, UsedThenDropped, NoRival, Step, Legal, Checkpoint;
    var swap, dropA, dropB := SwapCollectionNames(a, b), DropCollection(a), DropCollection(b);
    SwapStays(s, a, b);
    LegalSteps(s, swap);
    var mid := Next(s, swap);
    OneStep(s, swap);
    SwapCheckpointIs(s, a, b);
    SwapTwice(s, a, b);
    DropTwo(s, mid, a, b);
    assert [swap] + [dropA, dropB] == [swap, dropA, dropB];
    ThreeSteps(s, swap, dropA, dropB);
    ThreeSteps(mid, swap, dropA, dropB);
    ThreeLegal(s, swap, dropA, dropB);
    assert NameSource([swap], 1, a) == NameSource([swap], 0, b) == Kept(b);
    assert a in mid.cols.Keys && !OwnName([swap], a);
  }

  lemma OneStep(s: Img, r: WalRecord)
    ensures Replay(s, [r]) == Step(s, r)
  {
    hide Step;
    assert [r][1..] == [];
  }

  lemma ThreeSteps(s: Img, r: WalRecord, r1: WalRecord, r2: WalRecord)
    ensures Replay(s, [r, r1, r2]) == match Step(s, r) case None => None case Some(s1) =>
                                        match Step(s1, r1) case None => None case Some(s2) => Step(s2, r2)
  {
    hide Step;
    assert [r, r1, r2][1..] == [r1, r2] && [r1, r2][1..] == [r2];
    match Step(s, r)
    case None =>
    case Some(s1) =>
      assert Replay(s, [r, r1, r2]) == Replay(s1, [r1, r2]);
      match Step(s1, r1)
      case None =>
      case Some(s2) => OneStep(s2, r2);
  }

  lemma ThreeLegal(s: Img, r: WalRecord, r1: WalRecord, r2: WalRecord)
    requires Legal(s, r) && Legal(Next(s, r), r1) && Legal(Next(Next(s, r), r1), r2)
    ensures GoodLog(s, [r, r1, r2])
  {
    hide Legal, Next;
    assert [r, r1, r2][1..] == [r1, r2] && [r1, r2][1..] == [r2] && [r2][1..] == [];
    var s1 := Next(s, r);
    var s2 := Next(s1, r1);
    assert GoodLog(Next(s2, r2), []);
    assert GoodLog(s2, [r2]);
    assert GoodLog(s1, [r1, r2]);
  }

  lemma SwapCheckpointIs(s: Img, a: Cid, b: Cid)
    requires a in s.cols && b in s.cols && a != b
    ensures var mid := Next(s, SwapCollectionNames(a, b)); Checkpoint(s, mid) == mid
  {
    var mid := Next(s, SwapCollectionNames(a, b));
    assert Checkpoint(s, mid).cols == mid.cols;
  }

  lemma SwapTwice(s: Img, a: Cid, b: Cid)
    requires Consistent(s) && a in s.cols && b in s.cols && a != b
    ensures var swap := SwapCollectionNames(a, b); Step(Next(s, swap), swap) == Some(s)
  {
    var swap := SwapCollectionNames(a, b);
    assert s.cols[a].name != s.cols[b].name;
    var t := Step(Next(s, swap), swap).value;
    assert t.cols == s.cols && t.names == s.names;
  }

  /** Dropping both leaves the same, whichever name was whose. */
  lemma DropTwo(s: Img, mid: Img, a: Cid, b: Cid)
    requires Consistent(s) && a in s.cols && b in s.cols && a != b && mid == Next(s, SwapCollectionNames(a, b))
    ensures Legal(mid, DropCollection(a)) && Legal(Next(mid, DropCollection(a)), DropCollection(b))
    ensures Step(s, DropCollection(a)).Some? && Step(mid, DropCollection(a)).Some?
    ensures var s1, m1 := Step(s, DropCollection(a)).value, Step(mid, DropCollection(a)).value;
            Step(s1, DropCollection(b)).Some? && Step(m1, DropCollection(b)) == Step(s1, DropCollection(b))
  {
    var s1, m1 := Step(s, DropCollection(a)).value, Step(mid, DropCollection(a)).value;
    var s2, m2 := Step(s1, DropCollection(b)).value, Step(m1, DropCollection(b)).value;
    assert m2.cols == s2.cols && m2.names == s2.names;
  }
}
