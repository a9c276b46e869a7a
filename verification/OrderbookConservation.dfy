/** When whole histories of script runs keep the hourly buckets right: the exact condition, two conditions a
    caller can arrange, and runs that lose samples. The upsert overwrites, it does not merge. */
module OrderbookConservation {
  import opened Wrappers
  import opened FiniteSets
  import opened Rows
  import opened OrderbookRetention
  import opened OrderbookRuns

  // ----- Series of runs -----

  /** Rows recorded since the previous run; then one run that compacts at cutoff `compact` and deletes at cutoff
      `delete`, with rows arriving in between. A run whose first count found nothing is not active. */
  datatype Run = Run(arrivals: set<Snapshot>, active: bool, compact: int, between: set<Snapshot>, delete: int, limit: nat)

  /** Both statements see the same cutoff and nothing arrives between them. */
  predicate OneReading(run: Run) {
    run.between == {} && run.delete == run.compact
  }

  ghost function Recorded(w: World, arrivals: set<Snapshot>): (after: World)
    requires Valid(w) && Fresh(w, arrivals)
    ensures Valid(after)
  {
    Apply(w, Insert(arrivals))
  }

  /** Arrivals are new rows. */
  ghost predicate Possible(w: World, run: Run)
    requires Valid(w)
  {
    Fresh(w, run.arrivals) && Fresh(Recorded(w, run.arrivals), run.between)
  }

  /** The run is active and its compaction does not fail. */
  ghost predicate Works(w1: World, run: Run) {
    run.active && OneEventPerKey(Old(w1.detail, run.compact))
  }

  /** When the compaction fails, the delete is not reached. */
  ghost function After(w: World, run: Run): (after: World)
    requires Valid(w) && Possible(w, run)
    ensures Valid(after)
  {
    var w1 := Recorded(w, run.arrivals);
    if Works(w1, run) then ScriptRun(w1, run.compact, run.between, run.delete, run.limit)
    else Recorded(w1, run.between)
  }

  ghost predicate AllPossible(w: World, runs: seq<Run>)
    requires Valid(w)
    decreases |runs|
  {
    runs != [] ==> Possible(w, runs[0]) && AllPossible(After(w, runs[0]), runs[1..])
  }

  ghost function AfterAll(w: World, runs: seq<Run>): (after: World)
    requires Valid(w) && AllPossible(w, runs)
    ensures Valid(after)
    decreases |runs|
  {
    if runs == [] then w else AfterAll(After(w, runs[0]), runs[1..])
  }

  // ----- Exactly when a series of runs conserves -----

  /** No late arrival; and unless the compaction fails, it writes only intact buckets. */
  ghost predicate Undisturbed(w: World, run: Run)
    requires Valid(w) && Possible(w, run)
  {
    var w1 := Recorded(w, run.arrivals);
    && OnTime(w, run.arrivals) && OnTime(w1, run.between)
    && (Works(w1, run) ==> TouchesOnlyIntact(w1, run.compact))
  }

  /** ... and the delete takes only whole buckets. */
  ghost predicate Keeps(w: World, run: Run)
    requires Valid(w) && Possible(w, run)
  {
    var w1 := Recorded(w, run.arrivals);
    && Undisturbed(w, run)
    && (Works(w1, run) ==>
          TakesWholeBuckets(w1, run.compact, run.between, run.delete, run.limit))
  }

  ghost predicate AllKeep(w: World, runs: seq<Run>)
    requires Valid(w) && AllPossible(w, runs)
    decreases |runs|
  {
    runs != [] ==> Keeps(w, runs[0]) && AllKeep(After(w, runs[0]), runs[1..])
  }

  lemma RunConserved(w: World, run: Run)
    requires Valid(w) && Possible(w, run)
    ensures Conserved(After(w, run)) <==> Conserved(w) && Keeps(w, run)
  {
    var w1 := Recorded(w, run.arrivals);
    InsertConserved(w, run.arrivals);
    if Works(w1, run) {
      ScriptRunConserved(w1, run.compact, run.between, run.delete, run.limit);
    } else {
      InsertConserved(w1, run.between);
    }
  }

  /** Over any series of runs, with any cutoffs, limits and arrivals: afterwards the bucket of every deleted row
      accounts for all rows ever inserted for it exactly when that held before and every run kept it. */
  lemma {:induction false} RunsConservedIff(w: World, runs: seq<Run>)
    requires Valid(w) && AllPossible(w, runs)
    ensures Conserved(AfterAll(w, runs)) <==> Conserved(w) && AllKeep(w, runs)
    decreases |runs|
  {
    if runs != [] {
      RunConserved(w, runs[0]);
      RunsConservedIff(After(w, runs[0]), runs[1..]);
    }
  }

  // ----- ... in terms of rows, cutoffs and limits -----

  /** The delete takes only from buckets this run's compaction saw whole. */
  ghost predicate KeepsSeen(w: World, run: Run)
    requires Valid(w) && Possible(w, run)
  {
    var w1 := Recorded(w, run.arrivals);
    && Undisturbed(w, run)
    && (Works(w1, run) ==>
          TakesWhatWasSeen(w1, run.compact, run.between, run.delete, run.limit))
  }

  ghost predicate AllKeepSeen(w: World, runs: seq<Run>)
    requires Valid(w) && AllPossible(w, runs)
    decreases |runs|
  {
    runs != [] ==> KeepsSeen(w, runs[0]) && AllKeepSeen(After(w, runs[0]), runs[1..])
  }

  ghost predicate Forward(since: int, runs: seq<Run>)
    decreases |runs|
  {
    runs != [] ==> since <= runs[0].compact && Forward(runs[0].compact, runs[1..])
  }

  /** Either every run has one clock reading, with cutoffs in any order; or the compaction cutoffs never go
      back. */
  ghost predicate ClockHolds(w: World, since: int, runs: seq<Run>) {
    (forall i :: 0 <= i < |runs| ==> OneReading(runs[i])) || (BuiltBefore(w, since) && Forward(since, runs))
  }

  lemma ClockMovesOn(w: World, since: int, runs: seq<Run>)
    requires Valid(w) && runs != [] && Possible(w, runs[0]) && ClockHolds(w, since, runs)
    ensures BuiltBefore(w, runs[0].compact) || OneReading(runs[0])
    ensures ClockHolds(After(w, runs[0]), runs[0].compact, runs[1..])
  {
    if forall i :: 0 <= i < |runs| ==> OneReading(runs[i]) {
      forall i | 0 <= i < |runs[1..]| ensures OneReading(runs[1..][i]) { assert OneReading(runs[i + 1]); }
    }
  }

  /** Unless the clock went back, what every run has to keep is that the buckets it compacts were intact, that no
      row comes late, and that each bucket it takes rows from was seen whole by its compaction. */
  lemma {:induction false} RunsConservedForward(w: World, since: int, runs: seq<Run>)
    requires Valid(w) && AllPossible(w, runs) && ClockHolds(w, since, runs)
    ensures Conserved(AfterAll(w, runs)) <==> Conserved(w) && AllKeepSeen(w, runs)
    decreases |runs|
  {
    if runs != [] {
      var run, w1 := runs[0], Recorded(w, runs[0].arrivals);
      ClockMovesOn(w, since, runs);
      RunConserved(w, run);
      if Works(w1, run) {
        NoBucketLeftAlone(w1, run.compact, run.between, run.delete, run.limit);
      }
      RunsConservedForward(After(w, run), run.compact, runs[1..]);
    }
  }

  // ----- Draining runs conserve -----

  /** No bucket is half deleted. */
  ghost predicate Drained(w: World) {
    forall r, x :: r in Deleted(w) && x in w.detail ==> KeyOf(r) != KeyOf(x)
  }

  /** One clock reading, no late arrival, and no bucket half deleted afterwards. */
  ghost predicate Drains(w: World, run: Run)
    requires Valid(w) && Possible(w, run)
  {
    OneReading(run) && OnTime(w, run.arrivals) && Drained(After(w, run))
  }

  ghost predicate AllDrain(w: World, runs: seq<Run>)
    requires Valid(w) && AllPossible(w, runs)
    decreases |runs|
  {
    runs != [] ==> Drains(w, runs[0]) && AllDrain(After(w, runs[0]), runs[1..])
  }

  lemma OneReadingIsOneRun(w: World, run: Run)
    requires Valid(w) && Possible(w, run) && OneReading(run)
    ensures var w1 := Recorded(w, run.arrivals);
      After(w, run) == if Works(w1, run) then OneRun(w1, run.compact, run.limit) else w1
  {
    var w1 := Recorded(w, run.arrivals);
    assert w1.detail + {} == w1.detail && w1.ever + {} == w1.ever;
    if Works(w1, run) { OneRunIsScriptRun(w1, run.compact, run.limit); }
  }

  /** What to check before a run: after one clock reading no bucket is half deleted exactly when the rows it
      takes are whole buckets. */
  lemma DrainedIff(w: World, cutoff: int, limit: nat)
    requires Valid(w) && OneEventPerKey(Old(w.detail, cutoff)) && Drained(w)
    ensures var gone := OldestN(Old(w.detail, cutoff), limit);
      Drained(OneRun(w, cutoff, limit)) <==> forall r, x :: r in gone && x in w.detail && KeyOf(x) == KeyOf(r) ==> x in gone
  {
    var gone, after := OldestN(Old(w.detail, cutoff), limit), OneRun(w, cutoff, limit);
    OldestNIsPrefix(Old(w.detail, cutoff), limit);
    assert Deleted(after) == Deleted(w) + gone && after.detail == w.detail - gone;
    DrainedAfterIff(w, gone, after);
  }

  lemma DrainedAfterIff(w: World, gone: set<Snapshot>, after: World)
    requires Drained(w) && after.detail == w.detail - gone && Deleted(after) == Deleted(w) + gone
    ensures Drained(after) <==> forall r, x :: r in gone && x in w.detail && KeyOf(x) == KeyOf(r) ==> x in gone
  {
  }

  lemma DrainingRunKeeps(w: World, run: Run)
    requires Valid(w) && Possible(w, run) && Drained(w) && Drains(w, run)
    ensures Keeps(w, run)
  {
    var w1 := Recorded(w, run.arrivals);
    assert Deleted(w1) == Deleted(w);
    if Works(w1, run) {
      OneReadingIsOneRun(w, run);
      OneRunIsScriptRun(w1, run.compact, run.limit);
      RunDeletesPrefix(w1, run.compact, run.limit);
      OldestNIsPrefix(Old(w1.detail, run.compact), run.limit);
      forall k | k in Keys(Old(w1.detail, run.compact)) ensures OfKey(Deleted(w), k) == {} {
        var x :| x in Old(w1.detail, run.compact) && KeyOf(x) == k;
        if x in run.arrivals { assert OfKey(Deleted(w), KeyOf(x)) == {}; }
      }
      var gone := OldestN(Old(w1.detail, run.compact), run.limit);
      forall r, x | r in gone && x in w1.detail && KeyOf(x) == KeyOf(r) ensures x in gone {
        assert r in Deleted(After(w, run));
      }
    }
  }

  /** Whatever the cutoffs and the limits: when no arrival is late and each run with one clock reading leaves no
      bucket half deleted, the bucket of every deleted row accounts for all rows ever inserted for it. */
  lemma {:induction false} DrainingConserves(w: World, runs: seq<Run>)
    requires Valid(w) && Conserved(w) && Drained(w) && AllPossible(w, runs) && AllDrain(w, runs)
    ensures Conserved(AfterAll(w, runs)) && Drained(AfterAll(w, runs)) && Lossless(AfterAll(w, runs))
    decreases |runs|
  {
    if runs != [] {
      DrainingRunKeeps(w, runs[0]);
      RunConserved(w, runs[0]);
      DrainingConserves(After(w, runs[0]), runs[1..]);
    } else {
      forall r | r in Deleted(w) ensures Covered(w.source, r) { assert r in OfKey(w.ever, KeyOf(r)); }
    }
  }

  // ----- A discipline that drains -----

  /** A cutoff on the hour that does not go back, arrivals no older than the last cutoff, and a limit that covers
      the whole backlog. */
  ghost predicate DisciplinedRun(w: World, since: int, run: Run)
    requires Valid(w) && Possible(w, run)
  {
    && OneReading(run)
    && (forall r :: r in run.arrivals ==> r.at >= since)
    && since <= run.compact && run.compact % MS_PER_HOUR == 0
    && (run.active || Old(w.detail + run.arrivals, run.compact) == {})
    && OneEventPerKey(Old(w.detail + run.arrivals, run.compact))
    && |Old(w.detail + run.arrivals, run.compact)| <= run.limit
  }

  ghost predicate Disciplined(w: World, since: int, runs: seq<Run>)
    requires Valid(w) && AllPossible(w, runs)
    decreases |runs|
  {
    runs != [] ==> DisciplinedRun(w, since, runs[0]) && Disciplined(After(w, runs[0]), runs[0].compact, runs[1..])
  }

  function LastCutoff(since: int, runs: seq<Run>): int
    decreases |runs|
  {
    if runs == [] then since else LastCutoff(runs[0].compact, runs[1..])
  }

  /** Everything before the hour `since` is deleted, everything else is still there. */
  ghost predicate Settled(w: World, since: int) {
    && since % MS_PER_HOUR == 0
    && (forall r :: r in w.detail ==> r.at >= since)
    && (forall r :: r in Deleted(w) ==> r.at < since)
  }

  lemma AlignedHours(r: Snapshot, x: Snapshot, since: int)
    requires since % MS_PER_HOUR == 0 && r.at < since <= x.at
    ensures KeyOf(r) != KeyOf(x)
  {
    assert HourOf(r.at) < HourOf(x.at);
  }

  lemma SettledIsDrained(w: World, since: int)
    requires Settled(w, since)
    ensures Drained(w)
  {
    forall r, x | r in Deleted(w) && x in w.detail ensures KeyOf(r) != KeyOf(x) { AlignedHours(r, x, since); }
  }

  lemma SettledOnTime(w: World, since: int, rows: set<Snapshot>)
    requires Settled(w, since) && forall r :: r in rows ==> r.at >= since
    ensures OnTime(w, rows)
  {
    forall x | x in rows ensures OfKey(Deleted(w), KeyOf(x)) == {} {
      forall r | r in Deleted(w) ensures KeyOf(r) != KeyOf(x) { AlignedHours(r, x, since); }
    }
  }

  lemma WholeBacklogGoes(w: World, cutoff: int, limit: nat)
    requires Valid(w) && OneEventPerKey(Old(w.detail, cutoff)) && |Old(w.detail, cutoff)| <= limit
    ensures OneRun(w, cutoff, limit).detail == w.detail - Old(w.detail, cutoff)
    ensures Deleted(OneRun(w, cutoff, limit)) == Deleted(w) + Old(w.detail, cutoff)
  {
    OldestNAll(Old(w.detail, cutoff), limit);
  }

  lemma DisciplinedRunDeletes(w: World, since: int, run: Run)
    requires Valid(w) && Possible(w, run) && DisciplinedRun(w, since, run)
    ensures After(w, run).ever == w.ever + run.arrivals
    ensures After(w, run).detail == w.detail + run.arrivals - Old(w.detail + run.arrivals, run.compact)
  {
    OneReadingIsOneRun(w, run);
    WholeBacklogGoes(Recorded(w, run.arrivals), run.compact, run.limit);
  }

  lemma SettledAgain(w: World, since: int, arrivals: set<Snapshot>, cutoff: int, after: World)
    requires Settled(w, since) && since <= cutoff && cutoff % MS_PER_HOUR == 0
    requires after.ever == w.ever + arrivals
    requires after.detail == w.detail + arrivals - Old(w.detail + arrivals, cutoff)
    ensures Settled(after, cutoff)
  {
    forall r | r in Deleted(after) ensures r.at < cutoff {
      assert r in Deleted(w) || r in Old(w.detail + arrivals, cutoff);
    }
  }

  lemma DisciplinedRunDrains(w: World, since: int, run: Run)
    requires Valid(w) && Possible(w, run) && Settled(w, since) && DisciplinedRun(w, since, run)
    ensures Drains(w, run) && Settled(After(w, run), run.compact)
  {
    SettledOnTime(w, since, run.arrivals);
    DisciplinedRunDeletes(w, since, run);
    SettledAgain(w, since, run.arrivals, run.compact, After(w, run));
    SettledIsDrained(After(w, run), run.compact);
  }

  lemma {:induction false} DisciplineDrains(w: World, since: int, runs: seq<Run>)
    requires Valid(w) && AllPossible(w, runs) && Settled(w, since) && Disciplined(w, since, runs)
    ensures AllDrain(w, runs)
    decreases |runs|
  {
    if runs != [] {
      DisciplinedRunDrains(w, since, runs[0]);
      DisciplineDrains(After(w, runs[0]), runs[0].compact, runs[1..]);
    }
  }

  lemma {:induction false} DisciplineSettles(w: World, since: int, runs: seq<Run>)
    requires Valid(w) && AllPossible(w, runs) && Settled(w, since) && Disciplined(w, since, runs)
    ensures Settled(AfterAll(w, runs), LastCutoff(since, runs))
    decreases |runs|
  {
    if runs != [] {
      DisciplinedRunDrains(w, since, runs[0]);
      DisciplineSettles(After(w, runs[0]), runs[0].compact, runs[1..]);
    }
  }

  /** Disciplined runs drain, so they conserve; and no row before the last cutoff is left in the detail table. */
  lemma DisciplineConserves(w: World, since: int, runs: seq<Run>)
    requires Valid(w) && Conserved(w) && AllPossible(w, runs) && Settled(w, since) && Disciplined(w, since, runs)
    ensures Conserved(AfterAll(w, runs)) && Lossless(AfterAll(w, runs))
    ensures Settled(AfterAll(w, runs), LastCutoff(since, runs))
  {
    SettledIsDrained(w, since);
    DisciplineDrains(w, since, runs);
    DisciplineSettles(w, since, runs);
    DrainingConserves(w, runs);
  }

  // ----- Runs that lose samples -----

  function Sample(at: int): Snapshot {
    Row(if at >= 0 then 2 * at else -2 * at - 1, Stream("m", None, "V", "vm", None), at, Quote("e", Some(1), 0, 0))
  }

  function Start(rows: set<Snapshot>): World {
    World(rows, rows, map[])
  }

  /** One run alone: it loses samples exactly when it compacts a bucket that is no longer intact. */
  lemma OneRunLossless(w: World, cutoff: int, limit: nat)
    requires Valid(w) && OneEventPerKey(Old(w.detail, cutoff))
    ensures Lossless(OneRun(w, cutoff, limit)) <==> Lossless(w) && TouchesOnlyIntact(w, cutoff)
  {
    var mid := Compacted(w, cutoff);
    CompactLossless(w, cutoff);
    DeleteTakesBatch(mid, cutoff, limit);
    forall r | r in Old(w.detail, cutoff) ensures Covered(mid.source, r) {
      assert mid.source[KeyOf(r)] == OfKey(Old(w.detail, cutoff), KeyOf(r));
    }
    StepLossless(mid, Delete(cutoff, limit));
  }

  /** A bucket left half deleted loses its deleted samples at the next run that compacts it. */
  lemma HalfDeletedBucketLoses(w: World, cutoff: int, limit: nat, r: Snapshot, x: Snapshot)
    requires Valid(w) && OneEventPerKey(Old(w.detail, cutoff))
    requires r in Deleted(w) && x in Old(w.detail, cutoff) && KeyOf(r) == KeyOf(x)
    ensures !Lossless(OneRun(w, cutoff, limit))
  {
    OneRunLossless(w, cutoff, limit);
    assert KeyOf(x) in Keys(Old(w.detail, cutoff)) && r in OfKey(Deleted(w), KeyOf(x));
  }

  ghost predicate LosesInTwoRuns(w: World, c1: int, c2: int, limit: nat) {
    && Valid(w) && OneEventPerKey(Old(w.detail, c1))
    && Lossless(OneRun(w, c1, limit))
    && OneEventPerKey(Old(OneRun(w, c1, limit).detail, c2))
    && !Lossless(OneRun(OneRun(w, c1, limit), c2, limit))
  }

  /** Two runs lose samples whenever the first leaves a row of a bucket it took rows from, and the second
      cutoff reaches that row. */
  lemma SplitBucketLoses(w: World, c1: int, c2: int, limit: nat, r: Snapshot, x: Snapshot)
    requires Valid(w) && Deleted(w) == {} && OneEventPerKey(w.detail)
    requires r in w.detail && r !in OneRun(w, c1, limit).detail
    requires x in Old(OneRun(w, c1, limit).detail, c2) && KeyOf(r) == KeyOf(x)
    ensures LosesInTwoRuns(w, c1, c2, limit)
  {
    OneRunLossless(w, c1, limit);
    HalfDeletedBucketLoses(OneRun(w, c1, limit), c2, limit, r, x);
  }

  /** Batch limit: a backlog that lies in one bucket and exceeds the limit. */
  lemma LimitBelowBacklogLoses(w: World, cutoff: int, limit: nat, k: BucketKey)
    requires Valid(w) && Deleted(w) == {} && OneEventPerKey(w.detail)
    requires Keys(w.detail) == {k} && Old(w.detail, cutoff) == w.detail
    requires 0 < limit < |w.detail|
    ensures LosesInTwoRuns(w, cutoff, cutoff, limit)
  {
    var r, x := BatchSplits(w.detail, limit);
    assert KeyOf(r) in Keys(w.detail) && KeyOf(x) in Keys(w.detail);
    SplitBucketLoses(w, cutoff, cutoff, limit, r, x);
  }

  lemma BatchSplits(rows: set<Snapshot>, limit: nat) returns (r: Snapshot, x: Snapshot)
    requires UniqueIds(rows) && 0 < limit < |rows|
    ensures r in rows && r in OldestN(rows, limit) && x in rows && x !in OldestN(rows, limit)
  {
    var gone := OldestN(rows, limit);
    OldestNIsPrefix(rows, limit);
    assert |rows| == |gone| + |rows - gone|;
    r :| r in gone;
    x :| x in rows - gone;
  }

  /** Alignment: whatever the limit, a cutoff between two rows of one bucket and a later cutoff past both. */
  lemma CutoffInsideHourLoses(w: World, c1: int, c2: int, limit: nat, r: Snapshot, x: Snapshot)
    requires Valid(w) && Deleted(w) == {} && OneEventPerKey(w.detail)
    requires r in w.detail && x in w.detail && KeyOf(r) == KeyOf(x) && r.at < c1 <= x.at < c2
    requires |Old(w.detail, c1)| <= limit
    ensures LosesInTwoRuns(w, c1, c2, limit)
  {
    OldestNAll(Old(w.detail, c1), limit);
    SplitBucketLoses(w, c1, c2, limit, r, x);
  }

  /** Two rows of one bucket and one event. */
  predicate SameBucket(r: Snapshot, x: Snapshot) {
    r.id != x.id && KeyOf(r) == KeyOf(x) && r.attrs.event == x.attrs.event
  }

  /** Samples one millisecond apart share a bucket, except across the full hour. */
  lemma SamplesInOneHour(at: int)
    requires (at + 1) % MS_PER_HOUR != 0
    ensures SameBucket(Sample(at), Sample(at + 1))
  {
  }

  lemma TwoRowsLose(w: World, r: Snapshot, x: Snapshot, c: int, limit: nat)
    requires w == Start({r, x}) && SameBucket(r, x) && r.at < c == x.at && limit >= 1
    ensures LosesInTwoRuns(w, c, c + 1, limit)
  {
    assert Old(w.detail, c) == {r};
    CutoffInsideHourLoses(w, c, c + 1, limit, r, x);
  }

  /** Every cutoff inside an hour does it: a sample just before it, a sample at it, and two runs. */
  lemma CutoffInsideHourExists(c: int, limit: nat)
    requires c % MS_PER_HOUR != 0 && limit >= 1
    ensures LosesInTwoRuns(Start({Sample(c - 1), Sample(c)}), c, c + 1, limit)
  {
    SamplesInOneHour(c - 1);
    TwoRowsLose(Start({Sample(c - 1), Sample(c)}), Sample(c - 1), Sample(c), c, limit);
  }

  function FirstSamples(n: nat): set<Snapshot> {
    set i | 0 <= i < n :: Sample(i)
  }

  lemma {:induction false} FirstSamplesSize(n: nat)
    ensures |FirstSamples(n)| == n
  {
    if n > 0 {
      FirstSamplesSize(n - 1);
      assert FirstSamples(n) == FirstSamples(n - 1) + {Sample(n - 1)};
    }
  }

  /** For every limit the script can be configured with: one more sample than the limit, all in one hour, and two
      runs at the end of that hour. */
  lemma LimitBelowBacklogExists(limit: nat)
    requires 1 <= limit < MS_PER_HOUR
    ensures LosesInTwoRuns(Start(FirstSamples(limit + 1)), MS_PER_HOUR, MS_PER_HOUR, limit)
  {
    var rows := FirstSamples(limit + 1);
    FirstSamplesSize(limit + 1);
    assert Sample(0) in rows;
    forall r | r in rows ensures KeyOf(r) == KeyOf(Sample(0)) && r.at < MS_PER_HOUR && r.attrs.event == "e" {
    }
    assert Keys(rows) == {KeyOf(Sample(0))};
    assert Old(rows, MS_PER_HOUR) == rows;
    LimitBelowBacklogLoses(Start(rows), MS_PER_HOUR, limit, KeyOf(Sample(0)));
  }

  /** Late arrivals: a row recorded for a bucket that a delete already took rows from. */
  lemma LateArrivalLoses(w: World, late: Snapshot, r: Snapshot, cutoff: int, limit: nat)
    requires Valid(w) && Fresh(w, {late}) && OneEventPerKey(Old(Recorded(w, {late}).detail, cutoff))
    requires r in Deleted(w) && KeyOf(late) == KeyOf(r) && late.at < cutoff
    ensures Lossless(Recorded(w, {late})) <==> Lossless(w)
    ensures !Lossless(OneRun(Recorded(w, {late}), cutoff, limit))
  {
    StepLossless(w, Insert({late}));
    HalfDeletedBucketLoses(Recorded(w, {late}), cutoff, limit, r, late);
  }

  /** Two clock readings: a row that ages past the cutoff between the two statements of one run, in a bucket
      the compaction just wrote, is deleted although no compaction ever saw it. */
  lemma TwoCutoffsLose(w: World, c1: int, c2: int, limit: nat, r: Snapshot, x: Snapshot)
    requires Valid(w) && Fresh(w, {}) && Deleted(w) == {} && OneEventPerKey(w.detail)
    requires r in w.detail && x in w.detail && KeyOf(r) == KeyOf(x) && r.at < c1 <= x.at < c2
    requires |Old(w.detail, c2)| <= limit
    ensures !Lossless(ScriptRun(w, c1, {}, c2, limit))
  {
    RunLossless(w, c1, {}, c2, limit);
    AgedRowTaken(w, c1, c2, limit, r, x);
  }

  lemma AgedRowTaken(w: World, c1: int, c2: int, limit: nat, r: Snapshot, x: Snapshot)
    requires Valid(w) && Fresh(w, {}) && OneEventPerKey(Old(w.detail, c1))
    requires r in w.detail && x in w.detail && KeyOf(r) == KeyOf(x) && r.at < c1 && x.at < c2
    requires |Old(w.detail, c2)| <= limit
    ensures x in Batch(BeforeDelete(w, c1, {}), c2, limit)
  {
    var mid := BeforeDelete(w, c1, {});
    assert mid.detail == w.detail;
    assert KeyOf(r) in Keys(Old(w.detail, c1));
    SubsetSize(Candidates(mid, c2), Old(w.detail, c2));
    OldestNAll(Candidates(mid, c2), limit);
  }

  /** A run, a late row, and a second run at the same cutoff. */
  ghost predicate LosesLateArrival(w: World, cutoff: int, late: Snapshot, limit: nat) {
    && Valid(w) && OneEventPerKey(Old(w.detail, cutoff))
    && var mid := OneRun(w, cutoff, limit);
      && Lossless(mid) && Fresh(mid, {late}) && OneEventPerKey(Old(Recorded(mid, {late}).detail, cutoff))
      && !Lossless(OneRun(Recorded(mid, {late}), cutoff, limit))
  }

  lemma LateRowLoses(w: World, r: Snapshot, late: Snapshot, cutoff: int, limit: nat)
    requires w == Start({r}) && SameBucket(r, late) && r.at < cutoff && late.at < cutoff && limit >= 1
    ensures LosesLateArrival(w, cutoff, late, limit)
  {
    assert Old(w.detail, cutoff) == {r};
    WholeBacklogGoes(w, cutoff, limit);
    OneRunLossless(w, cutoff, limit);
    LateRowAfter(OneRun(w, cutoff, limit), r, late, cutoff, limit);
  }

  lemma LateRowAfter(mid: World, r: Snapshot, late: Snapshot, cutoff: int, limit: nat)
    requires Valid(mid) && mid.ever == {r} && mid.detail == {} && SameBucket(r, late) && late.at < cutoff
    ensures Fresh(mid, {late}) && OneEventPerKey(Old(Recorded(mid, {late}).detail, cutoff))
    ensures !Lossless(OneRun(Recorded(mid, {late}), cutoff, limit))
  {
    assert Recorded(mid, {late}).detail == {late};
    LateArrivalLoses(mid, late, r, cutoff, limit);
  }

  /** One sample is compacted and deleted at the end of its hour, a second one of that hour arrives late, and the
      next run loses the first. */
  lemma LateArrivalExists(limit: nat)
    requires limit >= 1
    ensures LosesLateArrival(Start({Sample(0)}), MS_PER_HOUR, Sample(1), limit)
  {
    SamplesInOneHour(0);
    LateRowLoses(Start({Sample(0)}), Sample(0), Sample(1), MS_PER_HOUR, limit);
  }

  /** A run whose two cutoffs differ loses samples of a table that had lost none. */
  ghost predicate LosesInOneRun(w: World, c1: int, c2: int, limit: nat) {
    Valid(w) && Fresh(w, {}) && Lossless(w) && !Lossless(ScriptRun(w, c1, {}, c2, limit))
  }

  lemma AgingRowLost(w: World, r: Snapshot, x: Snapshot, c: int, limit: nat)
    requires w == Start({r, x}) && SameBucket(r, x) && r.at < c == x.at && limit >= 2
    ensures LosesInOneRun(w, c, c + 1, limit)
  {
    assert w.ever + {} == w.ever;
    SubsetSize(Old(w.detail, c + 1), {r, x});
    TwoCutoffsLose(w, c, c + 1, limit, r, x);
  }

  /** Every pair of clock readings inside an hour, one millisecond apart: the sample that ages past the cutoff
      between them is deleted without having been compacted. */
  lemma TwoCutoffsExist(c: int, limit: nat)
    requires c % MS_PER_HOUR != 0 && limit >= 2
    ensures LosesInOneRun(Start({Sample(c - 1), Sample(c)}), c, c + 1, limit)
  {
    SamplesInOneHour(c - 1);
    AgingRowLost(Start({Sample(c - 1), Sample(c)}), Sample(c - 1), Sample(c), c, limit);
  }
}
