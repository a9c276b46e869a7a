/** What whole histories of the retention script leave in the hourly table: sample counts that are right exactly
    when every run keeps them, and nothing at all once two events share a bucket. */
module DurableHistory {
  import opened FiniteSets
  import opened Rows
  import opened OrderbookRetention
  import opened OrderbookRuns
  import opened OrderbookConservation
  import opened RetentionJob

  /** What a run amounts to when the database refuses some of its statements. */
  function Effective(run: Run, faults: set<Statement>): Run {
    if CompactRows in faults then run.(active := false)
    else if DeleteRows in faults then run.(limit := 0)
    else run
  }

  /** The script's snapshot statements are a run of the histories, also when one of them raises. */
  lemma AfterIsScriptRun(w: World, run: Run, faults: set<Statement>)
    requires OrderbookRetention.Valid(w) && Possible(w, run) && run.between == {}
    ensures Possible(w, Effective(run, faults))
    ensures SnapshotRun(Recorded(w, run.arrivals), run.active, run.compact, run.delete, run.limit, faults)
         == After(w, Effective(run, faults))
  {
    var w1 := Recorded(w, run.arrivals);
    assert w1.detail + {} == w1.detail && w1.ever + {} == w1.ever;
    if Works(w1, run) {
      assert BeforeDelete(w1, run.compact, {}) == Apply(w1, Compact(run.compact));
    }
  }

  /** The statements of one run, with the live recorder writing before it and between them. */
  method RunAmongArrivals(db: SnapshotTables, run: Run)
    requires db.Valid() && Possible(db.World(), run)
    modifies db
    ensures db.Valid() && db.World() == old(After(db.World(), run))
  {
    db.Record(run.arrivals);
    if !run.active {
      db.Record(run.between);
      return;
    }
    var compacted := db.CompactOldOrderbookRows(run.compact);
    db.Record(run.between);
    if compacted.Ok? {
      var deleted := db.DeleteCompactedOrderbookRows(run.delete, run.limit);
    }
  }

  // ----- The sample counts -----

  /** The hourly row of a sample counts all samples ever recorded for its bucket. */
  ghost predicate Accounted(hourly: map<BucketKey, Bucket>, w: World, r: Snapshot) {
    KeyOf(r) in hourly && hourly[KeyOf(r)].count == |OfKey(w.ever, KeyOf(r))|
  }

  /** The stored counts tell: they are right for all deleted samples exactly when the buckets conserve them. */
  lemma CountsTell(w: World, hourly: map<BucketKey, Bucket>)
    requires OrderbookRetention.Valid(w) && Summarizes(hourly, w.source)
    ensures (forall r :: r in Deleted(w) ==> Accounted(hourly, w, r)) <==> Conserved(w)
  {
    forall r | r in Deleted(w) ensures Accounted(hourly, w, r) <==> Complete(w, KeyOf(r)) {
      OneCountTells(w, hourly, KeyOf(r));
    }
  }

  lemma OneCountTells(w: World, hourly: map<BucketKey, Bucket>, k: BucketKey)
    requires OrderbookRetention.Valid(w) && Summarizes(hourly, w.source)
    ensures k in hourly && hourly[k].count == |OfKey(w.ever, k)| <==> Complete(w, k)
  {
    if k in hourly {
      CountOfSource(hourly, w.source, k);
      SourceOfKey(w, k);
    }
  }

  lemma SourceOfKey(w: World, k: BucketKey)
    requires OrderbookRetention.Valid(w) && k in w.source
    ensures |w.source[k]| == |OfKey(w.ever, k)| <==> Complete(w, k)
  {
    assert w.source[k] <= OfKey(w.ever, k);
    SubsetSize(w.source[k], OfKey(w.ever, k));
  }

  lemma CountOfSource(hourly: map<BucketKey, Bucket>, source: map<BucketKey, set<Snapshot>>, k: BucketKey)
    requires Summarizes(hourly, source) && k in hourly
    ensures k in source && hourly[k].count == |source[k]|
  {
    assert IsAggregate(hourly[k], source[k]);
  }

  /** Over any series of runs, the stored sample count of every deleted sample's bucket is the number of samples
      ever recorded for it exactly when it was before and every run keeps it so. */
  lemma HistoryCountsIff(w: World, runs: seq<Run>, hourly: map<BucketKey, Bucket>)
    requires OrderbookRetention.Valid(w) && AllPossible(w, runs) && Summarizes(hourly, AfterAll(w, runs).source)
    ensures (forall r :: r in Deleted(AfterAll(w, runs)) ==> Accounted(hourly, AfterAll(w, runs), r))
      <==> Conserved(w) && AllKeep(w, runs)
  {
    RunsConservedIff(w, runs);
    CountsTell(AfterAll(w, runs), hourly);
  }

  lemma ConservedIsAggregated(w: World, hourly: map<BucketKey, Bucket>, r: Snapshot)
    requires OrderbookRetention.Valid(w) && Summarizes(hourly, w.source) && Conserved(w) && r in Deleted(w)
    ensures var all := OfKey(w.ever, KeyOf(r));
      KeyOf(r) in hourly && IsAggregate(hourly[KeyOf(r)], all) && hourly[KeyOf(r)].count == |all| > 0
  {
    assert Complete(w, KeyOf(r));
    assert r in OfKey(w.ever, KeyOf(r));
  }

  /** Whatever the cutoffs and limits, when no arrival is late and no run leaves a bucket half deleted: every
      deleted snapshot has an hourly row whose count, extremes, blocker count and last midpoint are those of all
      snapshots ever recorded for that hour and market. */
  lemma HistoryIsDurable(w: World, runs: seq<Run>, hourly: map<BucketKey, Bucket>, r: Snapshot)
    requires OrderbookRetention.Valid(w) && Conserved(w) && Drained(w) && AllPossible(w, runs) && AllDrain(w, runs)
    requires Summarizes(hourly, AfterAll(w, runs).source) && r in Deleted(AfterAll(w, runs))
    ensures var all := OfKey(AfterAll(w, runs).ever, KeyOf(r));
      KeyOf(r) in hourly && IsAggregate(hourly[KeyOf(r)], all) && hourly[KeyOf(r)].count == |all| > 0
  {
    DrainingConserves(w, runs);
    ConservedIsAggregated(AfterAll(w, runs), hourly, r);
  }

  /** With the discipline this covers every snapshot recorded before the last cutoff. */
  lemma DisciplinedHistoryIsDurable(w: World, since: int, runs: seq<Run>, hourly: map<BucketKey, Bucket>, r: Snapshot)
    requires OrderbookRetention.Valid(w) && Conserved(w) && AllPossible(w, runs)
    requires Settled(w, since) && Disciplined(w, since, runs)
    requires Summarizes(hourly, AfterAll(w, runs).source)
    requires r in AfterAll(w, runs).ever && r.at < LastCutoff(since, runs)
    ensures var all := OfKey(AfterAll(w, runs).ever, KeyOf(r));
      KeyOf(r) in hourly && IsAggregate(hourly[KeyOf(r)], all) && hourly[KeyOf(r)].count == |all| > 0
  {
    DisciplineConserves(w, since, runs);
    assert r in Deleted(AfterAll(w, runs));
    ConservedIsAggregated(AfterAll(w, runs), hourly, r);
  }

  // ----- No configuration avoids the losses -----

  /** Under every configuration of the script samples can be lost in each of four ways: by the batch limit, by a
      cutoff inside an hour, by a late row, and by two clock readings. */
  lemma EveryConfigurationLoses(o: Options, c: int)
    requires c % MS_PER_HOUR != 0
    ensures var limit := Configure(o).batchLimit;
      && LosesInTwoRuns(Start(FirstSamples(limit + 1)), MS_PER_HOUR, MS_PER_HOUR, limit)
      && LosesInTwoRuns(Start({Sample(c - 1), Sample(c)}), c, c + 1, limit)
      && LosesLateArrival(Start({Sample(0)}), MS_PER_HOUR, Sample(1), limit)
      && LosesInOneRun(Start({Sample(c - 1), Sample(c)}), c, c + 1, limit)
  {
    var limit := Configure(o).batchLimit;
    LimitBelowBacklogExists(limit);
    CutoffInsideHourExists(c, limit);
    LateArrivalExists(limit);
    TwoCutoffsExist(c, limit);
  }

  // ----- Two events in one bucket -----

  /** Two samples of one instant and bucket, the second of another event. */
  function Rival(r: Snapshot): Snapshot {
    Row(r.id + 1, r.group, r.at, r.attrs.(event := r.attrs.event + "'"))
  }

  /** Every cutoff has a table whose compaction fails. */
  lemma ConflictExists(c: int)
    ensures OrderbookRetention.Valid(Start({Sample(c - 1), Rival(Sample(c - 1))}))
    ensures !OneEventPerKey(Old(Start({Sample(c - 1), Rival(Sample(c - 1))}).detail, c))
  {
    var r := Sample(c - 1);
    var rows := {r, Rival(r)};
    assert r in Old(rows, c) && Rival(r) in Old(rows, c) && KeyOf(r) == KeyOf(Rival(r));
    assert |r.attrs.event| != |Rival(r).attrs.event|;
  }

  ghost function Arrivals(runs: seq<Run>): set<Snapshot> {
    if runs == [] then {} else runs[0].arrivals + runs[0].between + Arrivals(runs[1..])
  }

  /** Once two old snapshots of one bucket belong to different events, no later run compacts or deletes any
      snapshot of any market: the detail table only grows. */
  lemma {:induction false} ConflictStopsRetention(w: World, cutoff: int, runs: seq<Run>)
    requires OrderbookRetention.Valid(w) && AllPossible(w, runs)
    requires !OneEventPerKey(Old(w.detail, cutoff))
    requires forall i :: 0 <= i < |runs| ==> runs[i].compact >= cutoff
    ensures AfterAll(w, runs).detail == w.detail + Arrivals(runs)
    ensures AfterAll(w, runs).source == w.source
    decreases |runs|
  {
    if runs != [] {
      var run := runs[0];
      var w1 := Recorded(w, run.arrivals);
      assert Old(w.detail, cutoff) <= Old(w1.detail, run.compact);
      var next := After(w, run);
      assert next == Recorded(w1, run.between);
      ConflictStopsRetention(next, cutoff, runs[1..]);
    }
  }
}
