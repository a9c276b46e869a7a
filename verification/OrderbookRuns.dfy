/** Whole runs of the retention script: what one run deletes, how many runs drain a backlog, and when
    the hourly buckets still account for every snapshot ever inserted. */
module OrderbookRuns {
  import opened Arithmetic
  import opened Rows
  import opened OrderbookRetention

  // ----- One compaction followed by one limited delete at the same cutoff -----

  ghost function Compacted(w: World, cutoff: int): (after: World)
    requires Valid(w) && OneEventPerKey(Old(w.detail, cutoff))
    ensures Valid(after) && Candidates(after, cutoff) == Old(w.detail, cutoff)
    ensures after.detail == w.detail && after.ever == w.ever
  {
    ApplyValid(w, Compact(cutoff));
    Apply(w, Compact(cutoff))
  }

  ghost function OneRun(w: World, cutoff: int, limit: nat): (after: World)
    requires Valid(w) && OneEventPerKey(Old(w.detail, cutoff))
    ensures Valid(after)
    ensures after.detail == w.detail - OldestN(Old(w.detail, cutoff), limit) && after.ever == w.ever
  {
    ApplyValid(Compacted(w, cutoff), Delete(cutoff, limit));
    Apply(Compacted(w, cutoff), Delete(cutoff, limit))
  }

  lemma RemoveSubset(t: set<Snapshot>, ever: set<Snapshot>, d: set<Snapshot>, cutoff: int)
    requires t <= ever && d <= Old(t, cutoff)
    ensures t - (t - d) == d && ever - (t - d) == ever - t + d
    ensures Old(t - d, cutoff) == Old(t, cutoff) - d
    ensures |Old(t - d, cutoff)| == |Old(t, cutoff)| - |d|
  {
    assert Old(t - d, cutoff) == Old(t, cutoff) - d;
  }

  /** What one run deletes and leaves: the first `limit` old rows in (received_at, id) order go. */
  lemma RunDeletesPrefix(w: World, cutoff: int, limit: nat)
    requires Valid(w) && OneEventPerKey(Old(w.detail, cutoff))
    ensures var aged := Old(w.detail, cutoff);
      var gone := w.detail - OneRun(w, cutoff, limit).detail;
      && IsPrefix(gone, aged)
      && |gone| == (if limit <= |aged| then limit else |aged|)
      && Old(OneRun(w, cutoff, limit).detail, cutoff) == aged - gone
      && |Old(OneRun(w, cutoff, limit).detail, cutoff)| == |aged| - |gone|
      && Deleted(OneRun(w, cutoff, limit)) == Deleted(w) + gone
  {
    var aged := Old(w.detail, cutoff);
    OldestNIsPrefix(aged, limit);
    RemoveSubset(w.detail, w.ever, OldestN(aged, limit), cutoff);
  }

  /** The batch cut falls inside one hour: buckets that lose some but not all of their old rows in one
      run all share the same `bucket_start`. */
  lemma PartialBucketsShareHour(w: World, cutoff: int, limit: nat, k: BucketKey, m: BucketKey)
    requires Valid(w) && OneEventPerKey(Old(w.detail, cutoff))
    requires var after := OneRun(w, cutoff, limit).detail;
      && OfKey(w.detail - after, k) != {} && OfKey(Old(after, cutoff), k) != {}
      && OfKey(w.detail - after, m) != {} && OfKey(Old(after, cutoff), m) != {}
    ensures k.hour == m.hour
  {
    RunDeletesPrefix(w, cutoff, limit);
    var after := OneRun(w, cutoff, limit).detail;
    PrefixCutsOneHour(w.detail - after, Old(after, cutoff), k, m);
  }

  lemma PrefixCutsOneHour(gone: set<Snapshot>, left: set<Snapshot>, k: BucketKey, m: BucketKey)
    requires forall a, b :: a in gone && b in left ==> Older(a, b)
    requires OfKey(gone, k) != {} && OfKey(left, k) != {} && OfKey(gone, m) != {} && OfKey(left, m) != {}
    ensures k.hour == m.hour
  {
    var gk :| gk in OfKey(gone, k);
    var lk :| lk in OfKey(left, k);
    var gm :| gm in OfKey(gone, m);
    var lm :| lm in OfKey(left, m);
    assert Older(gk, lm) && Older(gm, lk);
    HourMonotone(gk.at, lm.at);
    HourMonotone(gm.at, lk.at);
  }

  lemma HourMonotone(a: int, b: int)
    requires a <= b
    ensures HourOf(a) <= HourOf(b)
  {
  }

  // ----- Draining a backlog -----

  ghost function ManyRuns(w: World, cutoff: int, limit: nat, runs: nat): (after: World)
    requires Valid(w) && OneEventPerKey(Old(w.detail, cutoff))
    ensures Valid(after)
    decreases runs
  {
    if runs == 0 then w
    else RunDeletesPrefix(w, cutoff, limit); ManyRuns(OneRun(w, cutoff, limit), cutoff, limit, runs - 1)
  }

  function Less(a: int, b: int): nat {
    if a <= b then 0 else a - b
  }

  lemma LessStep(n: nat, limit: nat, runs: nat)
    requires runs > 0
    ensures Less(Less(n, limit), (runs - 1) * limit) == Less(n, runs * limit)
  {
    MulMonotone(0, runs - 1, limit);
    MulSuccessor(runs - 1, limit);
  }

  /** What is left of a backlog after some runs. */
  ghost function LeftOf(backlog: set<Snapshot>, limit: nat, runs: nat): (left: set<Snapshot>)
    requires UniqueIds(backlog)
    ensures left <= backlog
    decreases runs
  {
    if runs == 0 then backlog else LeftOf(backlog - OldestN(backlog, limit), limit, runs - 1)
  }

  lemma BatchSize(backlog: set<Snapshot>, limit: nat)
    requires UniqueIds(backlog)
    ensures |backlog - OldestN(backlog, limit)| == Less(|backlog|, limit)
  {
    OldestNIsPrefix(backlog, limit);
    assert |backlog| == |OldestN(backlog, limit)| + |backlog - OldestN(backlog, limit)|;
  }

  lemma {:induction false} LeftOfSize(backlog: set<Snapshot>, limit: nat, runs: nat)
    requires UniqueIds(backlog)
    ensures |LeftOf(backlog, limit, runs)| == Less(|backlog|, runs * limit)
    decreases runs
  {
    if runs > 0 {
      LeftOfSize(backlog - OldestN(backlog, limit), limit, runs - 1);
      BatchSize(backlog, limit);
      LessStep(|backlog|, limit, runs);
    }
  }

  lemma {:induction false} BacklogAfter(w: World, cutoff: int, limit: nat, runs: nat)
    requires Valid(w) && OneEventPerKey(Old(w.detail, cutoff))
    ensures Old(ManyRuns(w, cutoff, limit, runs).detail, cutoff) == LeftOf(Old(w.detail, cutoff), limit, runs)
    decreases runs
  {
    if runs > 0 {
      OneRunBacklog(w, cutoff, limit);
      BacklogAfter(OneRun(w, cutoff, limit), cutoff, limit, runs - 1);
    }
  }

  lemma OneRunBacklog(w: World, cutoff: int, limit: nat)
    requires Valid(w) && OneEventPerKey(Old(w.detail, cutoff))
    ensures OneEventPerKey(Old(OneRun(w, cutoff, limit).detail, cutoff))
    ensures Old(OneRun(w, cutoff, limit).detail, cutoff) == Old(w.detail, cutoff) - OldestN(Old(w.detail, cutoff), limit)
  {
  }

  /** ceil(n / limit) */
  function RunsNeeded(n: nat, limit: nat): nat
    requires limit > 0
  {
    (n + limit - 1) / limit
  }

  lemma EnoughRuns(n: nat, limit: nat, runs: nat)
    requires limit > 0
    ensures runs * limit >= n <==> runs >= RunsNeeded(n, limit)
  {
    var q := RunsNeeded(n, limit);
    DivBounds(n + limit - 1, limit);
    if runs >= q { MulMonotone(q, runs, limit); } else { MulMonotone(runs + 1, q, limit); MulSuccessor(runs, limit); }
  }

  /** The last of several runs is one run on what the others left. */
  lemma {:induction false} ManyRunsLast(w: World, cutoff: int, limit: nat, runs: nat)
    requires Valid(w) && OneEventPerKey(Old(w.detail, cutoff))
    ensures var mid := ManyRuns(w, cutoff, limit, runs);
      OneEventPerKey(Old(mid.detail, cutoff)) && ManyRuns(w, cutoff, limit, runs + 1) == OneRun(mid, cutoff, limit)
    decreases runs
  {
    OneRunBacklog(w, cutoff, limit);
    if runs > 0 {
      ManyRunsLast(OneRun(w, cutoff, limit), cutoff, limit, runs - 1);
    } else {
      assert ManyRuns(OneRun(w, cutoff, limit), cutoff, limit, 0) == OneRun(w, cutoff, limit);
    }
  }

  /** With a fixed cutoff and no inserts, the backlog is gone after exactly ceil(n / limit) runs and not
      before; after `runs` runs max(0, n - runs * limit) old rows are left, and the next run deletes
      min(limit, what is left) of them. */
  lemma DrainTakesExactly(w: World, cutoff: int, limit: nat, runs: nat)
    requires Valid(w) && OneEventPerKey(Old(w.detail, cutoff)) && limit > 0
    ensures Old(ManyRuns(w, cutoff, limit, runs).detail, cutoff) == {}
       <==> runs >= RunsNeeded(|Old(w.detail, cutoff)|, limit)
    ensures |Old(ManyRuns(w, cutoff, limit, runs).detail, cutoff)| == Less(|Old(w.detail, cutoff)|, runs * limit)
    ensures var before, after := ManyRuns(w, cutoff, limit, runs).detail, ManyRuns(w, cutoff, limit, runs + 1).detail;
      && after <= before && before - after <= Old(before, cutoff)
      && |before - after| == if limit <= |Old(before, cutoff)| then limit else |Old(before, cutoff)|
  {
    BacklogAfter(w, cutoff, limit, runs);
    LeftOfSize(Old(w.detail, cutoff), limit, runs);
    EnoughRuns(|Old(w.detail, cutoff)|, limit, runs);
    ManyRunsLast(w, cutoff, limit, runs);
    RunDeletesPrefix(ManyRuns(w, cutoff, limit, runs), cutoff, limit);
  }

  // ----- Losses of one run, exactly -----

  ghost predicate Fresh(w: World, rows: set<Snapshot>) {
    rows !! w.ever && UniqueIds(w.ever + rows)
  }

  /** One run of the script, with the clock at `c1` when it compacts and at `c2` when it deletes, and rows
      arriving in between. */
  ghost function BeforeDelete(w: World, c1: int, arrivals: set<Snapshot>): (mid: World)
    requires Valid(w) && Fresh(w, arrivals)
    ensures Valid(mid) && mid.detail == w.detail + arrivals && mid.ever == w.ever + arrivals
    ensures mid.source == Apply(w, Compact(c1)).source && Deleted(mid) == Deleted(w)
  {
    ApplyValid(w, Compact(c1));
    ApplyValid(Apply(w, Compact(c1)), Insert(arrivals));
    Apply(Apply(w, Compact(c1)), Insert(arrivals))
  }

  ghost function ScriptRun(w: World, c1: int, arrivals: set<Snapshot>, c2: int, limit: nat): (after: World)
    requires Valid(w) && Fresh(w, arrivals)
    ensures Valid(after)
  {
    ApplyValid(BeforeDelete(w, c1, arrivals), Delete(c2, limit));
    Apply(BeforeDelete(w, c1, arrivals), Delete(c2, limit))
  }

  /** The compaction saw the row, or it did not write the row's bucket, which already counts the row. */
  ghost predicate Counted(w: World, c1: int, r: Snapshot) {
    r in Old(w.detail, c1) || (KeyOf(r) !in Keys(Old(w.detail, c1)) && Covered(w.source, r))
  }

  /** After one run with two clock readings no deleted row has dropped out of its bucket exactly when none had
      before, no bucket it compacts was already partly deleted, and the delete takes only counted rows. */
  lemma RunLossless(w: World, c1: int, arrivals: set<Snapshot>, c2: int, limit: nat)
    requires Valid(w) && Fresh(w, arrivals) && OneEventPerKey(Old(w.detail, c1))
    ensures Lossless(ScriptRun(w, c1, arrivals, c2, limit))
      <==> && Lossless(w) && TouchesOnlyIntact(w, c1)
           && forall r :: r in Batch(BeforeDelete(w, c1, arrivals), c2, limit) ==> Counted(w, c1, r)
  {
    CompactLossless(w, c1);
    var mid := BeforeDelete(w, c1, arrivals);
    assert Lossless(mid) <==> Lossless(w) && TouchesOnlyIntact(w, c1);
    StepLossless(mid, Delete(c2, limit));
    forall r | r in Batch(mid, c2, limit) ensures Covered(mid.source, r) <==> Counted(w, c1, r) {
      CoveredAfterCompact(w, c1, r);
    }
  }

  lemma CoveredAfterCompact(w: World, c1: int, r: Snapshot)
    requires Valid(w) && OneEventPerKey(Old(w.detail, c1))
    ensures Covered(Apply(w, Compact(c1)).source, r) <==> Counted(w, c1, r)
  {
    var after, aged := Apply(w, Compact(c1)), Old(w.detail, c1);
    if KeyOf(r) in Keys(aged) {
      assert after.source[KeyOf(r)] == OfKey(aged, KeyOf(r));
    }
  }

  /** With one clock reading for both statements and only newer arrivals, the last condition is free. */
  lemma RunLosslessOneCutoff(w: World, cutoff: int, arrivals: set<Snapshot>, limit: nat)
    requires Valid(w) && Fresh(w, arrivals) && OneEventPerKey(Old(w.detail, cutoff))
    requires forall r :: r in arrivals ==> r.at >= cutoff
    ensures Lossless(ScriptRun(w, cutoff, arrivals, cutoff, limit)) <==> Lossless(w) && TouchesOnlyIntact(w, cutoff)
  {
    RunLossless(w, cutoff, arrivals, cutoff, limit);
    var mid := BeforeDelete(w, cutoff, arrivals);
    DeleteTakesBatch(mid, cutoff, limit);
    assert Candidates(mid, cutoff) <= Old(w.detail, cutoff);
  }

  /** No bucket was computed from rows at or after `cutoff`. */
  ghost predicate BuiltBefore(w: World, cutoff: int) {
    forall k, r :: k in w.source && r in w.source[k] ==> r.at < cutoff
  }

  // ----- When one run conserves, exactly -----

  /** Every row of the bucket of `r` was there, and old enough, when the compaction ran. */
  ghost predicate BucketSeen(w: World, c1: int, arrivals: set<Snapshot>, r: Snapshot) {
    forall x :: x in w.detail + arrivals && KeyOf(x) == KeyOf(r) ==> x in Old(w.detail, c1)
  }

  /** The compaction did not write the bucket of `r`, an earlier one had got all of it, and nothing was added. */
  ghost predicate BucketLeftAlone(w: World, c1: int, arrivals: set<Snapshot>, r: Snapshot) {
    KeyOf(r) !in Keys(Old(w.detail, c1)) && Complete(w, KeyOf(r)) && OfKey(arrivals, KeyOf(r)) == {}
  }

  /** The delete takes only from buckets this compaction saw whole. */
  ghost predicate TakesWhatWasSeen(w: World, c1: int, arrivals: set<Snapshot>, c2: int, limit: nat)
    requires Valid(w) && Fresh(w, arrivals)
  {
    forall r :: r in Batch(BeforeDelete(w, c1, arrivals), c2, limit) ==> BucketSeen(w, c1, arrivals, r)
  }

  /** ... or from buckets this compaction had no reason to write. */
  ghost predicate TakesWholeBuckets(w: World, c1: int, arrivals: set<Snapshot>, c2: int, limit: nat)
    requires Valid(w) && Fresh(w, arrivals)
  {
    forall r :: r in Batch(BeforeDelete(w, c1, arrivals), c2, limit) ==>
      BucketSeen(w, c1, arrivals, r) || BucketLeftAlone(w, c1, arrivals, r)
  }

  lemma BucketCompleteIff(w: World, c1: int, arrivals: set<Snapshot>, r: Snapshot)
    requires Valid(w) && Fresh(w, arrivals) && OneEventPerKey(Old(w.detail, c1))
    requires TouchesOnlyIntact(w, c1) && r in w.detail + arrivals
    ensures Complete(BeforeDelete(w, c1, arrivals), KeyOf(r))
      <==> BucketSeen(w, c1, arrivals, r) || BucketLeftAlone(w, c1, arrivals, r)
  {
    if KeyOf(r) in Keys(Old(w.detail, c1)) {
      WrittenBucketComplete(w, c1, arrivals, r);
    } else {
      UnwrittenBucketComplete(w, c1, arrivals, KeyOf(r));
    }
  }

  lemma WrittenBucketComplete(w: World, c1: int, arrivals: set<Snapshot>, r: Snapshot)
    requires Valid(w) && Fresh(w, arrivals) && OneEventPerKey(Old(w.detail, c1))
    requires TouchesOnlyIntact(w, c1) && KeyOf(r) in Keys(Old(w.detail, c1))
    ensures Complete(BeforeDelete(w, c1, arrivals), KeyOf(r)) <==> BucketSeen(w, c1, arrivals, r)
  {
    var mid, k, aged := BeforeDelete(w, c1, arrivals), KeyOf(r), Old(w.detail, c1);
    assert mid.source[k] == OfKey(aged, k);
    forall x | x in OfKey(mid.ever, k) ensures x in w.detail + arrivals {
      assert x in Deleted(w) ==> x in OfKey(Deleted(w), k);
    }
    if BucketSeen(w, c1, arrivals, r) {
      assert OfKey(mid.ever, k) == OfKey(aged, k);
    } else {
      var x :| x in w.detail + arrivals && KeyOf(x) == k && x !in aged;
      assert x in OfKey(mid.ever, k) && x !in OfKey(aged, k);
    }
  }

  lemma UnwrittenBucketComplete(w: World, c1: int, arrivals: set<Snapshot>, k: BucketKey)
    requires Valid(w) && Fresh(w, arrivals) && OneEventPerKey(Old(w.detail, c1)) && k !in Keys(Old(w.detail, c1))
    ensures Complete(BeforeDelete(w, c1, arrivals), k) <==> Complete(w, k) && OfKey(arrivals, k) == {}
  {
    var mid := BeforeDelete(w, c1, arrivals);
    assert OfKey(mid.ever, k) == OfKey(w.ever, k) + OfKey(arrivals, k);
    if k in w.source && OfKey(arrivals, k) != {} {
      var x :| x in OfKey(arrivals, k);
      assert x !in w.source[k];
    }
  }

  /** One run with two clock readings and rows arriving in between, whatever its cutoffs: afterwards the buckets of
      all deleted rows account for everything ever inserted exactly when they did before, no bucket it compacts had
      given rows to a delete, no arrival is late, and the delete takes only whole buckets. */
  lemma ScriptRunConserved(w: World, c1: int, arrivals: set<Snapshot>, c2: int, limit: nat)
    requires Valid(w) && Fresh(w, arrivals) && OneEventPerKey(Old(w.detail, c1))
    ensures Conserved(ScriptRun(w, c1, arrivals, c2, limit))
      <==> Conserved(w) && TouchesOnlyIntact(w, c1) && OnTime(w, arrivals) && TakesWholeBuckets(w, c1, arrivals, c2, limit)
  {
    var compacted, mid := Apply(w, Compact(c1)), BeforeDelete(w, c1, arrivals);
    ApplyValid(w, Compact(c1));
    CompactConserved(w, c1);
    InsertConserved(compacted, arrivals);
    assert Deleted(compacted) == Deleted(w);
    StepConserved(mid, Delete(c2, limit));
    DeleteTakesBatch(mid, c2, limit);
    if TouchesOnlyIntact(w, c1) {
      forall r | r in Batch(mid, c2, limit)
        ensures Complete(mid, KeyOf(r)) <==> BucketSeen(w, c1, arrivals, r) || BucketLeftAlone(w, c1, arrivals, r)
      {
        BucketCompleteIff(w, c1, arrivals, r);
      }
    }
  }

  /** The last condition is about rows and cutoffs alone when no bucket was built with a later cutoff, as holds when
      the clock moves forward, or when both statements see one cutoff. */
  lemma NoBucketLeftAlone(w: World, c1: int, arrivals: set<Snapshot>, c2: int, limit: nat)
    requires Valid(w) && Fresh(w, arrivals) && OneEventPerKey(Old(w.detail, c1))
    requires BuiltBefore(w, c1) || (arrivals == {} && c2 == c1)
    ensures TakesWholeBuckets(w, c1, arrivals, c2, limit) <==> TakesWhatWasSeen(w, c1, arrivals, c2, limit)
  {
    var mid := BeforeDelete(w, c1, arrivals);
    DeleteTakesBatch(mid, c2, limit);
    forall r | r in Batch(mid, c2, limit) ensures !BucketLeftAlone(w, c1, arrivals, r) {
      assert r in w.detail + arrivals && r.at < c2;
      if r in arrivals {
        assert r in OfKey(arrivals, KeyOf(r));
      } else if r in Old(w.detail, c1) {
        assert KeyOf(r) in Keys(Old(w.detail, c1));
      } else {
        assert r in OfKey(w.ever, KeyOf(r));
      }
    }
  }

  lemma OneRunIsScriptRun(w: World, cutoff: int, limit: nat)
    requires Valid(w) && OneEventPerKey(Old(w.detail, cutoff))
    ensures Fresh(w, {}) && OneRun(w, cutoff, limit) == ScriptRun(w, cutoff, {}, cutoff, limit)
    ensures Batch(BeforeDelete(w, cutoff, {}), cutoff, limit) == OldestN(Old(w.detail, cutoff), limit)
  {
    assert w.ever + {} == w.ever;
    assert BeforeDelete(w, cutoff, {}) == Compacted(w, cutoff);
  }

  /** One run with one clock reading, whatever the cutoff and the limit: it conserves exactly when it compacts
      only intact buckets and every row that shares a bucket with a deleted one is older than the cutoff. */
  lemma OneRunConserved(w: World, cutoff: int, limit: nat)
    requires Valid(w) && OneEventPerKey(Old(w.detail, cutoff))
    ensures Conserved(OneRun(w, cutoff, limit))
      <==> && Conserved(w) && TouchesOnlyIntact(w, cutoff)
           && forall r, x :: r in OldestN(Old(w.detail, cutoff), limit) && x in w.detail && KeyOf(x) == KeyOf(r)
                ==> x.at < cutoff
  {
    OneRunIsScriptRun(w, cutoff, limit);
    ScriptRunConserved(w, cutoff, {}, cutoff, limit);
    NoBucketLeftAlone(w, cutoff, {}, cutoff, limit);
    assert w.detail + {} == w.detail;
  }
}
