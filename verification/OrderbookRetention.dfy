/** Hourly compaction of orderbook snapshots (scripts/db/compact-db-retention.ts), as a state machine
    over the two statements of the script and the inserts of the live recorder.

    Besides the detail table, the state records two things the database does not store: every snapshot
    ever inserted, and for each hourly bucket the snapshots its current aggregates were computed from. */
module OrderbookRetention {
  import opened Wrappers
  import opened Rows

  datatype Stream = Stream(market: string, outcome: Option<string>, venue: string, venueMarket: string,
                           venueOutcome: Option<string>)
  datatype Quote = Quote(event: string, midpoint: Option<int>, bidDepth: int, blockers: nat)
  type Snapshot = Row<Stream, Quote>

  /** The conflict key of the upsert; the two COALESCEs merge NULL with the empty string. */
  datatype BucketKey = BucketKey(market: string, outcome: string, venue: string, venueMarket: string,
                                 venueOutcome: string, hour: int)

  const MS_PER_HOUR: int := 3_600_000

  function HourOf(at: int): int {
    at / MS_PER_HOUR
  }

  function KeyOf(r: Snapshot): BucketKey {
    BucketKey(r.group.market, r.group.outcome.GetOr(""), r.group.venue, r.group.venueMarket,
              r.group.venueOutcome.GetOr(""), HourOf(r.at))
  }

  /** Rows share a bucket when they agree on market, venue, venue market, the two outcomes with NULL as the empty text,
      and the hour. */
  lemma SameKeyMeans(r: Snapshot, x: Snapshot)
    ensures KeyOf(r) == KeyOf(x)
      <==> && r.group.market == x.group.market && r.group.venue == x.group.venue
           && r.group.venueMarket == x.group.venueMarket
           && r.group.outcome.GetOr("") == x.group.outcome.GetOr("")
           && r.group.venueOutcome.GetOr("") == x.group.venueOutcome.GetOr("")
           && r.at / 3_600_000 == x.at / 3_600_000
  {
  }

  function Old(t: set<Snapshot>, cutoff: int): set<Snapshot> {
    set r | r in t && r.at < cutoff
  }

  function OfKey(t: set<Snapshot>, k: BucketKey): set<Snapshot> {
    set r | r in t && KeyOf(r) == k
  }

  function Keys(t: set<Snapshot>): set<BucketKey> {
    set r | r in t :: KeyOf(r)
  }

  /** The statement groups by event id but its conflict key lacks the event id: two events in one key
      would make the upsert touch a bucket twice, which the database refuses. */
  predicate OneEventPerKey(t: set<Snapshot>) {
    forall a, b {:trigger KeyOf(a), KeyOf(b)} :: a in t && b in t && KeyOf(a) == KeyOf(b) ==> a.attrs.event == b.attrs.event
  }

  /** The compaction fails on two rows before the cutoff in one bucket with different events. */
  lemma ClashMeans(t: set<Snapshot>, cutoff: int)
    ensures !OneEventPerKey(Old(t, cutoff)) <==> exists a, b {:trigger KeyOf(a), KeyOf(b)} ::
      (a in t && b in t && a.at < cutoff && b.at < cutoff && KeyOf(a) == KeyOf(b) && a.attrs.event != b.attrs.event)
  {
    forall a, b {:trigger KeyOf(a), KeyOf(b)}
      | a in t && b in t && a.at < cutoff && b.at < cutoff && KeyOf(a) == KeyOf(b) && a.attrs.event != b.attrs.event
      ensures !OneEventPerKey(Old(t, cutoff))
    {
      assert a in Old(t, cutoff) && b in Old(t, cutoff);
    }
  }

  // ----- State and steps -----

  datatype World = World(detail: set<Snapshot>, ever: set<Snapshot>, source: map<BucketKey, set<Snapshot>>)

  datatype Step = Insert(rows: set<Snapshot>) | Compact(cutoff: int) | Delete(cutoff: int, limit: nat)

  ghost predicate Valid(w: World) {
    && UniqueIds(w.ever)
    && w.detail <= w.ever
    && forall k, r :: k in w.source && r in w.source[k] ==> r in w.ever && KeyOf(r) == k
  }

  ghost predicate Enabled(w: World, s: Step) {
    s.Insert? ==> s.rows !! w.ever && UniqueIds(w.ever + s.rows)
  }

  function Candidates(w: World, cutoff: int): set<Snapshot> {
    set r | r in Old(w.detail, cutoff) && KeyOf(r) in w.source
  }

  ghost function Batch(w: World, cutoff: int, limit: nat): set<Snapshot>
    requires Valid(w)
  {
    OldestN(Candidates(w, cutoff), limit)
  }

  ghost function CompactedSource(w: World, cutoff: int): map<BucketKey, set<Snapshot>> {
    var aged := Old(w.detail, cutoff);
    w.source + map k | k in Keys(aged) :: OfKey(aged, k)
  }

  ghost function Apply(w: World, s: Step): World
    requires Valid(w) && Enabled(w, s)
  {
    match s
    case Insert(rows) => w.(detail := w.detail + rows, ever := w.ever + rows)
    case Compact(cutoff) =>
      if OneEventPerKey(Old(w.detail, cutoff)) then w.(source := CompactedSource(w, cutoff)) else w
    case Delete(cutoff, limit) => w.(detail := w.detail - Batch(w, cutoff, limit))
  }

  lemma ApplyValid(w: World, s: Step)
    requires Valid(w) && Enabled(w, s)
    ensures Valid(Apply(w, s))
  {
  }

  /** Every step of the trace can be taken in turn. */
  ghost predicate Runs(w: World, steps: seq<Step>)
    requires Valid(w)
    decreases |steps|
  {
    steps != [] ==> Enabled(w, steps[0]) && (ApplyValid(w, steps[0]); Runs(Apply(w, steps[0]), steps[1..]))
  }

  ghost function Exec(w: World, steps: seq<Step>): (after: World)
    requires Valid(w) && Runs(w, steps)
    ensures Valid(after)
    decreases |steps|
  {
    if steps == [] then w else ApplyValid(w, steps[0]); Exec(Apply(w, steps[0]), steps[1..])
  }

  // ----- Every deleted row leaves a bucket behind -----

  function Deleted(w: World): set<Snapshot> {
    w.ever - w.detail
  }

  ghost predicate Backed(w: World) {
    forall r :: r in Deleted(w) ==> KeyOf(r) in w.source
  }

  /** Any interleaving of inserts, compactions and deletes, with any cutoffs and limits: a deleted row
      always has an hourly row with its key, and hourly rows are never removed. */
  lemma {:induction false} DeletedRowsStayBacked(w: World, steps: seq<Step>)
    requires Valid(w) && Backed(w) && Runs(w, steps)
    ensures Backed(Exec(w, steps))
    ensures w.source.Keys <= Exec(w, steps).source.Keys
    ensures Deleted(w) <= Deleted(Exec(w, steps)) && w.ever <= Exec(w, steps).ever
    decreases |steps|
  {
    if steps != [] {
      var s := steps[0];
      ApplyValid(w, s);
      if s.Delete? { OldestNIsPrefix(Candidates(w, s.cutoff), s.limit); }
      DeletedRowsStayBacked(Apply(w, s), steps[1..]);
    }
  }

  // ----- When is a deleted sample still counted? -----

  ghost predicate Covered(source: map<BucketKey, set<Snapshot>>, r: Snapshot) {
    KeyOf(r) in source && r in source[KeyOf(r)]
  }

  /** Every deleted row is among the rows its bucket currently aggregates. */
  ghost predicate Lossless(w: World) {
    forall r :: r in Deleted(w) ==> Covered(w.source, r)
  }

  /** No bucket this compaction writes has already given rows to a delete. */
  ghost predicate TouchesOnlyIntact(w: World, cutoff: int) {
    forall k :: k in Keys(Old(w.detail, cutoff)) ==> OfKey(Deleted(w), k) == {}
  }

  /** A compaction overwrites its buckets, so each must be intact; a delete must take only rows that a
      bucket currently aggregates. */
  ghost predicate Safe(w: World, s: Step)
    requires Valid(w)
  {
    match s
    case Insert(_) => true
    case Compact(cutoff) => OneEventPerKey(Old(w.detail, cutoff)) ==> TouchesOnlyIntact(w, cutoff)
    case Delete(cutoff, limit) => forall r :: r in Batch(w, cutoff, limit) ==> Covered(w.source, r)
  }

  lemma CompactLossless(w: World, cutoff: int)
    requires Valid(w) && OneEventPerKey(Old(w.detail, cutoff))
    ensures Lossless(Apply(w, Compact(cutoff))) <==> Lossless(w) && TouchesOnlyIntact(w, cutoff)
  {
    var aged := Old(w.detail, cutoff);
    var after := Apply(w, Compact(cutoff));
    forall r | r in Deleted(w)
      ensures Covered(after.source, r) <==> KeyOf(r) !in Keys(aged) && Covered(w.source, r)
      ensures KeyOf(r) in Keys(aged) ==> r in OfKey(Deleted(w), KeyOf(r))
    {
    }
    if !TouchesOnlyIntact(w, cutoff) {
      var k :| k in Keys(aged) && OfKey(Deleted(w), k) != {};
      var r :| r in OfKey(Deleted(w), k);
      assert !Covered(after.source, r);
    }
  }

  lemma DeleteTakesBatch(w: World, cutoff: int, limit: nat)
    requires Valid(w)
    ensures Batch(w, cutoff, limit) <= Candidates(w, cutoff) <= w.detail
    ensures Deleted(Apply(w, Delete(cutoff, limit))) == Deleted(w) + Batch(w, cutoff, limit)
  {
    OldestNIsPrefix(Candidates(w, cutoff), limit);
  }

  lemma StepLossless(w: World, s: Step)
    requires Valid(w) && Enabled(w, s)
    ensures Lossless(Apply(w, s)) <==> Lossless(w) && Safe(w, s)
  {
    if s.Insert? {
      assert Deleted(Apply(w, s)) == Deleted(w);
    } else if s.Compact? {
      if OneEventPerKey(Old(w.detail, s.cutoff)) { CompactLossless(w, s.cutoff); }
    } else {
      DeleteTakesBatch(w, s.cutoff, s.limit);
    }
  }

  ghost predicate AllSafe(w: World, steps: seq<Step>)
    requires Valid(w) && Runs(w, steps)
    decreases |steps|
  {
    steps != [] ==>
      Safe(w, steps[0]) && (ApplyValid(w, steps[0]); AllSafe(Apply(w, steps[0]), steps[1..]))
  }

  /** Over a whole history, no deleted sample drops out of its bucket exactly when every step was safe:
      one unsafe step loses samples for good. */
  lemma {:induction false} HistoryLossless(w: World, steps: seq<Step>)
    requires Valid(w) && Runs(w, steps)
    ensures Lossless(Exec(w, steps)) <==> Lossless(w) && AllSafe(w, steps)
    decreases |steps|
  {
    if steps != [] {
      StepLossless(w, steps[0]);
      ApplyValid(w, steps[0]);
      HistoryLossless(Apply(w, steps[0]), steps[1..]);
    }
  }

  // ----- When do the buckets of deleted rows account for everything ever inserted? -----

  ghost predicate Complete(w: World, k: BucketKey) {
    k in w.source && w.source[k] == OfKey(w.ever, k)
  }

  /** The bucket of every deleted row aggregates exactly the rows ever inserted for its key. */
  ghost predicate Conserved(w: World) {
    forall r :: r in Deleted(w) ==> Complete(w, KeyOf(r))
  }

  /** No row belongs to a bucket that already gave rows to a delete. */
  ghost predicate OnTime(w: World, rows: set<Snapshot>) {
    forall r :: r in rows ==> OfKey(Deleted(w), KeyOf(r)) == {}
  }

  /** No late row for a bucket that already gave rows to a delete; no compaction of such a bucket; and
      only rows of complete buckets are deleted. */
  ghost predicate Conserving(w: World, s: Step)
    requires Valid(w)
  {
    match s
    case Insert(rows) => OnTime(w, rows)
    case Compact(cutoff) => OneEventPerKey(Old(w.detail, cutoff)) ==> TouchesOnlyIntact(w, cutoff)
    case Delete(cutoff, limit) => forall r :: r in Batch(w, cutoff, limit) ==> Complete(w, KeyOf(r))
  }

  lemma InsertConserved(w: World, rows: set<Snapshot>)
    requires Valid(w) && Enabled(w, Insert(rows))
    ensures Conserved(Apply(w, Insert(rows))) <==> Conserved(w) && Conserving(w, Insert(rows))
  {
    var after := Apply(w, Insert(rows));
    assert Deleted(after) == Deleted(w);
    forall r | r in Deleted(w)
      ensures Complete(after, KeyOf(r)) <==> Complete(w, KeyOf(r)) && OfKey(rows, KeyOf(r)) == {}
    {
      var k := KeyOf(r);
      assert OfKey(after.ever, k) == OfKey(w.ever, k) + OfKey(rows, k);
      if k in w.source && OfKey(rows, k) != {} {
        var x :| x in OfKey(rows, k);
        assert x !in w.source[k];
      }
    }
    if !Conserving(w, Insert(rows)) {
      var x :| x in rows && OfKey(Deleted(w), KeyOf(x)) != {};
      var r :| r in OfKey(Deleted(w), KeyOf(x));
      assert x in OfKey(rows, KeyOf(r));
    }
    forall r, x | r in Deleted(w) && x in OfKey(rows, KeyOf(r)) ensures OfKey(Deleted(w), KeyOf(x)) != {} {
      assert r in OfKey(Deleted(w), KeyOf(x));
    }
  }

  lemma CompactConserved(w: World, cutoff: int)
    requires Valid(w) && OneEventPerKey(Old(w.detail, cutoff))
    ensures Conserved(Apply(w, Compact(cutoff))) <==> Conserved(w) && TouchesOnlyIntact(w, cutoff)
  {
    var aged := Old(w.detail, cutoff);
    var after := Apply(w, Compact(cutoff));
    forall r | r in Deleted(w)
      ensures Complete(after, KeyOf(r)) <==> KeyOf(r) !in Keys(aged) && Complete(w, KeyOf(r))
      ensures KeyOf(r) in Keys(aged) ==> r in OfKey(Deleted(w), KeyOf(r))
    {
      assert r in OfKey(w.ever, KeyOf(r)) && r !in OfKey(aged, KeyOf(r));
    }
    if !TouchesOnlyIntact(w, cutoff) {
      var k :| k in Keys(aged) && OfKey(Deleted(w), k) != {};
      var r :| r in OfKey(Deleted(w), k);
      assert !Complete(after, KeyOf(r));
    }
  }

  lemma StepConserved(w: World, s: Step)
    requires Valid(w) && Enabled(w, s)
    ensures Conserved(Apply(w, s)) <==> Conserved(w) && Conserving(w, s)
  {
    if s.Insert? {
      InsertConserved(w, s.rows);
    } else if s.Compact? {
      if OneEventPerKey(Old(w.detail, s.cutoff)) { CompactConserved(w, s.cutoff); }
    } else {
      DeleteTakesBatch(w, s.cutoff, s.limit);
      assert forall k :: Complete(Apply(w, s), k) <==> Complete(w, k);
    }
  }

  ghost predicate AllConserving(w: World, steps: seq<Step>)
    requires Valid(w) && Runs(w, steps)
    decreases |steps|
  {
    steps != [] ==>
      Conserving(w, steps[0]) && (ApplyValid(w, steps[0]); AllConserving(Apply(w, steps[0]), steps[1..]))
  }

  /** Conservation over a whole history, exactly: after it, the bucket of every deleted row aggregates
      all rows ever inserted for that bucket if and only if every step was conserving. */
  lemma {:induction false} HistoryConserved(w: World, steps: seq<Step>)
    requires Valid(w) && Runs(w, steps)
    ensures Conserved(Exec(w, steps)) <==> Conserved(w) && AllConserving(w, steps)
    decreases |steps|
  {
    if steps != [] {
      StepConserved(w, steps[0]);
      ApplyValid(w, steps[0]);
      HistoryConserved(Apply(w, steps[0]), steps[1..]);
    }
  }
}
