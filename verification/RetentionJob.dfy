/** The retention script itself (scripts/db/compact-db-retention.ts): its tables as fields, its statements
    as methods, and the order of statements in `main`. */
module RetentionJob {
  import opened Wrappers
  import opened Rows
  import opened KeepNewest
  import opened OrderbookRetention

  // ----- Configuration -----

  /** A command line option after `Number.parseInt`: absent or empty, not finite, or an integer. */
  datatype IntOption = Absent | NotFinite | Parsed(value: int)

  /** The fallback is clamped when the option is absent, but not when it fails to parse. */
  function IntArg(raw: IntOption, fallback: int, min: int, max: int): (r: int)
    requires min <= fallback <= max
    ensures min <= r <= max
    ensures raw.Parsed? && min <= raw.value <= max ==> r == raw.value
    ensures !raw.Parsed? ==> r == fallback
    ensures raw.Parsed? ==> forall x :: min <= x <= max ==> Distance(raw.value, r) <= Distance(raw.value, x)
  {
    if raw.NotFinite? then fallback
    else
      var parsed := if raw.Absent? then fallback else raw.value;
      var atLeast := if parsed > min then parsed else min;
      if atLeast < max then atLeast else max
  }

  function Distance(a: int, b: int): nat {
    if a <= b then b - a else a - b
  }

  datatype Options = Options(detailDays: IntOption, auditDays: IntOption, reconDays: IntOption, keepPerLeg: IntOption,
                             batchLimit: IntOption)

  datatype Config = Config(detailDays: nat, auditDays: nat, reconDays: nat, keepPerLeg: nat, batchLimit: nat)

  function Configure(o: Options): (c: Config)
    ensures c.detailDays > 0 && c.auditDays > 0 && c.reconDays > 0
    ensures 1 <= c.keepPerLeg <= 100 && 100 <= c.batchLimit <= 500_000
  {
    Config(IntArg(o.detailDays, 14, 1, 365), IntArg(o.auditDays, 7, 1, 365), IntArg(o.reconDays, 60, 1, 730),
           IntArg(o.keepPerLeg, 3, 1, 100), IntArg(o.batchLimit, 50_000, 100, 500_000))
  }

  /** What an option does: an integer in range is used, one out of range is moved to the nearer end, and without an
      integer the fallback holds. */
  ghost predicate Follows(raw: IntOption, value: int, fallback: int, min: int, max: int) {
    match raw
    case Parsed(n) => if n < min then value == min else if n > max then value == max else value == n
    case _ => value == fallback
  }

  /** Each setting follows its own option. */
  lemma ConfigureMeans(o: Options)
    ensures Follows(o.detailDays, Configure(o).detailDays, 14, 1, 365)
    ensures Follows(o.auditDays, Configure(o).auditDays, 7, 1, 365)
    ensures Follows(o.reconDays, Configure(o).reconDays, 60, 1, 730)
    ensures Follows(o.keepPerLeg, Configure(o).keepPerLeg, 3, 1, 100)
    ensures Follows(o.batchLimit, Configure(o).batchLimit, 50_000, 100, 500_000)
  {
  }

  const MS_PER_DAY: int := 24 * MS_PER_HOUR

  function Cutoff(now: int, days: nat): (cutoff: int)
    ensures cutoff == now - days * 86_400_000
  {
    now - days * MS_PER_DAY
  }

  // ----- Hourly buckets -----

  datatype Bucket = Bucket(event: string, count: nat, first: int, last: int, lastMidpoint: Option<int>,
                           maxBidDepth: int, blockerCount: nat)

  /** `m` is the midpoint of a latest row that has one (rows received at the same instant tie). */
  ghost predicate IsLastMidpoint(m: Option<int>, s: set<Snapshot>) {
    match m
    case None => forall r :: r in s ==> r.attrs.midpoint.None?
    case Some(_) => exists r :: r in s && r.attrs.midpoint == m && IsLatestMid(r, s)
  }

  ghost predicate IsLatestMid(r: Snapshot, s: set<Snapshot>) {
    forall x :: x in s && x.attrs.midpoint.Some? ==> x.at <= r.at
  }

  function Blocked(s: set<Snapshot>): set<Snapshot> {
    set r | r in s && r.attrs.blockers > 0
  }

  ghost predicate IsMin(m: int, s: set<Snapshot>) {
    (exists r :: r in s && r.at == m) && forall r :: r in s ==> m <= r.at
  }

  ghost predicate IsMax(m: int, s: set<Snapshot>) {
    (exists r :: r in s && r.at == m) && forall r :: r in s ==> r.at <= m
  }

  ghost predicate IsMaxDepth(m: int, s: set<Snapshot>) {
    (exists r :: r in s && r.attrs.bidDepth == m) && forall r :: r in s ==> r.attrs.bidDepth <= m
  }

  /** What the SELECT computes for one group. */
  ghost predicate IsAggregate(b: Bucket, s: set<Snapshot>) {
    && (forall r :: r in s ==> r.attrs.event == b.event)
    && b.count == |s|
    && IsMin(b.first, s)
    && IsMax(b.last, s)
    && IsLastMidpoint(b.lastMidpoint, s)
    && IsMaxDepth(b.maxBidDepth, s)
    && b.blockerCount == |Blocked(s)|
  }

  /** What an hourly row says about the rows it was computed from. */
  lemma AggregateMeans(b: Bucket, s: set<Snapshot>)
    requires IsAggregate(b, s)
    ensures b.count == |s| && forall x :: x in s ==> x.attrs.event == b.event
    ensures (forall x :: x in s ==> b.first <= x.at <= b.last)
    ensures (exists x :: x in s && x.at == b.first) && (exists x :: x in s && x.at == b.last)
    ensures (forall x :: x in s ==> x.attrs.bidDepth <= b.maxBidDepth) && exists x :: x in s && x.attrs.bidDepth == b.maxBidDepth
    ensures b.blockerCount == |set x | x in s && x.attrs.blockers > 0|
    ensures b.lastMidpoint.None? <==> forall x :: x in s ==> x.attrs.midpoint.None?
    ensures b.lastMidpoint.Some? ==> exists r ::
      (r in s && r.attrs.midpoint == b.lastMidpoint && forall x :: x in s && x.attrs.midpoint.Some? ==> x.at <= r.at)
  {
    assert Blocked(s) == set x | x in s && x.attrs.blockers > 0;
    if b.lastMidpoint.Some? {
      var r :| r in s && r.attrs.midpoint == b.lastMidpoint && IsLatestMid(r, s);
    }
  }

  /** Aggregates of the same rows differ at most in which of several simultaneous midpoints they kept. */
  lemma AggregatesAgree(a: Bucket, b: Bucket, s: set<Snapshot>)
    requires IsAggregate(a, s) && IsAggregate(b, s)
    ensures a == b.(lastMidpoint := a.lastMidpoint)
    ensures a.lastMidpoint.Some? == b.lastMidpoint.Some?
    ensures (forall x, y :: x in s && y in s && x.at == y.at ==> x == y) ==> a == b
  {
    var r :| r in s;
    var x :| x in s && x.attrs.bidDepth == a.maxBidDepth;
    var y :| y in s && y.attrs.bidDepth == b.maxBidDepth;
    var p :| p in s && p.at == a.first;
    var q :| q in s && q.at == b.first;
    var u :| u in s && u.at == a.last;
    var v :| v in s && v.at == b.last;
  }

  /** Adds one row to the aggregates; `midAt` is when the kept midpoint was received. */
  function AddRow(b: Bucket, midAt: int, x: Snapshot): (Bucket, int) {
    var takeMid := x.attrs.midpoint.Some? && (b.lastMidpoint.None? || x.at > midAt);
    (Bucket(b.event, b.count + 1,
            if x.at < b.first then x.at else b.first,
            if x.at > b.last then x.at else b.last,
            if takeMid then x.attrs.midpoint else b.lastMidpoint,
            if x.attrs.bidDepth > b.maxBidDepth then x.attrs.bidDepth else b.maxBidDepth,
            b.blockerCount + if x.attrs.blockers > 0 then 1 else 0),
     if takeMid then x.at else midAt)
  }

  ghost predicate KeptMidpoint(m: Option<int>, midAt: int, s: set<Snapshot>) {
    match m
    case None => forall r :: r in s ==> r.attrs.midpoint.None?
    case Some(_) => exists r :: r in s && r.attrs.midpoint == m && r.at == midAt && IsLatestMid(r, s)
  }

  lemma AddRowMidpoint(b: Bucket, midAt: int, seen: set<Snapshot>, x: Snapshot)
    requires KeptMidpoint(b.lastMidpoint, midAt, seen)
    ensures KeptMidpoint(AddRow(b, midAt, x).0.lastMidpoint, AddRow(b, midAt, x).1, seen + {x})
  {
    var m := AddRow(b, midAt, x).0.lastMidpoint;
    if m.Some? {
      if x.attrs.midpoint.Some? && (b.lastMidpoint.None? || x.at > midAt) {
        assert x in seen + {x} && IsLatestMid(x, seen + {x});
      } else {
        var r :| r in seen && r.attrs.midpoint == b.lastMidpoint && r.at == midAt && IsLatestMid(r, seen);
        assert r in seen + {x} && IsLatestMid(r, seen + {x});
      }
    }
  }

  lemma AddRowExtent(b: Bucket, midAt: int, seen: set<Snapshot>, x: Snapshot)
    requires IsMin(b.first, seen) && IsMax(b.last, seen) && IsMaxDepth(b.maxBidDepth, seen)
    ensures var next := AddRow(b, midAt, x).0;
      IsMin(next.first, seen + {x}) && IsMax(next.last, seen + {x}) && IsMaxDepth(next.maxBidDepth, seen + {x})
  {
    var all := seen + {x};
    var p :| p in seen && p.at == b.first;
    var q :| q in seen && q.at == b.last;
    var d :| d in seen && d.attrs.bidDepth == b.maxBidDepth;
    assert x in all && p in all && q in all && d in all;
  }

  lemma AddRowAggregates(b: Bucket, midAt: int, seen: set<Snapshot>, x: Snapshot)
    requires IsAggregate(b, seen) && KeptMidpoint(b.lastMidpoint, midAt, seen)
    requires x !in seen && x.attrs.event == b.event
    ensures IsAggregate(AddRow(b, midAt, x).0, seen + {x})
    ensures KeptMidpoint(AddRow(b, midAt, x).0.lastMidpoint, AddRow(b, midAt, x).1, seen + {x})
  {
    AddRowMidpoint(b, midAt, seen, x);
    AddRowExtent(b, midAt, seen, x);
    AddRowCounts(seen, x);
  }

  lemma AddRowCounts(seen: set<Snapshot>, x: Snapshot)
    requires x !in seen
    ensures |seen + {x}| == |seen| + 1
    ensures |Blocked(seen + {x})| == |Blocked(seen)| + if x.attrs.blockers > 0 then 1 else 0
  {
    assert Blocked(seen + {x}) == Blocked(seen) + if x.attrs.blockers > 0 then {x} else {};
  }

  /** The rows in any physical order: the loop picks them arbitrarily. */
  method Aggregate(s: set<Snapshot>) returns (b: Bucket)
    requires s != {} && OneEventPerKey(s)
    requires forall x, y :: x in s && y in s ==> KeyOf(x) == KeyOf(y)
    ensures IsAggregate(b, s)
  {
    var r :| r in s;
    var midAt, left := r.at, s - {r};
    b := Bucket(r.attrs.event, 1, r.at, r.at, r.attrs.midpoint, r.attrs.bidDepth, if r.attrs.blockers > 0 then 1 else 0);
    OneRowAggregates(b, r);
    assert s - left == {r};
    while left != {}
      invariant left <= s && b.event == r.attrs.event
      invariant IsAggregate(b, s - left) && KeptMidpoint(b.lastMidpoint, midAt, s - left)
      decreases left
    {
      var x :| x in left;
      assert x.attrs.event == r.attrs.event by { assert KeyOf(x) == KeyOf(r); }
      AddRowAggregates(b, midAt, s - left, x);
      assert s - (left - {x}) == s - left + {x};
      var next := AddRow(b, midAt, x);
      b, midAt, left := next.0, next.1, left - {x};
    }
    assert s - left == s;
  }

  lemma OneRowAggregates(b: Bucket, r: Snapshot)
    requires b == Bucket(r.attrs.event, 1, r.at, r.at, r.attrs.midpoint, r.attrs.bidDepth,
                         if r.attrs.blockers > 0 then 1 else 0)
    ensures IsAggregate(b, {r}) && KeptMidpoint(b.lastMidpoint, r.at, {r})
  {
    assert r in {r};
    assert Blocked({r}) == if r.attrs.blockers > 0 then {r} else {};
    assert IsLatestMid(r, {r});
  }

  // ----- Ranked tables -----

  datatype AuditGroup = AuditGroup(intent: nat, leg: Option<nat>, eventType: string, payload: string)

  datatype ReconGroup = ReconGroup(intent: nat, leg: nat, venue: string)
  datatype ReconFlags = ReconFlags(readyToTrade: bool, destinationReceived: bool, venueCreditConfirmed: bool)
  type ReconRow = Row<ReconGroup, ReconFlags>

  function AnyRow<G, A>(): Row<G, A> -> bool {
    r => true
  }

  /** The WHERE clause over the two joins: a ready record of a ready leg of a ready intent. */
  function Successful(intents: map<nat, string>, legs: map<nat, string>): ReconRow -> bool {
    (r: ReconRow) =>
      && r.attrs.readyToTrade && r.attrs.destinationReceived && r.attrs.venueCreditConfirmed
      && r.group.intent in intents && intents[r.group.intent] in {"READY_TO_TRADE", "PARTIALLY_READY_TO_TRADE"}
      && r.group.leg in legs && legs[r.group.leg] == "LEG_READY_TO_TRADE"
  }

  /** A reconciliation record that is not successful in every respect is never pruned, and neither are the
      `keep` newest successful ones of its leg and venue, or one that is not old yet. */
  lemma ReconciliationKept(rows: set<ReconRow>, intents: map<nat, string>, legs: map<nat, string>, keep: nat, cutoff: int,
                           limit: nat, r: ReconRow)
    requires UniqueIds(rows) && r in rows
    requires
      || !r.attrs.readyToTrade || !r.attrs.destinationReceived || !r.attrs.venueCreditConfirmed
      || r.group.intent !in intents || r.group.leg !in legs
      || (intents[r.group.intent] != "READY_TO_TRADE" && intents[r.group.intent] != "PARTIALLY_READY_TO_TRADE")
      || legs[r.group.leg] != "LEG_READY_TO_TRADE"
      || r.at >= cutoff
      || Rank(Scope(rows, Successful(intents, legs)), r) <= keep
    ensures r in DeleteBatch(rows, Successful(intents, legs), keep, OlderThan(cutoff), limit)
  {
    BatchKeeps(rows, Successful(intents, legs), keep, OlderThan(cutoff), limit, r);
  }

  // ----- The script -----

  /** The readings of `now()` the statements of one run see, in statement order. */
  datatype Clock = Clock(count: int, compact: int, delete: int, audit: int, recon: int)

  datatype TableSummary = TableSummary(before: nat, eligible: nat, deleted: nat, after: Option<nat>)

  /** The hourly rows before, written, and after. */
  datatype BucketSummary = BucketSummary(before: nat, touched: nat, after: Option<nat>)

  datatype Summary = Summary(snapshots: TableSummary, buckets: BucketSummary, audit: TableSummary, recon: TableSummary)

  /** The accounting of the report: a dry run deletes nothing; an applied run deletes within the limit, and
      before - deleted = after. */
  ghost predicate Balanced(t: TableSummary, apply: bool, limit: nat) {
    && (apply <==> t.after.Some?)
    && t.deleted <= limit
    && (if apply then t.after == Some(t.before - t.deleted) else t.deleted == 0)
  }

  /** The report of one table: rows before, rows counted as eligible, rows deleted, rows after. */
  ghost predicate Reports(t: TableSummary, before: nat, eligible: nat, after: int, apply: bool, limit: nat) {
    Balanced(t, apply, limit) && t.before == before && t.eligible == eligible && t.deleted == before - after
  }

  /** The bucket figures: an active run writes one hourly row for each bucket with an old row. */
  function BucketFigures(before: map<BucketKey, Bucket>, rows: set<Snapshot>, apply: bool, counted: nat, cutoff: int,
                         after: map<BucketKey, Bucket>): BucketSummary {
    BucketSummary(|before|, if apply && counted > 0 then |Keys(Old(rows, cutoff))| else 0, if apply then Some(|after|) else None)
  }

  /** The CTEs of one ranked DELETE: rank, filter, order, limit. */
  method SelectBatch<G(==), A(==)>(t: set<Row<G, A>>, candidates: set<Row<G, A>>, limit: nat)
    returns (taken: set<Row<G, A>>)
    requires UniqueIds(candidates) && candidates <= t
    ensures taken == OldestN(candidates, limit)
    ensures taken <= t && |taken| <= limit && |t - taken| == |t| - |taken|
    ensures |taken| == limit || taken == candidates
  {
    taken := TakeOldest(candidates, limit);
    OldestNIsPrefix(candidates, limit);
    if |candidates| <= limit { OldestNAll(candidates, limit); }
  }

  /** The statements that write, in order. Each commits by itself. */
  datatype Statement = CompactRows | DeleteRows | DeleteDuplicates | DeleteReconciliations

  /** The first snapshot statement that raises: the compaction on two events in one bucket, or either one because
      the database refuses it. */
  ghost function SnapshotFailure(w: World, active: bool, compacted: int, faults: set<Statement>): Option<Statement> {
    if !active then None
    else if CompactRows in faults || !OneEventPerKey(Old(w.detail, compacted)) then Some(CompactRows)
    else if DeleteRows in faults then Some(DeleteRows)
    else None
  }

  /** The state after the snapshot statements of one run: what was executed before a failure stays. */
  ghost function SnapshotRun(w: World, active: bool, compacted: int, deleted: int, limit: nat, faults: set<Statement>): (after: World)
    requires OrderbookRetention.Valid(w)
    ensures OrderbookRetention.Valid(after)
  {
    ApplyValid(w, Compact(compacted));
    var failure := SnapshotFailure(w, active, compacted, faults);
    if !active || failure == Some(CompactRows) then w
    else
      var next := Apply(w, Compact(compacted));
      if failure == Some(DeleteRows) then next
      else
        ApplyValid(next, Delete(deleted, limit));
        Apply(next, Delete(deleted, limit))
  }

  /** A table pruned by ranked deletes: funding_audit_events, funding_reconciliation_records. */
  class RankedTable<G(==), A(==)> {
    var rows: set<Row<G, A>>

    method DeleteRanked(inScope: Row<G, A> -> bool, keep: nat, cutoff: int, limit: nat) returns (deleted: nat)
      requires UniqueIds(rows)
      modifies this
      ensures UniqueIds(rows)
      ensures rows == DeleteBatch(old(rows), inScope, keep, OlderThan(cutoff), limit)
      ensures deleted == |old(rows)| - |rows| && deleted <= limit && rows <= old(rows)
      ensures IsRankedDelete(old(rows), rows, inScope, keep, cutoff, limit)
    {
      RankedDeleteMeans(rows, inScope, keep, cutoff, limit);
      var taken := SelectBatch(rows, Eligible(rows, inScope, keep, OlderThan(cutoff)), limit);
      deleted := |taken|;
      rows := rows - taken;
    }

    /** The delete is skipped when the first count found nothing. */
    method Prune(apply: bool, counted: nat, inScope: Row<G, A> -> bool, keep: nat, cutoff: int, limit: nat)
      returns (t: TableSummary)
      requires UniqueIds(rows)
      modifies this
      ensures UniqueIds(rows)
      ensures rows == if apply && counted > 0 then DeleteBatch(old(rows), inScope, keep, OlderThan(cutoff), limit) else old(rows)
      ensures Reports(t, |old(rows)|, counted, |rows|, apply, limit)
    {
      var before, deleted := |rows|, 0;
      if apply && counted > 0 {
        deleted := DeleteRanked(inScope, keep, cutoff, limit);
      }
      t := TableSummary(before, counted, deleted, if apply then Some(|rows|) else None);
    }
  }

  /** venue_orderbook_snapshots and its hourly compactions. */
  class SnapshotTables {
    var snapshots: set<Snapshot>
    var hourly: map<BucketKey, Bucket>
    ghost var ever: set<Snapshot>
    ghost var source: map<BucketKey, set<Snapshot>>

    ghost predicate Valid()
      reads this
    {
      && OrderbookRetention.Valid(World())
      && Summarizes(hourly, source)
    }

    ghost function World(): World
      reads this
    {
      OrderbookRetention.World(snapshots, ever, source)
    }

    /** INSERT ... SELECT ... GROUP BY ... ON CONFLICT DO UPDATE. The statement fails as a whole, changing
        nothing, when two events share a conflict key. */
    method CompactOldOrderbookRows(cutoff: int) returns (r: Result<nat, string>)
      requires Valid()
      modifies this`hourly, this`source
      ensures Valid()
      ensures r.Ok? <==> OneEventPerKey(Old(snapshots, cutoff))
      ensures World() == Apply(old(World()), Compact(cutoff))
      ensures r.Ok? ==> r.value == |Keys(Old(snapshots, cutoff))|
      ensures r.Ok? ==> Rewritten(old(hourly), hourly, source, snapshots, cutoff)
      ensures r.Err? ==> unchanged(this)
    {
      ghost var before := World();
      ApplyValid(before, Compact(cutoff));
      var aged := Old(snapshots, cutoff);
      if !OneEventPerKey(aged) {
        return Err("ON CONFLICT DO UPDATE command cannot affect row a second time");
      }
      var written := AggregateGroups(aged);
      RewrittenBy(hourly, before, cutoff, written);
      OverwriteSummarizes(hourly, source, written, RowsByKey(aged, Keys(aged)));
      hourly := hourly + written;
      source := CompactedSource(before, cutoff);
      assert World() == Apply(before, Compact(cutoff));
      r := Ok(|Keys(aged)|);
    }

    method DeleteBackedRows(cutoff: int, limit: nat) returns (deleted: nat)
      requires Valid()
      modifies this`snapshots
      ensures Valid()
      ensures snapshots == Apply(old(World()), Delete(cutoff, limit)).detail
      ensures deleted == |old(snapshots)| - |snapshots| && deleted <= limit && snapshots <= old(snapshots)
    {
      ghost var before := World();
      var left;
      left, deleted := SelectCompacted(snapshots, hourly.Keys, before, cutoff, limit);
      snapshots := left;
      assert World() == before.(detail := left);
    }

    /** DELETE of the first `limit` old rows, by (received_at, id), whose hourly row exists. */
    method DeleteCompactedOrderbookRows(cutoff: int, limit: nat) returns (deleted: nat)
      requires Valid()
      modifies this`snapshots
      ensures Valid()
      ensures snapshots == Apply(old(World()), Delete(cutoff, limit)).detail
      ensures deleted == |old(snapshots)| - |snapshots| && deleted <= limit && snapshots <= old(snapshots)
      ensures TakesEarliestBacked(old(snapshots), snapshots, hourly.Keys, cutoff)
    {
      ghost var before := World();
      DeleteTakesEarliest(before, cutoff, limit);
      deleted := DeleteBackedRows(cutoff, limit);
    }

    /** A row the live recorder inserts. */
    method Record(rows: set<Snapshot>)
      requires Valid() && Enabled(World(), Insert(rows))
      modifies this`snapshots, this`ever
      ensures Valid()
      ensures World() == old(Apply(World(), Insert(rows)))
    {
      ApplyValid(World(), Insert(rows));
      snapshots, ever := snapshots + rows, ever + rows;
    }

    /** The compaction and, unless it raises, the delete; returns how many buckets and rows they touched. */
    method CompactThenDelete(compactCutoff: int, deleteCutoff: int, limit: nat, faults: set<Statement>)
      returns (r: Result<(nat, nat), Statement>)
      requires Valid()
      modifies this
      ensures Valid()
      ensures r == Err(CompactRows) ==> unchanged(this)
      ensures RewrittenWhen(r != Err(CompactRows), old(hourly), hourly, source, old(snapshots), compactCutoff)
      ensures Failed(r) == old(SnapshotFailure(World(), true, compactCutoff, faults))
      ensures World() == old(SnapshotRun(World(), true, compactCutoff, deleteCutoff, limit, faults))
      ensures r.Ok? ==> r.value == (|Keys(Old(old(snapshots), compactCutoff))|, |old(snapshots)| - |snapshots|) && r.value.1 <= limit
    {
      if CompactRows in faults {
        return Err(CompactRows);
      }
      var compacted := CompactOldOrderbookRows(compactCutoff);
      if compacted.Err? {
        return Err(CompactRows);
      }
      if DeleteRows in faults {
        return Err(DeleteRows);
      }
      var deleted := DeleteCompactedOrderbookRows(deleteCutoff, limit);
      r := Ok((compacted.value, deleted));
    }

    /** Both snapshot statements; each is skipped when the first count found nothing, and the delete is not
        reached when the compaction raises. */
    method RetainSnapshots(apply: bool, counted: nat, compactCutoff: int, deleteCutoff: int, limit: nat, faults: set<Statement>)
      returns (r: Result<(TableSummary, BucketSummary), Statement>)
      requires Valid()
      modifies this
      ensures Valid()
      ensures r == Err(CompactRows) || !apply || counted == 0 ==> unchanged(this)
      ensures RewrittenWhen(r != Err(CompactRows) && apply && counted > 0, old(hourly), hourly, source, old(snapshots), compactCutoff)
      ensures Failed(r) == old(SnapshotFailure(World(), apply && counted > 0, compactCutoff, faults))
      ensures World() == old(SnapshotRun(World(), apply && counted > 0, compactCutoff, deleteCutoff, limit, faults))
      ensures r.Ok? ==> Reports(r.value.0, |old(snapshots)|, counted, |snapshots|, apply, limit)
      ensures r.Ok? ==> r.value.1 == BucketFigures(old(hourly), old(snapshots), apply, counted, compactCutoff, hourly)
    {
      var before, bucketsBefore := |snapshots|, |hourly|;
      if !apply || counted == 0 {
        return Ok((TableSummary(before, counted, 0, if apply then Some(before) else None),
                   BucketSummary(bucketsBefore, 0, if apply then Some(bucketsBefore) else None)));
      }
      var done := CompactThenDelete(compactCutoff, deleteCutoff, limit, faults);
      if done.Err? {
        return Err(done.error);
      }
      r := Ok((TableSummary(before, counted, done.value.1, Some(|snapshots|)),
               BucketSummary(bucketsBefore, done.value.0, Some(|hourly|))));
    }
  }

  /** The statement that raised. */
  function Failed<T>(r: Result<T, Statement>): Option<Statement> {
    if r.Err? then Some(r.error) else None
  }

  function BackedRows(t: set<Snapshot>, buckets: set<BucketKey>, cutoff: int): set<Snapshot> {
    set r | r in t && r.at < cutoff && KeyOf(r) in buckets
  }

  lemma DeleteIs(w: World, cutoff: int, limit: nat)
    requires OrderbookRetention.Valid(w)
    ensures UniqueIds(BackedRows(w.detail, w.source.Keys, cutoff))
    ensures Apply(w, Delete(cutoff, limit))
         == w.(detail := w.detail - OldestN(BackedRows(w.detail, w.source.Keys, cutoff), limit))
    ensures OrderbookRetention.Valid(Apply(w, Delete(cutoff, limit)))
  {
    ApplyValid(w, Delete(cutoff, limit));
    assert BackedRows(w.detail, w.source.Keys, cutoff) == Candidates(w, cutoff);
  }

  /** Every row that is gone is before the cutoff and has an hourly row, and comes before each such row left, by time,
      then by id. */
  ghost predicate TakesEarliestBacked(before: set<Snapshot>, left: set<Snapshot>, buckets: set<BucketKey>, cutoff: int) {
    && left <= before
    && (forall r :: r in before - left ==> r.at < cutoff && KeyOf(r) in buckets)
    && (forall r, x :: r in before - left && x in left && x.at < cutoff && KeyOf(x) in buckets ==>
          r.at < x.at || (r.at == x.at && r.id < x.id))
  }

  /** The rows the delete statement leaves. */
  method SelectCompacted(snapshots: set<Snapshot>, buckets: set<BucketKey>, ghost w: World, cutoff: int, limit: nat)
    returns (left: set<Snapshot>, deleted: nat)
    requires OrderbookRetention.Valid(w) && w.detail == snapshots && w.source.Keys == buckets
    ensures left <= snapshots && deleted == |snapshots| - |left| && deleted <= limit
    ensures left == Apply(w, Delete(cutoff, limit)).detail
    ensures OrderbookRetention.Valid(w.(detail := left))
  {
    DeleteIs(w, cutoff, limit);
    var backed := BackedRows(snapshots, buckets, cutoff);
    var taken := SelectBatch(snapshots, backed, limit);
    left, deleted := snapshots - taken, |taken|;
  }

  lemma DeleteTakesEarliest(w: World, cutoff: int, limit: nat)
    requires OrderbookRetention.Valid(w)
    ensures var left := Apply(w, Delete(cutoff, limit)).detail;
      && TakesEarliestBacked(w.detail, left, w.source.Keys, cutoff)
      && (|w.detail| - |left| < limit ==> BackedRows(left, w.source.Keys, cutoff) == {})
  {
    DeleteIs(w, cutoff, limit);
    var backed := BackedRows(w.detail, w.source.Keys, cutoff);
    OldestNIsPrefix(backed, limit);
    OldestNComesFirst(backed, limit);
    assert |w.detail - OldestN(backed, limit)| == |w.detail| - |OldestN(backed, limit)|;
    if |OldestN(backed, limit)| < limit { OldestNAll(backed, limit); }
  }

  /** What the snapshot statements of a run take when both are executed, and that nothing is taken without the delete. */
  lemma SnapshotRunMeans(w: World, active: bool, compacted: int, deleted: int, limit: nat, faults: set<Statement>)
    requires OrderbookRetention.Valid(w)
    ensures var after, failure := SnapshotRun(w, active, compacted, deleted, limit, faults), SnapshotFailure(w, active, compacted, faults);
      && (failure.Some? || !active ==> after.detail == w.detail)
      && (failure.None? && active ==>
            && TakesEarliestBacked(w.detail, after.detail, after.source.Keys, deleted)
            && (|w.detail| - |after.detail| < limit ==> BackedRows(after.detail, after.source.Keys, deleted) == {}))
  {
    ApplyValid(w, Compact(compacted));
    var next := Apply(w, Compact(compacted));
    if active && SnapshotFailure(w, active, compacted, faults).None? {
      DeleteTakesEarliest(next, deleted, limit);
      assert SnapshotRun(w, active, compacted, deleted, limit, faults) == Apply(next, Delete(deleted, limit));
      assert Apply(next, Delete(deleted, limit)).source == next.source && next.detail == w.detail;
    }
  }

  /** Every hourly row holds the aggregates of its recorded source rows. */
  ghost predicate Summarizes(hourly: map<BucketKey, Bucket>, source: map<BucketKey, set<Snapshot>>) {
    && hourly.Keys == source.Keys
    && forall k :: k in hourly ==> IsAggregate(hourly[k], source[k])
  }

  lemma OverwriteSummarizes(hourly: map<BucketKey, Bucket>, source: map<BucketKey, set<Snapshot>>,
                            newHourly: map<BucketKey, Bucket>, newSource: map<BucketKey, set<Snapshot>>)
    requires Summarizes(hourly, source) && Summarizes(newHourly, newSource)
    ensures Summarizes(hourly + newHourly, source + newSource)
  {
  }

  lemma GroupNotEmpty(aged: set<Snapshot>, k: BucketKey)
    requires OneEventPerKey(aged) && k in Keys(aged)
    ensures OfKey(aged, k) != {} && OneEventPerKey(OfKey(aged, k))
  {
    var r :| r in aged && KeyOf(r) == k;
    assert r in OfKey(aged, k);
  }

  function RowsByKey(aged: set<Snapshot>, keys: set<BucketKey>): map<BucketKey, set<Snapshot>> {
    map k | k in keys :: OfKey(aged, k)
  }

  /** The rows of one bucket before the cutoff. */
  ghost function RowsBefore(rows: set<Snapshot>, cutoff: int, k: BucketKey): set<Snapshot> {
    set y | y in rows && y.at < cutoff && KeyOf(y) == k
  }

  /** A compaction rewrites the bucket of every row before the cutoff from all such rows, and no other bucket. */
  ghost predicate Rewritten(before: map<BucketKey, Bucket>, after: map<BucketKey, Bucket>, source: map<BucketKey, set<Snapshot>>,
                            rows: set<Snapshot>, cutoff: int) {
    && before.Keys <= after.Keys
    && (forall x :: x in rows && x.at < cutoff ==>
          KeyOf(x) in after && KeyOf(x) in source && source[KeyOf(x)] == RowsBefore(rows, cutoff, KeyOf(x)))
    && (forall k :: k in after && RowsBefore(rows, cutoff, k) == {} ==> k in before && after[k] == before[k])
  }

  ghost predicate RewrittenWhen(compacts: bool, before: map<BucketKey, Bucket>, after: map<BucketKey, Bucket>,
                                source: map<BucketKey, set<Snapshot>>, rows: set<Snapshot>, cutoff: int) {
    compacts ==> Rewritten(before, after, source, rows, cutoff)
  }

  lemma RewrittenBy(before: map<BucketKey, Bucket>, w: World, cutoff: int, written: map<BucketKey, Bucket>)
    requires written.Keys == Keys(Old(w.detail, cutoff))
    ensures Rewritten(before, before + written, CompactedSource(w, cutoff), w.detail, cutoff)
  {
    var aged := Old(w.detail, cutoff);
    forall x | x in w.detail && x.at < cutoff
      ensures KeyOf(x) in written && CompactedSource(w, cutoff)[KeyOf(x)] == RowsBefore(w.detail, cutoff, KeyOf(x))
    {
      assert x in aged && KeyOf(x) in Keys(aged);
      assert OfKey(aged, KeyOf(x)) == RowsBefore(w.detail, cutoff, KeyOf(x));
    }
    forall k | k in written ensures RowsBefore(w.detail, cutoff, k) != {} {
      var x :| x in aged && KeyOf(x) == k;
      assert x in RowsBefore(w.detail, cutoff, k);
    }
  }

  method AggregateGroups(aged: set<Snapshot>) returns (written: map<BucketKey, Bucket>)
    requires OneEventPerKey(aged)
    ensures Summarizes(written, RowsByKey(aged, Keys(aged)))
  {
    written := map[];
    var left := Keys(aged);
    while left != {}
      invariant left <= Keys(aged)
      invariant Summarizes(written, RowsByKey(aged, Keys(aged) - left))
      decreases left
    {
      var k :| k in left;
      var b := AggregateGroup(aged, k);
      SummarizesMore(written, aged, Keys(aged) - left, k, b);
      assert Keys(aged) - (left - {k}) == Keys(aged) - left + {k};
      written, left := written[k := b], left - {k};
    }
    assert Keys(aged) - left == Keys(aged);
  }

  lemma SummarizesMore(written: map<BucketKey, Bucket>, aged: set<Snapshot>, keys: set<BucketKey>, k: BucketKey, b: Bucket)
    requires Summarizes(written, RowsByKey(aged, keys)) && IsAggregate(b, OfKey(aged, k))
    ensures Summarizes(written[k := b], RowsByKey(aged, keys + {k}))
  {
    AllAggregates(written[k := b], aged, keys + {k});
  }

  lemma AllAggregates(written: map<BucketKey, Bucket>, aged: set<Snapshot>, keys: set<BucketKey>)
    requires written.Keys == keys && forall k :: k in keys ==> IsAggregate(written[k], OfKey(aged, k))
    ensures Summarizes(written, RowsByKey(aged, keys))
  {
  }

  method AggregateGroup(aged: set<Snapshot>, k: BucketKey) returns (b: Bucket)
    requires OneEventPerKey(aged) && k in Keys(aged)
    ensures IsAggregate(b, OfKey(aged, k))
  {
    GroupNotEmpty(aged, k);
    b := Aggregate(OfKey(aged, k));
  }

  // The counts of the report.

  /** The three counts are taken before anything is written. */
  datatype Counts = Counts(snapshots: nat, audit: nat, recon: nat)

  function TakeCounts(rows: set<Snapshot>, audit: set<Row<AuditGroup, ()>>, recon: set<ReconRow>, ready: ReconRow -> bool, clock: Clock,
                      c: Config): Counts {
    Counts(|Old(rows, Cutoff(clock.count, c.detailDays))|,
           |Eligible(audit, AnyRow(), 1, OlderThan(Cutoff(clock.count, c.auditDays)))|,
           |Eligible(recon, ready, c.keepPerLeg, OlderThan(Cutoff(clock.count, c.reconDays)))|)
  }

  /** What is counted: old snapshots, old duplicates, and old successful records with `keepPerLeg` newer ones. */
  ghost predicate Counted(n: Counts, rows: set<Snapshot>, audit: set<Row<AuditGroup, ()>>, recon: set<ReconRow>, intents: map<nat, string>,
                          legs: map<nat, string>, clock: Clock, c: Config) {
    && n.snapshots == |set r | r in rows && r.at < Cutoff(clock.count, c.detailDays)|
    && n.audit == |OldDuplicates(audit, Cutoff(clock.count, c.auditDays))|
    && n.recon == |PrunableRows(recon, intents, legs, c.keepPerLeg, Cutoff(clock.count, c.reconDays))|
  }

  lemma CountsMean(rows: set<Snapshot>, audit: set<Row<AuditGroup, ()>>, recon: set<ReconRow>, intents: map<nat, string>,
                   legs: map<nat, string>, clock: Clock, c: Config)
    requires UniqueIds(audit) && UniqueIds(recon)
    ensures Counted(TakeCounts(rows, audit, recon, Successful(intents, legs), clock, c), rows, audit, recon, intents, legs, clock, c)
  {
    EligibleIsSuperseded(audit, AnyRow(), 1, Cutoff(clock.count, c.auditDays));
    SupersededAudit(audit, Cutoff(clock.count, c.auditDays));
    EligibleIsSuperseded(recon, Successful(intents, legs), c.keepPerLeg, Cutoff(clock.count, c.reconDays));
    SupersededRecon(recon, intents, legs, c.keepPerLeg, Cutoff(clock.count, c.reconDays));
    assert Old(rows, Cutoff(clock.count, c.detailDays)) == set r | r in rows && r.at < Cutoff(clock.count, c.detailDays);
  }

  // The tables after an applied run, given the statement that raised.

  ghost function SnapshotsAfter(w: World, due: bool, clock: Clock, c: Config, faults: set<Statement>): World
    requires OrderbookRetention.Valid(w)
  {
    SnapshotRun(w, due, Cutoff(clock.compact, c.detailDays), Cutoff(clock.delete, c.detailDays), c.batchLimit, faults)
  }

  /** The outcome of the snapshot statements of a run: as executed, and as anyone can read it off the rows. */
  ghost predicate SnapshotOutcome(before: World, after: World, due: bool, clock: Clock, c: Config, faults: set<Statement>)
    requires OrderbookRetention.Valid(before)
  {
    var failure, cutoff := SnapshotFailure(before, due, Cutoff(clock.compact, c.detailDays), faults), Cutoff(clock.delete, c.detailDays);
    && after == SnapshotsAfter(before, due, clock, c, faults)
    && (failure.Some? || !due ==> after.detail == before.detail)
    && (failure.None? && due ==> TakesEarliestBacked(before.detail, after.detail, after.source.Keys, cutoff))
    && (failure.None? && due && |before.detail| - |after.detail| < c.batchLimit ==>
          BackedRows(after.detail, after.source.Keys, cutoff) == {})
  }

  lemma SnapshotsDone(w: World, due: bool, clock: Clock, c: Config, faults: set<Statement>)
    requires OrderbookRetention.Valid(w)
    ensures SnapshotOutcome(w, SnapshotsAfter(w, due, clock, c, faults), due, clock, c, faults)
  {
    SnapshotRunMeans(w, due, Cutoff(clock.compact, c.detailDays), Cutoff(clock.delete, c.detailDays), c.batchLimit, faults);
  }

  ghost function AuditAfter(rows: set<Row<AuditGroup, ()>>, due: bool, clock: Clock, c: Config, failed: Option<Statement>)
    : set<Row<AuditGroup, ()>>
    requires UniqueIds(rows)
  {
    if due && (failed == None || failed == Some(DeleteReconciliations))
    then DeleteBatch(rows, AnyRow(), 1, OlderThan(Cutoff(clock.audit, c.auditDays)), c.batchLimit)
    else rows
  }

  ghost function ReconAfter(rows: set<ReconRow>, ready: ReconRow -> bool, due: bool, clock: Clock, c: Config, failed: Option<Statement>)
    : set<ReconRow>
    requires UniqueIds(rows)
  {
    if due && failed == None
    then DeleteBatch(rows, ready, c.keepPerLeg, OlderThan(Cutoff(clock.recon, c.reconDays)), c.batchLimit)
    else rows
  }

  /** Only rows before the cutoff are gone, each with a newer row of its intent, leg, type and payload still there. */
  ghost predicate OnlyDuplicatesGone(before: set<Row<AuditGroup, ()>>, after: set<Row<AuditGroup, ()>>, cutoff: int) {
    && after <= before
    && forall r :: r in before - after ==> r.at < cutoff && NewerDuplicate(r, after)
  }

  ghost predicate NewerDuplicate(r: Row<AuditGroup, ()>, rows: set<Row<AuditGroup, ()>>) {
    exists x :: x in rows && x.group == r.group && (r.at < x.at || (r.at == x.at && r.id < x.id))
  }

  ghost function OldDuplicates(rows: set<Row<AuditGroup, ()>>, cutoff: int): set<Row<AuditGroup, ()>> {
    set r | r in rows && r.at < cutoff && NewerDuplicate(r, rows)
  }

  lemma NewerDuplicates(r: Row<AuditGroup, ()>, rows: set<Row<AuditGroup, ()>>)
    ensures NewerDuplicate(r, rows) <==> |NewerIn(rows, AnyRow(), r)| >= 1
  {
    var newer := NewerIn(rows, AnyRow(), r);
    if NewerDuplicate(r, rows) {
      var x :| x in rows && x.group == r.group && (r.at < x.at || (r.at == x.at && r.id < x.id));
      assert x in newer;
    }
    if |newer| >= 1 { var x :| x in newer; }
  }

  lemma SupersededAudit(rows: set<Row<AuditGroup, ()>>, cutoff: int)
    ensures Superseded(rows, AnyRow(), 1, cutoff) == OldDuplicates(rows, cutoff)
  {
    forall r ensures r in Superseded(rows, AnyRow(), 1, cutoff) <==> r in OldDuplicates(rows, cutoff) {
      NewerDuplicates(r, rows);
    }
  }

  lemma AuditGone(before: set<Row<AuditGroup, ()>>, after: set<Row<AuditGroup, ()>>, cutoff: int)
    requires after <= before && LeaveNewer(before - after, after, AnyRow(), 1, cutoff)
    ensures OnlyDuplicatesGone(before, after, cutoff)
  {
    forall r | r in before - after ensures r.at < cutoff && NewerDuplicate(r, after) { NewerDuplicates(r, after); }
  }

  /** No group of duplicates disappears. */
  lemma GroupsStay(before: set<Row<AuditGroup, ()>>, after: set<Row<AuditGroup, ()>>, cutoff: int)
    requires OnlyDuplicatesGone(before, after, cutoff)
    ensures Groups(after) == Groups(before)
  {
    forall x | x in before ensures x.group in Groups(after) {
      if x !in after { assert NewerDuplicate(x, after); }
    }
  }

  /** Only old duplicates are gone, so every group is still there; and none is left when the statement was reached and the
      limit had room for all. */
  ghost predicate AuditPruned(before: set<Row<AuditGroup, ()>>, after: set<Row<AuditGroup, ()>>, cutoff: int, reached: bool, limit: nat) {
    && OnlyDuplicatesGone(before, after, cutoff)
    && Groups(after) == Groups(before)
    && (reached && |OldDuplicates(before, cutoff)| <= limit ==> OldDuplicates(after, cutoff) == {})
  }

  lemma AuditBatchMeans(rows: set<Row<AuditGroup, ()>>, cutoff: int, limit: nat, after: set<Row<AuditGroup, ()>>)
    requires UniqueIds(rows) && after == DeleteBatch(rows, AnyRow(), 1, OlderThan(cutoff), limit)
    ensures AuditPruned(rows, after, cutoff, true, limit)
  {
    RankedDeleteMeans(rows, AnyRow(), 1, cutoff, limit);
    SupersededAudit(rows, cutoff);
    SupersededAudit(after, cutoff);
    AuditGone(rows, after, cutoff);
    GroupsStay(rows, after, cutoff);
  }

  /** The outcome of the audit statement of a run: as executed, and as anyone can read it off the rows. */
  ghost predicate AuditOutcome(before: set<Row<AuditGroup, ()>>, after: set<Row<AuditGroup, ()>>, due: bool, clock: Clock, c: Config,
                               failed: Option<Statement>)
    requires UniqueIds(before)
  {
    && after == AuditAfter(before, due, clock, c, failed)
    && AuditPruned(before, after, Cutoff(clock.audit, c.auditDays), due && failed.None?, c.batchLimit)
  }

  lemma AuditDone(rows: set<Row<AuditGroup, ()>>, clock: Clock, c: Config, failed: Option<Statement>, after: set<Row<AuditGroup, ()>>)
    requires UniqueIds(rows) && (failed == None || failed == Some(DeleteReconciliations))
    requires after == DeleteBatch(rows, AnyRow(), 1, OlderThan(Cutoff(clock.audit, c.auditDays)), c.batchLimit)
    ensures AuditOutcome(rows, after, true, clock, c, failed)
  {
    AuditBatchMeans(rows, Cutoff(clock.audit, c.auditDays), c.batchLimit, after);
  }

  lemma AuditSkipped(rows: set<Row<AuditGroup, ()>>, due: bool, clock: Clock, c: Config, failed: Option<Statement>)
    requires UniqueIds(rows) && (due ==> failed.Some? && failed != Some(DeleteReconciliations))
    ensures AuditOutcome(rows, rows, due, clock, c, failed)
  {
  }

  /** The reconciliation records whose every flag and status says success. */
  ghost function SuccessfulRows(rows: set<ReconRow>, intents: map<nat, string>, legs: map<nat, string>): set<ReconRow> {
    set r | r in rows && r.attrs.readyToTrade && r.attrs.destinationReceived && r.attrs.venueCreditConfirmed
      && r.group.intent in intents && r.group.leg in legs && legs[r.group.leg] == "LEG_READY_TO_TRADE"
      && (intents[r.group.intent] == "READY_TO_TRADE" || intents[r.group.intent] == "PARTIALLY_READY_TO_TRADE")
  }

  ghost function NewerOf(r: ReconRow, rows: set<ReconRow>): set<ReconRow> {
    set x | x in rows && x.group == r.group && (r.at < x.at || (r.at == x.at && r.id < x.id))
  }

  /** Only successful records before the cutoff are gone, each with `keep` newer successful ones still there. */
  ghost predicate OnlySupersededGone(before: set<ReconRow>, after: set<ReconRow>, intents: map<nat, string>, legs: map<nat, string>,
                                     keep: nat, cutoff: int) {
    && after <= before
    && forall r :: r in before - after ==>
         r in SuccessfulRows(before, intents, legs) && r.at < cutoff && |NewerOf(r, SuccessfulRows(after, intents, legs))| >= keep
  }

  /** The successful records before the cutoff with `keep` newer ones. */
  ghost function PrunableRows(rows: set<ReconRow>, intents: map<nat, string>, legs: map<nat, string>, keep: nat, cutoff: int): set<ReconRow> {
    set r | r in SuccessfulRows(rows, intents, legs) && r.at < cutoff && |NewerOf(r, SuccessfulRows(rows, intents, legs))| >= keep
  }

  lemma NewerSuccessful(r: ReconRow, rows: set<ReconRow>, intents: map<nat, string>, legs: map<nat, string>)
    ensures NewerIn(rows, Successful(intents, legs), r) == NewerOf(r, SuccessfulRows(rows, intents, legs))
    ensures r in SuccessfulRows(rows, intents, legs) <==> r in rows && Successful(intents, legs)(r)
  {
    forall x ensures x in SuccessfulRows(rows, intents, legs) <==> x in rows && Successful(intents, legs)(x) {
    }
  }

  lemma SupersededRecon(rows: set<ReconRow>, intents: map<nat, string>, legs: map<nat, string>, keep: nat, cutoff: int)
    ensures Superseded(rows, Successful(intents, legs), keep, cutoff) == PrunableRows(rows, intents, legs, keep, cutoff)
  {
    forall r ensures r in Superseded(rows, Successful(intents, legs), keep, cutoff) <==> r in PrunableRows(rows, intents, legs, keep, cutoff) {
      NewerSuccessful(r, rows, intents, legs);
    }
  }

  lemma ReconGone(before: set<ReconRow>, after: set<ReconRow>, intents: map<nat, string>, legs: map<nat, string>, keep: nat, cutoff: int)
    requires after <= before && LeaveNewer(before - after, after, Successful(intents, legs), keep, cutoff)
    ensures OnlySupersededGone(before, after, intents, legs, keep, cutoff)
  {
    forall r | r in before - after
      ensures r in SuccessfulRows(before, intents, legs) && r.at < cutoff
      ensures |NewerOf(r, SuccessfulRows(after, intents, legs))| >= keep
    {
      NewerSuccessful(r, after, intents, legs);
      NewerSuccessful(r, before, intents, legs);
    }
  }

  /** Only superseded records are gone; and none is left when the statement was reached and the limit had room for all. */
  ghost predicate ReconPruned(before: set<ReconRow>, after: set<ReconRow>, intents: map<nat, string>, legs: map<nat, string>,
                              keep: nat, cutoff: int, reached: bool, limit: nat) {
    && OnlySupersededGone(before, after, intents, legs, keep, cutoff)
    && (reached && |PrunableRows(before, intents, legs, keep, cutoff)| <= limit ==>
          PrunableRows(after, intents, legs, keep, cutoff) == {})
  }

  lemma ReconBatchMeans(rows: set<ReconRow>, intents: map<nat, string>, legs: map<nat, string>, keep: nat, cutoff: int, limit: nat,
                        after: set<ReconRow>)
    requires UniqueIds(rows) && after == DeleteBatch(rows, Successful(intents, legs), keep, OlderThan(cutoff), limit)
    ensures ReconPruned(rows, after, intents, legs, keep, cutoff, true, limit)
  {
    RankedDeleteMeans(rows, Successful(intents, legs), keep, cutoff, limit);
    SupersededRecon(rows, intents, legs, keep, cutoff);
    SupersededRecon(after, intents, legs, keep, cutoff);
    ReconGone(rows, after, intents, legs, keep, cutoff);
  }

  /** The outcome of the reconciliation statement of a run: as executed, and as anyone can read it off the rows. */
  ghost predicate ReconOutcome(before: set<ReconRow>, after: set<ReconRow>, intents: map<nat, string>, legs: map<nat, string>,
                               due: bool, clock: Clock, c: Config, failed: Option<Statement>)
    requires UniqueIds(before)
  {
    && after == ReconAfter(before, Successful(intents, legs), due, clock, c, failed)
    && ReconPruned(before, after, intents, legs, c.keepPerLeg, Cutoff(clock.recon, c.reconDays), due && failed.None?, c.batchLimit)
  }

  lemma ReconDone(rows: set<ReconRow>, intents: map<nat, string>, legs: map<nat, string>, clock: Clock, c: Config, after: set<ReconRow>)
    requires UniqueIds(rows)
    requires after == DeleteBatch(rows, Successful(intents, legs), c.keepPerLeg, OlderThan(Cutoff(clock.recon, c.reconDays)), c.batchLimit)
    ensures ReconOutcome(rows, after, intents, legs, true, clock, c, None)
  {
    ReconBatchMeans(rows, intents, legs, c.keepPerLeg, Cutoff(clock.recon, c.reconDays), c.batchLimit, after);
  }

  lemma ReconSkipped(rows: set<ReconRow>, intents: map<nat, string>, legs: map<nat, string>, due: bool, clock: Clock, c: Config,
                     failed: Option<Statement>)
    requires UniqueIds(rows) && (due ==> failed.Some?)
    ensures ReconOutcome(rows, rows, intents, legs, due, clock, c, failed)
  {
  }

  /** The first statement of the run that raises. */
  function FirstFailure(snapshots: Option<Statement>, auditDue: bool, reconDue: bool, faults: set<Statement>): Option<Statement> {
    if snapshots.Some? then snapshots
    else if auditDue && DeleteDuplicates in faults then Some(DeleteDuplicates)
    else if reconDue && DeleteReconciliations in faults then Some(DeleteReconciliations)
    else None
  }

  method PruneAudit(audit: RankedTable<AuditGroup, ()>, apply: bool, counted: nat, clock: Clock, c: Config,
                    ghost failed: Option<Statement>)
    returns (t: TableSummary)
    requires UniqueIds(audit.rows) && (failed == None || failed == Some(DeleteReconciliations))
    modifies audit
    ensures UniqueIds(audit.rows)
    ensures AuditOutcome(old(audit.rows), audit.rows, apply && counted > 0, clock, c, failed)
    ensures Reports(t, |old(audit.rows)|, counted, |audit.rows|, apply, c.batchLimit)
  {
    ghost var before := audit.rows;
    t := audit.Prune(apply, counted, AnyRow(), 1, Cutoff(clock.audit, c.auditDays), c.batchLimit);
    if apply && counted > 0 {
      AuditDone(before, clock, c, failed, audit.rows);
    } else {
      AuditSkipped(before, false, clock, c, failed);
    }
  }

  method PruneRecon(recon: RankedTable<ReconGroup, ReconFlags>, intents: map<nat, string>, legs: map<nat, string>, apply: bool,
                    counted: nat, clock: Clock, c: Config)
    returns (t: TableSummary)
    requires UniqueIds(recon.rows)
    modifies recon
    ensures UniqueIds(recon.rows)
    ensures ReconOutcome(old(recon.rows), recon.rows, intents, legs, apply && counted > 0, clock, c, None)
    ensures Reports(t, |old(recon.rows)|, counted, |recon.rows|, apply, c.batchLimit)
  {
    ghost var before := recon.rows;
    t := recon.Prune(apply, counted, Successful(intents, legs), c.keepPerLeg, Cutoff(clock.recon, c.reconDays), c.batchLimit);
    if apply && counted > 0 {
      ReconDone(before, intents, legs, clock, c, recon.rows);
    } else {
      ReconSkipped(before, intents, legs, false, clock, c, None);
    }
  }

  /** The two ranked deletes on the funding tables, after the counts. */
  method PruneFunding(audit: RankedTable<AuditGroup, ()>, recon: RankedTable<ReconGroup, ReconFlags>,
                      intents: map<nat, string>, legs: map<nat, string>, apply: bool, duplicates: nat, prunable: nat, clock: Clock, c: Config,
                      faults: set<Statement>)
    returns (r: Result<(TableSummary, TableSummary), Statement>)
    requires UniqueIds(audit.rows) && UniqueIds(recon.rows)
    modifies audit, recon
    ensures UniqueIds(audit.rows) && UniqueIds(recon.rows)
    ensures Failed(r) == FirstFailure(None, apply && duplicates > 0, apply && prunable > 0, faults)
    ensures AuditOutcome(old(audit.rows), audit.rows, apply && duplicates > 0, clock, c, Failed(r))
    ensures ReconOutcome(old(recon.rows), recon.rows, intents, legs, apply && prunable > 0, clock, c, Failed(r))
    ensures r.Ok? ==> Reports(r.value.0, |old(audit.rows)|, duplicates, |audit.rows|, apply, c.batchLimit)
    ensures r.Ok? ==> Reports(r.value.1, |old(recon.rows)|, prunable, |recon.rows|, apply, c.batchLimit)
  {
    ghost var failed := FirstFailure(None, apply && duplicates > 0, apply && prunable > 0, faults);
    if apply && duplicates > 0 && DeleteDuplicates in faults {
      AuditSkipped(audit.rows, true, clock, c, failed);
      ReconSkipped(recon.rows, intents, legs, apply && prunable > 0, clock, c, failed);
      return Err(DeleteDuplicates);
    }
    var auditSummary := PruneAudit(audit, apply, duplicates, clock, c, failed);
    if apply && prunable > 0 && DeleteReconciliations in faults {
      ReconSkipped(recon.rows, intents, legs, true, clock, c, failed);
      return Err(DeleteReconciliations);
    }
    var reconSummary := PruneRecon(recon, intents, legs, apply, prunable, clock, c);
    r := Ok((auditSummary, reconSummary));
  }

  /** The guarded writes of `main`, after the counts. */
  method Write(db: SnapshotTables, audit: RankedTable<AuditGroup, ()>, recon: RankedTable<ReconGroup, ReconFlags>,
               intents: map<nat, string>, legs: map<nat, string>, apply: bool, n: Counts, clock: Clock, c: Config,
               faults: set<Statement>)
    returns (r: Result<Summary, Statement>)
    requires db.Valid() && UniqueIds(audit.rows) && UniqueIds(recon.rows)
    modifies db, audit, recon
    ensures db.Valid() && UniqueIds(audit.rows) && UniqueIds(recon.rows)
    ensures !apply || r == Err(CompactRows) ==> unchanged(db)
    ensures RewrittenWhen(r != Err(CompactRows) && apply && n.snapshots > 0, old(db.hourly), db.hourly, db.source, old(db.snapshots),
                          Cutoff(clock.compact, c.detailDays))
    ensures Failed(r) == FirstFailure(old(SnapshotFailure(db.World(), apply && n.snapshots > 0, Cutoff(clock.compact, c.detailDays), faults)),
                                      apply && n.audit > 0, apply && n.recon > 0, faults)
    ensures db.World() == old(SnapshotsAfter(db.World(), apply && n.snapshots > 0, clock, c, faults))
    ensures AuditOutcome(old(audit.rows), audit.rows, apply && n.audit > 0, clock, c, Failed(r))
    ensures ReconOutcome(old(recon.rows), recon.rows, intents, legs, apply && n.recon > 0, clock, c, Failed(r))
    ensures r.Ok? ==> Reports(r.value.snapshots, |old(db.snapshots)|, n.snapshots, |db.snapshots|, apply, c.batchLimit)
    ensures r.Ok? ==> Reports(r.value.audit, |old(audit.rows)|, n.audit, |audit.rows|, apply, c.batchLimit)
    ensures r.Ok? ==> Reports(r.value.recon, |old(recon.rows)|, n.recon, |recon.rows|, apply, c.batchLimit)
    ensures r.Ok? ==> r.value.buckets == BucketFigures(old(db.hourly), old(db.snapshots), apply, n.snapshots,
                                                       Cutoff(clock.compact, c.detailDays), db.hourly)
  {
    var kept := db.RetainSnapshots(apply, n.snapshots, Cutoff(clock.compact, c.detailDays), Cutoff(clock.delete, c.detailDays),
                                   c.batchLimit, faults);
    if kept.Err? {
      AuditSkipped(audit.rows, apply && n.audit > 0, clock, c, Failed(kept));
      ReconSkipped(recon.rows, intents, legs, apply && n.recon > 0, clock, c, Failed(kept));
      return Err(kept.error);
    }
    var pruned := PruneFunding(audit, recon, intents, legs, apply, n.audit, n.recon, clock, c, faults);
    if pruned.Err? {
      return Err(pruned.error);
    }
    r := Ok(Summary(kept.value.0, kept.value.1, pruned.value.0, pruned.value.1));
  }

  /** The order of statements in `main`: all counts first, then the guarded writes. The first statement that raises
      ends the run; what was executed before it stays. Nobody else writes during the run. */
  method RunRetention(db: SnapshotTables, audit: RankedTable<AuditGroup, ()>, recon: RankedTable<ReconGroup, ReconFlags>,
                      intents: map<nat, string>, legs: map<nat, string>, apply: bool, options: Options, clock: Clock,
                      faults: set<Statement>)
    returns (r: Result<Summary, Statement>, ghost n: Counts, ghost c: Config)
    requires db.Valid() && UniqueIds(audit.rows) && UniqueIds(recon.rows)
    modifies db, audit, recon
    ensures db.Valid() && UniqueIds(audit.rows) && UniqueIds(recon.rows)
    ensures c == Configure(options)
    ensures Counted(n, old(db.snapshots), old(audit.rows), old(recon.rows), intents, legs, clock, c)
    ensures !apply || r == Err(CompactRows) ==> unchanged(db)
    ensures RewrittenWhen(r != Err(CompactRows) && apply && n.snapshots > 0, old(db.hourly), db.hourly, db.source, old(db.snapshots),
                          Cutoff(clock.compact, c.detailDays))
    ensures Failed(r) == FirstFailure(old(SnapshotFailure(db.World(), apply && n.snapshots > 0, Cutoff(clock.compact, c.detailDays), faults)),
                                      apply && n.audit > 0, apply && n.recon > 0, faults)
    ensures SnapshotOutcome(old(db.World()), db.World(), apply && n.snapshots > 0, clock, c, faults)
    ensures AuditOutcome(old(audit.rows), audit.rows, apply && n.audit > 0, clock, c, Failed(r))
    ensures ReconOutcome(old(recon.rows), recon.rows, intents, legs, apply && n.recon > 0, clock, c, Failed(r))
    ensures r.Ok? ==> Reports(r.value.snapshots, |old(db.snapshots)|, n.snapshots, |db.snapshots|, apply, c.batchLimit)
    ensures r.Ok? ==> Reports(r.value.audit, |old(audit.rows)|, n.audit, |audit.rows|, apply, c.batchLimit)
    ensures r.Ok? ==> Reports(r.value.recon, |old(recon.rows)|, n.recon, |recon.rows|, apply, c.batchLimit)
    ensures r.Ok? ==> r.value.buckets == BucketFigures(old(db.hourly), old(db.snapshots), apply, n.snapshots,
                                                       Cutoff(clock.compact, c.detailDays), db.hourly)
  {
    var config := Configure(options);
    var counts := TakeCounts(db.snapshots, audit.rows, recon.rows, Successful(intents, legs), clock, config);
    CountsMean(db.snapshots, audit.rows, recon.rows, intents, legs, clock, config);
    c, n := config, counts;
    SnapshotsDone(db.World(), apply && n.snapshots > 0, clock, config, faults);
    r := Write(db, audit, recon, intents, legs, apply, counts, clock, config, faults);
  }
}
