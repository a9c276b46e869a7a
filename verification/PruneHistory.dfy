/** Ranked tables over time: rows are recorded and batches pruned in any order, each batch with its own scope, age
    limit, number of rows to keep and batch limit (scripts/db/compact-db-retention.ts,
    scripts/db/prune-user-venue-account-audit-events.ts). */
module PruneHistory {
  import opened FiniteSets
  import opened Rows
  import opened KeepNewest

  /** The rows stored, and all rows ever recorded. */
  datatype Table<G(==), A(==)> = Table(stored: set<Row<G, A>>, ever: set<Row<G, A>>)

  datatype Step<!G(==), !A(==)> =
    | Record(rows: set<Row<G, A>>)
    | Prune(inScope: Row<G, A> -> bool, keep: nat, isOld: Row<G, A> -> bool, limit: nat)

  ghost predicate Valid<G, A>(w: Table<G, A>) {
    UniqueIds(w.ever) && w.stored <= w.ever
  }

  ghost predicate Enabled<G, A>(w: Table<G, A>, s: Step<G, A>) {
    s.Record? ==> s.rows !! w.ever && UniqueIds(w.ever + s.rows)
  }

  ghost function Apply<G, A>(w: Table<G, A>, s: Step<G, A>): (after: Table<G, A>)
    requires Valid(w) && Enabled(w, s)
    ensures Valid(after) && w.ever <= after.ever
  {
    match s
    case Record(rows) => Table(w.stored + rows, w.ever + rows)
    case Prune(inScope, keep, isOld, limit) => w.(stored := DeleteBatch(w.stored, inScope, keep, isOld, limit))
  }

  ghost predicate Runs<G, A>(w: Table<G, A>, steps: seq<Step<G, A>>)
    requires Valid(w)
    decreases |steps|
  {
    steps != [] ==> Enabled(w, steps[0]) && Runs(Apply(w, steps[0]), steps[1..])
  }

  ghost function Exec<G, A>(w: Table<G, A>, steps: seq<Step<G, A>>): (after: Table<G, A>)
    requires Valid(w) && Runs(w, steps)
    ensures Valid(after) && w.ever <= after.ever
    decreases |steps|
  {
    if steps == [] then w else Exec(Apply(w, steps[0]), steps[1..])
  }

  /** The batch does not cover the row, is too early for it, or counts it among the newest it keeps, ranked among
      all rows ever recorded. */
  ghost predicate Spares<G, A>(s: Step<G, A>, ever: set<Row<G, A>>, r: Row<G, A>) {
    s.Prune? ==> !s.inScope(r) || !s.isOld(r) || Rank(Scope(ever, s.inScope), r) <= s.keep
  }

  /** Among fewer rows a row ranks no later. */
  lemma RankGrows<G, A>(t: set<Row<G, A>>, ever: set<Row<G, A>>, r: Row<G, A>)
    requires t <= ever
    ensures Rank(t, r) <= Rank(ever, r)
  {
    SubsetSize(AtLeastAsNew(t, r), AtLeastAsNew(ever, r));
  }

  lemma SparedRowStays<G, A>(w: Table<G, A>, s: Step<G, A>, ever: set<Row<G, A>>, r: Row<G, A>)
    requires Valid(w) && Enabled(w, s) && w.ever <= ever && r in w.stored && Spares(s, ever, r)
    ensures r in Apply(w, s).stored
  {
    if s.Prune? {
      RankGrows(Scope(w.stored, s.inScope), Scope(ever, s.inScope), r);
      BatchKeeps(w.stored, s.inScope, s.keep, s.isOld, s.limit, r);
    }
  }

  /** Over any interleaving of recordings and batches, a row that every batch spares is still stored at the end. */
  lemma {:induction false} SparedRowsSurvive<G, A>(w: Table<G, A>, steps: seq<Step<G, A>>, ever: set<Row<G, A>>, r: Row<G, A>)
    requires Valid(w) && Runs(w, steps) && Exec(w, steps).ever <= ever
    requires r in Exec(w, steps).ever && (r in w.ever ==> r in w.stored)
    requires forall i :: 0 <= i < |steps| ==> Spares(steps[i], ever, r)
    ensures r in Exec(w, steps).stored
    decreases |steps|
  {
    if steps != [] {
      var next := Apply(w, steps[0]);
      if r in w.stored { SparedRowStays(w, steps[0], ever, r); }
      SparedRowsSurvive(next, steps[1..], ever, r);
    }
  }

  /** However often and with whatever cutoffs and limits batches that keep at least `keep` rows run between the
      recordings, each row with fewer than `keep` newer rows of its group ever recorded is still stored. */
  lemma NewestEverStored<G, A>(w: Table<G, A>, steps: seq<Step<G, A>>, keep: nat, r: Row<G, A>)
    requires Valid(w) && Runs(w, steps) && w.stored == w.ever
    requires forall i :: 0 <= i < |steps| && steps[i].Prune? ==> steps[i].keep >= keep
    requires r in Exec(w, steps).ever
    requires |set x | x in Exec(w, steps).ever && x.group == r.group && (r.at < x.at || (r.at == x.at && r.id < x.id))| < keep
    ensures r in Exec(w, steps).stored
  {
    var ever := Exec(w, steps).ever;
    RankCountsNewer(ever, r);
    forall i | 0 <= i < |steps| ensures Spares(steps[i], ever, r) {
      if steps[i].Prune? { RankGrows(Scope(ever, steps[i].inScope), ever, r); }
    }
    SparedRowsSurvive(w, steps, ever, r);
  }
}
