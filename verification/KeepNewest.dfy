/** "Keep the K newest rows of every group, delete older surplus in bounded batches":
    the ranked DELETEs of the retention and prune scripts.

    `row_number() OVER (PARTITION BY group ORDER BY at DESC, id DESC)` is `Rank`,
    computed among the rows in scope (the WHERE clause of the ranked subquery). */
module KeepNewest {
  import opened FiniteSets
  import opened Rows

  function Group<G(==), A(==)>(t: set<Row<G, A>>, g: G): set<Row<G, A>> {
    set x | x in t && x.group == g
  }

  function AtLeastAsNew<G(==), A(==)>(t: set<Row<G, A>>, r: Row<G, A>): set<Row<G, A>> {
    set x | x in t && x.group == r.group && !Older(x, r)
  }

  function Rank<G(==), A(==)>(t: set<Row<G, A>>, r: Row<G, A>): nat {
    |AtLeastAsNew(t, r)|
  }

  function Surplus<G(==), A(==)>(t: set<Row<G, A>>, keep: nat): set<Row<G, A>> {
    set r | r in t && Rank(t, r) > keep
  }

  function Scope<G(==), A(==)>(t: set<Row<G, A>>, inScope: Row<G, A> -> bool): set<Row<G, A>> {
    set r | r in t && inScope(r)
  }

  /** Surplus rows in scope that are also old enough to go. */
  function Eligible<G(==), A(==)>(t: set<Row<G, A>>, inScope: Row<G, A> -> bool, keep: nat, isOld: Row<G, A> -> bool)
    : set<Row<G, A>>
  {
    set r | r in Surplus(Scope(t, inScope), keep) && isOld(r)
  }

  /** One DELETE ... LIMIT. */
  ghost function DeleteBatch<G, A>(t: set<Row<G, A>>, inScope: Row<G, A> -> bool, keep: nat, isOld: Row<G, A> -> bool,
                                   limit: nat): set<Row<G, A>>
    requires UniqueIds(t)
  {
    t - OldestN(Eligible(t, inScope, keep, isOld), limit)
  }

  ghost function DeleteBatches<G, A>(t: set<Row<G, A>>, inScope: Row<G, A> -> bool, keep: nat, isOld: Row<G, A> -> bool,
                                     limits: seq<nat>): set<Row<G, A>>
    requires UniqueIds(t)
    decreases |limits|
  {
    if limits == [] then t
    else DeleteBatches(DeleteBatch(t, inScope, keep, isOld, limits[0]), inScope, keep, isOld, limits[1..])
  }

  ghost function Sum(ns: seq<nat>): nat {
    if ns == [] then 0 else ns[0] + Sum(ns[1..])
  }

  // ----- Rank is the row number -----

  /** Ranks number the rows of a group 1, 2, ... from newest to oldest. */
  lemma RankIsRowNumber<G, A>(t: set<Row<G, A>>, a: Row<G, A>, b: Row<G, A>)
    requires UniqueIds(t) && a in t && b in t && a.group == b.group
    ensures 1 <= Rank(t, a) <= |Group(t, a.group)|
    ensures Older(a, b) <==> Rank(t, b) < Rank(t, a)
    ensures a == b <==> Rank(t, a) == Rank(t, b)
  {
    SubsetSize({a}, AtLeastAsNew(t, a));
    SubsetSize(AtLeastAsNew(t, a), Group(t, a.group));
    OlderTotal(t, a, b);
    if Older(a, b) { RankDrops(t, a, b); }
    if Older(b, a) { RankDrops(t, b, a); }
  }

  lemma RankDrops<G, A>(t: set<Row<G, A>>, a: Row<G, A>, b: Row<G, A>)
    requires a in t && b in t && a.group == b.group && Older(a, b)
    ensures Rank(t, b) < Rank(t, a)
  {
    SubsetSize(AtLeastAsNew(t, b) + {a}, AtLeastAsNew(t, a));
  }

  /** Rows of a group with rank at most `k`, seen from a row of rank at least `k`: exactly `k` of them. */
  lemma {:induction false} NewestCount<G, A>(t: set<Row<G, A>>, r: Row<G, A>, k: nat)
    requires UniqueIds(t) && r in t && Rank(t, r) >= k
    ensures |set x | x in AtLeastAsNew(t, r) && Rank(t, x) <= k| == k
    decreases Rank(t, r)
  {
    var n := AtLeastAsNew(t, r);
    var w := set x | x in n && Rank(t, x) <= k;
    if Rank(t, r) == k {
      forall x | x in n ensures Rank(t, x) <= k { RankIsRowNumber(t, x, r); }
      assert w == n;
    } else if n == {r} {
      assert w == {};
    } else {
      var o := Oldest(n - {r});
      assert AtLeastAsNew(t, o) == n - {r} by { OldestBelow(t, r, o); }
      NewestCount(t, o, k);
      assert w == set x | x in AtLeastAsNew(t, o) && Rank(t, x) <= k;
    }
  }

  lemma OldestBelow<G, A>(t: set<Row<G, A>>, r: Row<G, A>, o: Row<G, A>)
    requires UniqueIds(t) && r in t && IsOldest(o, AtLeastAsNew(t, r) - {r})
    ensures AtLeastAsNew(t, o) == AtLeastAsNew(t, r) - {r}
  {
    OlderTotal(t, r, o);
    forall x | x in AtLeastAsNew(t, o) ensures x in AtLeastAsNew(t, r) - {r} { }
    forall x | x in AtLeastAsNew(t, r) - {r} ensures x in AtLeastAsNew(t, o) {
      OlderTotal(t, x, o);
    }
  }

  // ----- Deleting surplus never changes what is surplus -----

  /** Deleting any surplus rows leaves exactly the other surplus rows surplus. */
  lemma SurplusAfterDelete<G, A>(t: set<Row<G, A>>, keep: nat, d: set<Row<G, A>>)
    requires UniqueIds(t) && d <= Surplus(t, keep)
    ensures Surplus(t - d, keep) == Surplus(t, keep) - d
  {
    forall r | r in t - d ensures Rank(t - d, r) > keep <==> Rank(t, r) > keep {
      SubsetSize(AtLeastAsNew(t - d, r), AtLeastAsNew(t, r));
      if Rank(t, r) > keep {
        NewestCount(t, r, keep);
        var w := set x | x in AtLeastAsNew(t, r) && Rank(t, x) <= keep;
        assert |w + {r}| == keep + 1;
        SubsetSize(w + {r}, AtLeastAsNew(t - d, r));
      }
    }
  }

  lemma EligibleAfterDelete<G, A>(t: set<Row<G, A>>, inScope: Row<G, A> -> bool, keep: nat, isOld: Row<G, A> -> bool,
                                  d: set<Row<G, A>>)
    requires UniqueIds(t) && d <= Eligible(t, inScope, keep, isOld)
    ensures Eligible(t - d, inScope, keep, isOld) == Eligible(t, inScope, keep, isOld) - d
  {
    var s := Scope(t, inScope);
    assert Scope(t - d, inScope) == s - d;
    SurplusAfterDelete(s, keep, d);
  }

  /** What one batch keeps: rows out of scope, rows that are not old, and the `keep` newest of each group. */
  lemma BatchKeeps<G, A>(t: set<Row<G, A>>, inScope: Row<G, A> -> bool, keep: nat, isOld: Row<G, A> -> bool,
                         limit: nat, r: Row<G, A>)
    requires UniqueIds(t) && r in t
    requires !inScope(r) || !isOld(r) || Rank(Scope(t, inScope), r) <= keep
    ensures r in DeleteBatch(t, inScope, keep, isOld, limit)
    ensures inScope(r) && Rank(Scope(t, inScope), r) <= keep ==>
      Rank(Scope(DeleteBatch(t, inScope, keep, isOld, limit), inScope), r) == Rank(Scope(t, inScope), r)
  {
    var s := Scope(t, inScope);
    var d := OldestN(Eligible(t, inScope, keep, isOld), limit);
    OldestNIsPrefix(Eligible(t, inScope, keep, isOld), limit);
    if inScope(r) && Rank(s, r) <= keep {
      assert Scope(t - d, inScope) == s - d;
      forall x | x in AtLeastAsNew(s, r) ensures x in s - d { RankIsRowNumber(s, x, r); }
      assert AtLeastAsNew(s - d, r) == AtLeastAsNew(s, r);
    }
  }

  /** Any series of batches deletes the oldest eligible rows of the start table, as many as the
      batch sizes add up to. */
  lemma {:induction false} BatchesAreOneDelete<G, A>(t: set<Row<G, A>>, inScope: Row<G, A> -> bool, keep: nat,
                                                     isOld: Row<G, A> -> bool, limits: seq<nat>)
    requires UniqueIds(t)
    ensures DeleteBatches(t, inScope, keep, isOld, limits)
         == t - OldestN(Eligible(t, inScope, keep, isOld), Sum(limits))
    decreases |limits|
  {
    if limits != [] {
      var e, rest := Eligible(t, inScope, keep, isOld), limits[1..];
      var next := DeleteBatch(t, inScope, keep, isOld, limits[0]);
      BatchLeaves(t, inScope, keep, isOld, limits[0]);
      BatchesAreOneDelete(next, inScope, keep, isOld, rest);
      assert DeleteBatches(t, inScope, keep, isOld, limits) == DeleteBatches(next, inScope, keep, isOld, rest);
      TwoDeletesAreOne(t, e, limits[0], Sum(rest), next, Eligible(next, inScope, keep, isOld));
      assert Sum(limits) == limits[0] + Sum(rest);
    }
  }

  /** After a batch, what was eligible and not deleted is eligible. */
  lemma BatchLeaves<G, A>(t: set<Row<G, A>>, inScope: Row<G, A> -> bool, keep: nat, isOld: Row<G, A> -> bool, limit: nat)
    requires UniqueIds(t)
    ensures var e, next := Eligible(t, inScope, keep, isOld), DeleteBatch(t, inScope, keep, isOld, limit);
      next == t - OldestN(e, limit) && Eligible(next, inScope, keep, isOld) == e - OldestN(e, limit)
  {
    var e := Eligible(t, inScope, keep, isOld);
    OldestNIsPrefix(e, limit);
    EligibleAfterDelete(t, inScope, keep, isOld, OldestN(e, limit));
  }

  lemma TwoDeletesAreOne<G, A>(t: set<Row<G, A>>, e: set<Row<G, A>>, m: nat, n: nat, next: set<Row<G, A>>,
                               left: set<Row<G, A>>)
    requires UniqueIds(t) && e <= t && next == t - OldestN(e, m) && left == e - OldestN(e, m)
    ensures next - OldestN(left, n) == t - OldestN(e, m + n)
  {
    OldestNSplit(e, m, n);
  }

  /** Confluence: once the batches are large enough in total, the order and sizes do not matter. The
      end table is the unlimited delete, and nothing in it is eligible any more. */
  lemma BatchesConverge<G, A>(t: set<Row<G, A>>, inScope: Row<G, A> -> bool, keep: nat, isOld: Row<G, A> -> bool,
                              limits: seq<nat>)
    requires UniqueIds(t)
    ensures var e := Eligible(t, inScope, keep, isOld);
      var after := DeleteBatches(t, inScope, keep, isOld, limits);
      && (Sum(limits) >= |e| <==> after == t - e)
      && Eligible(t - e, inScope, keep, isOld) == {}
  {
    var e := Eligible(t, inScope, keep, isOld);
    BatchesAreOneDelete(t, inScope, keep, isOld, limits);
    EligibleAfterDelete(t, inScope, keep, isOld, e);
    OldestNIsPrefix(e, Sum(limits));
    var d := OldestN(e, Sum(limits));
    if Sum(limits) >= |e| { OldestNAll(e, Sum(limits)); }
    if t - d == t - e { assert d == e; }
  }

  // ----- What ranks and batches mean for times and ids -----

  /** A later row of the group, or one with a larger id at the same time, has the smaller row number. */
  lemma NewerRanksFirst<G, A>(t: set<Row<G, A>>, a: Row<G, A>, b: Row<G, A>)
    requires a in t && b in t && a.group == b.group && (a.at < b.at || (a.at == b.at && a.id < b.id))
    ensures Rank(t, b) < Rank(t, a)
  {
    RankDrops(t, a, b);
  }

  /** The row number is one more than the number of rows of the group that are later, or as late with a larger id. */
  lemma RankCountsNewer<G, A>(t: set<Row<G, A>>, r: Row<G, A>)
    requires UniqueIds(t) && r in t
    ensures Rank(t, r) == 1 + |set x | x in t && x.group == r.group && (r.at < x.at || (r.at == x.at && r.id < x.id))|
  {
    var newer := set x | x in t && x.group == r.group && (r.at < x.at || (r.at == x.at && r.id < x.id));
    PartSizes(AtLeastAsNew(t, r), {r}, newer);
  }

  /** The rows in scope of `r`'s group that are later, or as late with a larger id. */
  ghost function NewerIn<G, A>(t: set<Row<G, A>>, inScope: Row<G, A> -> bool, r: Row<G, A>): set<Row<G, A>> {
    set x | x in t && inScope(x) && x.group == r.group && (r.at < x.at || (r.at == x.at && r.id < x.id))
  }

  /** A row may go exactly when it is in scope, old, and at least `keep` rows of its group in scope are newer. */
  lemma EligibleMeans<G, A>(t: set<Row<G, A>>, inScope: Row<G, A> -> bool, keep: nat, isOld: Row<G, A> -> bool, r: Row<G, A>)
    requires UniqueIds(t)
    ensures r in Eligible(t, inScope, keep, isOld)
      <==> r in t && inScope(r) && isOld(r) && |NewerIn(t, inScope, r)| >= keep
  {
    var s := Scope(t, inScope);
    if r in s {
      RankCountsNewer(s, r);
      assert NewerIn(t, inScope, r) == set x | x in s && x.group == r.group && (r.at < x.at || (r.at == x.at && r.id < x.id));
    }
  }

  /** A row that a batch deletes is in scope and old, and `keep` newer rows of its group in scope are still there. */
  lemma DeletedHasNewer<G, A>(t: set<Row<G, A>>, inScope: Row<G, A> -> bool, keep: nat, isOld: Row<G, A> -> bool, limit: nat,
                              r: Row<G, A>)
    requires UniqueIds(t) && r in t && r !in DeleteBatch(t, inScope, keep, isOld, limit)
    ensures inScope(r) && isOld(r) && |NewerIn(DeleteBatch(t, inScope, keep, isOld, limit), inScope, r)| >= keep
  {
    var s, after := Scope(t, inScope), DeleteBatch(t, inScope, keep, isOld, limit);
    OldestNIsPrefix(Eligible(t, inScope, keep, isOld), limit);
    NewestCount(s, r, keep);
    forall x | x in Kept(s, r, keep) ensures x in NewerIn(after, inScope, r) {
      BatchKeeps(t, inScope, keep, isOld, limit, x);
      assert x != r && x.id != r.id;
    }
    SubsetSize(Kept(s, r, keep), NewerIn(after, inScope, r));
  }

  /** A batch deletes earlier rows before later ones, and smaller ids first at one time. */
  lemma DeletedComeFirst<G, A>(t: set<Row<G, A>>, inScope: Row<G, A> -> bool, keep: nat, isOld: Row<G, A> -> bool, limit: nat)
    requires UniqueIds(t)
    ensures var after := DeleteBatch(t, inScope, keep, isOld, limit);
      forall r, x :: r in t - after && x in after && x in Eligible(t, inScope, keep, isOld) ==>
        r.at < x.at || (r.at == x.at && r.id < x.id)
  {
    OldestNComesFirst(Eligible(t, inScope, keep, isOld), limit);
  }

  // The same, as a reference for the statements: in times, ids and groups, without ranks.

  /** Every row of `gone` is in scope, before the cutoff, and leaves `keep` newer rows of its group behind. */
  ghost predicate LeaveNewer<G, A>(gone: set<Row<G, A>>, after: set<Row<G, A>>, inScope: Row<G, A> -> bool, keep: nat, cutoff: int) {
    forall r :: r in gone ==> inScope(r) && r.at < cutoff && |NewerIn(after, inScope, r)| >= keep
  }

  /** The rows in scope before the cutoff that have `keep` newer rows of their group. */
  ghost function Superseded<G, A>(t: set<Row<G, A>>, inScope: Row<G, A> -> bool, keep: nat, cutoff: int): set<Row<G, A>> {
    set r | r in t && inScope(r) && r.at < cutoff && |NewerIn(t, inScope, r)| >= keep
  }

  /** Earlier rows go before later ones, smaller ids first at one time. */
  ghost predicate GoFirst<G, A>(gone: set<Row<G, A>>, left: set<Row<G, A>>) {
    forall r, x :: r in gone && x in left ==> r.at < x.at || (r.at == x.at && r.id < x.id)
  }

  function OlderThan<G, A>(cutoff: int): Row<G, A> -> bool {
    (r: Row<G, A>) => r.at < cutoff
  }

  lemma EligibleIsSuperseded<G, A>(t: set<Row<G, A>>, inScope: Row<G, A> -> bool, keep: nat, cutoff: int)
    requires UniqueIds(t)
    ensures Eligible(t, inScope, keep, OlderThan(cutoff)) == Superseded(t, inScope, keep, cutoff)
  {
    forall r ensures r in Eligible(t, inScope, keep, OlderThan(cutoff)) <==> r in Superseded(t, inScope, keep, cutoff) {
      EligibleMeans(t, inScope, keep, OlderThan(cutoff), r);
    }
  }

  /** What a ranked delete takes: rows in scope before the cutoff that leave `keep` newer ones behind, earlier ones first,
      as many as the limit allows; with room for all, none is left. */
  ghost predicate IsRankedDelete<G, A>(t: set<Row<G, A>>, after: set<Row<G, A>>, inScope: Row<G, A> -> bool, keep: nat, cutoff: int,
                                       limit: nat) {
    var due := Superseded(t, inScope, keep, cutoff);
    && after <= t
    && LeaveNewer(t - after, after, inScope, keep, cutoff)
    && GoFirst(t - after, after * due)
    && t - after <= due && |t - after| == (if limit <= |due| then limit else |due|)
    && (|due| <= limit ==> Superseded(after, inScope, keep, cutoff) == {})
  }

  lemma RankedDeleteMeans<G, A>(t: set<Row<G, A>>, inScope: Row<G, A> -> bool, keep: nat, cutoff: int, limit: nat)
    requires UniqueIds(t)
    ensures IsRankedDelete(t, DeleteBatch(t, inScope, keep, OlderThan(cutoff), limit), inScope, keep, cutoff, limit)
  {
    var e, after := Eligible(t, inScope, keep, OlderThan(cutoff)), DeleteBatch(t, inScope, keep, OlderThan(cutoff), limit);
    EligibleIsSuperseded(t, inScope, keep, cutoff);
    OldestNIsPrefix(e, limit);
    assert t - after == OldestN(e, limit);
    forall r | r in t - after
      ensures inScope(r) && r.at < cutoff && |NewerIn(after, inScope, r)| >= keep
    {
      DeletedHasNewer(t, inScope, keep, OlderThan(cutoff), limit, r);
    }
    DeletedComeFirst(t, inScope, keep, OlderThan(cutoff), limit);
    if |e| <= limit {
      OldestNAll(e, limit);
      EligibleAfterDelete(t, inScope, keep, OlderThan(cutoff), e);
      EligibleIsSuperseded(after, inScope, keep, cutoff);
    }
  }

  // ----- Counting surplus group by group -----

  function Groups<G(==), A(==)>(t: set<Row<G, A>>): set<G> {
    set r | r in t :: r.group
  }

  function Excess(rows: nat, keep: nat): nat {
    if rows > keep then rows - keep else 0
  }

  /** SUM(GREATEST(rows - keep, 0)) over `gs`. */
  ghost function GroupedSurplus<G, A>(t: set<Row<G, A>>, gs: set<G>, keep: nat): nat {
    if gs == {} then 0
    else var g :| g in gs; Excess(|Group(t, g)|, keep) + GroupedSurplus(t, gs - {g}, keep)
  }

  /** The surplus of some groups. */
  function SurplusIn<G(==), A(==)>(t: set<Row<G, A>>, gs: set<G>, keep: nat): set<Row<G, A>> {
    set r | r in Surplus(t, keep) && r.group in gs
  }

  /** The rows of `r`'s group that are as new as `r` and not surplus. */
  function Kept<G(==), A(==)>(t: set<Row<G, A>>, r: Row<G, A>, keep: nat): set<Row<G, A>> {
    set x | x in AtLeastAsNew(t, r) && Rank(t, x) <= keep
  }

  lemma OldestSeesAll<G, A>(t: set<Row<G, A>>, g: G)
    requires UniqueIds(t) && Group(t, g) != {}
    ensures AtLeastAsNew(t, Oldest(Group(t, g))) == Group(t, g)
  {
    var all, o := Group(t, g), Oldest(Group(t, g));
    forall x | x in all ensures !Older(x, o) { OlderTotal(t, x, o); }
  }

  lemma SmallGroupKept<G, A>(t: set<Row<G, A>>, g: G, keep: nat)
    requires UniqueIds(t) && |Group(t, g)| <= keep
    ensures SurplusIn(t, {g}, keep) == {}
  {
    forall x | x in Group(t, g) ensures Rank(t, x) <= keep { RankIsRowNumber(t, x, x); }
  }

  lemma LargeGroupSplits<G, A>(t: set<Row<G, A>>, g: G, keep: nat)
    requires UniqueIds(t) && |Group(t, g)| > keep
    ensures |SurplusIn(t, {g}, keep)| == |Group(t, g)| - keep
  {
    var all, o := Group(t, g), Oldest(Group(t, g));
    OldestSeesAll(t, g);
    NewestCount(t, o, keep);
    PartSizes(all, SurplusIn(t, {g}, keep), Kept(t, o, keep));
  }

  lemma SurplusOfGroup<G, A>(t: set<Row<G, A>>, g: G, keep: nat)
    requires UniqueIds(t)
    ensures |SurplusIn(t, {g}, keep)| == Excess(|Group(t, g)|, keep)
  {
    if |Group(t, g)| <= keep { SmallGroupKept(t, g, keep); } else { LargeGroupSplits(t, g, keep); }
  }

  lemma SurplusInSplits<G, A>(t: set<Row<G, A>>, gs: set<G>, g: G, keep: nat)
    requires g in gs
    ensures |SurplusIn(t, gs, keep)| == |SurplusIn(t, {g}, keep)| + |SurplusIn(t, gs - {g}, keep)|
  {
    PartSizes(SurplusIn(t, gs, keep), SurplusIn(t, {g}, keep), SurplusIn(t, gs - {g}, keep));
  }

  lemma {:induction false} GroupedSurplusCounts<G, A>(t: set<Row<G, A>>, gs: set<G>, keep: nat)
    requires UniqueIds(t)
    ensures GroupedSurplus(t, gs, keep) == |SurplusIn(t, gs, keep)|
  {
    if gs == {} {
      assert SurplusIn(t, gs, keep) == {};
    } else {
      var g :| g in gs && GroupedSurplus(t, gs, keep) == Excess(|Group(t, g)|, keep) + GroupedSurplus(t, gs - {g}, keep);
      SurplusOfGroup(t, g, keep);
      GroupedSurplusCounts(t, gs - {g}, keep);
      SurplusInSplits(t, gs, g, keep);
    }
  }

  /** The grouped count of the hygiene report is the ranked count of the delete scripts. */
  lemma CountsAgree<G, A>(t: set<Row<G, A>>, keep: nat)
    requires UniqueIds(t)
    ensures GroupedSurplus(t, Groups(t), keep) == |Surplus(t, keep)|
  {
    GroupedSurplusCounts(t, Groups(t), keep);
    assert Surplus(t, keep) == SurplusIn(t, Groups(t), keep);
  }

  /** Removing the whole surplus keeps every group alive as long as at least one row is kept. */
  lemma GroupsSurvive<G, A>(t: set<Row<G, A>>, keep: nat)
    requires UniqueIds(t) && keep > 0
    ensures Groups(t - Surplus(t, keep)) == Groups(t)
    ensures Surplus(t - Surplus(t, keep), keep) == {}
  {
    SurplusAfterDelete(t, keep, Surplus(t, keep));
    forall g | g in Groups(t) ensures g in Groups(t - Surplus(t, keep)) {
      var r :| r in t && r.group == g;
      if Rank(t, r) > keep {
        NewestCount(t, r, keep);
        var w := set x | x in AtLeastAsNew(t, r) && Rank(t, x) <= keep;
        assert w != {};
        var x :| x in w;
        assert x in t - Surplus(t, keep);
      }
    }
  }
}
