/** Exact-duplicate pruning of user venue account audit events
    (scripts/db/prune-user-venue-account-audit-events.ts) and the duplicate counts of the hygiene report
    (scripts/reports/report-db-hygiene.ts). */
module AuditPruning {
  import opened Wrappers
  import opened Rows
  import opened KeepNewest
  import opened FiniteSets

  /** PARTITION BY and GROUP BY treat a NULL venue account as a value of its own. */
  datatype EventGroup = EventGroup(user: string, account: Option<nat>, eventType: string, payload: string)
  type Event = Row<EventGroup, ()>

  /** `$1 IS NULL OR user_id = $1` */
  function OfUser(user: Option<string>): Event -> bool {
    (r: Event) => user.None? || r.group.user == user.value
  }

  function Always(): Event -> bool {
    (r: Event) => true
  }

  function Duplicates(t: set<Event>, user: Option<string>): set<Event> {
    Eligible(t, OfUser(user), 1, Always())
  }

  function Prune(t: set<Event>, user: Option<string>): set<Event> {
    t - Duplicates(t, user)
  }

  // ----- One user, all users -----

  /** Ranking one user's rows alone gives each the row number it has in the whole table. */
  lemma UserRanks(t: set<Event>, user: Option<string>, r: Event)
    requires r in Scope(t, OfUser(user))
    ensures Rank(Scope(t, OfUser(user)), r) == Rank(t, r)
  {
    assert AtLeastAsNew(Scope(t, OfUser(user)), r) == AtLeastAsNew(t, r);
  }

  lemma UserDuplicates(t: set<Event>, user: Option<string>)
    ensures Duplicates(t, user) == set r | r in Surplus(t, 1) && OfUser(user)(r)
  {
    forall r | r in Scope(t, OfUser(user)) ensures Rank(Scope(t, OfUser(user)), r) == Rank(t, r) {
      UserRanks(t, user, r);
    }
  }

  ghost function PruneUsers(t: set<Event>, users: seq<string>): set<Event>
    decreases |users|
  {
    if users == [] then t else PruneUsers(Prune(t, Some(users[0])), users[1..])
  }

  lemma {:induction false} PruneUsersIs(t: set<Event>, users: seq<string>)
    requires UniqueIds(t)
    ensures PruneUsers(t, users) == t - set r | r in Surplus(t, 1) && r.group.user in users
    decreases |users|
  {
    if users != [] {
      var d := Duplicates(t, Some(users[0]));
      UserDuplicates(t, Some(users[0]));
      SurplusAfterDelete(t, 1, d);
      PruneUsersIs(t - d, users[1..]);
      assert forall u :: u in users <==> u == users[0] || u in users[1..];
    }
  }

  /** Pruning user by user, in any order and with any repetitions, is pruning without a filter. */
  lemma UserByUserIsAll(t: set<Event>, users: seq<string>)
    requires UniqueIds(t) && forall r :: r in t ==> r.group.user in users
    ensures PruneUsers(t, users) == Prune(t, None)
  {
    PruneUsersIs(t, users);
    UserDuplicates(t, None);
  }

  /** Another event of the same user, account, type and payload is later, or as late with a larger id. */
  ghost predicate HasNewerCopy(t: set<Event>, r: Event) {
    exists x :: x in t && x.group == r.group && (r.at < x.at || (r.at == x.at && r.id < x.id))
  }

  /** The events of one user, or all. */
  ghost function EventsOf(t: set<Event>, user: Option<string>): set<Event> {
    set r | r in t && (user.Some? ==> r.group.user == user.value)
  }

  /** Those of them that have a newer copy. */
  ghost function CopiesOf(t: set<Event>, user: Option<string>): set<Event> {
    set r | r in EventsOf(t, user) && HasNewerCopy(t, r)
  }

  /** Duplicates are the events of the user that have a newer copy. */
  lemma DuplicatesMean(t: set<Event>, user: Option<string>)
    requires UniqueIds(t)
    ensures Duplicates(t, user) == CopiesOf(t, user)
  {
    forall r ensures r in Duplicates(t, user) <==> r in CopiesOf(t, user) {
      EligibleMeans(t, OfUser(user), 1, Always(), r);
      NewerCopyIsOne(t, user, r);
    }
  }

  lemma NewerCopyIsOne(t: set<Event>, user: Option<string>, r: Event)
    ensures OfUser(user)(r) ==> (|NewerIn(t, OfUser(user), r)| >= 1 <==> HasNewerCopy(t, r))
  {
    var newer := NewerIn(t, OfUser(user), r);
    if OfUser(user)(r) && HasNewerCopy(t, r) {
      var x :| x in t && x.group == r.group && (r.at < x.at || (r.at == x.at && r.id < x.id));
      assert x in newer;
    }
    if |newer| >= 1 { var x :| x in newer; }
  }

  // ----- Counts -----

  /** The hygiene report's figures: rows, sum of max(rows - 1, 0) over groups, groups with several rows. */
  ghost function ExactDuplicateRows(t: set<Event>): nat {
    GroupedSurplus(t, Groups(t), 1)
  }

  function DuplicateGroups(t: set<Event>): set<EventGroup> {
    set g | g in Groups(t) && |Group(t, g)| > 1
  }

  lemma DuplicateGroupsMean(t: set<Event>, g: EventGroup)
    ensures g in DuplicateGroups(t) <==> exists a, b :: a in t && b in t && a != b && a.group == g && b.group == g
  {
    var s := Group(t, g);
    if g in DuplicateGroups(t) {
      var a :| a in s;
      assert |s - {a}| > 0;
      var b :| b in s - {a};
      assert a in t && b in t && a != b && a.group == g && b.group == g;
    }
    if a, b :| a in t && b in t && a != b && a.group == g && b.group == g {
      SubsetSize({a, b}, s);
    }
  }

  /** The report and the script count the same rows; deleting them leaves one row of every group, and both
      counts are zero afterwards. */
  lemma PruneAccounting(t: set<Event>)
    requires UniqueIds(t)
    ensures |Duplicates(t, None)| == ExactDuplicateRows(t)
    ensures |Prune(t, None)| == |t| - ExactDuplicateRows(t) == |Groups(t)|
    ensures Groups(Prune(t, None)) == Groups(t)
    ensures Duplicates(Prune(t, None), None) == {} && ExactDuplicateRows(Prune(t, None)) == 0
    ensures DuplicateGroups(Prune(t, None)) == {}
  {
    AllDuplicates(t);
    CountsAgree(t, 1);
    GroupsSurvive(t, 1);
    var after := Prune(t, None);
    AllDuplicates(after);
    CountsAgree(after, 1);
    OneRowPerGroup(after);
    assert |t| == |Surplus(t, 1)| + |after|;
  }

  lemma AllDuplicates(t: set<Event>)
    ensures Duplicates(t, None) == Surplus(t, 1) && Prune(t, None) == t - Surplus(t, 1)
  {
    UserDuplicates(t, None);
  }

  lemma OneRowPerGroup(t: set<Event>)
    requires UniqueIds(t) && Surplus(t, 1) == {}
    ensures |t| == |Groups(t)| && DuplicateGroups(t) == {}
  {
    forall a, b | a in t && b in t && a.group == b.group ensures a == b {
      assert a !in Surplus(t, 1) && b !in Surplus(t, 1);
      RankIsRowNumber(t, a, b);
    }
    OnePerGroupSize(t);
    forall g | g in Groups(t) ensures |Group(t, g)| <= 1 {
      var r :| r in t && r.group == g;
      assert Group(t, g) == {r};
    }
  }

  lemma {:induction false} OnePerGroupSize(t: set<Event>)
    requires forall a, b :: a in t && b in t && a.group == b.group ==> a == b
    ensures |t| == |Groups(t)|
  {
    if t != {} {
      var r :| r in t;
      OnePerGroupSize(t - {r});
      assert Groups(t) == Groups(t - {r}) + {r.group};
      assert r.group !in Groups(t - {r});
    }
  }

  // ----- The script -----

  datatype PruneSummary = PruneSummary(before: nat, duplicates: nat, deleted: nat, after: Option<nat>)

  class EventTable {
    var rows: set<Event>

    /** `main`: count, count duplicates, delete them when applying, count again. The counts see only the
        filtered user's rows; other users' rows are untouched. */
    method RunPrune(apply: bool, user: Option<string>) returns (s: PruneSummary)
      requires UniqueIds(rows)
      modifies this
      ensures UniqueIds(rows)
      ensures rows == if apply then Prune(old(rows), user) else old(rows)
      ensures rows == if apply then old(rows) - CopiesOf(old(rows), user) else old(rows)
      ensures s.before == |EventsOf(old(rows), user)| && s.duplicates == |CopiesOf(old(rows), user)|
      ensures s.deleted == (if apply then s.duplicates else 0)
      ensures s.after == if apply then Some(s.before - s.deleted) else None
      ensures forall r :: r in old(rows) && !OfUser(user)(r) ==> r in rows
      ensures apply ==> Duplicates(rows, user) == {}
    {
      ghost var start := rows;
      var before := |Scope(rows, OfUser(user))|;
      var duplicates := Duplicates(rows, user);
      var deleted := 0;
      AfterPrune(start, user);
      DuplicatesMean(start, user);
      assert Scope(start, OfUser(user)) == EventsOf(start, user);
      if apply && |duplicates| > 0 {
        rows := rows - duplicates;
        deleted := |duplicates|;
      }
      s := PruneSummary(before, |duplicates|, deleted, if apply then Some(|Scope(rows, OfUser(user))|) else None);
    }
  }

  lemma AfterPrune(t: set<Event>, user: Option<string>)
    requires UniqueIds(t)
    ensures Duplicates(t, user) <= Scope(t, OfUser(user))
    ensures |Scope(Prune(t, user), OfUser(user))| == |Scope(t, OfUser(user))| - |Duplicates(t, user)|
    ensures Duplicates(Prune(t, user), user) == {}
    ensures Duplicates(t, user) == {} ==> Prune(t, user) == t
  {
    var d := Duplicates(t, user);
    EligibleAfterDelete(t, OfUser(user), 1, Always(), d);
    assert Scope(t - d, OfUser(user)) == Scope(t, OfUser(user)) - d;
    assert |Scope(t, OfUser(user)) - d| == |Scope(t, OfUser(user))| - |d|;
  }
}
