/** All-or-nothing cancellation of abandoned funding intents
    (scripts/admin/cancel-abandoned-funding-intents.ts). */
module FundingCancellation {
  import opened Ascii
  import opened Wrappers
  import opened FiniteSets
  import opened Sequences

  /** UUID text. The database stores and prints it in lower case. */
  type Id = string

  /** The statuses the script compares with, and any other text. */
  datatype IntentStatus = READY_TO_TRADE | CANCELLED | OtherStatus(text: string)
  datatype LegStatus = LEG_READY_TO_TRADE | LEG_FAILED | LEG_CANCELLED | OtherLegStatus(text: string)

  datatype Intent = Intent(userId: string, status: IntentStatus, auditIds: seq<Id>)
  datatype Leg = Leg(intent: Id, status: LegStatus, errorReason: Option<string>)
  datatype Target = Target(intent: Id, venue: string, status: LegStatus)
  datatype Recon = Recon(intent: Id, ready: bool)
  datatype AuditEvent = AuditEvent(intent: Id, eventType: string, reason: string)

  datatype Tables = Tables(intents: map<Id, Intent>, legs: map<Id, Leg>, targets: map<Id, Target>,
                           recons: map<Id, Recon>, audit: map<Id, AuditEvent>)

  // ----- Request checks -----

  predicate IsHex(c: char) {
    '0' <= c <= '9' || 'a' <= c <= 'f' || 'A' <= c <= 'F'
  }

  /** The case-insensitive UUID pattern. */
  predicate IsUuid(s: string) {
    && |s| == 36
    && forall i :: 0 <= i < 36 ==> if i in {8, 13, 18, 23} then s[i] == '-' else IsHex(s[i])
  }

  ghost predicate HexGroup(s: string, length: nat) {
    |s| == length && forall k :: 0 <= k < |s| ==> s[k] in "0123456789abcdefABCDEF"
  }

  /** The pattern: five groups of hexadecimal digits of either case, joined by dashes. */
  ghost predicate FiveGroups(s: string, a: string, b: string, c: string, d: string, e: string) {
    && s == a + "-" + b + "-" + c + "-" + d + "-" + e
    && HexGroup(a, 8) && HexGroup(b, 4) && HexGroup(c, 4) && HexGroup(d, 4) && HexGroup(e, 12)
  }

  lemma HexDigits()
    ensures forall c :: IsHex(c) <==> c in "0123456789abcdefABCDEF"
  {
    var all := "0123456789abcdefABCDEF";
    forall c | IsHex(c) ensures c in all {
      var k := if '0' <= c <= '9' then (c - '0') as nat else if 'a' <= c <= 'f' then (c - 'a') as nat + 10 else (c - 'A') as nat + 16;
      assert all[k] == c;
    }
    forall c | c in all ensures IsHex(c) {
      var k :| 0 <= k < |all| && all[k] == c;
    }
  }

  lemma UuidMeans(s: string)
    ensures IsUuid(s) <==> exists a, b, c, d, e :: FiveGroups(s, a, b, c, d, e)
  {
    if IsUuid(s) { UuidSplits(s); }
    if a, b, c, d, e :| FiveGroups(s, a, b, c, d, e) { GroupsAreUuid(s, a, b, c, d, e); }
  }

  lemma HexSlice(s: string, from: nat, to: nat)
    requires from <= to <= |s| && forall i :: from <= i < to ==> IsHex(s[i])
    ensures HexGroup(s[from..to], to - from)
  {
    HexDigits();
  }

  lemma UuidSplits(s: string)
    requires IsUuid(s)
    ensures FiveGroups(s, s[..8], s[9..13], s[14..18], s[19..23], s[24..])
  {
    HexSlice(s, 0, 8);
    HexSlice(s, 9, 13);
    HexSlice(s, 14, 18);
    HexSlice(s, 19, 23);
    HexSlice(s, 24, 36);
    assert s == s[..8] + [s[8]] + s[9..13] + [s[13]] + s[14..18] + [s[18]] + s[19..23] + [s[23]] + s[24..];
  }

  lemma GroupsAreUuid(s: string, a: string, b: string, c: string, d: string, e: string)
    requires FiveGroups(s, a, b, c, d, e)
    ensures IsUuid(s)
  {
    HexDigits();
    var t := a + b + c + d + e;
    assert forall k :: 0 <= k < |t| ==> IsHex(t[k]);
    forall i | 0 <= i < 36 && i !in {8, 13, 18, 23} ensures IsHex(s[i]) {
      assert s[i] == t[i - (if i < 8 then 0 else if i < 13 then 1 else if i < 18 then 2 else if i < 23 then 3 else 4)];
    }
  }

  ghost predicate LowerCaseKeys(t: Tables) {
    forall id :: id in t.intents ==> Lower(id) == id
  }

  // ----- Load -----

  datatype CandidateRow = CandidateRow(id: Id, userId: string, status: IntentStatus, venues: set<string>, legIds: set<Id>,
                                       readyCount: nat)

  function TargetsOf(t: Tables, id: Id): set<Id> {
    set x | x in t.targets && t.targets[x].intent == id
  }

  function LegsOf(t: Tables, id: Id): set<Id> {
    set x | x in t.legs && t.legs[x].intent == id
  }

  function ReconsOf(t: Tables, id: Id): set<Id> {
    set x | x in t.recons && t.recons[x].intent == id
  }

  function ReadyRecons(t: Tables, id: Id): set<Id> {
    set x | x in ReconsOf(t, id) && t.recons[x].ready
  }

  /** One side of a LEFT JOIN: the matching rows, or a single NULL. */
  function OrNull(s: set<Id>): set<Option<Id>> {
    if s == {} then {None} else set x | x in s :: Some(x)
  }

  /** COUNT(fr.id) FILTER (WHERE fr.ready_to_trade) over the rows of the three LEFT JOINs. */
  function ReadyCount(t: Tables, id: Id): nat {
    |set a, b, c | a in OrNull(TargetsOf(t, id)) && b in OrNull(LegsOf(t, id)) && c in OrNull(ReconsOf(t, id))
                   && c.Some? && t.recons[c.value].ready :: ((a, b), c)|
  }

  function LoadRow(t: Tables, id: Id): CandidateRow
    requires id in t.intents
  {
    CandidateRow(id, t.intents[id].userId, t.intents[id].status,
                 set x | x in TargetsOf(t, id) :: t.targets[x].venue, LegsOf(t, id), ReadyCount(t, id))
  }

  /** `WHERE fi.id = ANY($1::uuid[])`: the cast to UUID ignores letter case. */
  function LoadCandidates(t: Tables, ids: seq<string>): (rows: map<Id, CandidateRow>) {
    map id | id in t.intents && exists i :: 0 <= i < |ids| && Lower(ids[i]) == id :: LoadRow(t, id)
  }

  function AtLeastOne(n: nat): nat {
    if n == 0 then 1 else n
  }

  lemma {:induction false} SomeSize(s: set<Id>)
    ensures |set x | x in s :: Some(x)| == |s|
  {
    if s != {} {
      var x :| x in s;
      SomeSize(s - {x});
      assert (set y | y in s :: Some(y)) == (set y | y in s - {x} :: Some(y)) + {Some(x)};
    }
  }

  /** The joins multiply the number of ready records, by the number of targets and of legs. */
  lemma ReadyCountFansOut(t: Tables, id: Id)
    ensures ReadyCount(t, id)
         == AtLeastOne(|TargetsOf(t, id)|) * AtLeastOne(|LegsOf(t, id)|) * |ReadyRecons(t, id)|
  {
    var a, b := OrNull(TargetsOf(t, id)), OrNull(LegsOf(t, id));
    var ready := set x | x in ReadyRecons(t, id) :: Some(x);
    var rows := set x, y, z | x in a && y in b && z in OrNull(ReconsOf(t, id))
                              && z.Some? && t.recons[z.value].ready :: ((x, y), z);
    assert rows == Pairs(Pairs(a, b), ready);
    PairsSize(Pairs(a, b), ready);
    PairsSize(a, b);
    SomeSize(TargetsOf(t, id));
    SomeSize(LegsOf(t, id));
    SomeSize(ReadyRecons(t, id));
  }

  /** The fan-out never changes the verdict. */
  lemma ReadyCountVerdict(t: Tables, id: Id)
    ensures ReadyCount(t, id) > 0 <==> exists x :: x in t.recons && t.recons[x].intent == id && t.recons[x].ready
  {
    ReadyCountFansOut(t, id);
    PositiveProduct(AtLeastOne(|TargetsOf(t, id)|), AtLeastOne(|LegsOf(t, id)|), |ReadyRecons(t, id)|);
    if ReadyRecons(t, id) != {} { var x :| x in ReadyRecons(t, id); }
    forall x | x in t.recons && t.recons[x].intent == id && t.recons[x].ready ensures ReadyRecons(t, id) != {} {
      assert x in ReadyRecons(t, id);
    }
  }

  lemma PositiveProduct(a: nat, b: nat, n: nat)
    requires a > 0 && b > 0
    ensures a * b * n > 0 <==> n > 0
  {
    assert a * b > 0;
    if n > 0 { assert (a * b) * n >= a * b; }
  }

  // ----- Validate -----

  datatype Blocker = NotFound | WrongUser | AlreadyReady | ReadyEvidence

  datatype CancelResult = CancelResult(id: string, userId: string, previousStatus: Option<IntentStatus>, venues: set<string>,
                                       legIds: set<Id>, alreadyCancelled: bool, cancelled: bool, blocker: Option<Blocker>)

  function ValidateCandidate(row: CandidateRow, expectedUser: Option<string>): CancelResult {
    var r := CancelResult(row.id, row.userId, Some(row.status), row.venues, row.legIds, row.status == CANCELLED, false, None);
    if expectedUser.Some? && row.userId != expectedUser.value then r.(blocker := Some(WrongUser))
    else if row.status == READY_TO_TRADE then r.(blocker := Some(AlreadyReady))
    else if row.readyCount > 0 then r.(blocker := Some(ReadyEvidence))
    else r
  }

  function ResultFor(t: Tables, id: string, expectedUser: Option<string>): CancelResult {
    if id in t.intents then ValidateCandidate(LoadRow(t, id), expectedUser)
    else CancelResult(id, "", None, {}, {}, false, false, Some(NotFound))
  }

  ghost predicate Ready(t: Tables, id: Id)
    requires id in t.intents
  {
    t.intents[id].status == READY_TO_TRADE || exists x :: x in t.recons && t.recons[x].intent == id && t.recons[x].ready
  }

  ghost predicate Cancellable(t: Tables, id: string, expectedUser: Option<string>) {
    && id in t.intents
    && (expectedUser.None? || t.intents[id].userId == expectedUser.value)
    && !Ready(t, id)
  }

  /** What lets the script proceed. */
  ghost predicate Acceptable(t: Tables, ids: seq<string>, expectedUser: Option<string>) {
    NoRepeats(ids) && forall i :: 0 <= i < |ids| ==> Cancellable(t, ids[i], expectedUser)
  }

  lemma BlockerIffNotCancellable(t: Tables, id: string, expectedUser: Option<string>)
    ensures ResultFor(t, id, expectedUser).blocker.None? <==> Cancellable(t, id, expectedUser)
  {
    ReadyCountVerdict(t, id);
  }

  /** Which result each id gets, and which blocker it names: the first that applies. */
  lemma ResultMeans(t: Tables, id: string, expectedUser: Option<string>)
    ensures var r := ResultFor(t, id, expectedUser);
      && r.id == id && !r.cancelled
      && (r.blocker == Some(NotFound) <==> id !in t.intents)
      && (id !in t.intents ==> r.previousStatus.None? && !r.alreadyCancelled)
    ensures id in t.intents ==> var r := ResultFor(t, id, expectedUser);
      && r.userId == t.intents[id].userId && r.previousStatus == Some(t.intents[id].status)
      && (r.alreadyCancelled <==> t.intents[id].status == CANCELLED)
      && (r.legIds == set x | x in t.legs && t.legs[x].intent == id)
      && (r.venues == set x | x in t.targets && t.targets[x].intent == id :: t.targets[x].venue)
    ensures id in t.intents ==>
      var blocker, wrong := ResultFor(t, id, expectedUser).blocker, expectedUser.Some? && expectedUser.value != t.intents[id].userId;
      && (blocker == Some(WrongUser) <==> wrong)
      && (blocker == Some(AlreadyReady) <==> !wrong && t.intents[id].status == READY_TO_TRADE)
      && (blocker == Some(ReadyEvidence) <==>
            !wrong && t.intents[id].status != READY_TO_TRADE && exists x :: x in t.recons && t.recons[x].intent == id && t.recons[x].ready)
  {
    ReadyCountVerdict(t, id);
    if id in t.intents {
      assert LoadRow(t, id).venues == set x | x in t.targets && t.targets[x].intent == id :: t.targets[x].venue;
    }
  }

  /** What a request must satisfy to proceed. */
  lemma AcceptedMeans(t: Tables, ids: seq<string>, expectedUser: Option<string>)
    ensures Acceptable(t, ids, expectedUser) <==>
      && (forall i, j :: 0 <= i < j < |ids| ==> ids[i] != ids[j])
      && (forall i :: 0 <= i < |ids| ==>
            && ids[i] in t.intents && t.intents[ids[i]].status != READY_TO_TRADE
            && (expectedUser.Some? ==> t.intents[ids[i]].userId == expectedUser.value)
            && forall x :: x in t.recons && t.recons[x].intent == ids[i] ==> !t.recons[x].ready)
  {
    assert NoRepeats(ids) <==> forall i, j :: 0 <= i < j < |ids| ==> ids[i] != ids[j];
  }

  lemma {:induction false} DistinctIffSize<T>(s: seq<T>)
    ensures NoRepeats(s) <==> |set x | x in s| == |s|
    ensures |set x | x in s| <= |s|
  {
    if s == [] {
      assert (set x | x in s) == {};
    } else {
      var last := |s| - 1;
      var init := s[..last];
      DistinctIffSize(init);
      assert (set x | x in s) == (set x | x in init) + {s[last]};
      if s[last] in init {
        assert (set x | x in s) == set x | x in init;
        var i :| 0 <= i < last && init[i] == s[last];
        assert s[i] == s[last];
      }
    }
  }

  /** A stored intent is loaded however its id is written, but is reported as not found, and the whole request
      refused, exactly when the request writes a capital letter in it. */
  lemma CapitalLettersReportedMissing(t: Tables, ids: seq<string>, k: nat, expectedUser: Option<string>)
    requires LowerCaseKeys(t) && k < |ids| && Lower(ids[k]) in t.intents
    ensures Lower(ids[k]) in LoadCandidates(t, ids)
    ensures ResultFor(t, ids[k], expectedUser).blocker == Some(NotFound) <==> Lower(ids[k]) != ids[k]
    ensures Lower(ids[k]) != ids[k] ==> !Acceptable(t, ids, expectedUser)
  {
    assert Lower(ids[k]) != ids[k] ==> !Cancellable(t, ids[k], expectedUser);
  }

  /** A UUID of one hexadecimal digit, and a table with one intent. */
  function UuidOf(c: char): string {
    seq(36, i => if i in {8, 13, 18, 23} then '-' else c)
  }

  function OneIntent(id: Id, status: IntentStatus): Tables {
    Tables(map[id := Intent("u", status, [])], map[], map[], map[], map[])
  }

  lemma OneIntentAcceptable(id: Id, text: string)
    ensures Acceptable(OneIntent(id, OtherStatus(text)), [id], None)
  {
  }

  /** Such a request: well formed and refused, although the same request in small letters is accepted. */
  lemma CapitalLettersExist(text: string)
    ensures var t := OneIntent(UuidOf('a'), OtherStatus(text));
      && IsUuid(UuidOf('A')) && LowerCaseKeys(t) && !Acceptable(t, [UuidOf('A')], None)
      && IsUuid(UuidOf('a')) && Acceptable(t, [UuidOf('a')], None)
  {
    var t := OneIntent(UuidOf('a'), OtherStatus(text));
    assert Lower(UuidOf('A')) == UuidOf('a') && Lower(UuidOf('a')) == UuidOf('a');
    assert UuidOf('A')[0] != UuidOf('a')[0];
    CapitalLettersReportedMissing(t, [UuidOf('A')], 0, None);
    OneIntentAcceptable(UuidOf('a'), text);
  }

  // ----- The five statements of cancelIntent -----

  predicate Terminal(status: LegStatus) {
    !status.OtherLegStatus?
  }

  function CancelledLeg(l: Leg, reason: string): Leg {
    l.(status := LEG_CANCELLED, errorReason := Some(l.errorReason.GetOr(reason)))
  }

  function CancelLegs(t: Tables, id: Id, reason: string): Tables {
    t.(legs := map x | x in t.legs ::
      if t.legs[x].intent == id && !Terminal(t.legs[x].status) then CancelledLeg(t.legs[x], reason) else t.legs[x])
  }

  function CancelTargets(t: Tables, id: Id): Tables {
    t.(targets := map x | x in t.targets ::
      if t.targets[x].intent == id && !Terminal(t.targets[x].status) then t.targets[x].(status := LEG_CANCELLED)
      else t.targets[x])
  }

  function CancelIntentRow(t: Tables, id: Id): Tables {
    if id in t.intents && t.intents[id].status != CANCELLED
    then t.(intents := t.intents[id := t.intents[id].(status := CANCELLED)]) else t
  }

  function InsertAuditEvent(t: Tables, id: Id, reason: string, event: Id): Tables {
    t.(audit := t.audit[event := AuditEvent(id, "FUNDING_CANCELLED", reason)])
  }

  function AppendAuditId(t: Tables, id: Id, event: Id): Tables {
    if id in t.intents
    then t.(intents := t.intents[id := t.intents[id].(auditIds := t.intents[id].auditIds + [event])]) else t
  }

  function CancelOne(t: Tables, id: Id, reason: string, event: Id): Tables {
    AppendAuditId(InsertAuditEvent(CancelIntentRow(CancelTargets(CancelLegs(t, id, reason), id), id), id, reason, event),
                  id, event)
  }

  function CancelAll(t: Tables, ids: seq<Id>, reason: string, events: seq<Id>): Tables
    requires |events| >= |ids|
  {
    if ids == [] then t
    else CancelOne(CancelAll(t, ids[..|ids| - 1], reason, events), ids[|ids| - 1], reason, events[|ids| - 1])
  }

  // ----- The exact frame of a commit -----

  ghost predicate FreshEvents(t: Tables, events: seq<Id>) {
    NoRepeats(events) && forall i :: 0 <= i < |events| ==> events[i] !in t.audit
  }

  /** Every row of the five tables after a commit, in terms of the rows before it. */
  ghost predicate Committed(t: Tables, after: Tables, ids: seq<Id>, reason: string, events: seq<Id>)
    requires |events| >= |ids|
  {
    && IntentsCommitted(t, after, ids, events)
    && AuditCommitted(t, after, ids, reason, events)
    && LegsCommitted(t, after, ids, reason)
    && after.recons == t.recons
  }

  function LegAfter(l: Leg, ids: seq<Id>, reason: string): Leg {
    if l.intent !in ids || l.status in {LEG_READY_TO_TRADE, LEG_FAILED, LEG_CANCELLED} then l
    else Leg(l.intent, LEG_CANCELLED, if l.errorReason.Some? then l.errorReason else Some(reason))
  }

  function TargetAfter(x: Target, ids: seq<Id>): Target {
    if x.intent !in ids || x.status in {LEG_READY_TO_TRADE, LEG_FAILED, LEG_CANCELLED} then x
    else Target(x.intent, x.venue, LEG_CANCELLED)
  }

  /** Exactly the non-terminal legs and targets of the requested intents become LEG_CANCELLED; a leg keeps an
      error reason it already has. */
  ghost predicate LegsCommitted(t: Tables, after: Tables, ids: seq<Id>, reason: string) {
    && after.legs.Keys == t.legs.Keys && after.targets.Keys == t.targets.Keys
    && (forall x :: x in t.legs ==> after.legs[x] == LegAfter(t.legs[x], ids, reason))
    && (forall x :: x in t.targets ==> after.targets[x] == TargetAfter(t.targets[x], ids))
  }

  /** Requested intents are CANCELLED and name exactly one more event; the others are as before. */
  ghost predicate IntentsCommitted(t: Tables, after: Tables, ids: seq<Id>, events: seq<Id>)
    requires |events| >= |ids|
  {
    && after.intents.Keys == t.intents.Keys
    && (forall id :: id in t.intents && id !in ids ==> after.intents[id] == t.intents[id])
    && (forall i :: 0 <= i < |ids| && ids[i] in t.intents ==>
          after.intents[ids[i]]
          == Intent(t.intents[ids[i]].userId, CANCELLED, t.intents[ids[i]].auditIds + [events[i]]))
  }

  /** One new event per requested intent, naming it; existing events are as before. */
  ghost predicate AuditCommitted(t: Tables, after: Tables, ids: seq<Id>, reason: string, events: seq<Id>)
    requires |events| >= |ids|
  {
    && (forall e :: e in after.audit <==> e in t.audit || e in events[..|ids|])
    && (forall e :: e in t.audit && e !in events[..|ids|] ==> after.audit[e] == t.audit[e])
    && (forall i :: 0 <= i < |ids| ==>
          events[i] in after.audit && after.audit[events[i]] == AuditEvent(ids[i], "FUNDING_CANCELLED", reason))
  }

  lemma {:induction false} CancelAllCommits(t: Tables, ids: seq<Id>, reason: string, events: seq<Id>)
    requires |events| >= |ids| && NoRepeats(ids) && FreshEvents(t, events)
    ensures Committed(t, CancelAll(t, ids, reason, events), ids, reason, events)
    decreases |ids|
  {
    if ids == [] {
      NothingCommitted(t, reason, events);
    } else {
      var init := ids[..|ids| - 1];
      CancelAllCommits(t, init, reason, events);
      CommitMore(t, CancelAll(t, init, reason, events), ids, reason, events);
    }
  }

  /** What a commit does to legs and targets: ready, failed and cancelled ones of the requested intents stay, the others
      become LEG_CANCELLED, a leg keeping an error reason it has; rows of other intents stay. */
  lemma CommitWritesLegs(t: Tables, ids: seq<Id>, reason: string, events: seq<Id>)
    requires |events| >= |ids| && NoRepeats(ids) && FreshEvents(t, events)
    ensures var after := CancelAll(t, ids, reason, events);
      && after.legs.Keys == t.legs.Keys
      && forall x :: x in t.legs ==>
           if t.legs[x].intent !in ids || t.legs[x].status in {LEG_READY_TO_TRADE, LEG_FAILED, LEG_CANCELLED}
           then after.legs[x] == t.legs[x]
           else
             && after.legs[x].intent == t.legs[x].intent && after.legs[x].status == LEG_CANCELLED
             && after.legs[x].errorReason == (if t.legs[x].errorReason.Some? then t.legs[x].errorReason else Some(reason))
    ensures var after := CancelAll(t, ids, reason, events);
      && after.targets.Keys == t.targets.Keys
      && forall x :: x in t.targets ==>
           if t.targets[x].intent !in ids || t.targets[x].status in {LEG_READY_TO_TRADE, LEG_FAILED, LEG_CANCELLED}
           then after.targets[x] == t.targets[x]
           else after.targets[x] == Target(t.targets[x].intent, t.targets[x].venue, LEG_CANCELLED)
  {
    CancelAllCommits(t, ids, reason, events);
  }

  /** What a commit does to intents, events and reconciliation records. */
  lemma CommitWritesIntents(t: Tables, ids: seq<Id>, reason: string, events: seq<Id>)
    requires |events| >= |ids| && NoRepeats(ids) && FreshEvents(t, events)
    ensures var after := CancelAll(t, ids, reason, events);
      && after.recons == t.recons && after.intents.Keys == t.intents.Keys
      && (forall id :: id in t.intents && id !in ids ==> after.intents[id] == t.intents[id])
      && (forall i :: 0 <= i < |ids| && ids[i] in t.intents ==>
            after.intents[ids[i]] == Intent(t.intents[ids[i]].userId, CANCELLED, t.intents[ids[i]].auditIds + [events[i]]))
    ensures var after := CancelAll(t, ids, reason, events);
      && (forall e :: e in t.audit ==> e in after.audit && after.audit[e] == t.audit[e])
      && (forall e :: e in after.audit && e !in t.audit ==> exists i :: 0 <= i < |ids| && events[i] == e)
      && (forall i :: 0 <= i < |ids| ==>
            events[i] in after.audit && after.audit[events[i]] == AuditEvent(ids[i], "FUNDING_CANCELLED", reason))
  {
    CancelAllCommits(t, ids, reason, events);
    var after := CancelAll(t, ids, reason, events);
    forall e | e in t.audit ensures e !in events[..|ids|] {
      if k :| 0 <= k < |ids| && events[..|ids|][k] == e { assert events[k] == e; }
    }
    forall e | e in after.audit && e !in t.audit ensures exists i :: 0 <= i < |ids| && events[i] == e {
      var k :| 0 <= k < |ids| && events[..|ids|][k] == e;
      assert events[k] == e;
    }
  }

  lemma NothingCommitted(t: Tables, reason: string, events: seq<Id>)
    ensures Committed(t, t, [], reason, events)
  {
    assert events[..0] == [];
  }

  lemma CommitMore(t: Tables, mid: Tables, ids: seq<Id>, reason: string, events: seq<Id>)
    requires ids != [] && |events| >= |ids| && NoRepeats(ids) && FreshEvents(t, events)
    requires Committed(t, mid, ids[..|ids| - 1], reason, events)
    ensures Committed(t, CancelOne(mid, ids[|ids| - 1], reason, events[|ids| - 1]), ids, reason, events)
  {
    var last := |ids| - 1;
    assert ids == ids[..last] + [ids[last]];
    CancelOneMore(t, mid, ids[..last], ids[last], reason, events);
  }

  lemma CancelOneMore(t: Tables, mid: Tables, init: seq<Id>, id: Id, reason: string, events: seq<Id>)
    requires |events| > |init| && NoRepeats(init + [id]) && FreshEvents(t, events) && Committed(t, mid, init, reason, events)
    ensures Committed(t, CancelOne(mid, id, reason, events[|init|]), init + [id], reason, events)
  {
    CancelOneIntents(t, mid, init, id, reason, events);
    CancelOneAudit(t, mid, init, id, reason, events);
    CancelOneLegs(t, mid, init, id, reason, events[|init|]);
  }

  lemma CancelOneIntent(t: Tables, id: Id, reason: string, event: Id)
    ensures CancelOne(t, id, reason, event).intents
         == if id in t.intents
            then t.intents[id := Intent(t.intents[id].userId, CANCELLED, t.intents[id].auditIds + [event])]
            else t.intents
  {
  }

  lemma IntentsMore(t: Tables, mid: Tables, after: Tables, init: seq<Id>, id: Id, events: seq<Id>)
    requires |events| > |init| && NoRepeats(init + [id]) && IntentsCommitted(t, mid, init, events)
    requires after.intents == if id in mid.intents
      then mid.intents[id := Intent(mid.intents[id].userId, CANCELLED, mid.intents[id].auditIds + [events[|init|]])]
      else mid.intents
    ensures IntentsCommitted(t, after, init + [id], events)
  {
    var ids := init + [id];
    assert forall i :: 0 <= i < |init| ==> ids[i] == init[i];
    assert ids[|init|] == id && id !in init;
  }

  lemma CancelOneIntents(t: Tables, mid: Tables, init: seq<Id>, id: Id, reason: string, events: seq<Id>)
    requires |events| > |init| && NoRepeats(init + [id]) && IntentsCommitted(t, mid, init, events)
    ensures IntentsCommitted(t, CancelOne(mid, id, reason, events[|init|]), init + [id], events)
  {
    CancelOneIntent(mid, id, reason, events[|init|]);
    IntentsMore(t, mid, CancelOne(mid, id, reason, events[|init|]), init, id, events);
  }

  lemma CancelOneAudit(t: Tables, mid: Tables, init: seq<Id>, id: Id, reason: string, events: seq<Id>)
    requires |events| > |init| && FreshEvents(t, events) && AuditCommitted(t, mid, init, reason, events)
    ensures AuditCommitted(t, CancelOne(mid, id, reason, events[|init|]), init + [id], reason, events)
  {
    var n := |init|;
    assert events[..n + 1] == events[..n] + [events[n]];
  }

  lemma CancelOneLegs(t: Tables, mid: Tables, init: seq<Id>, id: Id, reason: string, event: Id)
    requires LegsCommitted(t, mid, init, reason)
    ensures LegsCommitted(t, CancelOne(mid, id, reason, event), init + [id], reason)
    ensures CancelOne(mid, id, reason, event).recons == mid.recons
  {
    OnlyLegStatementsTouchLegs(mid, id, reason, event);
    forall x | x in t.legs
      ensures CancelLegs(mid, id, reason).legs[x] == LegAfter(t.legs[x], init + [id], reason)
    {
      assert mid.legs[x] == LegAfter(t.legs[x], init, reason);
    }
    forall x | x in t.targets ensures CancelTargets(mid, id).targets[x] == TargetAfter(t.targets[x], init + [id]) {
      assert mid.targets[x] == TargetAfter(t.targets[x], init);
    }
  }

  lemma OnlyLegStatementsTouchLegs(t: Tables, id: Id, reason: string, event: Id)
    ensures var after := CancelOne(t, id, reason, event);
      after.legs == CancelLegs(t, id, reason).legs && after.targets == CancelTargets(t, id).targets && after.recons == t.recons
  {
  }

  // ----- Runs -----

  /** The requested intents a run would newly cancel. */
  function Todo(t: Tables, ids: seq<string>): seq<Id> {
    if ids == [] then []
    else
      var init := Todo(t, ids[..|ids| - 1]);
      var id := ids[|ids| - 1];
      if IsCancelled(t, id) then init else init + [id]
  }

  predicate IsCancelled(t: Tables, id: Id) {
    id in t.intents && t.intents[id].status == CANCELLED
  }

  lemma {:induction false} TodoMembers(t: Tables, ids: seq<string>, id: Id)
    ensures id in Todo(t, ids) <==> id in ids && !IsCancelled(t, id)
  {
    if ids != [] {
      var n := |ids| - 1;
      TodoMembers(t, ids[..n], id);
      assert ids == ids[..n] + [ids[n]];
    }
  }

  lemma {:induction false} TodoDistinct(t: Tables, ids: seq<string>)
    ensures |Todo(t, ids)| <= |ids|
    ensures NoRepeats(ids) ==> NoRepeats(Todo(t, ids))
  {
    if ids != [] {
      var n := |ids| - 1;
      TodoDistinct(t, ids[..n]);
      TodoMembers(t, ids[..n], ids[n]);
    }
  }

  lemma TodoIs(t: Tables, ids: seq<string>)
    ensures forall id :: id in Todo(t, ids) <==> id in ids && !IsCancelled(t, id)
    ensures |Todo(t, ids)| <= |ids| && (NoRepeats(ids) ==> NoRepeats(Todo(t, ids)))
    ensures Todo(t, ids) == [] <==> forall id :: id in ids ==> IsCancelled(t, id)
  {
    TodoDistinct(t, ids);
    forall id ensures id in Todo(t, ids) <==> id in ids && !IsCancelled(t, id) { TodoMembers(t, ids, id); }
    if Todo(t, ids) != [] { assert Todo(t, ids)[0] in Todo(t, ids); }
  }

  /** The state after an uninterrupted confirmed run. */
  function AfterRun(t: Tables, ids: seq<string>, reason: string, events: seq<Id>): Tables
    requires |events| >= |ids|
  {
    TodoIs(t, ids);
    CancelAll(t, Todo(t, ids), reason, events)
  }

  /** Safety of a run nobody interferes with: what it newly cancels was neither ready to trade nor backed by
      ready evidence, and afterwards every requested intent is CANCELLED. */
  lemma RunSafe(t: Tables, ids: seq<string>, user: Option<string>, reason: string, events: seq<Id>)
    requires Acceptable(t, ids, user) && |events| >= |ids| && FreshEvents(t, events)
    ensures var after := AfterRun(t, ids, reason, events);
      && after.intents.Keys == t.intents.Keys
      && (forall id :: id in t.intents && after.intents[id] != t.intents[id] ==>
            id in ids && !Ready(t, id) && t.intents[id].status != CANCELLED)
      && (forall id :: id in ids ==> id in after.intents && after.intents[id].status == CANCELLED)
  {
    TodoIs(t, ids);
    CancelAllCommits(t, Todo(t, ids), reason, events);
    forall id | id in t.intents && id in ids ensures !Ready(t, id) {
      var i :| 0 <= i < |ids| && ids[i] == id;
      assert Cancellable(t, ids[i], user);
    }
    forall id | id in ids ensures id in t.intents {
      var i :| 0 <= i < |ids| && ids[i] == id;
      assert Cancellable(t, ids[i], user);
    }
  }

  /** A second run with the same request is accepted and mutates nothing. */
  lemma RerunMutatesNothing(t: Tables, ids: seq<string>, user: Option<string>, reason: string, events: seq<Id>,
                            reason2: string, events2: seq<Id>)
    requires Acceptable(t, ids, user) && |events| >= |ids| && FreshEvents(t, events) && |events2| >= |ids|
    ensures var after := AfterRun(t, ids, reason, events);
      Acceptable(after, ids, user) && AfterRun(after, ids, reason2, events2) == after
  {
    var after := AfterRun(t, ids, reason, events);
    RunSafe(t, ids, user, reason, events);
    TodoIs(t, ids);
    CancelAllCommits(t, Todo(t, ids), reason, events);
    TodoIs(after, ids);
    forall i | 0 <= i < |ids| ensures Cancellable(after, ids[i], user) {
      assert Cancellable(t, ids[i], user) && ids[i] in ids;
    }
  }

  /** Interference: intents validated against `t` are cancelled in `now`. The commit cancels an intent that is
      ready in `now` exactly when a planned intent became ready after the load; the transaction does not
      look again. */
  lemma InterferenceHarms(t: Tables, now: Tables, ids: seq<string>, reason: string, events: seq<Id>)
    requires NoRepeats(ids) && |events| >= |Todo(t, ids)| && FreshEvents(now, events)
    ensures var after := CancelAll(now, Todo(t, ids), reason, events);
      && after.intents.Keys == now.intents.Keys
      && ((exists id :: id in now.intents && Ready(now, id) && after.intents[id] != now.intents[id])
          <==> exists id :: id in Todo(t, ids) && id in now.intents && Ready(now, id))
  {
    TodoIs(t, ids);
    var todo := Todo(t, ids);
    CancelAllCommits(now, todo, reason, events);
    var after := CancelAll(now, todo, reason, events);
    forall id | id in now.intents ensures after.intents[id] != now.intents[id] <==> id in todo {
      if id in todo {
        var i :| 0 <= i < |todo| && todo[i] == id;
        assert |after.intents[id].auditIds| == |now.intents[id].auditIds| + 1;
      }
    }
  }

  /** Such an interference: a request that is accepted, an intent that becomes ready to trade before the commit, and
      a commit that cancels it. */
  lemma InterferenceExists(text: string, reason: string, event: Id)
    ensures var id := UuidOf('a'); var t, now := OneIntent(id, OtherStatus(text)), OneIntent(id, READY_TO_TRADE);
      && IsUuid(id) && LowerCaseKeys(t) && Acceptable(t, [id], None) && Todo(t, [id]) == [id]
      && Ready(now, id) && FreshEvents(now, [event])
      && var after := CancelAll(now, [id], reason, [event]); id in after.intents && after.intents[id].status == CANCELLED
  {
    var id := UuidOf('a');
    var t, now := OneIntent(id, OtherStatus(text)), OneIntent(id, READY_TO_TRADE);
    OneIntentAcceptable(id, text);
    assert Lower(id) == id;
    assert [id][..0] == [];
    CancelAllCommits(now, [id], reason, [event]);
    var after := CancelAll(now, [id], reason, [event]);
    assert [id][0] in now.intents && after.intents[[id][0]].status == CANCELLED;
  }

  ghost predicate SameFor(t: Tables, now: Tables, id: Id) {
    && (id in t.intents <==> id in now.intents)
    && (id in t.intents ==> t.intents[id].status == now.intents[id].status)
    && ReadyRecons(t, id) == ReadyRecons(now, id)
  }

  /** Without interference on the requested intents the commit is safe. */
  lemma NoInterferenceSafe(t: Tables, now: Tables, ids: seq<string>, user: Option<string>, reason: string, events: seq<Id>)
    requires Acceptable(t, ids, user) && |events| >= |Todo(t, ids)| && FreshEvents(now, events)
    requires forall id :: id in ids ==> SameFor(t, now, id)
    ensures var after := CancelAll(now, Todo(t, ids), reason, events);
      && after.intents.Keys == now.intents.Keys
      && forall id :: id in now.intents && Ready(now, id) ==> after.intents[id] == now.intents[id]
  {
    InterferenceHarms(t, now, ids, reason, events);
    TodoIs(t, ids);
    forall id | id in Todo(t, ids) && id in now.intents ensures !Ready(now, id) {
      var i :| 0 <= i < |ids| && ids[i] == id;
      assert Cancellable(t, ids[i], user);
      assert ReadyRecons(now, id) == ReadyRecons(t, id);
      forall x | x in now.recons && now.recons[x].intent == id ensures now.recons[x].ready ==> x in ReadyRecons(t, id) {
        assert now.recons[x].ready ==> x in ReadyRecons(now, id);
      }
    }
  }

  // ----- References between intents and events -----

  /** Every event an intent names exists and is about that intent, and none is named twice. */
  ghost predicate Linked(t: Tables) {
    && (forall id, i :: id in t.intents && 0 <= i < |t.intents[id].auditIds| ==> NamesEvent(t, id, t.intents[id].auditIds[i]))
    && forall id :: id in t.intents ==> NoRepeats(t.intents[id].auditIds)
  }

  lemma RunKeepsLinks(t: Tables, ids: seq<string>, reason: string, events: seq<Id>)
    requires Linked(t) && NoRepeats(ids) && |events| >= |ids| && FreshEvents(t, events)
    ensures Linked(AfterRun(t, ids, reason, events))
  {
    TodoIs(t, ids);
    var todo := Todo(t, ids);
    CancelAllCommits(t, todo, reason, events);
    CommittedKeepsLinks(t, AfterRun(t, ids, reason, events), todo, reason, events);
  }

  lemma CommittedKeepsLinks(t: Tables, after: Tables, ids: seq<Id>, reason: string, events: seq<Id>)
    requires Linked(t) && |events| >= |ids| && FreshEvents(t, events)
    requires IntentsCommitted(t, after, ids, events) && AuditCommitted(t, after, ids, reason, events)
    ensures Linked(after)
  {
    forall id | id in after.intents
      ensures NoRepeats(after.intents[id].auditIds)
      ensures forall i :: 0 <= i < |after.intents[id].auditIds| ==> NamesEvent(after, id, after.intents[id].auditIds[i])
    {
      OldEventsStay(t, after, id, ids, reason, events);
      if id in ids {
        var k :| 0 <= k < |ids| && ids[k] == id;
        LinksOfOne(t, after, id, events[k]);
      }
    }
  }

  predicate NamesEvent(t: Tables, id: Id, e: Id) {
    e in t.audit && t.audit[e].intent == id
  }

  lemma OldEventsStay(t: Tables, after: Tables, id: Id, ids: seq<Id>, reason: string, events: seq<Id>)
    requires Linked(t) && id in t.intents && |events| >= |ids| && FreshEvents(t, events)
    requires AuditCommitted(t, after, ids, reason, events)
    ensures forall i :: 0 <= i < |t.intents[id].auditIds| ==> NamesEvent(after, id, t.intents[id].auditIds[i])
  {
    forall i | 0 <= i < |t.intents[id].auditIds| ensures NamesEvent(after, id, t.intents[id].auditIds[i]) {
      assert NamesEvent(t, id, t.intents[id].auditIds[i]);
    }
  }

  lemma LinksOfOne(t: Tables, after: Tables, id: Id, event: Id)
    requires Linked(t) && id in t.intents && id in after.intents && event !in t.audit && NamesEvent(after, id, event)
    requires after.intents[id].auditIds == t.intents[id].auditIds + [event]
    requires forall i :: 0 <= i < |t.intents[id].auditIds| ==> NamesEvent(after, id, t.intents[id].auditIds[i])
    ensures NoRepeats(after.intents[id].auditIds)
    ensures forall i :: 0 <= i < |after.intents[id].auditIds| ==> NamesEvent(after, id, after.intents[id].auditIds[i])
  {
    assert forall i :: 0 <= i < |t.intents[id].auditIds| ==> NamesEvent(t, id, t.intents[id].auditIds[i]);
  }

  // ----- The script -----

  datatype Outcome = Rejected | DryRun | Applied | RolledBack | BadRequest

  /** The database connection. A statement whose number is in `faults` raises an error. */
  class Database {
    var tables: Tables
    var executed: nat
    const faults: set<nat>

    constructor (tables: Tables, faults: set<nat>)
      ensures this.tables == tables && this.faults == faults && executed == 0
    {
      this.tables, this.faults, executed := tables, faults, 0;
    }

    /** Counts a statement; the caller applies its effect when it did not raise. */
    method Statement() returns (ok: bool)
      modifies this`executed
      ensures executed == old(executed) + 1 && (ok <==> old(executed) !in faults)
    {
      ok := executed !in faults;
      executed := executed + 1;
    }

    /** The insert also raises when the intent no longer exists (foreign key). */
    method CancelIntent(id: Id, reason: string, event: Id) returns (ok: bool)
      modifies this
      ensures executed >= old(executed)
      ensures ok <==> old(id in tables.intents) && forall i :: old(executed) <= i < old(executed) + 5 ==> i !in faults
      ensures ok ==> tables == CancelOne(old(tables), id, reason, event) && executed == old(executed) + 5
    {
      ok := Statement();
      if !ok { return; }
      tables := CancelLegs(tables, id, reason);
      ok := Statement();
      if !ok { return; }
      tables := CancelTargets(tables, id);
      ok := Statement();
      if !ok { return; }
      tables := CancelIntentRow(tables, id);
      ok := Statement();
      if !ok || id !in tables.intents { return false; }
      tables := InsertAuditEvent(tables, id, reason, event);
      ok := Statement();
      if !ok { return; }
      tables := AppendAuditId(tables, id, event);
    }

    /** The loop between BEGIN and COMMIT, or ROLLBACK on the first error. */
    method CommitResults(results: seq<CancelResult>, reason: string, events: seq<Id>)
      returns (ok: bool, updated: seq<CancelResult>)
      requires |events| >= |results|
      modifies this
      ensures ok <==> AllStored(old(tables), results) && Faultless(faults, old(executed), |Pending(results)|)
      ensures tables == if ok then CancelAll(old(tables), Pending(results), reason, events) else old(tables)
      ensures ok ==> updated == MarkCancelled(results)
      ensures ok && NoRepeats(Pending(results)) && FreshEvents(old(tables), events) ==>
                Committed(old(tables), tables, Pending(results), reason, events)
    {
      var saved := tables;
      ghost var first := executed;
      updated := [];
      var n := 0;
      ok := true;
      for k := 0 to |results|
        invariant ok && executed == first + 5 * n
        invariant Progress(saved, results, k, reason, events, n, tables, updated) && Faultless(faults, first, n)
      {
        ghost var before := tables;
        if results[k].alreadyCancelled {
          updated := updated + [results[k]];
        } else {
          PendingShort(results, k);
          ok := CancelIntent(results[k].id, reason, events[n]);
          if !ok {
            tables := saved;
            StoppedHere(saved, before, results, k, reason, events, n, updated, faults, first);
            return;
          }
          updated := updated + [results[k].(cancelled := true)];
          n := n + 1;
        }
        ProgressStep(saved, results, k, reason, events, before, tables);
      }
      assert results[..|results|] == results;
      if NoRepeats(Pending(results)) && FreshEvents(saved, events) { CancelAllCommits(saved, Pending(results), reason, events); }
    }
  }

  /** The first `k` results have been handled, `n` of them by cancelling. */
  ghost predicate Progress(saved: Tables, results: seq<CancelResult>, k: nat, reason: string, events: seq<Id>,
                           n: nat, now: Tables, updated: seq<CancelResult>)
    requires k <= |results| <= |events|
  {
    && n == |Pending(results[..k])| && now == CancelAll(saved, Pending(results[..k]), reason, events)
    && now.intents.Keys == saved.intents.Keys
    && updated == MarkCancelled(results[..k]) && AllStored(saved, results[..k])
  }

  lemma PendingShort(results: seq<CancelResult>, k: nat)
    requires k < |results| && !results[k].alreadyCancelled
    ensures |Pending(results[..k])| < |Pending(results)|
  {
    PendingGrows(results, k + 1);
    assert results[..k + 1][..k] == results[..k];
  }

  lemma ProgressStep(saved: Tables, results: seq<CancelResult>, k: nat, reason: string, events: seq<Id>,
                     before: Tables, now: Tables)
    requires k < |results| <= |events|
    requires Progress(saved, results, k, reason, events, |Pending(results[..k])|, before, MarkCancelled(results[..k]))
    requires var r, n := results[k], |Pending(results[..k])|;
      if r.alreadyCancelled then now == before
      else r.id in before.intents && now == CancelOne(before, r.id, reason, events[n])
    ensures var r, n := results[k], |Pending(results[..k])|;
      Progress(saved, results, k + 1, reason, events, if r.alreadyCancelled then n else n + 1, now,
               MarkCancelled(results[..k]) + [if r.alreadyCancelled then r else r.(cancelled := true)])
  {
    PendingMore(results, k);
    PendingGrows(results, k + 1);
    MarkMore(results, k);
    StoredMore(saved, results, k);
    if !results[k].alreadyCancelled {
      CancelAllMore(saved, Pending(results[..k]), results[k].id, reason, events);
      CancelOneKeeps(before, results[k].id, reason, events[|Pending(results[..k])|]);
    }
  }

  lemma CancelOneKeeps(t: Tables, id: Id, reason: string, event: Id)
    ensures CancelOne(t, id, reason, event).intents.Keys == t.intents.Keys
  {
  }

  /** A cancellation that failed cannot be part of a faultless run. */
  lemma StoppedHere(saved: Tables, before: Tables, results: seq<CancelResult>, k: nat, reason: string, events: seq<Id>,
                    n: nat, updated: seq<CancelResult>, faults: set<nat>, first: nat)
    requires k < |results| <= |events| && !results[k].alreadyCancelled
    requires Progress(saved, results, k, reason, events, n, before, updated)
    requires results[k].id !in before.intents || exists i :: first + 5 * n <= i < first + 5 * n + 5 && i in faults
    ensures !(AllStored(saved, results) && Faultless(faults, first, |Pending(results)|))
  {
    PendingShort(results, k);
    if i :| first + 5 * n <= i < first + 5 * n + 5 && i in faults {
      assert !Faultless(faults, first, |Pending(results)|);
    }
  }

  /** Every intent to cancel is still in the table. */
  ghost predicate AllStored(t: Tables, results: seq<CancelResult>) {
    forall i :: 0 <= i < |results| && !results[i].alreadyCancelled ==> results[i].id in t.intents
  }

  /** None of the statements that cancel `n` intents raises. */
  ghost predicate Faultless(faults: set<nat>, first: nat, n: nat) {
    forall i :: first <= i < first + 5 * n ==> i !in faults
  }

  function Pending(results: seq<CancelResult>): (ids: seq<Id>)
    ensures |ids| <= |results|
  {
    if results == [] then []
    else
      var init, last := Pending(results[..|results| - 1]), results[|results| - 1];
      if last.alreadyCancelled then init else init + [last.id]
  }

  function MarkCancelled(results: seq<CancelResult>): seq<CancelResult> {
    seq(|results|, i requires 0 <= i < |results| =>
      if results[i].alreadyCancelled then results[i] else results[i].(cancelled := true))
  }

  lemma {:induction false} PendingGrows(results: seq<CancelResult>, k: nat)
    requires k <= |results|
    ensures |Pending(results[..k])| <= |Pending(results)|
    decreases |results|
  {
    if k < |results| {
      var init := results[..|results| - 1];
      assert init[..k] == results[..k];
      PendingGrows(init, k);
    } else {
      assert results[..k] == results;
    }
  }

  // What result `k` adds.

  lemma PendingMore(results: seq<CancelResult>, k: nat)
    requires k < |results|
    ensures Pending(results[..k + 1])
         == if results[k].alreadyCancelled then Pending(results[..k]) else Pending(results[..k]) + [results[k].id]
  {
    assert results[..k + 1][..k] == results[..k];
  }

  lemma CancelAllMore(t: Tables, ids: seq<Id>, id: Id, reason: string, events: seq<Id>)
    requires |events| > |ids|
    ensures CancelAll(t, ids + [id], reason, events) == CancelOne(CancelAll(t, ids, reason, events), id, reason, events[|ids|])
  {
    assert (ids + [id])[..|ids|] == ids;
  }

  lemma MarkMore(results: seq<CancelResult>, k: nat)
    requires k < |results|
    ensures MarkCancelled(results[..k + 1]) == MarkCancelled(results[..k]) + MarkCancelled([results[k]])
  {
  }

  lemma StoredMore(t: Tables, results: seq<CancelResult>, k: nat)
    requires k < |results|
    ensures AllStored(t, results[..k + 1])
      <==> AllStored(t, results[..k]) && (results[k].alreadyCancelled || results[k].id in t.intents)
  {
    assert forall i :: 0 <= i < k ==> results[..k + 1][i] == results[..k][i];
    assert results[..k + 1][k] == results[k];
  }

  lemma ResultIsPending(t: Tables, id: string, user: Option<string>)
    ensures ResultFor(t, id, user).id == id && (ResultFor(t, id, user).alreadyCancelled <==> IsCancelled(t, id))
  {
  }

  lemma {:induction false} PendingIsTodo(t: Tables, ids: seq<string>, user: Option<string>, results: seq<CancelResult>)
    requires Loaded(t, ids, user, results)
    ensures Pending(results) == Todo(t, ids)
    decreases |ids|
  {
    if ids != [] {
      var n := |ids| - 1;
      PendingIsTodo(t, ids[..n], user, results[..n]);
      ResultIsPending(t, ids[n], user);
    }
  }

  /** `found.size !== fundingIntentIds.length`, once no single id is blocked, means a repeated id. */
  lemma FoundSize(t: Tables, ids: seq<string>)
    requires LowerCaseKeys(t) && forall i :: 0 <= i < |ids| ==> ids[i] in t.intents
    ensures |LoadCandidates(t, ids)| == |ids| <==> NoRepeats(ids)
  {
    var rows := LoadCandidates(t, ids);
    DistinctIffSize(ids);
    assert rows.Keys == set x | x in ids by {
      forall id | id in ids ensures id in rows {
        var i :| 0 <= i < |ids| && ids[i] == id;
        assert Lower(ids[i]) == id;
      }
    }
    assert |rows| == |rows.Keys|;
  }

  /** Load and validate. */
  method Prepare(t: Tables, ids: seq<string>, expectedUser: Option<string>)
    returns (accepted: bool, results: seq<CancelResult>)
    requires LowerCaseKeys(t)
    ensures accepted <==> Acceptable(t, ids, expectedUser)
    ensures Loaded(t, ids, expectedUser, results)
  {
    var rows := LoadCandidates(t, ids);
    results := [];
    for k := 0 to |ids|
      invariant |results| == k
      invariant forall i :: 0 <= i < k ==> results[i] == ResultFor(t, ids[i], expectedUser)
    {
      assert ids[k] in t.intents ==> Lower(ids[k]) == ids[k];
      if ids[k] in rows {
        results := results + [ValidateCandidate(rows[ids[k]], expectedUser)];
      } else {
        results := results + [CancelResult(ids[k], "", None, {}, {}, false, false, Some(NotFound))];
      }
    }
    forall i | 0 <= i < |ids| ensures results[i].blocker.None? <==> Cancellable(t, ids[i], expectedUser) {
      BlockerIffNotCancellable(t, ids[i], expectedUser);
    }
    accepted := forall i :: 0 <= i < |results| ==> results[i].blocker.None?;
    if accepted {
      FoundSize(t, ids);
      accepted := |rows| == |ids|;
    }
  }

  predicate Loaded(t: Tables, ids: seq<string>, expectedUser: Option<string>, results: seq<CancelResult>) {
    |results| == |ids| && forall i :: 0 <= i < |ids| ==> results[i] == ResultFor(t, ids[i], expectedUser)
  }

  predicate MarkedApplied(t: Tables, ids: seq<string>, expectedUser: Option<string>, results: seq<CancelResult>) {
    |results| == |ids| && forall i :: 0 <= i < |ids| ==> results[i] == AppliedResult(t, ids[i], expectedUser)
  }

  /** The confirmed branch. */
  method Confirmed(db: Database, ids: seq<string>, expectedUser: Option<string>, loaded: seq<CancelResult>, reason: string,
                   events: seq<Id>)
    returns (ok: bool, updated: seq<CancelResult>)
    requires |events| >= |ids| && Acceptable(db.tables, ids, expectedUser) && Loaded(db.tables, ids, expectedUser, loaded)
    modifies db
    ensures ok <==> Faultless(db.faults, old(db.executed), |Todo(old(db.tables), ids)|)
    ensures db.tables == if ok then AfterRun(old(db.tables), ids, reason, events) else old(db.tables)
    ensures ok ==> MarkedApplied(old(db.tables), ids, expectedUser, updated)
  {
    PendingIsTodo(db.tables, ids, expectedUser, loaded);
    AcceptedAreStored(db.tables, ids, expectedUser, loaded);
    ok, updated := db.CommitResults(loaded, reason, events);
  }

  /** The top-level flow: check the request, load, validate every intent, and only then write. */
  method Run(db: Database, ids: seq<string>, expectedUser: Option<string>, confirm: bool, reason: string, events: seq<Id>)
    returns (outcome: Outcome, results: seq<CancelResult>)
    requires LowerCaseKeys(db.tables) && |events| >= |ids|
    modifies db
    ensures outcome == BadRequest <==> ids == [] || exists i :: 0 <= i < |ids| && !IsUuid(ids[i])
    ensures outcome == Rejected <==> outcome != BadRequest && !Acceptable(old(db.tables), ids, expectedUser)
    ensures outcome == DryRun <==> outcome != BadRequest && outcome != Rejected && !confirm
    ensures (outcome == Applied || outcome == RolledBack) ==>
      (outcome == Applied <==> Faultless(db.faults, old(db.executed), |Todo(old(db.tables), ids)|))
    ensures db.tables == if outcome == Applied then AfterRun(old(db.tables), ids, reason, events) else old(db.tables)
    ensures outcome == Rejected || outcome == DryRun ==> Loaded(old(db.tables), ids, expectedUser, results)
    ensures outcome == Applied ==> MarkedApplied(old(db.tables), ids, expectedUser, results)
  {
    if ids == [] || exists i :: 0 <= i < |ids| && !IsUuid(ids[i]) {
      return BadRequest, [];
    }
    var accepted, loaded := Prepare(db.tables, ids, expectedUser);
    if !accepted {
      return Rejected, loaded;
    }
    if !confirm {
      return DryRun, loaded;
    }
    var ok, updated := Confirmed(db, ids, expectedUser, loaded, reason, events);
    outcome, results := if ok then Applied else RolledBack, updated;
  }

  function AppliedResult(t: Tables, id: string, expectedUser: Option<string>): CancelResult {
    var r := ResultFor(t, id, expectedUser);
    r.(cancelled := !r.alreadyCancelled)
  }

  /** The result shown after a commit: newly cancelled unless it was CANCELLED before, and as loaded otherwise. */
  lemma AppliedMeans(t: Tables, id: string, expectedUser: Option<string>)
    requires id in t.intents
    ensures AppliedResult(t, id, expectedUser).cancelled <==> t.intents[id].status != CANCELLED
    ensures AppliedResult(t, id, expectedUser).(cancelled := false) == ResultFor(t, id, expectedUser)
  {
  }

  lemma AcceptedAreStored(t: Tables, ids: seq<string>, user: Option<string>, results: seq<CancelResult>)
    requires Acceptable(t, ids, user)
    requires Loaded(t, ids, user, results)
    ensures AllStored(t, results)
  {
    forall i | 0 <= i < |ids| ensures results[i].id in t.intents { assert Cancellable(t, ids[i], user); }
  }
}
