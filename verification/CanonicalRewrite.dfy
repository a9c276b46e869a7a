/** The transactional rewrite of canonical market ids (scripts/batch/rewrite-canonical-exact-markets.ts), for
    any rewrite spec. */
module CanonicalRewrite {
  import opened Wrappers
  import opened SequentialRename

  datatype Target = Target(venue: string, market: string, text: string)
  datatype Definition = Definition(event: string, oldMarket: string, legacyMarket: string, targets: seq<Target>)

  /** historical_market_states: the scope of a rename is the event. */
  type States = Table<string, ()>
  /** resolution_profiles: the scope is (event, venue), the extra column the resolution text. */
  type Profiles = Table<(string, string), string>

  datatype AssessmentDef = AssessmentDef(event: string, market: string, venueA: string, venueB: string,
                                         version: string, content: string)
  datatype AssessmentKey = AssessmentKey(event: string, market: string, profileA: nat, profileB: nat, version: string)
  type Assessments = map<AssessmentKey, string>

  function StateRenames(defs: seq<Definition>): seq<Rename<string, ()>> {
    seq(|defs|, i requires 0 <= i < |defs| => Rename(defs[i].event, defs[i].oldMarket, defs[i].legacyMarket, ()))
  }

  function TargetRenames(d: Definition, n: nat): seq<Rename<(string, string), string>>
    requires n <= |d.targets|
  {
    seq(n, i requires 0 <= i < n =>
      Rename((d.event, d.targets[i].venue), d.oldMarket, d.targets[i].market, d.targets[i].text))
  }

  function ProfileRenames(defs: seq<Definition>): seq<Rename<(string, string), string>> {
    if defs == [] then []
    else ProfileRenames(defs[..|defs| - 1]) + TargetRenames(defs[|defs| - 1], |defs[|defs| - 1].targets|)
  }

  /** The broken ids are the old ids of the spec. */
  function Broken(defs: seq<Definition>): set<string> {
    set i | 0 <= i < |defs| :: defs[i].oldMarket
  }

  // ----- Assessments -----

  function SortProfileIds(left: nat, right: nat): (nat, nat) {
    if left <= right then (left, right) else (right, left)
  }

  function KeyFor(d: AssessmentDef, a: nat, b: nat): AssessmentKey {
    var pair := SortProfileIds(a, b);
    AssessmentKey(d.event, d.market, pair.0, pair.1, d.version)
  }

  /** The stored pair does not depend on which market is called A, and two pairs share a row only when they are
      the same pair. */
  lemma KeyIgnoresOrder(d: AssessmentDef, a: nat, b: nat, c: nat, e: nat)
    ensures KeyFor(d, a, b) == KeyFor(d.(venueA := d.venueB, venueB := d.venueA), b, a)
    ensures KeyFor(d, a, b).profileA <= KeyFor(d, a, b).profileB
    ensures var k := KeyFor(d, a, b);
      k.event == d.event && k.market == d.market && k.version == d.version && {k.profileA, k.profileB} == {a, b}
    ensures KeyFor(d, a, b) == KeyFor(d, c, e) <==> {a, b} == {c, e}
  {
    assert a in {a, b} && b in {a, b} && c in {c, e} && e in {c, e};
  }

  /** The rows `resolveProfileId` may return: `LIMIT 1` without an order picks any of them. */
  function Resolvable(profiles: Profiles, d: AssessmentDef, venue: string): set<nat> {
    set id | id in profiles && profiles[id].scope == (d.event, venue) && profiles[id].market == d.market
  }

  function Purge(t: Assessments, broken: set<string>): Assessments {
    map k | k in t && k.market !in broken :: t[k]
  }

  /** `picks` are the profile ids resolved for each definition. */
  function UpsertAll(t: Assessments, defs: seq<AssessmentDef>, picks: seq<(nat, nat)>): Assessments
    requires |picks| == |defs|
  {
    if defs == [] then t
    else
      var n := |defs| - 1;
      UpsertAll(t, defs[..n], picks[..n])[KeyFor(defs[n], picks[n].0, picks[n].1) := defs[n].content]
  }

  /** The profile of the definition's event and market at one venue. */
  ghost predicate IsProfileOf(profiles: Profiles, d: AssessmentDef, venue: string, id: nat) {
    id in profiles && profiles[id].scope.0 == d.event && profiles[id].scope.1 == venue && profiles[id].market == d.market
  }

  /** For each definition, a profile of either venue, not the same one. */
  ghost predicate GoodPicks(profiles: Profiles, defs: seq<AssessmentDef>, picks: seq<(nat, nat)>) {
    && |picks| == |defs|
    && forall i :: 0 <= i < |defs| ==>
         && IsProfileOf(profiles, defs[i], defs[i].venueA, picks[i].0) && IsProfileOf(profiles, defs[i], defs[i].venueB, picks[i].1)
         && picks[i].0 != picks[i].1
  }

  function KeyAt(defs: seq<AssessmentDef>, picks: seq<(nat, nat)>, i: nat): AssessmentKey
    requires i < |defs| == |picks|
  {
    KeyFor(defs[i], picks[i].0, picks[i].1)
  }

  /** The last definition that writes key `k`. */
  ghost predicate LastWrite(defs: seq<AssessmentDef>, picks: seq<(nat, nat)>, k: AssessmentKey, i: int)
    requires |picks| == |defs|
  {
    0 <= i < |defs| && KeyAt(defs, picks, i) == k && forall j :: i < j < |defs| ==> KeyAt(defs, picks, j) != k
  }

  /** The last definition of a row decides it; a row without definition is as before. */
  lemma {:induction false} UpsertAllIs(t: Assessments, defs: seq<AssessmentDef>, picks: seq<(nat, nat)>, k: AssessmentKey)
    requires |picks| == |defs|
    ensures var after := UpsertAll(t, defs, picks);
      && (k in after <==> k in t || exists i :: LastWrite(defs, picks, k, i))
      && (forall i :: LastWrite(defs, picks, k, i) ==> k in after && after[k] == defs[i].content)
      && ((forall i :: !LastWrite(defs, picks, k, i)) && k in t ==> after[k] == t[k])
    decreases |defs|
  {
    if defs != [] {
      var n := |defs| - 1;
      var before := UpsertAll(t, defs[..n], picks[..n]);
      UpsertAllIs(t, defs[..n], picks[..n], k);
      if KeyAt(defs, picks, n) == k {
        assert LastWrite(defs, picks, k, n);
        assert forall i :: LastWrite(defs, picks, k, i) ==> i == n;
      } else {
        forall i ensures LastWrite(defs, picks, k, i) <==> LastWrite(defs[..n], picks[..n], k, i) {
          SameWrites(defs, picks, k, i);
        }
      }
    }
  }

  lemma SameWrites(defs: seq<AssessmentDef>, picks: seq<(nat, nat)>, k: AssessmentKey, i: int)
    requires |picks| == |defs| > 0 && KeyAt(defs, picks, |defs| - 1) != k
    ensures LastWrite(defs, picks, k, i) <==> LastWrite(defs[..|defs| - 1], picks[..|defs| - 1], k, i)
  {
    var n := |defs| - 1;
    forall j | 0 <= j < n ensures KeyAt(defs[..n], picks[..n], j) == KeyAt(defs, picks, j) {
    }
  }

  lemma {:induction false} SomeLastWrite(defs: seq<AssessmentDef>, picks: seq<(nat, nat)>, i: nat)
    requires i < |defs| == |picks|
    ensures exists j :: LastWrite(defs, picks, KeyAt(defs, picks, i), j)
    decreases |defs| - i
  {
    var k := KeyAt(defs, picks, i);
    if j :| i < j < |defs| && KeyAt(defs, picks, j) == k {
      SomeLastWrite(defs, picks, j);
    } else {
      assert LastWrite(defs, picks, k, i);
    }
  }

  function BrokenRows(t: Assessments, broken: set<string>): set<AssessmentKey> {
    set k | k in t && k.market in broken
  }

  /** The run leaves no assessment of a broken market exactly when no definition is about one. */
  lemma NoBrokenAssessmentsLeft(t: Assessments, broken: set<string>, defs: seq<AssessmentDef>, picks: seq<(nat, nat)>)
    requires |picks| == |defs|
    ensures BrokenRows(UpsertAll(Purge(t, broken), defs, picks), broken) == {}
      <==> forall i :: 0 <= i < |defs| ==> defs[i].market !in broken
  {
    var after := UpsertAll(Purge(t, broken), defs, picks);
    forall i | 0 <= i < |defs| && defs[i].market in broken ensures BrokenRows(after, broken) != {} {
      var k := KeyAt(defs, picks, i);
      UpsertAllIs(Purge(t, broken), defs, picks, k);
      SomeLastWrite(defs, picks, i);
      assert k in BrokenRows(after, broken);
    }
    forall k | k in BrokenRows(after, broken) ensures exists i :: 0 <= i < |defs| && defs[i].market in broken {
      UpsertAllIs(Purge(t, broken), defs, picks, k);
      var i :| LastWrite(defs, picks, k, i);
      assert defs[i].market == k.market;
    }
  }

  /** Assessments of other markets that no definition is about survive unchanged. */
  lemma OtherAssessmentsKept(t: Assessments, broken: set<string>, defs: seq<AssessmentDef>, picks: seq<(nat, nat)>, k: AssessmentKey)
    requires |picks| == |defs| && k in t && k.market !in broken
    requires forall i :: 0 <= i < |defs| ==> KeyAt(defs, picks, i) != k
    ensures var after := UpsertAll(Purge(t, broken), defs, picks); k in after && after[k] == t[k]
  {
    UpsertAllIs(Purge(t, broken), defs, picks, k);
  }

  /** The assessments after a run: the last definition of a row decides it; any other row stays unless its market is an
      old id of the spec. */
  lemma AssessmentsAfter(t: Assessments, spec: seq<Definition>, defs: seq<AssessmentDef>, picks: seq<(nat, nat)>, k: AssessmentKey)
    requires |picks| == |defs|
    ensures var after := UpsertAll(Purge(t, Broken(spec)), defs, picks);
      && (forall i :: LastWrite(defs, picks, k, i) ==> k in after && after[k] == defs[i].content)
      && ((forall i :: !LastWrite(defs, picks, k, i)) ==>
            if k in t && forall i :: 0 <= i < |spec| ==> spec[i].oldMarket != k.market then k in after && after[k] == t[k]
            else k !in after)
  {
    UpsertAllIs(Purge(t, Broken(spec)), defs, picks, k);
  }

  // ----- The script -----

  /** The last one is the table's check that the two profiles of an assessment differ. */
  datatype Failure = RowCount | MissingProfile | SameProfile

  class Database {
    var states: States
    var profiles: Profiles
    var assessments: Assessments

    /** The nested update loops of the spec. */
    method ApplySpec(defs: seq<Definition>) returns (ok: bool)
      modifies this`states, this`profiles
      ensures ok <==> Checked(old(profiles), ProfileRenames(defs)).Some?
      ensures ok ==> states == Sequential(old(states), StateRenames(defs))
      ensures ok ==> profiles == Checked(old(profiles), ProfileRenames(defs)).value
    {
      ghost var states0, profiles0 := states, profiles;
      for i := 0 to |defs|
        invariant states == Sequential(states0, StateRenames(defs[..i]))
        invariant Checked(profiles0, ProfileRenames(defs[..i])) == Some(profiles)
      {
        var d := defs[i];
        assert defs[..i + 1][..i] == defs[..i];
        states := Update(states, Rename(d.event, d.oldMarket, d.legacyMarket, ()));
        assert StateRenames(defs[..i + 1])[..i] == StateRenames(defs[..i]);
        assert ProfileRenames(defs[..i]) + TargetRenames(d, 0) == ProfileRenames(defs[..i]);
        for j := 0 to |d.targets|
          invariant states == Sequential(states0, StateRenames(defs[..i + 1]))
          invariant Checked(profiles0, ProfileRenames(defs[..i]) + TargetRenames(d, j)) == Some(profiles)
        {
          var r := Rename((d.event, d.targets[j].venue), d.oldMarket, d.targets[j].market, d.targets[j].text);
          CheckedStep(profiles0, ProfileRenames(defs[..i]), d, j);
          if |Matches(profiles, r)| != 1 {
            CheckedFails(profiles0, ProfileRenames(defs[..i]) + TargetRenames(d, j + 1), defs, i, j + 1);
            return false;
          }
          profiles := Update(profiles, r);
        }
      }
      assert defs[..|defs|] == defs;
      ok := true;
    }

    method InsertAssessments(defs: seq<AssessmentDef>) returns (r: Result<seq<string>, Failure>, ghost picks: seq<(nat, nat)>)
      modifies this`assessments
      ensures r.Ok? ==> GoodPicks(profiles, defs, picks) && r.value == seq(|defs|, i requires 0 <= i < |defs| => defs[i].market)
      ensures r.Ok? ==> assessments == UpsertAll(old(assessments), defs, picks)
      ensures r == Err(MissingProfile) ==> exists i :: 0 <= i < |defs| && !FullyResolvable(profiles, defs[i])
      ensures r == Err(SameProfile) ==> exists i :: 0 <= i < |defs| && defs[i].venueA == defs[i].venueB
      ensures r != Err(RowCount)
    {
      ghost var start := assessments;
      picks := [];
      var inserted := [];
      for i := 0 to |defs|
        invariant GoodPicks(profiles, defs[..i], picks)
        invariant inserted == seq(i, j requires 0 <= j < i => defs[j].market)
        invariant assessments == UpsertAll(start, defs[..i], picks)
      {
        var d := defs[i];
        var candidatesA, candidatesB := Resolvable(profiles, d, d.venueA), Resolvable(profiles, d, d.venueB);
        if candidatesA == {} || candidatesB == {} {
          NotResolvable(profiles, d);
          return Err(MissingProfile), picks;
        }
        var a :| a in candidatesA;
        var b :| b in candidatesB;
        if a == b {
          return Err(SameProfile), picks;
        }
        PicksMore(profiles, start, defs, i, picks, (a, b));
        assessments := assessments[KeyFor(d, a, b) := d.content];
        picks, inserted := picks + [(a, b)], inserted + [d.market];
      }
      assert defs[..|defs|] == defs;
      r := Ok(inserted);
    }

    /** `main`: BEGIN, both update loops, the purge, the upserts, COMMIT; any error rolls everything back. */
    method RewriteMarkets(defs: seq<Definition>, overlaps: seq<AssessmentDef>)
      returns (r: Result<seq<string>, Failure>, ghost picks: seq<(nat, nat)>)
      modifies this
      ensures r.Err? ==> states == old(states) && profiles == old(profiles) && assessments == old(assessments)
      ensures r == Err(RowCount) <==> Checked(old(profiles), ProfileRenames(defs)).None?
      ensures r == Err(MissingProfile) ==> var renamed := Checked(old(profiles), ProfileRenames(defs));
        renamed.Some? && exists i :: 0 <= i < |overlaps| && !FullyResolvable(renamed.value, overlaps[i])
      ensures r == Err(SameProfile) ==> exists i :: 0 <= i < |overlaps| && overlaps[i].venueA == overlaps[i].venueB
      ensures Straight(defs) ==> (r == Err(RowCount) <==> !OneRowEach(old(profiles), defs))
      ensures r.Ok? && Straight(defs) ==>
        StatesRewritten(old(states), states, defs) && ProfilesRewritten(old(profiles), profiles, defs)
      ensures r.Ok? ==>
        && Checked(old(profiles), ProfileRenames(defs)) == Some(profiles)
        && states == Sequential(old(states), StateRenames(defs))
        && GoodPicks(profiles, overlaps, picks)
        && assessments == UpsertAll(Purge(old(assessments), Broken(defs)), overlaps, picks)
    {
      var saved := (states, profiles, assessments);
      if Straight(defs) {
        StatesAfter(states, defs);
        ProfilesAfter(profiles, defs);
      }
      picks := [];
      var ok := ApplySpec(defs);
      if !ok {
        states, profiles := saved.0, saved.1;
        return Err(RowCount), picks;
      }
      assessments := Purge(assessments, Broken(defs));
      r, picks := InsertAssessments(overlaps);
      if r.Err? {
        states, profiles, assessments := saved.0, saved.1, saved.2;
      }
    }
  }

  lemma NotResolvable(profiles: Profiles, d: AssessmentDef)
    requires Resolvable(profiles, d, d.venueA) == {} || Resolvable(profiles, d, d.venueB) == {}
    ensures !FullyResolvable(profiles, d)
  {
    assert forall venue, id :: IsProfileOf(profiles, d, venue, id) ==> id in Resolvable(profiles, d, venue);
  }

  lemma PicksMore(profiles: Profiles, t: Assessments, defs: seq<AssessmentDef>, i: nat, picks: seq<(nat, nat)>, pick: (nat, nat))
    requires i < |defs| && GoodPicks(profiles, defs[..i], picks) && pick.0 != pick.1
    requires IsProfileOf(profiles, defs[i], defs[i].venueA, pick.0) && IsProfileOf(profiles, defs[i], defs[i].venueB, pick.1)
    ensures GoodPicks(profiles, defs[..i + 1], picks + [pick])
    ensures UpsertAll(t, defs[..i + 1], picks + [pick])
         == UpsertAll(t, defs[..i], picks)[KeyFor(defs[i], pick.0, pick.1) := defs[i].content]
  {
    assert defs[..i + 1][..i] == defs[..i] && (picks + [pick])[..i] == picks;
  }

  ghost predicate FullyResolvable(profiles: Profiles, d: AssessmentDef) {
    (exists id :: IsProfileOf(profiles, d, d.venueA, id)) && exists id :: IsProfileOf(profiles, d, d.venueB, id)
  }

  /** A spec whose old ids are distinct per event, whose definitions name a venue once, and in which no new id is an old
      id of a later definition. */
  ghost predicate Straight(defs: seq<Definition>) {
    && (forall i :: 0 <= i < |defs| ==> VenuesOnce(defs[i].targets))
    && (forall i, j :: 0 <= i < j < |defs| && defs[i].event == defs[j].event ==>
          && defs[i].oldMarket != defs[j].oldMarket && defs[i].legacyMarket != defs[j].oldMarket
          && NoTargetIs(defs[i], defs[j]))
  }

  ghost predicate VenuesOnce(targets: seq<Target>) {
    forall a, b :: 0 <= a < b < |targets| ==> targets[a].venue != targets[b].venue
  }

  ghost predicate NoTargetIs(d: Definition, later: Definition) {
    forall a, b :: 0 <= a < |d.targets| && 0 <= b < |later.targets| && d.targets[a].venue == later.targets[b].venue ==>
      d.targets[a].market != later.oldMarket
  }

  /** The position of a target's statement in the run. */
  ghost function Position(defs: seq<Definition>, i: nat, a: nat): nat
    requires i < |defs|
  {
    |ProfileRenames(defs[..i])| + a
  }

  lemma RenameAt(defs: seq<Definition>, i: nat, a: nat)
    requires i < |defs| && a < |defs[i].targets|
    ensures Position(defs, i, a) < |ProfileRenames(defs)|
    ensures ProfileRenames(defs)[Position(defs, i, a)]
         == Rename((defs[i].event, defs[i].targets[a].venue), defs[i].oldMarket, defs[i].targets[a].market, defs[i].targets[a].text)
  {
    PrefixOfAll(defs, i, a + 1);
    var prefix := ProfileRenames(defs[..i]) + TargetRenames(defs[i], a + 1);
    assert ProfileRenames(defs)[Position(defs, i, a)] == prefix[Position(defs, i, a)];
  }

  lemma {:induction false} TargetAt(defs: seq<Definition>, k: nat) returns (i: nat, a: nat)
    requires k < |ProfileRenames(defs)|
    ensures i < |defs| && a < |defs[i].targets| && k == Position(defs, i, a)
    decreases |defs|
  {
    var n := |defs| - 1;
    if k < |ProfileRenames(defs[..n])| {
      i, a := TargetAt(defs[..n], k);
      assert defs[..n][..i] == defs[..i];
    } else {
      i, a := n, k - |ProfileRenames(defs[..n])|;
    }
  }

  /** Statements run definition by definition. */
  lemma PositionsOrdered(defs: seq<Definition>, i: nat, a: nat, j: nat, b: nat)
    requires i < j < |defs| && a < |defs[i].targets|
    ensures Position(defs, i, a) < Position(defs, j, b)
  {
    assert defs[..j][..i] == defs[..i];
    PrefixOfAll(defs[..j], i, a + 1);
  }

  lemma StraightRenames(defs: seq<Definition>)
    requires Straight(defs)
    ensures DistinctFrom(StateRenames(defs)) && NoChain(StateRenames(defs))
    ensures DistinctFrom(ProfileRenames(defs)) && NoChain(ProfileRenames(defs))
  {
    var rs := ProfileRenames(defs);
    forall k, m | 0 <= k < m < |rs| && rs[k].scope == rs[m].scope ensures rs[k].from != rs[m].from && rs[k].to != rs[m].from {
      var i, a := TargetAt(defs, k);
      var j, b := TargetAt(defs, m);
      RenameAt(defs, i, a);
      RenameAt(defs, j, b);
      if j < i { PositionsOrdered(defs, j, b, i, a); }
      if i < j { assert NoTargetIs(defs[i], defs[j]); }
    }
  }

  /** Each row of an old id now has its definition's legacy id, and the other rows are as before. */
  ghost predicate StatesRewritten(before: States, after: States, defs: seq<Definition>) {
    && after.Keys == before.Keys
    && (forall id, i :: id in before && 0 <= i < |defs| && before[id].scope == defs[i].event && before[id].market == defs[i].oldMarket ==>
          after[id].scope == defs[i].event && after[id].market == defs[i].legacyMarket)
    && (forall id :: id in before && NotInSpec(before[id].scope, before[id].market, defs) ==> after[id] == before[id])
  }

  ghost predicate NotInSpec(event: string, market: string, defs: seq<Definition>) {
    forall i :: 0 <= i < |defs| && defs[i].event == event ==> defs[i].oldMarket != market
  }

  /** The row is the profile a target is about. */
  ghost predicate IsOldProfile(c: Cell<(string, string), string>, d: Definition, t: Target) {
    c.scope.0 == d.event && c.scope.1 == t.venue && c.market == d.oldMarket
  }

  ghost predicate NoOldProfile(c: Cell<(string, string), string>, defs: seq<Definition>) {
    forall i, a :: 0 <= i < |defs| && 0 <= a < |defs[i].targets| ==> !IsOldProfile(c, defs[i], defs[i].targets[a])
  }

  /** Each target's profile row now has the target's market and text, and the other rows are as before. */
  ghost predicate ProfilesRewritten(before: Profiles, after: Profiles, defs: seq<Definition>) {
    && after.Keys == before.Keys
    && forall id :: id in before ==> ProfileRewritten(before[id], after[id], defs)
  }

  ghost predicate ProfileRewritten(c: Cell<(string, string), string>, after: Cell<(string, string), string>, defs: seq<Definition>) {
    && (forall i, a :: 0 <= i < |defs| && 0 <= a < |defs[i].targets| && IsOldProfile(c, defs[i], defs[i].targets[a]) ==>
          after == Cell((defs[i].event, defs[i].targets[a].venue), defs[i].targets[a].market, defs[i].targets[a].text))
    && (NoOldProfile(c, defs) ==> after == c)
  }

  /** The profile rows of one target. */
  ghost function OldProfiles(profiles: Profiles, d: Definition, t: Target): set<nat> {
    set id | id in profiles && IsOldProfile(profiles[id], d, t)
  }

  /** Every target is about exactly one row. */
  ghost predicate OneRowEach(profiles: Profiles, defs: seq<Definition>) {
    forall i, a :: 0 <= i < |defs| && 0 <= a < |defs[i].targets| ==> |OldProfiles(profiles, defs[i], defs[i].targets[a])| == 1
  }

  lemma StatesAfter(states: States, defs: seq<Definition>)
    requires Straight(defs)
    ensures StatesRewritten(states, Sequential(states, StateRenames(defs)), defs)
  {
    var rs := StateRenames(defs);
    StraightRenames(defs);
    SequentialChases(states, rs);
    forall id | id in states
      ensures forall i :: 0 <= i < |defs| && states[id].scope == defs[i].event && states[id].market == defs[i].oldMarket ==>
        Chase(states[id], rs) == Cell(defs[i].event, defs[i].legacyMarket, ())
      ensures NotInSpec(states[id].scope, states[id].market, defs) ==> Chase(states[id], rs) == states[id]
    {
      ChaseIs(states[id], rs);
      assert forall i :: 0 <= i < |defs| && states[id].scope == defs[i].event && states[id].market == defs[i].oldMarket ==>
        Hits(rs[i], states[id]);
    }
  }

  lemma ProfileAfter(c: Cell<(string, string), string>, defs: seq<Definition>)
    requires Straight(defs)
    ensures ProfileRewritten(c, Chase(c, ProfileRenames(defs)), defs)
  {
    var rs := ProfileRenames(defs);
    StraightRenames(defs);
    ChaseIs(c, rs);
    forall i, a | 0 <= i < |defs| && 0 <= a < |defs[i].targets| && IsOldProfile(c, defs[i], defs[i].targets[a])
      ensures Chase(c, rs) == Cell((defs[i].event, defs[i].targets[a].venue), defs[i].targets[a].market, defs[i].targets[a].text)
    {
      RenameAt(defs, i, a);
    }
    if NoOldProfile(c, defs) {
      forall k | 0 <= k < |rs| ensures !Hits(rs[k], c) {
        var i, a := TargetAt(defs, k);
        RenameAt(defs, i, a);
      }
    }
  }

  lemma MatchesOfTarget(profiles: Profiles, defs: seq<Definition>, i: nat, a: nat)
    requires i < |defs| && a < |defs[i].targets|
    ensures Position(defs, i, a) < |ProfileRenames(defs)|
    ensures Matches(profiles, ProfileRenames(defs)[Position(defs, i, a)]) == OldProfiles(profiles, defs[i], defs[i].targets[a])
  {
    RenameAt(defs, i, a);
  }

  lemma OneMatchEach(profiles: Profiles, defs: seq<Definition>)
    ensures OneRowEach(profiles, defs)
      <==> forall k :: 0 <= k < |ProfileRenames(defs)| ==> |Matches(profiles, ProfileRenames(defs)[k])| == 1
  {
    var rs := ProfileRenames(defs);
    if forall k :: 0 <= k < |rs| ==> |Matches(profiles, rs[k])| == 1 {
      forall i, a | 0 <= i < |defs| && 0 <= a < |defs[i].targets| ensures |OldProfiles(profiles, defs[i], defs[i].targets[a])| == 1 {
        MatchesOfTarget(profiles, defs, i, a);
        assert |Matches(profiles, rs[Position(defs, i, a)])| == 1;
      }
    }
    if OneRowEach(profiles, defs) {
      forall k | 0 <= k < |rs| ensures |Matches(profiles, rs[k])| == 1 {
        var i, a := TargetAt(defs, k);
        MatchesOfTarget(profiles, defs, i, a);
        assert |OldProfiles(profiles, defs[i], defs[i].targets[a])| == 1;
      }
    }
  }

  /** The checked loop over the profiles of a straight spec: it fails unless every target has exactly one row. */
  lemma ProfilesAfter(profiles: Profiles, defs: seq<Definition>)
    requires Straight(defs)
    ensures Checked(profiles, ProfileRenames(defs)).Some? <==> OneRowEach(profiles, defs)
    ensures Checked(profiles, ProfileRenames(defs)).Some? ==>
      ProfilesRewritten(profiles, Checked(profiles, ProfileRenames(defs)).value, defs)
  {
    var rs := ProfileRenames(defs);
    StraightRenames(defs);
    CheckedIs(profiles, rs);
    SequentialChases(profiles, rs);
    forall id | id in profiles ensures ProfileRewritten(profiles[id], Chase(profiles[id], rs), defs) {
      ProfileAfter(profiles[id], defs);
    }
    OneMatchEach(profiles, defs);
  }

  /** What a committed run of a straight spec did to the two renamed tables. */
  lemma CommittedRewrite(states: States, profiles: Profiles, defs: seq<Definition>)
    requires Straight(defs)
    ensures Sequential(states, StateRenames(defs)) == map id | id in states :: AtOnce(states[id], StateRenames(defs))
    ensures Checked(profiles, ProfileRenames(defs)).Some?
      <==> forall i :: 0 <= i < |ProfileRenames(defs)| ==> |Matches(profiles, ProfileRenames(defs)[i])| == 1
    ensures Checked(profiles, ProfileRenames(defs)).Some? ==>
      Checked(profiles, ProfileRenames(defs)).value == map id | id in profiles :: AtOnce(profiles[id], ProfileRenames(defs))
    ensures Checked(profiles, ProfileRenames(defs)).Some? ==>
      forall id :: id in profiles && NoMatch(profiles, ProfileRenames(defs), id) ==>
        Checked(profiles, ProfileRenames(defs)).value[id] == profiles[id]
    ensures forall e :: RowsOfScope(Sequential(states, StateRenames(defs)), e) == RowsOfScope(states, e)
    ensures Checked(profiles, ProfileRenames(defs)).Some? ==>
      forall s :: RowsOfScope(Checked(profiles, ProfileRenames(defs)).value, s) == RowsOfScope(profiles, s)
  {
    StraightRenames(defs);
    SequentialChases(states, StateRenames(defs));
    forall id | id in states ensures Chase(states[id], StateRenames(defs)) == AtOnce(states[id], StateRenames(defs)) {
      ChaseIsAtOnce(states[id], StateRenames(defs));
    }
    CheckedIs(profiles, ProfileRenames(defs));
    if Checked(profiles, ProfileRenames(defs)).Some? {
      CheckedIsAtOnce(profiles, ProfileRenames(defs));
      forall s ensures RowsOfScope(Checked(profiles, ProfileRenames(defs)).value, s) == RowsOfScope(profiles, s) {
        ScopesStay(profiles, ProfileRenames(defs), s);
      }
      forall id | id in profiles && NoMatch(profiles, ProfileRenames(defs), id)
        ensures Checked(profiles, ProfileRenames(defs)).value[id] == profiles[id]
      {
        CheckedKeepsOthers(profiles, ProfileRenames(defs), id);
      }
    }
    forall e ensures RowsOfScope(Sequential(states, StateRenames(defs)), e) == RowsOfScope(states, e) {
      ScopesStay(states, StateRenames(defs), e);
    }
  }

  lemma CheckedStep(t: Profiles, before: seq<Rename<(string, string), string>>, d: Definition, j: nat)
    requires j < |d.targets|
    ensures var rs := before + TargetRenames(d, j + 1);
      rs == before + TargetRenames(d, j)
            + [Rename((d.event, d.targets[j].venue), d.oldMarket, d.targets[j].market, d.targets[j].text)]
      && rs[..|rs| - 1] == before + TargetRenames(d, j)
  {
  }

  /** A failed prefix fails the whole loop. */
  lemma {:induction false} CheckedPrefixFails(t: Profiles, rs: seq<Rename<(string, string), string>>, n: nat)
    requires n <= |rs| && Checked(t, rs[..n]).None?
    ensures Checked(t, rs).None?
    decreases |rs| - n
  {
    if n < |rs| {
      assert rs[..n + 1][..n] == rs[..n];
      CheckedPrefixFails(t, rs, n + 1);
    } else {
      assert rs[..n] == rs;
    }
  }

  lemma CheckedFails(t: Profiles, prefix: seq<Rename<(string, string), string>>, defs: seq<Definition>, i: nat, j: nat)
    requires i < |defs| && j <= |defs[i].targets|
    requires prefix == ProfileRenames(defs[..i]) + TargetRenames(defs[i], j) && Checked(t, prefix).None?
    ensures Checked(t, ProfileRenames(defs)).None?
  {
    PrefixOfAll(defs, i, j);
    assert ProfileRenames(defs)[..|prefix|] == prefix;
    CheckedPrefixFails(t, ProfileRenames(defs), |prefix|);
  }

  lemma {:induction false} PrefixOfAll(defs: seq<Definition>, i: nat, j: nat)
    requires i < |defs| && j <= |defs[i].targets|
    ensures ProfileRenames(defs[..i]) + TargetRenames(defs[i], j) <= ProfileRenames(defs)
    decreases |defs|
  {
    var n := |defs| - 1;
    if i < n {
      assert defs[..n][..i] == defs[..i];
      PrefixOfAll(defs[..n], i, j);
    } else {
      assert TargetRenames(defs[i], j) <= TargetRenames(defs[i], |defs[i].targets|);
    }
  }
}
