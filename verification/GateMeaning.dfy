/** What the funding gates read in an artifact, field by field and row by row. */
module GateMeaning {
  import opened Wrappers
  import opened FundingGates
  import opened RouteGates
  import opened GateRefinement

  /** The leg a gate looks at: the first one of the venue. */
  ghost predicate FirstLeg(a: Artifact, venue: string, leg: Leg) {
    a.legs.Some? && exists i :: 0 <= i < |a.legs.value| && a.legs.value[i] == leg && NoLegBefore(a.legs.value, i, venue)
  }

  ghost predicate NoLegBefore(legs: seq<Leg>, i: nat, venue: string)
    requires i < |legs|
  {
    legs[i].venue == Some(venue) && forall j :: 0 <= j < i ==> legs[j].venue != Some(venue)
  }

  lemma {:induction false} FindLegIsFirst(legs: seq<Leg>, venue: string)
    ensures FindLeg(legs, venue).None? <==> forall i :: 0 <= i < |legs| ==> legs[i].venue != Some(venue)
    ensures FindLeg(legs, venue).Some? ==>
      exists i :: 0 <= i < |legs| && legs[i] == FindLeg(legs, venue).value && NoLegBefore(legs, i, venue)
    decreases |legs|
  {
    if legs != [] && legs[0].venue != Some(venue) {
      FindLegIsFirst(legs[1..], venue);
      assert forall i :: 0 < i < |legs| ==> legs[i] == legs[1..][i - 1];
      if FindLeg(legs, venue).Some? {
        var i :| 0 <= i < |legs[1..]| && legs[1..][i] == FindLeg(legs, venue).value && NoLegBefore(legs[1..], i, venue);
        assert legs[i + 1] == FindLeg(legs, venue).value && NoLegBefore(legs, i + 1, venue);
      }
    } else if legs != [] {
      assert legs[0] == FindLeg(legs, venue).value && NoLegBefore(legs, 0, venue);
    }
  }

  lemma LegForIsFirst(a: Artifact, venue: string)
    ensures LegFor(a, venue).None? <==> a.legs.None? || forall i :: 0 <= i < |a.legs.value| ==> a.legs.value[i].venue != Some(venue)
    ensures LegFor(a, venue).Some? ==> FirstLeg(a, venue, LegFor(a, venue).value)
  {
    if a.legs.Some? { FindLegIsFirst(a.legs.value, venue); }
  }

  lemma FirstLegUnique(a: Artifact, venue: string, leg: Leg)
    requires FirstLeg(a, venue, leg)
    ensures LegFor(a, venue) == Some(leg)
  {
    var i :| 0 <= i < |a.legs.value| && a.legs.value[i] == leg && NoLegBefore(a.legs.value, i, venue);
    LegForIsFirst(a, venue);
    var k :| 0 <= k < |a.legs.value| && a.legs.value[k] == LegFor(a, venue).value && NoLegBefore(a.legs.value, k, venue);
    assert i == k;
  }

  /** The first leg of the venue is ready, with destination and credit confirmed. */
  ghost predicate LegComplete(a: Artifact, venue: string) {
    FirstLeg(a, venue, Leg(Some(venue), Some("LEG_READY_TO_TRADE"), Some("CONFIRMED"), Some("CONFIRMED")))
  }

  lemma LegReadyMeans(a: Artifact, venue: string)
    ensures LegFor(a, venue).Some? && LegReady(LegFor(a, venue).value) <==> LegComplete(a, venue)
  {
    LegForIsFirst(a, venue);
    if LegComplete(a, venue) {
      FirstLegUnique(a, venue, Leg(Some(venue), Some("LEG_READY_TO_TRADE"), Some("CONFIRMED"), Some("CONFIRMED")));
    }
  }

  /** Some evidence row is of the venue and ready to trade. */
  ghost predicate EvidenceRow(a: Artifact, venue: string) {
    a.evidence.Some? && exists i ::
      (0 <= i < |a.evidence.value| && a.evidence.value[i].venue == Some(venue) && a.evidence.value[i].ready == Some(true))
  }

  lemma HasReadyEvidenceMeans(a: Artifact, venue: string)
    ensures HasReadyEvidence(a, venue) <==> EvidenceRow(a, venue)
  {
    if EvidenceRow(a, venue) {
      var i :| 0 <= i < |a.evidence.value| && a.evidence.value[i].venue == Some(venue) && a.evidence.value[i].ready == Some(true);
      assert a.evidence.value[i] == Evidence(Some(venue), Some(true)) && a.evidence.value[i] in a.evidence.GetOr([]);
    }
  }

  /** Nothing was switched on: enforcement and LI.FI off, no broadcast, no live submission, all scoped to the script. */
  ghost predicate Harmless(s: Safety) {
    && s.enforcementOn == Some(false) && s.lifiOn == Some(false) && s.broadcast == Some(false) && s.liveSubmit == Some(false)
    && s.scriptScoped == Some(true)
  }

  /** The path names the venues, in any order. */
  ghost predicate PathNames(a: Artifact, venues: seq<string>) {
    multiset(if a.path.Some? then a.path.value else []) == multiset(venues)
  }

  /** What the route gate lets pass. */
  lemma RouteAcceptsMeans(g: RouteGate, a: Artifact, now: int)
    ensures RouteAccepts(g, a, now) <==>
      && a.status == Some("COMPLETED") && a.lane == Some(g.lane) && PathNames(a, g.venues)
      && a.generatedAt.At? && now - a.generatedAt.ms <= (if g.maxAgeHours > 1 then g.maxAgeHours else 1) * 3_600_000
      && a.preflightOk == Some(true) && a.visible == Some(true) && a.redacted == Some(true) && Harmless(a.safety)
      && (if a.rows.Some? then a.rows.value else 0) >= |g.venues|
      && forall v :: v in g.venues ==> LegComplete(a, v) && EvidenceRow(a, v)
  {
    if a.generatedAt.At? { AgeBound(a.generatedAt.ms, now, Max(g.maxAgeHours, 1)); }
    forall v ensures HasReadyEvidence(a, v) <==> EvidenceRow(a, v) { HasReadyEvidenceMeans(a, v); }
    forall v ensures LegFor(a, v).Some? && LegReady(LegFor(a, v).value) <==> LegComplete(a, v) { LegReadyMeans(a, v); }
  }

  /** The blockers about one venue of the route gate. */
  lemma RouteLegBlockersMean(g: RouteGate, a: Artifact, now: int, v: string)
    requires v in g.venues
    ensures RouteDue(g, a, now, NoLeg(v)) <==> !exists leg :: FirstLeg(a, v, leg)
    ensures RouteDue(g, a, now, LegIncomplete(v)) <==> !LegComplete(a, v) && exists leg :: FirstLeg(a, v, leg)
    ensures RouteDue(g, a, now, NoEvidence(v)) <==> !EvidenceRow(a, v) && exists leg :: FirstLeg(a, v, leg)
  {
    LegForIsFirst(a, v);
    LegReadyMeans(a, v);
    HasReadyEvidenceMeans(a, v);
    if leg :| FirstLeg(a, v, leg) { FirstLegUnique(a, v, leg); }
  }

  /** What gives a venue a PASSED row. */
  lemma VenuePassesMeans(venue: string, a: Artifact, now: int, maxAgeHours: int)
    ensures VenuePasses(venue, a, now, maxAgeHours) <==>
      && a.status == Some("COMPLETED") && a.preflightOk == Some(true) && a.visible == Some(true) && a.redacted == Some(true)
      && a.generatedAt.At? && maxAgeHours >= 0 && now - a.generatedAt.ms <= maxAgeHours * 3_600_000
      && Harmless(a.safety) && (if a.rows.Some? then a.rows.value else 0) >= 1
      && LegComplete(a, venue) && EvidenceRow(a, venue)
    ensures VenueDue(venue, a, now, maxAgeHours, VenueEvidence) <==> !EvidenceRow(a, venue)
    ensures VenueDue(venue, a, now, maxAgeHours, VenueLeg) <==> !LegComplete(a, venue)
    ensures FreshWithin(a.generatedAt, now, maxAgeHours)
      <==> a.generatedAt.At? && maxAgeHours >= 0 && now - a.generatedAt.ms <= maxAgeHours * 3_600_000
  {
    if a.generatedAt.At? && maxAgeHours >= 0 { AgeBound(a.generatedAt.ms, now, maxAgeHours); }
    LegReadyMeans(a, venue);
    HasReadyEvidenceMeans(a, venue);
  }

  lemma FirstRowCounted(row: Evidence, v: string)
    ensures multiset(ReadyVenues([row]))[v] == if v != "" && row == Evidence(Some(v), Some(true)) then 1 else 0
  {
    assert ReadyVenues([row][1..]) == [];
  }

  lemma ReadyVenuesFirst(row: Evidence, rest: seq<Evidence>)
    ensures ReadyVenues([row] + rest) == ReadyVenues([row]) + ReadyVenues(rest)
  {
    assert ([row] + rest)[1..] == rest && [row][1..] == [];
  }

  lemma {:induction false} ReadyVenuesCounted(rows: seq<Evidence>, v: string)
    ensures multiset(ReadyVenues(rows))[v] == if v == "" then 0 else multiset(rows)[Evidence(Some(v), Some(true))]
    decreases |rows|
  {
    if rows != [] {
      ReadyVenuesCounted(rows[1..], v);
      ReadyVenuesFirst(rows[0], rows[1..]);
      FirstRowCounted(rows[0], v);
      assert rows == [rows[0]] + rows[1..];
    }
  }

  /** As many ready rows for each named venue as the gate has it. */
  ghost predicate EvidenceCounts(a: Artifact, venues: seq<string>) {
    var rows := if a.evidence.Some? then a.evidence.value else [];
    forall v :: multiset(venues)[v] == if v == "" then 0 else multiset(rows)[Evidence(Some(v), Some(true))]
  }

  lemma ExactEvidenceMeans(g: Gate, a: Artifact)
    ensures ExactEvidence(g, a) <==> EvidenceCounts(a, g.venues)
  {
    var rows := a.evidence.GetOr([]);
    forall v ensures multiset(ReadyVenues(rows))[v] == if v == "" then 0 else multiset(rows)[Evidence(Some(v), Some(true))] {
      ReadyVenuesCounted(rows, v);
    }
    if EvidenceCounts(a, g.venues) {
      assert forall v :: multiset(ReadyVenues(rows))[v] == multiset(g.venues)[v];
    }
  }

  /** What the pair gate and the single-venue gates let pass. */
  lemma StrictAcceptsMeans(g: Gate, a: Artifact, now: int)
    ensures StrictAccepts(g, a, now) <==>
      && a.status == Some("COMPLETED") && a.lane == Some(g.lane) && PathNames(a, g.venues) && a.rows == Some(|g.venues|)
      && a.generatedAt.At? && 0 <= now - a.generatedAt.ms <= (if g.maxAgeHours > 1 then g.maxAgeHours else 1) * 3_600_000
      && a.preflightOk == Some(true) && a.visible == Some(true) && a.redacted == Some(true) && Harmless(a.safety)
      && EvidenceCounts(a, g.venues)
      && forall v :: v in g.venues ==> LegComplete(a, v)
  {
    ExactEvidenceMeans(g, a);
    forall v ensures LegFor(a, v).Some? && LegReady(LegFor(a, v).value) <==> LegComplete(a, v) { LegReadyMeans(a, v); }
  }

  /** When the strict gates report an unsafe flag. */
  lemma StrictFlagFailuresMean(g: Gate, a: Artifact, now: int)
    ensures Harmless(a.safety) <==> (forall f :: SafetyCode(f) ==> !Due(g, a, now, f))
  {
    if forall f :: SafetyCode(f) ==> !Due(g, a, now, f) {
      assert !Due(g, a, now, EnforcementOn) && !Due(g, a, now, NotScriptScoped) && !Due(g, a, now, LifiOn);
      assert !Due(g, a, now, Broadcast) && !Due(g, a, now, LiveSubmit);
    }
  }

  /** When the strict gates report a failure about time, path, row count or evidence. */
  lemma StrictFailuresMean(g: Gate, a: Artifact, now: int)
    ensures Due(g, a, now, GeneratedAtMissing) <==> a.generatedAt == NoStamp
    ensures Due(g, a, now, GeneratedAtInvalid) <==> a.generatedAt == BadStamp
    ensures Due(g, a, now, InFuture) <==> a.generatedAt.At? && a.generatedAt.ms > now
    ensures Due(g, a, now, Stale)
      <==> a.generatedAt.At? && now - a.generatedAt.ms > (if g.maxAgeHours > 1 then g.maxAgeHours else 1) * 3_600_000
    ensures Due(g, a, now, WrongPath) <==> !PathNames(a, g.venues)
    ensures Due(g, a, now, WrongRows) <==> a.rows != Some(|g.venues|)
    ensures Due(g, a, now, WrongEvidence) <==> !EvidenceCounts(a, g.venues)
  {
    ExactEvidenceMeans(g, a);
  }

  /** The failures of the strict gates about one venue: without a leg, and with `leg` as the first one. */
  lemma StrictLegFailuresMean(g: Gate, a: Artifact, now: int, v: string, leg: Leg)
    requires v in g.venues
    ensures Due(g, a, now, MissingLeg(v)) <==> !exists l :: FirstLeg(a, v, l)
    ensures FirstLeg(a, v, leg) ==>
      && (Due(g, a, now, LegNotReady(v)) <==> leg.status != Some("LEG_READY_TO_TRADE"))
      && (Due(g, a, now, DestinationNotConfirmed(v)) <==> leg.destination != Some("CONFIRMED"))
      && (Due(g, a, now, CreditNotConfirmed(v)) <==> leg.credit != Some("CONFIRMED"))
  {
    LegForIsFirst(a, v);
    if FirstLeg(a, v, leg) { FirstLegUnique(a, v, leg); }
    if l :| FirstLeg(a, v, l) { FirstLegUnique(a, v, l); }
  }

  /** Lane and venues of the two strict gates. */
  lemma StrictLanes(a: Artifact, now: int, hours: int, venue: string)
    ensures StrictAccepts(PairGate(hours), a, now) ==>
      a.lane == Some("CRYPTO_BTC_ATH_BY_DATE_PAIR_LIMITLESS_POLYMARKET") && a.rows == Some(2) && PathNames(a, ["LIMITLESS", "POLYMARKET"])
    ensures StrictAccepts(VenueGate(venue, hours), a, now) ==>
      a.lane == Some("CRYPTO_BTC_ATH_BY_DATE_SINGLE_" + venue) && a.rows == Some(1) && PathNames(a, [venue])
  {
    StrictAcceptsMeans(PairGate(hours), a, now);
    StrictAcceptsMeans(VenueGate(venue, hours), a, now);
  }
}
