/** The route gate (scripts/dev/validate-funding-route-enforcement-readiness.ts) and the venue rows of the gate
    summary (scripts/reports/report-funding-venue-readiness-gate-summary.ts). */
module RouteGates {
  import opened Wrappers
  import opened Sorting
  import opened FundingGates

  // ----- The route gate -----

  datatype Blocker =
    | ArtifactMissing | StatusNotCompleted | LaneDiffers | PathDiffers | NotFresh | PreflightFailed | TooFewRows
    | AdminNotVisible | RedactionMissing | UnsafeFlags | NoLeg(venue: string) | LegIncomplete(venue: string)
    | NoEvidence(venue: string)

  datatype RouteGate = RouteGate(lane: string, venues: seq<string>, maxAgeHours: int)

  /** `ageHours`: a stamp in the future counts as age zero. */
  function AgeHours(generatedAt: Stamp, now: int): Option<real> {
    match generatedAt
    case At(ms) => Some(Max(0, now - ms) as real / MS_PER_HOUR as real)
    case _ => None
  }

  predicate IsFresh(generatedAt: Stamp, now: int, maxAgeHours: int) {
    AgeHours(generatedAt, now).Some? && AgeHours(generatedAt, now).value <= Max(maxAgeHours, 1) as real
  }

  ghost predicate RouteDue(g: RouteGate, a: Artifact, now: int, b: Blocker) {
    match b
    case ArtifactMissing => false
    case StatusNotCompleted => a.status != Some("COMPLETED")
    case LaneDiffers => a.lane != Some(g.lane)
    case PathDiffers => !SameVenues(a.path, g.venues)
    case NotFresh => !IsFresh(a.generatedAt, now, g.maxAgeHours)
    case PreflightFailed => a.preflightOk != Some(true)
    case TooFewRows => a.rows.GetOr(0) < |g.venues|
    case AdminNotVisible => a.visible != Some(true)
    case RedactionMissing => a.redacted != Some(true)
    case UnsafeFlags => a.safety != SAFE
    case NoLeg(v) => v in g.venues && LegFor(a, v).None?
    case LegIncomplete(v) => v in g.venues && LegFor(a, v).Some? && !LegReady(LegFor(a, v).value)
    case NoEvidence(v) => v in g.venues && LegFor(a, v).Some? && !HasReadyEvidence(a, v)
  }

  ghost predicate BlockerDue(g: RouteGate, artifact: Option<Artifact>, now: int, b: Blocker) {
    match artifact
    case None => b == ArtifactMissing
    case Some(a) => RouteDue(g, a, now, b)
  }

  /** What the route gate lets pass. */
  ghost predicate RouteAccepts(g: RouteGate, a: Artifact, now: int) {
    && a.status == Some("COMPLETED") && a.lane == Some(g.lane) && SameVenues(a.path, g.venues)
    && IsFresh(a.generatedAt, now, g.maxAgeHours)
    && a.preflightOk == Some(true) && a.rows.GetOr(0) >= |g.venues| && a.visible == Some(true)
    && a.redacted == Some(true) && a.safety == SAFE
    && forall v :: v in g.venues ==> LegFor(a, v).Some? && LegReady(LegFor(a, v).value) && HasReadyEvidence(a, v)
  }

  /** Sorts both lists and compares them. */
  predicate SameVenueSet(actual: Option<seq<string>>, expected: seq<string>): (same: bool)
    ensures same <==> SameVenues(actual, expected)
  {
    TextOrder();
    SortedEqualIffSameElements(actual.GetOr([]), expected, TextLeq);
    Sort(actual.GetOr([]), TextLeq) == Sort(expected, TextLeq)
  }

  predicate RouteFieldCode(b: Blocker) {
    b in {StatusNotCompleted, LaneDiffers, PathDiffers, NotFresh, PreflightFailed}
  }

  predicate RouteFlagCode(b: Blocker) {
    b in {TooFewRows, AdminNotVisible, RedactionMissing, UnsafeFlags}
  }

  predicate RouteLegCode(b: Blocker) {
    b.NoLeg? || b.LegIncomplete? || b.NoEvidence?
  }

  /** The module-level `blockers` array. */
  class RouteRun {
    const gate: RouteGate
    var blockers: seq<Blocker>

    constructor (gate: RouteGate)
      ensures this.gate == gate && blockers == []
    {
      this.gate, blockers := gate, [];
    }

    method Check(bad: bool, b: Blocker)
      modifies this
      ensures forall x :: x in blockers <==> x in old(blockers) || (bad && x == b)
    {
      if bad { blockers := blockers + [b]; }
    }

    method CheckRouteFields(a: Artifact, now: int)
      modifies this
      ensures forall b :: b in blockers <==> b in old(blockers) || (RouteFieldCode(b) && RouteDue(gate, a, now, b))
    {
      Check(a.status != Some("COMPLETED"), StatusNotCompleted);
      Check(a.lane != Some(gate.lane), LaneDiffers);
      Check(!SameVenueSet(a.path, gate.venues), PathDiffers);
      Check(!IsFresh(a.generatedAt, now, gate.maxAgeHours), NotFresh);
      Check(a.preflightOk != Some(true), PreflightFailed);
    }

    method CheckRouteFlags(a: Artifact, ghost now: int)
      modifies this
      ensures forall b :: b in blockers <==> b in old(blockers) || (RouteFlagCode(b) && RouteDue(gate, a, now, b))
    {
      Check(a.rows.GetOr(0) < |gate.venues|, TooFewRows);
      Check(a.visible != Some(true), AdminNotVisible);
      Check(a.redacted != Some(true), RedactionMissing);
      Check(a.safety != SAFE, UnsafeFlags);
    }

    method CheckRouteLegs(a: Artifact, ghost now: int)
      modifies this
      ensures forall b :: b in blockers <==> b in old(blockers) || (RouteLegCode(b) && RouteDue(gate, a, now, b))
    {
      for i := 0 to |gate.venues|
        invariant forall b :: b in blockers <==>
          b in old(blockers) || (RouteLegCode(b) && b.venue in gate.venues[..i] && RouteDue(gate, a, now, b))
      {
        var v := gate.venues[i];
        assert gate.venues[..i + 1] == gate.venues[..i] + [v];
        var leg := LegFor(a, v);
        if leg.None? {
          Check(true, NoLeg(v));
          continue;
        }
        Check(!LegReady(leg.value), LegIncomplete(v));
        Check(!HasReadyEvidence(a, v), NoEvidence(v));
      }
    }

    method ValidateRouteArtifact(artifact: Option<Artifact>, now: int)
      modifies this
      ensures forall b :: b in blockers <==> b in old(blockers) || BlockerDue(gate, artifact, now, b)
      ensures old(blockers) == [] ==> (blockers == [] <==> artifact.Some? && RouteAccepts(gate, artifact.value, now))
    {
      if artifact.None? {
        Check(true, ArtifactMissing);
        assert ArtifactMissing in blockers;
        return;
      }
      CheckRouteFields(artifact.value, now);
      CheckRouteFlags(artifact.value, now);
      CheckRouteLegs(artifact.value, now);
      assert forall b :: b == ArtifactMissing || RouteFieldCode(b) || RouteFlagCode(b) || RouteLegCode(b);
      RouteAcceptsIffNothingDue(gate, artifact.value, now);
      if blockers != [] { assert blockers[0] in blockers; }
    }
  }

  lemma RouteAcceptsIffNothingDue(g: RouteGate, a: Artifact, now: int)
    ensures RouteAccepts(g, a, now) <==> forall b :: !RouteDue(g, a, now, b)
  {
    if forall b :: !RouteDue(g, a, now, b) {
      RouteFieldsIfNoneDue(g, a, now);
      forall v | v in g.venues ensures LegFor(a, v).Some? && LegReady(LegFor(a, v).value) && HasReadyEvidence(a, v) {
        assert !RouteDue(g, a, now, NoLeg(v));
        assert !RouteDue(g, a, now, LegIncomplete(v));
        assert !RouteDue(g, a, now, NoEvidence(v));
      }
    }
    if RouteAccepts(g, a, now) {
      forall b ensures !RouteDue(g, a, now, b) { NotRouteDue(g, a, now, b); }
    }
  }

  lemma NotRouteDue(g: RouteGate, a: Artifact, now: int, b: Blocker)
    requires RouteAccepts(g, a, now)
    ensures !RouteDue(g, a, now, b)
  {
  }

  lemma RouteFieldsIfNoneDue(g: RouteGate, a: Artifact, now: int)
    requires forall b :: !RouteDue(g, a, now, b)
    ensures a.status == Some("COMPLETED") && a.lane == Some(g.lane) && SameVenues(a.path, g.venues)
    ensures IsFresh(a.generatedAt, now, g.maxAgeHours) && a.preflightOk == Some(true) && a.rows.GetOr(0) >= |g.venues|
    ensures a.visible == Some(true) && a.redacted == Some(true) && a.safety == SAFE
  {
    assert !RouteDue(g, a, now, StatusNotCompleted);
    assert !RouteDue(g, a, now, LaneDiffers);
    assert !RouteDue(g, a, now, PathDiffers);
    assert !RouteDue(g, a, now, NotFresh);
    assert !RouteDue(g, a, now, PreflightFailed);
    assert !RouteDue(g, a, now, TooFewRows);
    assert !RouteDue(g, a, now, AdminNotVisible);
    assert !RouteDue(g, a, now, RedactionMissing);
    assert !RouteDue(g, a, now, UnsafeFlags);
  }

  // ----- The venue summary -----

  datatype GateStatus = PASSED | FAILED | MISSING | STALE

  datatype VenueBlocker =
    | NoArtifact | VenueStatus | VenueAge | VenuePreflight | VenueRows | VenueVisibility | VenueSafety | VenueLeg
    | VenueEvidence

  /** Unlike the other gates, the limit is not raised to one hour. */
  predicate FreshWithin(generatedAt: Stamp, now: int, maxAgeHours: int) {
    AgeHours(generatedAt, now).Some? && AgeHours(generatedAt, now).value <= maxAgeHours as real
  }

  predicate SafetyOk(a: Artifact) {
    a.redacted == Some(true) && a.safety == SAFE
  }

  predicate RouteLegReady(a: Artifact, venue: string) {
    LegFor(a, venue).Some? && LegReady(LegFor(a, venue).value)
  }

  predicate VenuePasses(venue: string, a: Artifact, now: int, maxAgeHours: int) {
    && a.status == Some("COMPLETED") && FreshWithin(a.generatedAt, now, maxAgeHours) && a.preflightOk == Some(true)
    && a.rows.GetOr(0) >= 1 && a.visible == Some(true) && SafetyOk(a)
    && RouteLegReady(a, venue) && HasReadyEvidence(a, venue)
  }

  ghost predicate VenueDue(venue: string, a: Artifact, now: int, maxAgeHours: int, b: VenueBlocker) {
    match b
    case NoArtifact => false
    case VenueStatus => a.status != Some("COMPLETED")
    case VenueAge => !FreshWithin(a.generatedAt, now, maxAgeHours)
    case VenuePreflight => a.preflightOk != Some(true)
    case VenueRows => a.rows.GetOr(0) < 1
    case VenueVisibility => a.visible != Some(true)
    case VenueSafety => a.redacted != Some(true) || a.safety != SAFE
    case VenueLeg => !RouteLegReady(a, venue)
    case VenueEvidence => !HasReadyEvidence(a, venue)
  }

  method Push(blockers: seq<VenueBlocker>, bad: bool, b: VenueBlocker) returns (r: seq<VenueBlocker>)
    ensures forall x :: x in r <==> x in blockers || (bad && x == b)
  {
    r := if bad then blockers + [b] else blockers;
  }

  method VenueBlockers(venue: string, a: Artifact, now: int, maxAgeHours: int) returns (blockers: seq<VenueBlocker>)
    ensures forall b :: b in blockers <==> VenueDue(venue, a, now, maxAgeHours, b)
  {
    blockers := Push([], a.status != Some("COMPLETED"), VenueStatus);
    blockers := Push(blockers, !FreshWithin(a.generatedAt, now, maxAgeHours), VenueAge);
    blockers := Push(blockers, a.preflightOk != Some(true), VenuePreflight);
    blockers := Push(blockers, a.rows.GetOr(0) < 1, VenueRows);
    blockers := Push(blockers, a.visible != Some(true), VenueVisibility);
    blockers := Push(blockers, !SafetyOk(a), VenueSafety);
    blockers := Push(blockers, !RouteLegReady(a, venue), VenueLeg);
    blockers := Push(blockers, !HasReadyEvidence(a, venue), VenueEvidence);
  }

  lemma VenuePassesIffNothingDue(venue: string, a: Artifact, now: int, maxAgeHours: int)
    ensures VenuePasses(venue, a, now, maxAgeHours) <==> forall b :: !VenueDue(venue, a, now, maxAgeHours, b)
  {
    if forall b :: !VenueDue(venue, a, now, maxAgeHours, b) {
      assert !VenueDue(venue, a, now, maxAgeHours, VenueStatus) && !VenueDue(venue, a, now, maxAgeHours, VenueAge);
      assert !VenueDue(venue, a, now, maxAgeHours, VenuePreflight) && !VenueDue(venue, a, now, maxAgeHours, VenueRows);
      assert !VenueDue(venue, a, now, maxAgeHours, VenueVisibility) && !VenueDue(venue, a, now, maxAgeHours, VenueSafety);
      assert !VenueDue(venue, a, now, maxAgeHours, VenueLeg) && !VenueDue(venue, a, now, maxAgeHours, VenueEvidence);
    }
  }

  method ValidateVenue(venue: string, artifact: Option<Artifact>, now: int, maxAgeHours: int)
    returns (status: GateStatus, blockers: seq<VenueBlocker>)
    ensures status == MISSING <==> artifact.None?
    ensures status == PASSED <==> artifact.Some? && VenuePasses(venue, artifact.value, now, maxAgeHours)
    ensures status == STALE <==> artifact.Some? && !FreshWithin(artifact.value.generatedAt, now, maxAgeHours)
    ensures status == PASSED <==> blockers == []
    ensures artifact.Some? ==> forall b :: b in blockers <==> VenueDue(venue, artifact.value, now, maxAgeHours, b)
  {
    if artifact.None? {
      return MISSING, [NoArtifact];
    }
    blockers := VenueBlockers(venue, artifact.value, now, maxAgeHours);
    VenuePassesIffNothingDue(venue, artifact.value, now, maxAgeHours);
    if blockers == [] {
      status := PASSED;
    } else {
      assert VenueDue(venue, artifact.value, now, maxAgeHours, blockers[0]);
      status := if FreshWithin(artifact.value.generatedAt, now, maxAgeHours) then FAILED else STALE;
    }
  }
}
