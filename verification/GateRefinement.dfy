/** How the four funding gates relate on one artifact at one instant. */
module GateRefinement {
  import opened Wrappers
  import opened FundingGates
  import opened RouteGates

  lemma {:induction false} ReadyVenuesHave(rows: seq<Evidence>, venue: string)
    requires venue != ""
    ensures venue in ReadyVenues(rows) <==> Evidence(Some(venue), Some(true)) in rows
  {
    if rows != [] {
      ReadyVenuesHave(rows[1..], venue);
      assert rows == [rows[0]] + rows[1..];
    }
  }

  lemma {:induction false} ReadyVenuesNamed(rows: seq<Evidence>)
    ensures forall v :: v in ReadyVenues(rows) ==> v != ""
  {
    if rows != [] { ReadyVenuesNamed(rows[1..]); }
  }

  lemma SameElements(a: seq<string>, b: seq<string>, v: string)
    requires multiset(a) == multiset(b)
    ensures v in a <==> v in b
  {
    assert v in a <==> v in multiset(a);
    assert v in b <==> v in multiset(b);
  }

  lemma AgeBound(ms: int, now: int, hours: int)
    requires hours >= 0
    ensures AgeHours(At(ms), now).value <= hours as real <==> now - ms <= hours * MS_PER_HOUR
  {
  }

  /** Ready evidence is exactly one row for each venue of the gate. */
  ghost predicate ExactEvidence(g: Gate, a: Artifact) {
    multiset(ReadyVenues(a.evidence.GetOr([]))) == multiset(g.venues)
  }

  lemma ExactEvidenceIsReady(g: Gate, a: Artifact, v: string)
    requires ExactEvidence(g, a) && v in g.venues
    ensures HasReadyEvidence(a, v)
  {
    var rows := a.evidence.GetOr([]);
    SameElements(ReadyVenues(rows), g.venues, v);
    ReadyVenuesNamed(rows);
    ReadyVenuesHave(rows, v);
  }

  /** The strict gate is the route gate of the same lane, venues and age limit, plus three conditions: the
      stamp is not in the future, the row count is exact, and no venue has surplus ready evidence. */
  lemma StrictIsRoutePlus(g: Gate, a: Artifact, now: int)
    ensures StrictAccepts(g, a, now) <==>
      && RouteAccepts(RouteGate(g.lane, g.venues, g.maxAgeHours), a, now)
      && a.generatedAt.At? && a.generatedAt.ms <= now
      && a.rows == Some(|g.venues|)
      && ExactEvidence(g, a)
  {
    if a.generatedAt.At? { AgeBound(a.generatedAt.ms, now, Max(g.maxAgeHours, 1)); }
    if ExactEvidence(g, a) {
      forall v | v in g.venues ensures HasReadyEvidence(a, v) { ExactEvidenceIsReady(g, a, v); }
    }
  }

  /** An artifact the pair gate or a venue gate accepts raises no blocker in the route gate for that lane, the
      same venues in any order, and an age limit at least as large. */
  lemma StrictImpliesRoute(g: Gate, r: RouteGate, a: Artifact, now: int)
    requires StrictAccepts(g, a, now)
    requires r.lane == g.lane && multiset(r.venues) == multiset(g.venues) && Max(r.maxAgeHours, 1) >= Max(g.maxAgeHours, 1)
    ensures RouteAccepts(r, a, now) && forall b :: !RouteDue(r, a, now, b)
  {
    AgeBound(a.generatedAt.ms, now, Max(r.maxAgeHours, 1));
    assert |r.venues| == |multiset(r.venues)| == |g.venues|;
    forall v | v in r.venues ensures LegFor(a, v).Some? && LegReady(LegFor(a, v).value) && HasReadyEvidence(a, v) {
      SameElements(r.venues, g.venues, v);
      ExactEvidenceIsReady(g, a, v);
    }
    RouteAcceptsIffNothingDue(r, a, now);
  }

  /** ... and gives each of its venues a PASSED row, when the summary's limit covers the gate's. */
  lemma StrictImpliesVenue(g: Gate, a: Artifact, now: int, summaryHours: int, venue: string)
    requires StrictAccepts(g, a, now) && venue in g.venues && summaryHours >= Max(g.maxAgeHours, 1)
    ensures VenuePasses(venue, a, now, summaryHours)
  {
    AgeBound(a.generatedAt.ms, now, summaryHours);
    ExactEvidenceIsReady(g, a, venue);
  }

  /** An artifact the pair gate accepts raises no blocker in the route gate and gives both venues a PASSED row,
      and no single-venue gate accepts it. */
  lemma PairAccepted(a: Artifact, now: int, hours: int)
    requires hours >= 1 && StrictAccepts(PairGate(hours), a, now)
    ensures RouteAccepts(RouteGate(PAIR_LANE, ["LIMITLESS", "POLYMARKET"], hours), a, now)
    ensures VenuePasses("LIMITLESS", a, now, hours) && VenuePasses("POLYMARKET", a, now, hours)
    ensures forall venue, limit :: !StrictAccepts(VenueGate(venue, limit), a, now)
  {
    var g := PairGate(hours);
    assert g.venues[0] == "LIMITLESS" && g.venues[1] == "POLYMARKET";
    StrictImpliesRoute(g, RouteGate(PAIR_LANE, g.venues, hours), a, now);
    StrictImpliesVenue(g, a, now, hours, "LIMITLESS");
    StrictImpliesVenue(g, a, now, hours, "POLYMARKET");
    forall venue, limit ensures !StrictAccepts(VenueGate(venue, limit), a, now) {
      assert |VenueGate(venue, limit).venues| == 1;
    }
  }

  /** The same for the single-venue gate of any venue. */
  lemma VenueAccepted(a: Artifact, now: int, hours: int, venue: string)
    requires hours >= 1 && StrictAccepts(VenueGate(venue, hours), a, now)
    ensures RouteAccepts(RouteGate(VenueGate(venue, hours).lane, [venue], hours), a, now)
    ensures VenuePasses(venue, a, now, hours)
  {
    var g := VenueGate(venue, hours);
    StrictImpliesRoute(g, RouteGate(g.lane, g.venues, hours), a, now);
    StrictImpliesVenue(g, a, now, hours, venue);
  }

  // ----- The age limits are what the refinement needs -----

  function ReadyLegs(venues: seq<string>): seq<Leg> {
    seq(|venues|, i requires 0 <= i < |venues| =>
      Leg(Some(venues[i]), Some("LEG_READY_TO_TRADE"), Some("CONFIRMED"), Some("CONFIRMED")))
  }

  function ReadyRows(venues: seq<string>): seq<Evidence> {
    seq(|venues|, i requires 0 <= i < |venues| => Evidence(Some(venues[i]), Some(true)))
  }

  /** A flawless artifact for a gate. */
  function Flawless(g: Gate, ms: int): Artifact {
    Artifact(At(ms), Some("COMPLETED"), Some(|g.venues|), Some(true), Some(true), Some(g.lane), Some(g.venues),
             Some(ReadyLegs(g.venues)), Some(ReadyRows(g.venues)), SAFE, Some(true))
  }

  lemma {:induction false} ReadyLegsFound(venues: seq<string>, v: string)
    requires v in venues
    ensures FindLeg(ReadyLegs(venues), v).Some? && LegReady(FindLeg(ReadyLegs(venues), v).value)
    decreases |venues|
  {
    if venues[0] != v {
      assert venues == [venues[0]] + venues[1..];
      assert ReadyLegs(venues)[1..] == ReadyLegs(venues[1..]);
      ReadyLegsFound(venues[1..], v);
    }
  }

  lemma {:induction false} ReadyRowsNamed(venues: seq<string>)
    requires "" !in venues
    ensures ReadyVenues(ReadyRows(venues)) == venues
    decreases |venues|
  {
    if venues != [] {
      assert venues == [venues[0]] + venues[1..];
      assert ReadyRows(venues)[1..] == ReadyRows(venues[1..]);
      ReadyRowsNamed(venues[1..]);
    }
  }

  lemma FlawlessAccepted(g: Gate, ms: int, now: int)
    requires "" !in g.venues && ms <= now && now - ms <= Max(g.maxAgeHours, 1) * MS_PER_HOUR
    ensures StrictAccepts(g, Flawless(g, ms), now)
  {
    ReadyRowsNamed(g.venues);
    forall v | v in g.venues ensures LegFor(Flawless(g, ms), v).Some? && LegReady(LegFor(Flawless(g, ms), v).value) {
      ReadyLegsFound(g.venues, v);
    }
  }

  /** A flawless artifact stamped in the future: the route gate accepts it, the strict gate does not. */
  lemma FutureStampAccepted(g: Gate, now: int)
    requires "" !in g.venues
    ensures RouteAccepts(RouteGate(g.lane, g.venues, g.maxAgeHours), Flawless(g, now + 1), now)
    ensures !StrictAccepts(g, Flawless(g, now + 1), now)
  {
    var a := Flawless(g, now + 1);
    FlawlessAccepted(g, now + 1, now + 1);
    StrictImpliesRoute(g, RouteGate(g.lane, g.venues, g.maxAgeHours), a, now + 1);
    assert AgeHours(a.generatedAt, now).value == 0.0;
  }

  /** The summary passes every artifact the gate accepts exactly when its limit covers the gate's limit, which
      the gate raises to at least one hour. */
  lemma VenueRefinesIff(g: Gate, summaryHours: int, venue: string)
    requires "" !in g.venues && venue in g.venues
    ensures (forall a, now :: StrictAccepts(g, a, now) ==> VenuePasses(venue, a, now, summaryHours))
      <==> summaryHours >= Max(g.maxAgeHours, 1)
  {
    if summaryHours >= Max(g.maxAgeHours, 1) {
      forall a, now | StrictAccepts(g, a, now) ensures VenuePasses(venue, a, now, summaryHours) {
        StrictImpliesVenue(g, a, now, summaryHours, venue);
      }
    } else {
      var now := Max(g.maxAgeHours, 1) * MS_PER_HOUR;
      FlawlessAccepted(g, 0, now);
      assert AgeHours(At(0), now).value == Max(g.maxAgeHours, 1) as real;
      assert !VenuePasses(venue, Flawless(g, 0), now, summaryHours);
    }
  }

  /** Likewise for the route gate, whose limit is raised to one hour too. */
  lemma RouteRefinesIff(g: Gate, routeHours: int)
    requires "" !in g.venues
    ensures (forall a, now :: StrictAccepts(g, a, now) ==> RouteAccepts(RouteGate(g.lane, g.venues, routeHours), a, now))
      <==> Max(routeHours, 1) >= Max(g.maxAgeHours, 1)
  {
    var r := RouteGate(g.lane, g.venues, routeHours);
    if Max(routeHours, 1) >= Max(g.maxAgeHours, 1) {
      forall a, now | StrictAccepts(g, a, now) ensures RouteAccepts(r, a, now) { StrictImpliesRoute(g, r, a, now); }
    } else {
      var now := Max(g.maxAgeHours, 1) * MS_PER_HOUR;
      FlawlessAccepted(g, 0, now);
      assert AgeHours(At(0), now).value == Max(g.maxAgeHours, 1) as real;
      assert !RouteAccepts(r, Flawless(g, 0), now);
    }
  }
}
