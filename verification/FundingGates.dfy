/** The rehearsal artifact, and the two strict gates that read it: the pair gate and the single-venue gate
    (scripts/dev/validate-pair-funding-readiness-gate.ts, validate-venue-funding-readiness-gate.ts). They are one
    script up to the lane and the venues. */
module FundingGates {
  import opened Wrappers
  import opened Sorting

  // ----- The artifact: every field may be missing -----

  /** `generatedAt` after `Date.parse`. */
  datatype Stamp = NoStamp | BadStamp | At(ms: int)

  datatype Leg = Leg(venue: Option<string>, status: Option<string>, destination: Option<string>, credit: Option<string>)
  datatype Evidence = Evidence(venue: Option<string>, ready: Option<bool>)
  datatype Safety = Safety(enforcementOn: Option<bool>, scriptScoped: Option<bool>, lifiOn: Option<bool>,
                           broadcast: Option<bool>, liveSubmit: Option<bool>)

  datatype Artifact = Artifact(generatedAt: Stamp, status: Option<string>, rows: Option<int>, visible: Option<bool>,
                               preflightOk: Option<bool>, lane: Option<string>, path: Option<seq<string>>,
                               legs: Option<seq<Leg>>, evidence: Option<seq<Evidence>>, safety: Safety,
                               redacted: Option<bool>)

  const MS_PER_HOUR := 3_600_000

  function Max(a: int, b: int): int {
    if a > b then a else b
  }

  /** `legs.find(leg => leg.targetVenue === venue)` */
  function FindLeg(legs: seq<Leg>, venue: string): Option<Leg> {
    if legs == [] then None else if legs[0].venue == Some(venue) then Some(legs[0]) else FindLeg(legs[1..], venue)
  }

  function LegFor(a: Artifact, venue: string): Option<Leg> {
    FindLeg(a.legs.GetOr([]), venue)
  }

  /** Venues of evidence rows that are ready and name a venue. */
  function ReadyVenues(rows: seq<Evidence>): seq<string> {
    if rows == [] then []
    else if rows[0].ready == Some(true) && rows[0].venue.GetOr("") != "" then [rows[0].venue.value] + ReadyVenues(rows[1..])
    else ReadyVenues(rows[1..])
  }

  predicate HasReadyEvidence(a: Artifact, venue: string) {
    exists e :: e in a.evidence.GetOr([]) && e == Evidence(Some(venue), Some(true))
  }

  predicate LegReady(l: Leg) {
    l == Leg(l.venue, Some("LEG_READY_TO_TRADE"), Some("CONFIRMED"), Some("CONFIRMED"))
  }

  const SAFE := Safety(Some(false), Some(true), Some(false), Some(false), Some(false))

  predicate SameVenues(actual: Option<seq<string>>, expected: seq<string>) {
    multiset(actual.GetOr([])) == multiset(expected)
  }

  // ----- The strict gates: pair, and one venue -----

  datatype Failure =
    | GeneratedAtMissing | GeneratedAtInvalid | InFuture | Stale | NotCompleted | WrongLane | WrongPath | WrongRows
    | NotVisible | PreflightNotOk | NotRedacted | EnforcementOn | NotScriptScoped | LifiOn | Broadcast | LiveSubmit
    | WrongEvidence | MissingLeg(venue: string) | LegNotReady(venue: string) | DestinationNotConfirmed(venue: string)
    | CreditNotConfirmed(venue: string)

  datatype Gate = Gate(lane: string, venues: seq<string>, maxAgeHours: int)

  const PAIR_LANE := "CRYPTO_BTC_ATH_BY_DATE_PAIR_LIMITLESS_POLYMARKET"

  function PairGate(maxAgeHours: int): Gate {
    Gate(PAIR_LANE, ["LIMITLESS", "POLYMARKET"], maxAgeHours)
  }

  function VenueGate(venue: string, maxAgeHours: int): Gate {
    Gate("CRYPTO_BTC_ATH_BY_DATE_SINGLE_" + venue, [venue], maxAgeHours)
  }

  /** When each failure is due. */
  ghost predicate Due(g: Gate, a: Artifact, now: int, f: Failure) {
    match f
    case GeneratedAtMissing => a.generatedAt.NoStamp?
    case GeneratedAtInvalid => a.generatedAt.BadStamp?
    case InFuture => a.generatedAt.At? && a.generatedAt.ms > now
    case Stale => a.generatedAt.At? && now - a.generatedAt.ms > Max(g.maxAgeHours, 1) * MS_PER_HOUR
    case NotCompleted => a.status != Some("COMPLETED")
    case WrongLane => a.lane != Some(g.lane)
    case WrongPath => !SameVenues(a.path, g.venues)
    case WrongRows => a.rows != Some(|g.venues|)
    case NotVisible => a.visible != Some(true)
    case PreflightNotOk => a.preflightOk != Some(true)
    case NotRedacted => a.redacted != Some(true)
    case EnforcementOn => a.safety.enforcementOn != Some(false)
    case NotScriptScoped => a.safety.scriptScoped != Some(true)
    case LifiOn => a.safety.lifiOn != Some(false)
    case Broadcast => a.safety.broadcast != Some(false)
    case LiveSubmit => a.safety.liveSubmit != Some(false)
    case WrongEvidence => multiset(ReadyVenues(a.evidence.GetOr([]))) != multiset(g.venues)
    case MissingLeg(v) => v in g.venues && LegFor(a, v).None?
    case LegNotReady(v) => v in g.venues && LegFor(a, v).Some? && LegFor(a, v).value.status != Some("LEG_READY_TO_TRADE")
    case DestinationNotConfirmed(v) =>
      v in g.venues && LegFor(a, v).Some? && LegFor(a, v).value.destination != Some("CONFIRMED")
    case CreditNotConfirmed(v) => v in g.venues && LegFor(a, v).Some? && LegFor(a, v).value.credit != Some("CONFIRMED")
  }

  ghost predicate FreshEnough(g: Gate, a: Artifact, now: int) {
    a.generatedAt.At? && a.generatedAt.ms <= now && now - a.generatedAt.ms <= Max(g.maxAgeHours, 1) * MS_PER_HOUR
  }

  ghost predicate FieldsRight(g: Gate, a: Artifact) {
    && a.status == Some("COMPLETED") && a.lane == Some(g.lane) && a.rows == Some(|g.venues|)
    && a.visible == Some(true) && a.preflightOk == Some(true) && a.redacted == Some(true)
    && SameVenues(a.path, g.venues)
    && multiset(ReadyVenues(a.evidence.GetOr([]))) == multiset(g.venues)
  }

  ghost predicate LegsRight(g: Gate, a: Artifact) {
    forall v :: v in g.venues ==> LegFor(a, v).Some? && LegReady(LegFor(a, v).value)
  }

  /** What the gate lets pass. */
  ghost predicate StrictAccepts(g: Gate, a: Artifact, now: int) {
    FreshEnough(g, a, now) && FieldsRight(g, a) && a.safety == SAFE && LegsRight(g, a)
  }

  ghost predicate NoneDue(g: Gate, a: Artifact, now: int) {
    forall f :: !Due(g, a, now, f)
  }

  lemma AcceptsIffNothingDue(g: Gate, a: Artifact, now: int)
    ensures StrictAccepts(g, a, now) <==> NoneDue(g, a, now)
  {
    if NoneDue(g, a, now) {
      FieldsIfNoneDue(g, a, now);
      LegsIfNoneDue(g, a, now);
    }
    if StrictAccepts(g, a, now) {
      forall f ensures !Due(g, a, now, f) { NotDue(g, a, now, f); }
    }
  }

  lemma NotDue(g: Gate, a: Artifact, now: int, f: Failure)
    requires StrictAccepts(g, a, now)
    ensures !Due(g, a, now, f)
  {
  }

  lemma FieldsIfNoneDue(g: Gate, a: Artifact, now: int)
    requires NoneDue(g, a, now)
    ensures FreshEnough(g, a, now) && FieldsRight(g, a) && a.safety == SAFE
  {
    FreshIfNoneDue(g, a, now);
    SafeIfNoneDue(g, a, now);
    assert !Due(g, a, now, NotCompleted);
    assert !Due(g, a, now, WrongLane);
    assert !Due(g, a, now, WrongPath);
    assert !Due(g, a, now, WrongRows);
    assert !Due(g, a, now, NotVisible);
    assert !Due(g, a, now, PreflightNotOk);
    assert !Due(g, a, now, NotRedacted);
    assert !Due(g, a, now, WrongEvidence);
  }

  lemma FreshIfNoneDue(g: Gate, a: Artifact, now: int)
    requires NoneDue(g, a, now)
    ensures FreshEnough(g, a, now)
  {
    assert !Due(g, a, now, GeneratedAtMissing) && !Due(g, a, now, GeneratedAtInvalid);
    assert !Due(g, a, now, InFuture) && !Due(g, a, now, Stale);
  }

  lemma SafeIfNoneDue(g: Gate, a: Artifact, now: int)
    requires NoneDue(g, a, now)
    ensures a.safety == SAFE
  {
    assert !Due(g, a, now, EnforcementOn) && !Due(g, a, now, NotScriptScoped);
    assert !Due(g, a, now, LifiOn) && !Due(g, a, now, Broadcast) && !Due(g, a, now, LiveSubmit);
  }

  lemma LegsIfNoneDue(g: Gate, a: Artifact, now: int)
    requires NoneDue(g, a, now)
    ensures LegsRight(g, a)
  {
    forall v | v in g.venues ensures LegFor(a, v).Some? && LegReady(LegFor(a, v).value) {
      assert !Due(g, a, now, MissingLeg(v)) && !Due(g, a, now, LegNotReady(v))
          && !Due(g, a, now, DestinationNotConfirmed(v)) && !Due(g, a, now, CreditNotConfirmed(v));
    }
  }

  predicate AgeCode(f: Failure) {
    f in {GeneratedAtMissing, GeneratedAtInvalid, InFuture, Stale}
  }

  predicate SafetyCode(f: Failure) {
    f in {EnforcementOn, NotScriptScoped, LifiOn, Broadcast, LiveSubmit}
  }

  predicate FieldCode(f: Failure) {
    f in {NotCompleted, WrongLane, WrongPath, WrongRows, NotVisible, PreflightNotOk, NotRedacted}
  }

  predicate LegCode(f: Failure) {
    f.MissingLeg? || f.LegNotReady? || f.DestinationNotConfirmed? || f.CreditNotConfirmed?
  }

  /** The module-level `failures` array and the checks that push to it. */
  class StrictRun {
    const gate: Gate
    var failures: seq<Failure>

    constructor (gate: Gate)
      ensures this.gate == gate && failures == []
    {
      this.gate, failures := gate, [];
    }

    method Check(bad: bool, f: Failure)
      modifies this
      ensures forall x :: x in failures <==> x in old(failures) || (bad && x == f)
    {
      if bad { failures := failures + [f]; }
    }

    method AssertFresh(a: Artifact, now: int)
      modifies this
      ensures forall f :: f in failures <==> f in old(failures) || (AgeCode(f) && Due(gate, a, now, f))
    {
      match a.generatedAt
      case NoStamp => Check(true, GeneratedAtMissing);
      case BadStamp => Check(true, GeneratedAtInvalid);
      case At(ms) =>
        var age := now - ms;
        Check(age < 0, InFuture);
        Check(age > Max(gate.maxAgeHours, 1) * MS_PER_HOUR, Stale);
    }

    /** Sorts both lists and compares them. */
    method AssertArraySet(actual: Option<seq<string>>, f: Failure)
      modifies this
      ensures forall x :: x in failures <==> x in old(failures) || (!SameVenues(actual, gate.venues) && x == f)
    {
      var normalized, expected := Sort(actual.GetOr([]), TextLeq), Sort(gate.venues, TextLeq);
      TextOrder();
      SortedEqualIffSameElements(actual.GetOr([]), gate.venues, TextLeq);
      Check(normalized != expected, f);
    }

    method CheckSafety(a: Artifact, ghost now: int)
      modifies this
      ensures forall f :: f in failures <==> f in old(failures) || (SafetyCode(f) && Due(gate, a, now, f))
    {
      Check(a.safety.enforcementOn != Some(false), EnforcementOn);
      Check(a.safety.scriptScoped != Some(true), NotScriptScoped);
      Check(a.safety.lifiOn != Some(false), LifiOn);
      Check(a.safety.broadcast != Some(false), Broadcast);
      Check(a.safety.liveSubmit != Some(false), LiveSubmit);
    }

    method CheckLegs(a: Artifact, ghost now: int)
      modifies this
      ensures forall f :: f in failures <==> f in old(failures) || (LegCode(f) && Due(gate, a, now, f))
    {
      for i := 0 to |gate.venues|
        invariant forall f :: f in failures <==>
          f in old(failures) || (LegCode(f) && f.venue in gate.venues[..i] && Due(gate, a, now, f))
      {
        var v := gate.venues[i];
        assert gate.venues[..i + 1] == gate.venues[..i] + [v];
        var leg := LegFor(a, v);
        if leg.None? {
          Check(true, MissingLeg(v));
          continue;
        }
        Check(leg.value.status != Some("LEG_READY_TO_TRADE"), LegNotReady(v));
        Check(leg.value.destination != Some("CONFIRMED"), DestinationNotConfirmed(v));
        Check(leg.value.credit != Some("CONFIRMED"), CreditNotConfirmed(v));
      }
    }

    method CheckFields(a: Artifact, ghost now: int)
      modifies this
      ensures forall f :: f in failures <==> f in old(failures) || (FieldCode(f) && Due(gate, a, now, f))
    {
      Check(a.status != Some("COMPLETED"), NotCompleted);
      Check(a.lane != Some(gate.lane), WrongLane);
      AssertArraySet(a.path, WrongPath);
      Check(a.rows != Some(|gate.venues|), WrongRows);
      Check(a.visible != Some(true), NotVisible);
      Check(a.preflightOk != Some(true), PreflightNotOk);
      Check(a.redacted != Some(true), NotRedacted);
    }

    /** The failures pushed are exactly those that are due. */
    method ValidateArtifact(a: Artifact, now: int)
      modifies this
      ensures forall f :: f in failures <==> f in old(failures) || Due(gate, a, now, f)
      ensures old(failures) == [] ==> (failures == [] <==> StrictAccepts(gate, a, now))
    {
      AssertFresh(a, now);
      CheckFields(a, now);
      CheckSafety(a, now);
      AssertArraySet(Some(ReadyVenues(a.evidence.GetOr([]))), WrongEvidence);
      CheckLegs(a, now);
      AllCodes();
      AcceptsIffNothingDue(gate, a, now);
      EmptyIffNoElement(failures);
    }
  }

  lemma AllCodes()
    ensures forall f :: AgeCode(f) || FieldCode(f) || SafetyCode(f) || LegCode(f) || f == WrongEvidence
  {
  }

  lemma EmptyIffNoElement(s: seq<Failure>)
    ensures s == [] <==> forall f :: f !in s
  {
    if s != [] { assert s[0] in s; }
  }
}
