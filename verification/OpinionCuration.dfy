/** The unique-exact-match decision of the Opinion curation
    (scripts/batch/generate-opinion-exact-match-curation.ts). */
module OpinionCuration {
  import opened Wrappers
  import opened Sequences
  import opened Sorting

  /** A candidate snapshot; `details` stands for its other fields. */
  datatype Candidate = Candidate(marketId: string, title: string, category: string, details: string)

  datatype Classification = HistoricalExact | LiveOnlyExact | NearExact | Mismatch

  /** What the evaluation says about one candidate; which candidates are looked at, and how they are judged,
      is not decided here. */
  datatype Judgement = Judgement(score: int, classification: Classification)

  datatype Evaluation = Evaluation(candidate: Candidate, judgement: Judgement)

  type Judge = Candidate -> Option<Judgement>

  // ----- Order of candidates -----

  /** `localeCompare` on ids, then on titles. */
  function PoolOrder(text: (string, string) -> bool): (Candidate, Candidate) -> bool {
    (a: Candidate, b: Candidate) =>
      if a.marketId == b.marketId then text(a.title, b.title) else text(a.marketId, b.marketId)
  }

  /** Highest score first, then by id. */
  function RankOrder(text: (string, string) -> bool): (Evaluation, Evaluation) -> bool {
    (a: Evaluation, b: Evaluation) =>
      a.judgement.score > b.judgement.score
      || (a.judgement.score == b.judgement.score && text(a.candidate.marketId, b.candidate.marketId))
  }

  lemma PoolPreorder(text: (string, string) -> bool)
    requires TotalOrder(text)
    ensures TotalPreorder(PoolOrder(text)) && forall a, b :: PoolOrder(text)(a, b) && PoolOrder(text)(b, a) ==> SameListing(a, b)
  {
    var leq := PoolOrder(text);
    forall a, b ensures leq(a, b) || leq(b, a) {
      assert text(a.title, b.title) || text(b.title, a.title);
      assert text(a.marketId, b.marketId) || text(b.marketId, a.marketId);
    }
    forall a, b, c | leq(a, b) && leq(b, c) ensures leq(a, c) {
      if a.marketId == b.marketId == c.marketId {
        assert text(a.title, b.title) && text(b.title, c.title);
      } else if a.marketId != b.marketId && b.marketId != c.marketId {
        assert text(a.marketId, b.marketId) && text(b.marketId, c.marketId);
      }
    }
  }

  predicate SameListing(a: Candidate, b: Candidate) {
    a.marketId == b.marketId && a.title == b.title
  }

  lemma RankPreorder(text: (string, string) -> bool)
    requires TotalOrder(text)
    ensures TotalPreorder(RankOrder(text))
  {
    var leq := RankOrder(text);
    forall a, b ensures leq(a, b) || leq(b, a) {
      assert text(a.candidate.marketId, b.candidate.marketId) || text(b.candidate.marketId, a.candidate.marketId);
    }
    forall a, b, c | leq(a, b) && leq(b, c) ensures leq(a, c) {
      if a.judgement.score == b.judgement.score == c.judgement.score {
        assert text(a.candidate.marketId, b.candidate.marketId) && text(b.candidate.marketId, c.candidate.marketId);
      }
    }
  }

  function CandidatePool(candidates: seq<Candidate>, category: string, text: (string, string) -> bool): seq<Candidate> {
    Sort(Filter(candidates, (c: Candidate) => c.category == category), PoolOrder(text))
  }

  /** The pool: the candidates of the category as often as listed, by id, those of one id by title. */
  lemma PoolMeans(candidates: seq<Candidate>, category: string, text: (string, string) -> bool)
    requires TotalOrder(text)
    ensures var pool := CandidatePool(candidates, category, text);
      && (forall c :: multiset(pool)[c] == if c.category == category then multiset(candidates)[c] else 0)
      && forall i, j :: 0 <= i < j < |pool| ==>
           if pool[i].marketId == pool[j].marketId then text(pool[i].title, pool[j].title) else text(pool[i].marketId, pool[j].marketId)
  {
    var keep := (c: Candidate) => c.category == category;
    var kept, leq := Filter(candidates, keep), PoolOrder(text);
    PoolPreorder(text);
    SortPermutes(kept, leq);
    SortSorts(kept, leq);
    forall c: Candidate ensures multiset(kept)[c] == if c.category == category then multiset(candidates)[c] else 0 {
      FilterKeeps(candidates, keep, c);
    }
    var pool := CandidatePool(candidates, category, text);
    assert forall i, j :: 0 <= i < j < |pool| ==> leq(pool[i], pool[j]);
  }

  // ----- Evaluations and the decision -----

  function Evaluations(pool: seq<Candidate>, judge: Judge): seq<Evaluation> {
    if pool == [] then []
    else
      var last := pool[|pool| - 1];
      Evaluations(pool[..|pool| - 1], judge)
      + if judge(last).Some? then [Evaluation(last, judge(last).value)] else []
  }

  predicate IsExact(e: Evaluation) {
    e.judgement.classification.HistoricalExact? || e.judgement.classification.LiveOnlyExact?
  }

  predicate IsNear(e: Evaluation) {
    e.judgement.classification.NearExact?
  }

  datatype Status = Accepted(classification: Classification) | RejectedAmbiguous | NearExactOnly | MismatchOnly | NoCandidate

  datatype Entry = Entry(status: Status, evaluations: seq<Evaluation>, nearMisses: seq<Evaluation>,
                         rejected: seq<Evaluation>, accepted: Option<Evaluation>)

  function Decide(ranked: seq<Evaluation>): Entry {
    var near, exact := Filter(ranked, IsNear), Filter(ranked, IsExact);
    if |exact| == 1 then
      var winner := exact[0];
      Entry(Accepted(winner.judgement.classification), ranked, near, Filter(ranked, DiffersFrom(winner)), Some(winner))
    else if |exact| > 1 then Entry(RejectedAmbiguous, ranked, near, exact, None)
    else if ranked != [] then Entry(if near != [] then NearExactOnly else MismatchOnly, ranked, near, ranked, None)
    else Entry(NoCandidate, [], [], [], None)
  }

  function DiffersFrom(winner: Evaluation): Evaluation -> bool {
    (e: Evaluation) => e.candidate.marketId != winner.candidate.marketId
  }

  function Rank(evaluations: seq<Evaluation>, text: (string, string) -> bool): seq<Evaluation> {
    Sort(evaluations, RankOrder(text))
  }

  /** Every candidate that is judged has one evaluation for each time it is listed, with its judgement. */
  lemma {:induction false} EvaluationsMean(pool: seq<Candidate>, judge: Judge, e: Evaluation)
    ensures multiset(Evaluations(pool, judge))[e] == if judge(e.candidate) == Some(e.judgement) then multiset(pool)[e.candidate] else 0
    decreases |pool|
  {
    if pool != [] {
      var n := |pool| - 1;
      EvaluationsMean(pool[..n], judge, e);
      assert pool == pool[..n] + [pool[n]];
    }
  }

  /** The ranked list holds the evaluations, highest score first, those of one score by market id. */
  lemma RankMeans(evaluations: seq<Evaluation>, text: (string, string) -> bool)
    requires TotalOrder(text)
    ensures var ranked := Rank(evaluations, text);
      && multiset(ranked) == multiset(evaluations)
      && forall i, j :: 0 <= i < j < |ranked| ==>
           || ranked[i].judgement.score > ranked[j].judgement.score
           || (ranked[i].judgement.score == ranked[j].judgement.score && text(ranked[i].candidate.marketId, ranked[j].candidate.marketId))
  {
    RankPreorder(text);
    SortPermutes(evaluations, RankOrder(text));
    SortSorts(evaluations, RankOrder(text));
    var ranked, leq := Rank(evaluations, text), RankOrder(text);
    assert forall i, j :: 0 <= i < j < |ranked| ==> leq(ranked[i], ranked[j]);
  }

  method BuildEntry(pool: seq<Candidate>, judge: Judge, text: (string, string) -> bool) returns (entry: Entry)
    ensures entry == Decide(Rank(Evaluations(pool, judge), text))
  {
    var evaluations: seq<Evaluation> := [];
    for i := 0 to |pool|
      invariant evaluations == Evaluations(pool[..i], judge)
    {
      assert pool[..i + 1][..i] == pool[..i];
      if judge(pool[i]).None? {
        continue;
      }
      evaluations := evaluations + [Evaluation(pool[i], judge(pool[i]).value)];
    }
    assert pool[..|pool|] == pool;
    entry := Decide(Rank(evaluations, text));
  }

  // ----- One exact candidate, and only one -----

  /** An entry accepts a candidate exactly when one evaluation in all is exact, and then it accepts that one. */
  lemma AcceptsIffOneExact(evaluations: seq<Evaluation>, text: (string, string) -> bool)
    ensures var entry := Decide(Rank(evaluations, text));
      && (entry.accepted.Some? <==> |Filter(evaluations, IsExact)| == 1)
      && (entry.accepted.Some? ==> Filter(evaluations, IsExact) == [entry.accepted.value])
      && (entry.status.Accepted? <==> entry.accepted.Some?)
      && (entry.status.RejectedAmbiguous? <==> |Filter(evaluations, IsExact)| > 1)
      && (entry.status.NoCandidate? <==> evaluations == [])
      && StatusFits(entry, evaluations)
  {
    var ranked := Rank(evaluations, text);
    SortPermutes(evaluations, RankOrder(text));
    FilterPermutes(ranked, evaluations, IsExact);
    FilterMembers(ranked, IsExact);
    SingletonPermutes(Filter(ranked, IsExact), Filter(evaluations, IsExact));
    DecisionOn(ranked);
    assert forall e :: e in ranked <==> e in multiset(ranked);
    assert forall e :: e in evaluations <==> e in multiset(evaluations);
  }

  /** The listed near misses are the near-exact evaluations; the status repeats the accepted classification, or
      says whether a near miss is the best there is. */
  ghost predicate StatusFits(entry: Entry, evaluations: seq<Evaluation>) {
    && (forall e :: e in entry.nearMisses <==> e in evaluations && IsNear(e))
    && (entry.accepted.Some? ==> entry.status == Accepted(entry.accepted.value.judgement.classification))
    && (entry.status.NearExactOnly? <==>
          (forall e :: e in evaluations ==> !IsExact(e)) && exists e :: e in evaluations && IsNear(e))
  }

  lemma SingletonPermutes(a: seq<Evaluation>, b: seq<Evaluation>)
    requires multiset(a) == multiset(b) && |a| == |b|
    ensures |a| == 1 ==> a == b
  {
    if |a| == 1 {
      assert a[0] in multiset(b);
    }
  }

  lemma DecisionOn(ranked: seq<Evaluation>)
    ensures var entry, exact := Decide(ranked), Filter(ranked, IsExact);
      && entry.evaluations == ranked
      && (entry.accepted.Some? <==> |exact| == 1)
      && (entry.accepted.Some? ==> exact == [entry.accepted.value])
      && (entry.status.Accepted? <==> entry.accepted.Some?)
      && (entry.status.RejectedAmbiguous? <==> |exact| > 1)
      && (entry.status.NoCandidate? <==> ranked == [])
      && StatusFits(entry, ranked)
  {
    FilterMembers(ranked, IsExact);
    FilterMembers(ranked, IsNear);
    if Filter(ranked, IsNear) != [] {
      assert Filter(ranked, IsNear)[0] in ranked;
    }
    if Filter(ranked, IsExact) != [] {
      assert Filter(ranked, IsExact)[0] in ranked;
    }
  }

  /** The places of the exact evaluations. */
  ghost function ExactAt(evaluations: seq<Evaluation>): set<nat> {
    set i: nat | i < |evaluations| && evaluations[i].judgement.classification in {HistoricalExact, LiveOnlyExact}
  }

  lemma ExactGrow(evaluations: seq<Evaluation>)
    requires evaluations != []
    ensures |ExactAt(evaluations)| == |ExactAt(evaluations[..|evaluations| - 1])| + if IsExact(evaluations[|evaluations| - 1]) then 1 else 0
  {
    var n := |evaluations| - 1;
    assert ExactAt(evaluations) == ExactAt(evaluations[..n]) + if IsExact(evaluations[n]) then {n} else {};
  }

  lemma {:induction false} ExactCounted(evaluations: seq<Evaluation>)
    ensures |Filter(evaluations, IsExact)| == |ExactAt(evaluations)|
    decreases |evaluations|
  {
    if evaluations != [] {
      var n := |evaluations| - 1;
      ExactCounted(evaluations[..n]);
      ExactGrow(evaluations);
      FilterLast(evaluations[..n], evaluations[n], IsExact);
      assert evaluations == evaluations[..n] + [evaluations[n]];
    }
  }

  lemma ExactFound(evaluations: seq<Evaluation>)
    ensures forall i :: i in ExactAt(evaluations) ==> evaluations[i] in Filter(evaluations, IsExact)
    ensures ExactAt(evaluations) == {} <==> forall e :: e in evaluations ==> !IsExact(e)
  {
    FilterMembers(evaluations, IsExact);
    forall e | e in evaluations && IsExact(e) ensures ExactAt(evaluations) != {} {
      var i :| 0 <= i < |evaluations| && evaluations[i] == e;
      assert i in ExactAt(evaluations);
    }
  }

  /** The decision, by classifications: the one historical or live-only exact evaluation is accepted, and several are
      ambiguous. */
  lemma DecisionMeans(evaluations: seq<Evaluation>, text: (string, string) -> bool)
    ensures var entry := Decide(Rank(evaluations, text));
      && (entry.accepted.Some? <==> |ExactAt(evaluations)| == 1)
      && (forall i :: i in ExactAt(evaluations) && entry.accepted.Some? ==> entry.accepted.value == evaluations[i])
      && (entry.status.RejectedAmbiguous? <==> |ExactAt(evaluations)| > 1)
      && (entry.status.NearExactOnly? <==>
            ExactAt(evaluations) == {} && exists e :: e in evaluations && e.judgement.classification == NearExact)
  {
    AcceptsIffOneExact(evaluations, text);
    ExactCounted(evaluations);
    ExactFound(evaluations);
  }

  /** What is listed as rejected: beside an accepted evaluation those of other markets, the exact ones when ambiguous,
      and otherwise all. */
  lemma RejectedMeans(evaluations: seq<Evaluation>, text: (string, string) -> bool, e: Evaluation)
    ensures var entry := Decide(Rank(evaluations, text));
      e in entry.rejected <==> e in evaluations && match entry.status
        case Accepted(_) => entry.accepted.Some? && e.candidate.marketId != entry.accepted.value.candidate.marketId
        case RejectedAmbiguous => e.judgement.classification in {HistoricalExact, LiveOnlyExact}
        case _ => true
  {
    var ranked := Rank(evaluations, text);
    SortPermutes(evaluations, RankOrder(text));
    assert e in ranked <==> e in multiset(ranked);
    assert e in evaluations <==> e in multiset(evaluations);
    FilterMembers(ranked, IsExact);
    if |Filter(ranked, IsExact)| == 1 { FilterMembers(ranked, DiffersFrom(Filter(ranked, IsExact)[0])); }
  }

  predicate SameMarket(e: Evaluation, winner: Evaluation) {
    e.candidate.marketId == winner.candidate.marketId
  }

  /** Every evaluated candidate ends up accepted or rejected, once, unless another evaluation carries the accepted
      market's id (it is then neither) or the match is ambiguous and some evaluation is not exact. */
  lemma AllAccountedFor(evaluations: seq<Evaluation>, text: (string, string) -> bool)
    ensures var entry := Decide(Rank(evaluations, text));
      var out := entry.rejected + if entry.accepted.Some? then [entry.accepted.value] else [];
      multiset(out) == multiset(evaluations) <==>
        match entry.status
        case Accepted(_) => |Filter(evaluations, (e: Evaluation) => SameMarket(e, entry.accepted.value))| == 1
        case RejectedAmbiguous => forall e :: e in evaluations ==> IsExact(e)
        case _ => true
  {
    var ranked := Rank(evaluations, text);
    SortPermutes(evaluations, RankOrder(text));
    var entry := Decide(ranked);
    match entry.status
    case Accepted(_) => AcceptedAccount(evaluations, ranked);
    case RejectedAmbiguous => AmbiguousAccount(evaluations, ranked);
    case _ => assert ranked + [] == ranked;
  }

  lemma AmbiguousAccount(evaluations: seq<Evaluation>, ranked: seq<Evaluation>)
    requires multiset(ranked) == multiset(evaluations)
    ensures multiset(Filter(ranked, IsExact)) == multiset(evaluations) <==> forall e :: e in evaluations ==> IsExact(e)
    ensures Filter(ranked, IsExact) + [] == Filter(ranked, IsExact)
  {
    var exact := Filter(ranked, IsExact);
    forall e ensures multiset(exact)[e] == if IsExact(e) then multiset(evaluations)[e] else 0 {
      FilterKeeps(ranked, IsExact, e);
    }
    assert forall e :: e in evaluations <==> e in multiset(evaluations);
    if multiset(exact) == multiset(evaluations) {
      forall e | e in evaluations ensures IsExact(e) { assert multiset(exact)[e] > 0; }
    } else if forall e :: e in evaluations ==> IsExact(e) {
      assert forall e :: multiset(exact)[e] == multiset(evaluations)[e];
    }
  }

  lemma AcceptedAccount(evaluations: seq<Evaluation>, ranked: seq<Evaluation>)
    requires multiset(ranked) == multiset(evaluations) && |Filter(ranked, IsExact)| == 1
    ensures var winner := Filter(ranked, IsExact)[0];
      multiset(Filter(ranked, DiffersFrom(winner)) + [winner]) == multiset(evaluations)
      <==> |Filter(evaluations, (e: Evaluation) => SameMarket(e, winner))| == 1
  {
    var winner := Filter(ranked, IsExact)[0];
    var same := (e: Evaluation) => SameMarket(e, winner);
    var rejected, namesakes := Filter(ranked, DiffersFrom(winner)), Filter(evaluations, same);
    WinnerHasNamesake(evaluations, ranked, winner, namesakes);
    forall e ensures (multiset(rejected) + multiset(namesakes))[e] == multiset(evaluations)[e] {
      FilterKeeps(ranked, DiffersFrom(winner), e);
      FilterKeeps(evaluations, same, e);
    }
    assert multiset(rejected) + multiset(namesakes) == multiset(evaluations);
    SwapRest(rejected, namesakes, winner, multiset(evaluations));
  }

  lemma WinnerHasNamesake(evaluations: seq<Evaluation>, ranked: seq<Evaluation>, winner: Evaluation, namesakes: seq<Evaluation>)
    requires multiset(ranked) == multiset(evaluations) && winner in Filter(ranked, IsExact)
    requires namesakes == Filter(evaluations, (e: Evaluation) => SameMarket(e, winner))
    ensures winner in namesakes
  {
    FilterMembers(ranked, IsExact);
    assert winner in multiset(ranked);
    FilterMembers(evaluations, (e: Evaluation) => SameMarket(e, winner));
  }

  lemma SwapRest(rejected: seq<Evaluation>, namesakes: seq<Evaluation>, winner: Evaluation, all: multiset<Evaluation>)
    requires multiset(rejected) + multiset(namesakes) == all && winner in namesakes
    ensures multiset(rejected + [winner]) == all <==> |namesakes| == 1
  {
    assert multiset(rejected + [winner]) == multiset(rejected) + multiset([winner]);
    assert |multiset(rejected) + multiset(namesakes)| == |rejected| + |namesakes|;
    assert |multiset(rejected) + multiset([winner])| == |rejected| + 1;
    if |namesakes| == 1 { assert namesakes == [winner]; }
  }

  lemma FilterPair(a: Evaluation, b: Evaluation, keep: Evaluation -> bool)
    ensures Filter([a, b], keep) == (if keep(a) then [a] else []) + (if keep(b) then [b] else [])
  {
    FilterFirst(a, [b], keep);
    FilterFirst(b, [], keep);
    assert [a, b] == [a] + [b] && [b] == [b] + [];
  }

  /** Two evaluations of one market, one of them exact: the other one is neither accepted nor rejected. */
  lemma NamesakeIsLost(a: Evaluation, b: Evaluation, text: (string, string) -> bool)
    requires IsExact(a) && !IsExact(b) && SameMarket(b, a)
    ensures var entry := Decide(Rank([a, b], text));
      entry.accepted == Some(a) && multiset(entry.rejected + [a]) != multiset([a, b])
  {
    var same := (e: Evaluation) => SameMarket(e, a);
    FilterPair(a, b, IsExact);
    FilterPair(a, b, same);
    AcceptsIffOneExact([a, b], text);
    AllAccountedFor([a, b], text);
  }

  /** Two exact evaluations and an inexact one: the inexact one is not rejected. */
  lemma AmbiguityDropsInexact(a: Evaluation, b: Evaluation, c: Evaluation, text: (string, string) -> bool)
    requires IsExact(a) && IsExact(b) && !IsExact(c)
    ensures var entry := Decide(Rank([a, b, c], text));
      entry.status.RejectedAmbiguous? && multiset(entry.rejected) != multiset([a, b, c])
  {
    var all := [a, b, c];
    FilterPair(b, c, IsExact);
    FilterFirst(a, [b, c], IsExact);
    assert all == [a] + [b, c];
    AcceptsIffOneExact(all, text);
    AllAccountedFor(all, text);
    assert c in all;
    var entry := Decide(Rank(all, text));
    assert entry.rejected + [] == entry.rejected;
  }

  // ----- The order of the inventory does not matter -----

  /** No two different candidates share both id and title. */
  ghost predicate ListedOnce(candidates: seq<Candidate>) {
    forall a, b :: a in candidates && b in candidates && SameListing(a, b) ==> a == b
  }

  /** The pool, and with it the whole entry, depends on the candidates and not on the order they were listed in. */
  lemma InventoryOrderIrrelevant(a: seq<Candidate>, b: seq<Candidate>, category: string, text: (string, string) -> bool)
    requires TotalOrder(text) && multiset(a) == multiset(b) && ListedOnce(a)
    ensures CandidatePool(a, category, text) == CandidatePool(b, category, text)
  {
    var keep := (c: Candidate) => c.category == category;
    FilterPermutes(a, b, keep);
    FilterMembers(a, keep);
    PoolPreorder(text);
    SortIgnoresOrder(Filter(a, keep), Filter(b, keep), PoolOrder(text));
  }

  ghost predicate DistinctMarkets(evaluations: seq<Evaluation>) {
    forall a, b :: a in evaluations && b in evaluations && a.candidate.marketId == b.candidate.marketId ==> a == b
  }

  /** With one evaluation per market, the ranking and the decision do not depend on evaluation order. */
  lemma EvaluationOrderIrrelevant(a: seq<Evaluation>, b: seq<Evaluation>, text: (string, string) -> bool)
    requires TotalOrder(text) && multiset(a) == multiset(b) && DistinctMarkets(a)
    ensures Decide(Rank(a, text)) == Decide(Rank(b, text))
  {
    RankPreorder(text);
    SortIgnoresOrder(a, b, RankOrder(text));
  }

  // ----- Counts over all entries -----

  /** The three figures logged at the end partition the entries; the accepted one counts accepted candidates. */
  lemma CountsPartition(entries: seq<Entry>)
    requires forall i :: 0 <= i < |entries| ==> exists ranked :: entries[i] == Decide(ranked)
    ensures var accepted := Filter(entries, (e: Entry) => e.status.Accepted?);
      var unresolved := Filter(entries, (e: Entry) => e.status.NoCandidate?);
      var rejected := Filter(entries, (e: Entry) => !e.status.Accepted? && !e.status.NoCandidate?);
      && |accepted| + |unresolved| + |rejected| == |entries|
      && (forall e :: e in accepted <==> e in entries && e.accepted.Some?)
      && (forall e :: e in unresolved <==> e in entries && e.evaluations == [])
  {
    FilterMembers(entries, (e: Entry) => e.status.Accepted?);
    FilterMembers(entries, (e: Entry) => e.status.NoCandidate?);
    ThreeWays(entries);
  }

  lemma {:induction false} ThreeWays(entries: seq<Entry>)
    ensures |Filter(entries, (e: Entry) => e.status.Accepted?)| + |Filter(entries, (e: Entry) => e.status.NoCandidate?)|
         + |Filter(entries, (e: Entry) => !e.status.Accepted? && !e.status.NoCandidate?)| == |entries|
  {
    if entries != [] { ThreeWays(entries[1..]); }
  }
}
