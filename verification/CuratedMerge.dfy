/** Merging curated markets by key (scripts/admin/seed-frontend-curated-markets.ts). */
module CuratedMerge {
  import opened Wrappers
  import opened Sequences
  import opened Sorting

  /** `evidence` is the length of the evidence list; `details` stands for the other fields. */
  datatype Market = Market(key: string, category: string, evidence: nat, details: string)

  /** The later of two markets replaces the earlier one only with strictly more evidence. */
  function Better(a: Option<Market>, b: Option<Market>): Option<Market> {
    if a.None? || (b.Some? && b.value.evidence > a.value.evidence) then b else a
  }

  /** What the Map holds under a key after the loop. */
  function Kept(markets: seq<Market>, key: string): Option<Market> {
    if markets == [] then None
    else
      var last := markets[|markets| - 1];
      Better(Kept(markets[..|markets| - 1], key), if last.key == key then Some(last) else None)
  }

  function OutputOrder(text: (string, string) -> bool): (Market, Market) -> bool {
    (a: Market, b: Market) => if a.category == b.category then text(a.key, b.key) else text(a.category, b.category)
  }

  lemma OutputPreorder(text: (string, string) -> bool)
    requires TotalOrder(text)
    ensures TotalPreorder(OutputOrder(text))
  {
    var leq := OutputOrder(text);
    forall a, b ensures leq(a, b) || leq(b, a) {
      assert text(a.key, b.key) || text(b.key, a.key);
      assert text(a.category, b.category) || text(b.category, a.category);
    }
    forall a, b, c | leq(a, b) && leq(b, c) ensures leq(a, c) {
      if a.category == b.category == c.category {
        assert text(a.key, b.key) && text(b.key, c.key);
      } else if a.category != b.category && b.category != c.category {
        assert text(a.category, b.category) && text(b.category, c.category);
      }
    }
  }

  // ----- The kept market is the earliest one with the most evidence -----

  ghost predicate Candidate(markets: seq<Market>, key: string, i: int) {
    0 <= i < |markets| && markets[i].key == key
  }

  ghost predicate EarliestBest(markets: seq<Market>, key: string, i: int) {
    && Candidate(markets, key, i)
    && (forall j :: Candidate(markets, key, j) ==> markets[j].evidence <= markets[i].evidence)
    && (forall j :: Candidate(markets, key, j) && j < i ==> markets[j].evidence < markets[i].evidence)
  }

  lemma {:induction false} KeptIsEarliestBest(markets: seq<Market>, key: string)
    ensures KeptMatches(markets, key, Kept(markets, key))
  {
    if markets != [] {
      var n := |markets| - 1;
      KeptIsEarliestBest(markets[..n], key);
      KeptMatchesStep(markets, key, Kept(markets[..n], key));
    }
  }

  ghost predicate KeptMatches(markets: seq<Market>, key: string, kept: Option<Market>) {
    match kept
    case None => forall i :: !Candidate(markets, key, i)
    case Some(m) => exists i :: EarliestBest(markets, key, i) && markets[i] == m
  }

  lemma KeptMatchesStep(markets: seq<Market>, key: string, before: Option<Market>)
    requires markets != [] && KeptMatches(markets[..|markets| - 1], key, before)
    ensures var last := markets[|markets| - 1];
      KeptMatches(markets, key, Better(before, if last.key == key then Some(last) else None))
  {
    var n := |markets| - 1;
    var front, last := markets[..n], markets[n];
    assert forall i :: 0 <= i < n ==> markets[i] == front[i];
    assert forall i :: i != n ==> (Candidate(front, key, i) <==> Candidate(markets, key, i));
    if before.Some? {
      var i :| EarliestBest(front, key, i) && front[i] == before.value;
      if last.key == key && last.evidence > before.value.evidence {
        assert EarliestBest(markets, key, n);
      } else {
        assert EarliestBest(markets, key, i);
      }
    } else if last.key == key {
      assert EarliestBest(markets, key, n);
    }
  }

  // ----- What a merge returns -----

  ghost predicate IsMerge(result: seq<Market>, markets: seq<Market>, text: (string, string) -> bool) {
    && Sorted(result, OutputOrder(text))
    && (forall i, j :: 0 <= i < j < |result| ==> result[i].key != result[j].key)
    && (forall m :: m in result <==> Kept(markets, m.key) == Some(m))
  }

  /** A merge is determined by what is kept per key; the order of the Map does not show. */
  lemma MergeUnique(a: seq<Market>, b: seq<Market>, markets: seq<Market>, text: (string, string) -> bool)
    requires TotalOrder(text) && IsMerge(a, markets, text) && IsMerge(b, markets, text)
    ensures a == b
  {
    OutputPreorder(text);
    forall i, j | 0 <= i < j < |a| ensures a[i] != a[j] { assert a[i].key != a[j].key; }
    forall i, j | 0 <= i < j < |b| ensures b[i] != b[j] { assert b[i].key != b[j].key; }
    SameElements(a, b);
    SortedUnique(a, b, OutputOrder(text));
  }

  // ----- The loop over a Map, then the sort -----

  method MergeCuratedMarkets(markets: seq<Market>, text: (string, string) -> bool) returns (merged: seq<Market>)
    requires TotalOrder(text)
    ensures IsMerge(merged, markets, text)
  {
    var byKey: map<string, Market> := map[];
    var order: seq<string> := [];
    for i := 0 to |markets|
      invariant forall k :: Kept(markets[..i], k) == if k in byKey then Some(byKey[k]) else None
      invariant forall k :: k in byKey ==> byKey[k].key == k
      invariant forall k :: k in order <==> k in byKey
      invariant forall x, y :: 0 <= x < y < |order| ==> order[x] != order[y]
    {
      var market := markets[i];
      assert markets[..i + 1][..i] == markets[..i];
      if market.key !in byKey {
        order := order + [market.key];
        byKey := byKey[market.key := market];
      } else if market.evidence > byKey[market.key].evidence {
        byKey := byKey[market.key := market];
      }
    }
    assert markets[..|markets|] == markets;
    var values := seq(|order|, i requires 0 <= i < |order| && order[i] in byKey => byKey[order[i]]);
    merged := Sort(values, OutputOrder(text));
    ValuesMerge(markets, values, order, byKey, text);
  }

  lemma ValuesMerge(markets: seq<Market>, values: seq<Market>, order: seq<string>, byKey: map<string, Market>, text: (string, string) -> bool)
    requires TotalOrder(text) && |values| == |order|
    requires forall k :: Kept(markets, k) == if k in byKey then Some(byKey[k]) else None
    requires forall k :: k in byKey ==> byKey[k].key == k
    requires forall k :: k in order <==> k in byKey
    requires forall x, y :: 0 <= x < y < |order| ==> order[x] != order[y]
    requires forall i :: 0 <= i < |order| ==> order[i] in byKey && values[i] == byKey[order[i]]
    ensures IsMerge(Sort(values, OutputOrder(text)), markets, text)
  {
    var leq := OutputOrder(text);
    var merged := Sort(values, leq);
    OutputPreorder(text);
    SortPermutes(values, leq);
    SortSorts(values, leq);
    forall m ensures m in merged <==> Kept(markets, m.key) == Some(m) {
      assert m in merged <==> m in multiset(merged);
      assert m in values <==> m in multiset(values);
      if Kept(markets, m.key) == Some(m) {
        var i :| 0 <= i < |order| && order[i] == m.key;
        assert values[i] == m;
      }
    }
    forall i, j | 0 <= i < j < |values| ensures values[i] != values[j] { assert order[i] != order[j]; }
    NoRepeatsPermutes(values, merged);
    forall i, j | 0 <= i < j < |merged| ensures merged[i].key != merged[j].key {
      assert merged[i] in merged && merged[j] in merged;
    }
  }

  // ----- Merging in parts -----

  lemma {:induction false} KeptConcat(a: seq<Market>, b: seq<Market>, key: string)
    ensures Kept(a + b, key) == Better(Kept(a, key), Kept(b, key))
    decreases |b|
  {
    if b == [] {
      assert a + b == a;
    } else {
      KeptConcat(a, b[..|b| - 1], key);
      assert (a + b)[..|a + b| - 1] == a + b[..|b| - 1];
    }
  }

  /** Merging again keeps the same markets. */
  lemma KeptOfMerge(merged: seq<Market>, markets: seq<Market>, text: (string, string) -> bool, key: string)
    requires IsMerge(merged, markets, text)
    ensures Kept(merged, key) == Kept(markets, key)
  {
    KeptKey(markets, key);
    if Kept(markets, key).Some? {
      var m := Kept(markets, key).value;
      assert m in merged;
      var i :| 0 <= i < |merged| && merged[i] == m;
      assert Candidate(merged, key, i);
    }
    KeptIsEarliestBest(merged, key);
    if Kept(merged, key).Some? {
      var i :| EarliestBest(merged, key, i) && merged[i] == Kept(merged, key).value;
      assert merged[i] in merged;
    }
  }

  lemma KeptKey(markets: seq<Market>, key: string)
    ensures Kept(markets, key).Some? ==> Kept(markets, key).value.key == key
  {
    KeptIsEarliestBest(markets, key);
  }

  /** merge(merge(a) + b), merge(a + merge(b)) and merge(a + b) are the same list. */
  lemma MergeInParts(a: seq<Market>, b: seq<Market>, text: (string, string) -> bool,
                     mergedA: seq<Market>, mergedB: seq<Market>, left: seq<Market>, right: seq<Market>, whole: seq<Market>)
    requires TotalOrder(text) && IsMerge(mergedA, a, text) && IsMerge(mergedB, b, text)
    requires IsMerge(left, mergedA + b, text) && IsMerge(right, a + mergedB, text) && IsMerge(whole, a + b, text)
    ensures left == whole == right
  {
    forall k ensures Kept(mergedA + b, k) == Kept(a + b, k) == Kept(a + mergedB, k) {
      KeptOfMerge(mergedA, a, text, k);
      KeptOfMerge(mergedB, b, text, k);
      KeptConcat(mergedA, b, k);
      KeptConcat(a, b, k);
      KeptConcat(a, mergedB, k);
    }
    assert IsMerge(left, a + b, text) && IsMerge(right, a + b, text);
    MergeUnique(left, whole, a + b, text);
    MergeUnique(right, whole, a + b, text);
  }

  function Keys(markets: seq<Market>): set<string> {
    set m | m in markets :: m.key
  }

  lemma KeptOfKey(markets: seq<Market>, key: string)
    ensures Kept(markets, key).Some? <==> key in Keys(markets)
  {
    KeptIsEarliestBest(markets, key);
    if Kept(markets, key).Some? {
      var i :| EarliestBest(markets, key, i) && markets[i] == Kept(markets, key).value;
      assert markets[i] in markets;
    } else {
      forall m | m in markets ensures m.key != key {
        var i :| 0 <= i < |markets| && markets[i] == m;
        assert !Candidate(markets, key, i);
      }
    }
  }

  /** The output goes by category, within a category by key. */
  lemma MergeOrder(merged: seq<Market>, markets: seq<Market>, text: (string, string) -> bool)
    requires IsMerge(merged, markets, text)
    ensures forall i, j :: 0 <= i < j < |merged| ==>
      if merged[i].category == merged[j].category then text(merged[i].key, merged[j].key) else text(merged[i].category, merged[j].category)
  {
    var leq := OutputOrder(text);
    assert forall i, j :: 0 <= i < j < |merged| ==> leq(merged[i], merged[j]);
  }

  /** The keys of the output are those of the input, once each, with the earliest market of most evidence. */
  lemma MergeKeepsKeys(merged: seq<Market>, markets: seq<Market>, text: (string, string) -> bool)
    requires IsMerge(merged, markets, text)
    ensures Keys(merged) == Keys(markets) && |merged| == |Keys(markets)|
    ensures forall m :: m in merged ==> exists i ::
      (0 <= i < |markets| && markets[i] == m && forall j :: 0 <= j < |markets| && markets[j].key == m.key ==>
         markets[j].evidence <= m.evidence && (j < i ==> markets[j].evidence < m.evidence))
  {
    forall key ensures key in Keys(merged) <==> key in Keys(markets) {
      KeptOfMerge(merged, markets, text, key);
      KeptOfKey(merged, key);
      KeptOfKey(markets, key);
    }
    OneMarketPerKey(merged);
    forall m | m in merged
      ensures exists i ::
        (0 <= i < |markets| && markets[i] == m && forall j :: 0 <= j < |markets| && markets[j].key == m.key ==>
           markets[j].evidence <= m.evidence && (j < i ==> markets[j].evidence < m.evidence))
    {
      KeptIsEarliestBest(markets, m.key);
      var i :| EarliestBest(markets, m.key, i) && markets[i] == m;
      assert forall j :: 0 <= j < |markets| && markets[j].key == m.key ==> Candidate(markets, m.key, j);
    }
  }

  lemma {:induction false} OneMarketPerKey(markets: seq<Market>)
    requires forall i, j :: 0 <= i < j < |markets| ==> markets[i].key != markets[j].key
    ensures |markets| == |Keys(markets)|
  {
    if markets != [] {
      var n := |markets| - 1;
      OneMarketPerKey(markets[..n]);
      assert markets == markets[..n] + [markets[n]];
      assert Keys(markets) == Keys(markets[..n]) + {markets[n].key};
    }
  }
}
