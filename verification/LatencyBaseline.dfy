/** Nearest-rank percentiles, grouped summaries and rankings of latency samples
    (scripts/reports/report-latency-baseline.ts). */
module LatencyBaseline {
  import opened Wrappers
  import opened Arithmetic
  import opened Sequences
  import opened Sorting

  // ----- Percentiles -----

  function RealLeq(): (real, real) -> bool {
    (a: real, b: real) => a <= b
  }

  lemma RealOrder()
    ensures TotalOrder(RealLeq())
  {
  }

  /** `Math.round(value * 1000) / 1000`: Math.round rounds halves up. */
  function Round(value: real): real {
    (value * 1000.0 + 0.5).Floor as real / 1000.0
  }

  /** The result is the thousandth nearest to the value, the upper one of two equally near. */
  lemma RoundNear(value: real)
    ensures -0.0005 < Round(value) - value <= 0.0005
    ensures (Round(value) * 1000.0).Floor as real == Round(value) * 1000.0
  {
    assert Round(value) * 1000.0 == (value * 1000.0 + 0.5).Floor as real;
  }

  lemma RoundMonotone(a: real, b: real)
    requires a <= b
    ensures Round(a) <= Round(b)
  {
    FloorMonotone(a * 1000.0 + 0.5, b * 1000.0 + 0.5);
  }

  lemma FloorMonotone(x: real, y: real)
    requires x <= y
    ensures x.Floor <= y.Floor
  {
    assert x.Floor as real <= x && y < y.Floor as real + 1.0;
  }

  /** A percentile as a fraction. */
  datatype Percent = Percent(num: nat, den: nat)

  const P50 := Percent(50, 100)
  const P95 := Percent(95, 100)
  const P99 := Percent(99, 100)

  ghost predicate InUnit(p: Percent) {
    0 < p.num <= p.den
  }

  /** `Math.ceil(n * p)` */
  function CeilOf(n: nat, p: Percent): nat
    requires p.den > 0
  {
    (n * p.num + p.den - 1) / p.den
  }

  function Clamp(index: int, n: nat): nat
    requires n > 0
  {
    if index < 0 then 0 else if index < n then index else n - 1
  }

  function PercentileIndex(n: nat, p: Percent): nat
    requires n > 0 && p.den > 0
  {
    Clamp(CeilOf(n, p) - 1, n)
  }

  function Percentile(sorted: seq<real>, p: Percent): Option<real>
    requires p.den > 0
  {
    if sorted == [] then None else Some(Round(sorted[PercentileIndex(|sorted|, p)]))
  }

  lemma CeilBounds(n: nat, p: Percent)
    requires n > 0 && InUnit(p)
    ensures 1 <= CeilOf(n, p) <= n
    ensures CeilOf(n, p) * p.den >= n * p.num > (CeilOf(n, p) - 1) * p.den
  {
    var m := n * p.num + p.den - 1;
    MulMonotone(1, n, p.num);
    MulCommutes(n, p.num);
    MulMonotone(p.num, p.den, n);
    MulCommutes(n, p.den);
    DivBounds(m, p.den);
    MulSuccessor(n, p.den);
    DivAtMost(m, p.den, n);
    DivAtLeast(m, p.den, 1);
    var c := CeilOf(n, p);
    MulSuccessor(c - 1, p.den);
  }

  function CountAtMost(s: seq<real>, v: real): nat {
    if s == [] then 0 else (if s[0] <= v then 1 else 0) + CountAtMost(s[1..], v)
  }

  function CountAtLeast(s: seq<real>, v: real): nat {
    if s == [] then 0 else (if s[0] >= v then 1 else 0) + CountAtLeast(s[1..], v)
  }

  lemma {:induction false} CountsConcat(a: seq<real>, b: seq<real>, v: real)
    ensures CountAtMost(a + b, v) == CountAtMost(a, v) + CountAtMost(b, v)
    ensures CountAtLeast(a + b, v) == CountAtLeast(a, v) + CountAtLeast(b, v)
    decreases |a|
  {
    if a == [] {
      assert a + b == b;
    } else {
      CountsConcat(a[1..], b, v);
      assert (a + b)[1..] == a[1..] + b;
    }
  }

  lemma {:induction false} CountsInsert(x: real, s: seq<real>, v: real)
    ensures CountAtMost(Insert(x, s, RealLeq()), v) == CountAtMost([x] + s, v)
    ensures CountAtLeast(Insert(x, s, RealLeq()), v) == CountAtLeast([x] + s, v)
    decreases |s|
  {
    assert ([x] + s)[1..] == s;
    if s != [] && !(x <= s[0]) {
      CountsInsert(x, s[1..], v);
      assert ([x] + s[1..])[1..] == s[1..];
    }
  }

  lemma {:induction false} CountsSort(s: seq<real>, v: real)
    ensures CountAtMost(Sort(s, RealLeq()), v) == CountAtMost(s, v)
    ensures CountAtLeast(Sort(s, RealLeq()), v) == CountAtLeast(s, v)
    decreases |s|
  {
    if s != [] {
      CountsSort(s[1..], v);
      CountsInsert(s[0], Sort(s[1..], RealLeq()), v);
      assert ([s[0]] + Sort(s[1..], RealLeq()))[1..] == Sort(s[1..], RealLeq());
    }
  }

  lemma {:induction false} AllAtMost(s: seq<real>, v: real)
    requires forall i :: 0 <= i < |s| ==> s[i] <= v
    ensures CountAtMost(s, v) == |s|
  {
    if s != [] { AllAtMost(s[1..], v); }
  }

  lemma {:induction false} AllAtLeast(s: seq<real>, v: real)
    requires forall i :: 0 <= i < |s| ==> s[i] >= v
    ensures CountAtLeast(s, v) == |s|
  {
    if s != [] { AllAtLeast(s[1..], v); }
  }

  /** In a sorted list, entry `k` has at least k + 1 entries at or below it and n - k at or above. */
  lemma SortedRank(sorted: seq<real>, k: nat)
    requires Sorted(sorted, RealLeq()) && k < |sorted|
    ensures CountAtMost(sorted, sorted[k]) >= k + 1 && CountAtLeast(sorted, sorted[k]) >= |sorted| - k
  {
    var v := sorted[k];
    assert sorted == sorted[..k + 1] + sorted[k + 1..] && sorted == sorted[..k] + sorted[k..];
    CountsConcat(sorted[..k + 1], sorted[k + 1..], v);
    CountsConcat(sorted[..k], sorted[k..], v);
    AllAtMost(sorted[..k + 1], v);
    AllAtLeast(sorted[k..], v);
  }

  /** Nearest rank: before rounding, the percentile is a sample with at least ceil(n p) samples at or below it
      and at least n - ceil(n p) + 1 at or above. */
  lemma NearestRank(values: seq<real>, p: Percent)
    requires values != [] && InUnit(p)
    ensures var n, sorted := |values|, Sort(values, RealLeq());
      && |sorted| == n
      && var v := sorted[PercentileIndex(n, p)];
      && v in values && Percentile(sorted, p) == Some(Round(v))
      && CountAtMost(values, v) >= CeilOf(n, p)
      && CountAtLeast(values, v) >= n - CeilOf(n, p) + 1
  {
    var n, sorted := |values|, Sort(values, RealLeq());
    SortPermutes(values, RealLeq());
    RealOrder();
    SortSorts(values, RealLeq());
    CeilBounds(n, p);
    var k := PercentileIndex(n, p);
    SortedRank(sorted, k);
    CountsSort(values, sorted[k]);
    assert sorted[k] in multiset(sorted);
    assert sorted[k] in multiset(values);
  }

  // ----- One summary -----

  /** A sample value: None when it is not finite. */
  type Duration = Option<real>

  function Finite(values: seq<Duration>): seq<real> {
    if values == [] then []
    else (if values[0].Some? then [values[0].value] else []) + Finite(values[1..])
  }

  datatype Summary = Summary(count: nat, p50: Option<real>, p95: Option<real>, p99: Option<real>, max: Option<real>)

  function Summarize(values: seq<Duration>): Summary {
    var sorted := Sort(Finite(values), RealLeq());
    Summary(|sorted|, Percentile(sorted, P50), Percentile(sorted, P95), Percentile(sorted, P99),
            if sorted == [] then None else Some(Round(sorted[|sorted| - 1])))
  }

  lemma CeilMonotone(n: nat, p: Percent, q: Percent)
    requires p.den == q.den > 0 && p.num <= q.num
    ensures CeilOf(n, p) <= CeilOf(n, q)
  {
    MulMonotone(p.num, q.num, n);
    MulCommutes(n, p.num);
    MulCommutes(n, q.num);
    var a, b := n * p.num + p.den - 1, n * q.num + q.den - 1;
    DivBounds(a, p.den);
    DivAtLeast(b, q.den, a / p.den);
  }

  lemma PercentilesOrdered(sorted: seq<real>, p: Percent, q: Percent)
    requires Sorted(sorted, RealLeq()) && sorted != [] && p.den == q.den > 0 && p.num <= q.num
    ensures Percentile(sorted, p).value <= Percentile(sorted, q).value <= Round(sorted[|sorted| - 1])
  {
    var n := |sorted|;
    CeilMonotone(n, p, q);
    var i, j := PercentileIndex(n, p), PercentileIndex(n, q);
    assert i == j || RealLeq()(sorted[i], sorted[j]);
    assert j == n - 1 || RealLeq()(sorted[j], sorted[n - 1]);
    RoundMonotone(sorted[i], sorted[j]);
    RoundMonotone(sorted[j], sorted[n - 1]);
  }

  /** The figures of a summary: all or none are present, they are ordered after rounding, and the maximum is
      the rounded largest sample. */
  lemma SummaryOrdered(values: seq<Duration>)
    ensures var s := Summarize(values);
      && s.count == |Finite(values)|
      && (s.count == 0 <==> s.p50.None?) && (s.count == 0 <==> s.p95.None?)
      && (s.count == 0 <==> s.p99.None?) && (s.count == 0 <==> s.max.None?)
      && (s.count > 0 ==> s.p50.value <= s.p95.value <= s.p99.value <= s.max.value)
      && (s.count > 0 ==> exists m :: m in Finite(values) && s.max.value == Round(m) && forall v :: v in Finite(values) ==> v <= m)
  {
    var finite := Finite(values);
    var sorted := Sort(finite, RealLeq());
    SortPermutes(finite, RealLeq());
    RealOrder();
    SortSorts(finite, RealLeq());
    if sorted != [] {
      PercentilesOrdered(sorted, P50, P95);
      PercentilesOrdered(sorted, P95, P99);
      LastIsLargest(finite, sorted);
    }
  }

  lemma LastIsLargest(finite: seq<real>, sorted: seq<real>)
    requires sorted != [] && Sorted(sorted, RealLeq()) && multiset(sorted) == multiset(finite)
    ensures var m := sorted[|sorted| - 1]; m in finite && forall v :: v in finite ==> v <= m
  {
    var m := sorted[|sorted| - 1];
    assert m in multiset(finite);
    forall v | v in finite ensures v <= m {
      assert v in multiset(sorted);
      var i :| 0 <= i < |sorted| && sorted[i] == v;
      assert i == |sorted| - 1 || RealLeq()(sorted[i], m);
    }
  }

  /** The entries at or below `v`. */
  ghost function AtMost(s: seq<real>, v: real): set<nat> {
    set i: nat | i < |s| && s[i] <= v
  }

  /** The entries below `v`. */
  ghost function Below(s: seq<real>, v: real): set<nat> {
    set i: nat | i < |s| && s[i] < v
  }

  lemma SizesGrow(s: seq<real>, v: real)
    requires s != []
    ensures var n := |s| - 1;
      && |AtMost(s, v)| == |AtMost(s[..n], v)| + (if s[n] <= v then 1 else 0)
      && |Below(s, v)| == |Below(s[..n], v)| + (if s[n] < v then 1 else 0)
  {
    var n := |s| - 1;
    assert AtMost(s, v) == AtMost(s[..n], v) + if s[n] <= v then {n} else {};
    assert Below(s, v) == Below(s[..n], v) + if s[n] < v then {n} else {};
  }

  lemma {:induction false} CountsAreSizes(s: seq<real>, v: real)
    ensures CountAtMost(s, v) == |AtMost(s, v)| && CountAtLeast(s, v) == |s| - |Below(s, v)|
    decreases |s|
  {
    if s != [] {
      var n := |s| - 1;
      CountsAreSizes(s[..n], v);
      CountsConcat(s[..n], [s[n]], v);
      assert s == s[..n] + [s[n]];
      SizesGrow(s, v);
    }
  }

  /** `figure` is a rounded sample with at least `percent` in a hundred samples at or below it and fewer below it. */
  ghost predicate HasRank(figure: Option<real>, finite: seq<real>, percent: nat) {
    exists v :: v in finite && figure == Some(Round(v))
      && 100 * |AtMost(finite, v)| >= percent * |finite| > 100 * |Below(finite, v)|
  }

  lemma FigureHasRank(finite: seq<real>, percent: nat)
    requires finite != [] && 0 < percent <= 100
    ensures HasRank(Percentile(Sort(finite, RealLeq()), Percent(percent, 100)), finite, percent)
  {
    var p := Percent(percent, 100);
    NearestRank(finite, p);
    CeilBounds(|finite|, p);
    var v := Sort(finite, RealLeq())[PercentileIndex(|finite|, p)];
    CountsAreSizes(finite, v);
    MulCommutes(|finite|, percent);
    assert v in finite && 100 * |AtMost(finite, v)| >= percent * |finite| > 100 * |Below(finite, v)|;
  }

  /** Each figure of a summary is the sample of its own rank. */
  lemma SummaryRanks(values: seq<Duration>)
    requires Finite(values) != []
    ensures var s := Summarize(values);
      HasRank(s.p50, Finite(values), 50) && HasRank(s.p95, Finite(values), 95) && HasRank(s.p99, Finite(values), 99)
  {
    FigureHasRank(Finite(values), 50);
    FigureHasRank(Finite(values), 95);
    FigureHasRank(Finite(values), 99);
  }

  // ----- Groups -----

  /** A sample and the key it is grouped by; a missing or empty key leaves the sample out. */
  datatype Sample = Sample(key: Option<string>, duration: Duration)

  predicate HasKey(s: Sample, key: string) {
    key != "" && s.key == Some(key)
  }

  function KeyedValues(samples: seq<Sample>, key: string): seq<Duration> {
    if samples == [] then []
    else
      var init, last := KeyedValues(samples[..|samples| - 1], key), samples[|samples| - 1];
      if HasKey(last, key) then init + [last.duration] else init
  }

  function SampleKeys(samples: seq<Sample>): set<string> {
    set i | 0 <= i < |samples| && samples[i].key.GetOr("") != "" :: samples[i].key.value
  }

  function Summaries(samples: seq<Sample>): map<string, Summary> {
    map k | k in SampleKeys(samples) :: Summarize(KeyedValues(samples, k))
  }

  /** The Map filled by the loop, summarized key by key. */
  method SummarizeBy(samples: seq<Sample>) returns (groups: map<string, Summary>)
    ensures groups == Summaries(samples)
  {
    var values: map<string, seq<Duration>> := map[];
    for i := 0 to |samples|
      invariant values == Grouped(samples[..i])
    {
      var s := samples[i];
      GroupedStep(samples, i);
      if s.key.GetOr("") == "" {
        continue;
      }
      values := values[s.key.value := (if s.key.value in values then values[s.key.value] else []) + [s.duration]];
    }
    assert samples[..|samples|] == samples;
    SummariesOfGroups(samples);
    groups := SummarizeAll(values);
  }

  /** The samples of a key that lasted `x`. */
  ghost function SamplesOf(samples: seq<Sample>, key: string, x: real): set<nat> {
    set i: nat | i < |samples| && samples[i].key == Some(key) && samples[i].duration == Some(x)
  }

  /** A group exists for every key that is not empty, and holds each finite duration as often as the key's samples do. */
  lemma SummariesMean(samples: seq<Sample>, key: string)
    ensures key in Summaries(samples) <==> key != "" && exists i :: 0 <= i < |samples| && samples[i].key == Some(key)
    ensures key in Summaries(samples) ==> Summaries(samples)[key] == Summarize(KeyedValues(samples, key))
    ensures key != "" ==> forall x :: multiset(Finite(KeyedValues(samples, key)))[x] == |SamplesOf(samples, key, x)|
  {
    if key != "" {
      forall x ensures multiset(Finite(KeyedValues(samples, key)))[x] == |SamplesOf(samples, key, x)| { ValuesCounted(samples, key, x); }
    }
    forall i | 0 <= i < |samples| && samples[i].key == Some(key) && key != "" ensures key in SampleKeys(samples) {
      assert samples[i].key.GetOr("") != "";
    }
  }

  lemma SamplesGrow(samples: seq<Sample>, key: string, x: real)
    requires samples != []
    ensures var n := |samples| - 1;
      |SamplesOf(samples, key, x)|
      == |SamplesOf(samples[..n], key, x)| + if samples[n].key == Some(key) && samples[n].duration == Some(x) then 1 else 0
  {
    var n := |samples| - 1;
    assert SamplesOf(samples, key, x)
        == SamplesOf(samples[..n], key, x) + if samples[n].key == Some(key) && samples[n].duration == Some(x) then {n} else {};
  }

  lemma {:induction false} ValuesCounted(samples: seq<Sample>, key: string, x: real)
    requires key != ""
    ensures multiset(Finite(KeyedValues(samples, key)))[x] == |SamplesOf(samples, key, x)|
    decreases |samples|
  {
    if samples != [] {
      var n := |samples| - 1;
      var init, last := samples[..n], samples[n];
      ValuesCounted(init, key, x);
      FiniteAppend(KeyedValues(init, key), last.duration);
      SamplesGrow(samples, key, x);
    }
  }

  function SummarizeAll(values: map<string, seq<Duration>>): map<string, Summary> {
    map k | k in values :: Summarize(values[k])
  }

  lemma SummariesOfGroups(samples: seq<Sample>)
    ensures SummarizeAll(Grouped(samples)) == Summaries(samples)
  {
  }

  /** What the Map holds after the loop. */
  function Grouped(samples: seq<Sample>): map<string, seq<Duration>> {
    map k | k in SampleKeys(samples) :: KeyedValues(samples, k)
  }

  lemma GroupedStep(samples: seq<Sample>, i: nat)
    requires i < |samples|
    ensures var before, s := Grouped(samples[..i]), samples[i];
      Grouped(samples[..i + 1]) ==
        if s.key.GetOr("") == "" then before
        else before[s.key.value := (if s.key.value in before then before[s.key.value] else []) + [s.duration]]
  {
    var key := samples[i].key.GetOr("");
    KeysGrow(samples, i);
    assert samples[..i + 1][..i] == samples[..i];
    if key !in SampleKeys(samples[..i]) { NoValues(samples[..i], key); }
  }

  lemma KeysGrow(samples: seq<Sample>, i: nat)
    requires i < |samples|
    ensures SampleKeys(samples[..i + 1])
         == SampleKeys(samples[..i]) + if samples[i].key.GetOr("") == "" then {} else {samples[i].key.value}
  {
    assert samples[..i + 1] == samples[..i] + [samples[i]];
    forall k | k in SampleKeys(samples[..i]) ensures k in SampleKeys(samples[..i + 1]) {
      var j :| 0 <= j < i && samples[..i][j].key.GetOr("") != "" && samples[..i][j].key.value == k;
      assert samples[..i + 1][j] == samples[..i][j];
    }
    if samples[i].key.GetOr("") != "" { assert samples[..i + 1][i] == samples[i]; }
  }

  lemma {:induction false} NoValues(samples: seq<Sample>, key: string)
    requires key !in SampleKeys(samples)
    ensures KeyedValues(samples, key) == []
  {
    if samples != [] {
      var n := |samples| - 1;
      KeysGrow(samples, n);
      assert samples[..n + 1] == samples;
      NoValues(samples[..n], key);
    }
  }

  // ----- No sample is lost or counted twice -----

  ghost function TotalCount(groups: map<string, Summary>, keys: set<string>): nat
    requires keys <= groups.Keys
  {
    if keys == {} then 0 else var k :| k in keys; groups[k].count + TotalCount(groups, keys - {k})
  }

  function KeyedFinite(samples: seq<Sample>, keys: set<string>): nat {
    if samples == [] then 0
    else
      var last := samples[|samples| - 1];
      KeyedFinite(samples[..|samples| - 1], keys)
      + if last.key.GetOr("") != "" && last.key.value in keys && last.duration.Some? then 1 else 0
  }

  lemma {:induction false} FiniteAppend(values: seq<Duration>, d: Duration)
    ensures Finite(values + [d]) == Finite(values) + if d.Some? then [d.value] else []
    decreases |values|
  {
    if values != [] {
      assert (values + [d])[1..] == values[1..] + [d];
      FiniteAppend(values[1..], d);
    }
  }

  lemma {:induction false} OneKeyCount(samples: seq<Sample>, key: string)
    requires key != ""
    ensures |Finite(KeyedValues(samples, key))| == KeyedFinite(samples, {key})
  {
    if samples != [] {
      var n := |samples| - 1;
      OneKeyCount(samples[..n], key);
      FiniteAppend(KeyedValues(samples[..n], key), samples[n].duration);
    }
  }

  lemma {:induction false} SplitKeyCount(samples: seq<Sample>, keys: set<string>, key: string)
    requires key in keys
    ensures KeyedFinite(samples, keys) == KeyedFinite(samples, {key}) + KeyedFinite(samples, keys - {key})
  {
    if samples != [] { SplitKeyCount(samples[..|samples| - 1], keys, key); }
  }

  lemma {:induction false} NoKeyCount(samples: seq<Sample>)
    ensures KeyedFinite(samples, {}) == 0
  {
    if samples != [] { NoKeyCount(samples[..|samples| - 1]); }
  }

  lemma {:induction false} CountsConserved(samples: seq<Sample>, keys: set<string>, groups: map<string, Summary>)
    requires keys <= groups.Keys && "" !in keys
    requires forall k :: k in keys ==> groups[k] == Summarize(KeyedValues(samples, k))
    ensures TotalCount(groups, keys) == KeyedFinite(samples, keys)
  {
    if keys == {} {
      NoKeyCount(samples);
    } else {
      var k :| k in keys && TotalCount(groups, keys) == groups[k].count + TotalCount(groups, keys - {k});
      CountsConserved(samples, keys - {k}, groups);
      SplitKeyCount(samples, keys, k);
      OneKeyCount(samples, k);
      SummaryOrdered(KeyedValues(samples, k));
    }
  }

  function FiniteKeyed(samples: seq<Sample>): nat {
    if samples == [] then 0
    else
      FiniteKeyed(samples[..|samples| - 1])
      + if samples[|samples| - 1].key.GetOr("") != "" && samples[|samples| - 1].duration.Some? then 1 else 0
  }

  lemma {:induction false} AllKeysCount(samples: seq<Sample>, keys: set<string>)
    requires SampleKeys(samples) <= keys
    ensures KeyedFinite(samples, keys) == FiniteKeyed(samples)
  {
    if samples != [] {
      var n := |samples| - 1;
      KeysGrow(samples, n);
      assert samples[..n + 1] == samples;
      AllKeysCount(samples[..n], keys);
    }
  }

  /** The counts of all groups add up to the number of finite samples that have a key. */
  lemma GroupsConserveSamples(samples: seq<Sample>)
    ensures TotalCount(Summaries(samples), Summaries(samples).Keys) == FiniteKeyed(samples)
  {
    CountsConserved(samples, Summaries(samples).Keys, Summaries(samples));
    AllKeysCount(samples, Summaries(samples).Keys);
  }

  // ----- Ranking -----

  datatype Ranked = Ranked(key: string, count: nat, p99: Option<real>, max: Option<real>)

  function Score(r: Ranked): real {
    r.p99.GetOr(-1.0)
  }

  function SlowestFirst(): (Ranked, Ranked) -> bool {
    (a: Ranked, b: Ranked) => Score(a) >= Score(b)
  }

  function RankedOf(groups: map<string, Summary>, key: string): Ranked
    requires key in groups
  {
    Ranked(key, groups[key].count, groups[key].p99, groups[key].max)
  }

  const LISTED := 10

  /** One entry per group, in some order. */
  ghost predicate Lists(entries: seq<Ranked>, groups: map<string, Summary>, keys: set<string>) {
    && (forall i :: 0 <= i < |entries| ==> IsEntryOf(entries[i], groups, keys))
    && (forall i, j :: 0 <= i < j < |entries| ==> entries[i].key != entries[j].key)
    && (forall k :: k in keys ==> Listed(k, entries))
  }

  ghost predicate IsEntryOf(e: Ranked, groups: map<string, Summary>, keys: set<string>) {
    && e.key in keys && e.key in groups
    && e.count == groups[e.key].count && e.p99 == groups[e.key].p99 && e.max == groups[e.key].max
  }

  ghost predicate Listed(key: string, entries: seq<Ranked>) {
    exists i :: 0 <= i < |entries| && entries[i].key == key
  }

  /** The Map's entries as an array. */
  method EntriesOf(groups: map<string, Summary>) returns (entries: seq<Ranked>)
    ensures Lists(entries, groups, groups.Keys) && |entries| == |groups.Keys|
  {
    entries := [];
    var left := groups.Keys;
    while left != {}
      invariant left <= groups.Keys && |entries| == |groups.Keys| - |left|
      invariant Lists(entries, groups, groups.Keys - left)
      decreases left
    {
      var k :| k in left;
      ListOneMore(entries, groups, groups.Keys - left, k);
      assert groups.Keys - (left - {k}) == (groups.Keys - left) + {k};
      entries, left := entries + [RankedOf(groups, k)], left - {k};
    }
    assert groups.Keys - left == groups.Keys;
  }

  lemma ListOneMore(entries: seq<Ranked>, groups: map<string, Summary>, keys: set<string>, key: string)
    requires Lists(entries, groups, keys) && key in groups && key !in keys
    ensures Lists(entries + [RankedOf(groups, key)], groups, keys + {key})
  {
    var more := entries + [RankedOf(groups, key)];
    forall k | k in keys + {key} ensures Listed(k, more) {
      if k == key {
        assert more[|entries|].key == k;
      } else {
        assert Listed(k, entries);
        var i :| 0 <= i < |entries| && entries[i].key == k;
        assert more[i].key == k;
      }
    }
  }

  /** No p99 figure counts as minus one. */
  ghost predicate NotFaster(a: Option<real>, b: Option<real>) {
    (if a.Some? then a.value else -1.0) >= if b.Some? then b.value else -1.0
  }

  /** A ranking: at most ten entries of distinct groups, slowest first, and no group left out is slower than a listed one. */
  ghost predicate IsRanking(ranked: seq<Ranked>, groups: map<string, Summary>) {
    && |ranked| == (if |groups.Keys| < 10 then |groups.Keys| else 10)
    && (forall i :: 0 <= i < |ranked| ==> IsEntryOf(ranked[i], groups, groups.Keys))
    && (forall i, j :: 0 <= i < j < |ranked| ==> ranked[i].key != ranked[j].key && NotFaster(ranked[i].p99, ranked[j].p99))
    && (forall k, i :: k in groups && 0 <= i < |ranked| && !Listed(k, ranked) ==> NotFaster(ranked[i].p99, groups[k].p99))
  }

  function FirstTen(sorted: seq<Ranked>): seq<Ranked> {
    if |sorted| < LISTED then sorted else sorted[..LISTED]
  }

  /** Whatever the order of the entries, the first ten after sorting are a ranking; that order only breaks ties. */
  lemma FirstTenRank(entries: seq<Ranked>, groups: map<string, Summary>)
    requires Lists(entries, groups, groups.Keys) && |entries| == |groups.Keys|
    ensures IsRanking(FirstTen(Sort(entries, SlowestFirst())), groups)
  {
    SortedEntries(entries, SlowestFirst());
    SortedGivesRanking(entries, groups, Sort(entries, SlowestFirst()));
  }

  lemma SortedGivesRanking(entries: seq<Ranked>, groups: map<string, Summary>, sorted: seq<Ranked>)
    requires Lists(entries, groups, groups.Keys) && |entries| == |groups.Keys| == |sorted|
    requires forall e :: e in sorted <==> e in entries
    requires forall i, j :: 0 <= i < j < |sorted| ==> sorted[i].key != sorted[j].key && Score(sorted[i]) >= Score(sorted[j])
    ensures IsRanking(FirstTen(sorted), groups)
  {
    var ranked := FirstTen(sorted);
    forall i | 0 <= i < |ranked| ensures IsEntryOf(ranked[i], groups, groups.Keys) {
      assert ranked[i] == sorted[i] && sorted[i] in entries;
    }
    forall k, i | k in groups && 0 <= i < |ranked| && !Listed(k, ranked)
      ensures NotFaster(ranked[i].p99, groups[k].p99)
    {
      assert ranked == sorted[..|ranked|];
      OmittedIsFaster(entries, groups, sorted, k, i, |ranked|);
    }
  }

  lemma OmittedIsFaster(entries: seq<Ranked>, groups: map<string, Summary>, sorted: seq<Ranked>, key: string, i: nat, n: nat)
    requires Lists(entries, groups, groups.Keys) && key in groups
    requires forall e :: e in sorted <==> e in entries
    requires forall i, j :: 0 <= i < j < |sorted| ==> Score(sorted[i]) >= Score(sorted[j])
    requires i < n <= |sorted| && !Listed(key, sorted[..n])
    ensures Score(RankedOf(groups, key)) <= Score(sorted[i])
  {
    forall x | 0 <= x < n ensures sorted[x].key != key {
      assert sorted[..n][x] == sorted[x];
    }
    assert Listed(key, entries);
    var e :| 0 <= e < |entries| && entries[e].key == key;
    assert IsEntryOf(entries[e], groups, groups.Keys) && entries[e] in sorted;
    var j :| 0 <= j < |sorted| && sorted[j] == entries[e];
  }

  /** Lists the slowest groups. */
  method RankBy(samples: seq<Sample>) returns (ranked: seq<Ranked>)
    ensures IsRanking(ranked, Summaries(samples))
  {
    var groups := SummarizeBy(samples);
    var entries := EntriesOf(groups);
    FirstTenRank(entries, groups);
    ranked := FirstTen(Sort(entries, SlowestFirst()));
  }

  /** Sorting keeps entries with different keys apart and loses none. */
  lemma SortedEntries(entries: seq<Ranked>, leq: (Ranked, Ranked) -> bool)
    requires leq == SlowestFirst()
    requires forall i, j :: 0 <= i < j < |entries| ==> entries[i].key != entries[j].key
    ensures var sorted := Sort(entries, leq);
      && |sorted| == |entries|
      && (forall e :: e in sorted <==> e in entries)
      && (forall i, j :: 0 <= i < j < |sorted| ==> sorted[i].key != sorted[j].key && Score(sorted[i]) >= Score(sorted[j]))
  {
    var sorted := Sort(entries, leq);
    SortPermutes(entries, leq);
    SortSorts(entries, leq);
    forall e ensures e in sorted <==> e in entries {
      assert e in sorted <==> e in multiset(sorted);
      assert e in entries <==> e in multiset(entries);
    }
    NoRepeatsPermutes(entries, sorted);
    forall i, j | 0 <= i < j < |sorted|
      ensures sorted[i].key != sorted[j].key && Score(sorted[i]) >= Score(sorted[j])
    {
      assert leq(sorted[i], sorted[j]);
      assert sorted[i] in entries && sorted[j] in entries;
    }
  }
}
