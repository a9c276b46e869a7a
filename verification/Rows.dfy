/** Table rows with a unique id and a timestamp, and the statement
    `ORDER BY at ASC, id ASC LIMIT n` that every batched delete of the scripts shares. */
module Rows {
  import opened FiniteSets

  datatype Row<G, A> = Row(id: nat, group: G, at: int, attrs: A)

  predicate Older<G, A>(a: Row<G, A>, b: Row<G, A>) {
    a.at < b.at || (a.at == b.at && a.id < b.id)
  }

  ghost predicate UniqueIds<G, A>(t: set<Row<G, A>>) {
    forall a, b {:trigger a.id, b.id} :: a in t && b in t && a.id == b.id ==> a == b
  }

  ghost predicate IsOldest<G, A>(r: Row<G, A>, s: set<Row<G, A>>) {
    r in s && forall x :: x in s && x != r ==> Older(r, x)
  }

  lemma OlderTotal<G, A>(t: set<Row<G, A>>, a: Row<G, A>, b: Row<G, A>)
    requires UniqueIds(t) && a in t && b in t
    ensures a == b || Older(a, b) || Older(b, a)
    ensures !(Older(a, b) && Older(b, a))
  {
  }

  lemma {:induction false} OldestExists<G, A>(s: set<Row<G, A>>)
    requires UniqueIds(s) && s != {}
    ensures exists r :: IsOldest(r, s)
  {
    var x :| x in s;
    if s == {x} {
      assert IsOldest(x, s);
    } else {
      OldestExists(s - {x});
      var r :| IsOldest(r, s - {x});
      OlderTotal(s, x, r);
      var m := if Older(x, r) then x else r;
      forall y | y in s && y != m ensures Older(m, y) {
        if y != x { assert y == r || Older(r, y); }
      }
      assert IsOldest(m, s);
    }
  }

  ghost function Oldest<G, A>(s: set<Row<G, A>>): (r: Row<G, A>)
    requires UniqueIds(s) && s != {}
    ensures IsOldest(r, s)
  {
    OldestExists(s);
    var r :| IsOldest(r, s);
    r
  }

  /** The first `n` rows of `s` in (at, id) order. */
  ghost function OldestN<G, A>(s: set<Row<G, A>>, n: nat): set<Row<G, A>>
    requires UniqueIds(s)
    decreases n
  {
    if n == 0 || s == {} then {} else {Oldest(s)} + OldestN(s - {Oldest(s)}, n - 1)
  }

  /** `d` is an initial segment of `s` in (at, id) order. */
  ghost predicate IsPrefix<G, A>(d: set<Row<G, A>>, s: set<Row<G, A>>) {
    d <= s && forall a, b :: a in d && b in s - d ==> Older(a, b)
  }

  lemma {:induction false} OldestNIsPrefix<G, A>(s: set<Row<G, A>>, n: nat)
    requires UniqueIds(s)
    ensures IsPrefix(OldestN(s, n), s)
    ensures |OldestN(s, n)| == if n <= |s| then n else |s|
    decreases n
  {
    if n > 0 && s != {} {
      var r := Oldest(s);
      OldestNIsPrefix(s - {r}, n - 1);
      assert |s - {r}| == |s| - 1;
    }
  }

  /** What a limited delete takes comes first by time, then by id. */
  lemma OldestNComesFirst<G, A>(s: set<Row<G, A>>, n: nat)
    requires UniqueIds(s)
    ensures forall r, x :: r in OldestN(s, n) && x in s - OldestN(s, n) ==> r.at < x.at || (r.at == x.at && r.id < x.id)
  {
    OldestNIsPrefix(s, n);
  }

  /** An initial segment is determined by its size, so `LIMIT` has one answer. */
  lemma {:induction false} PrefixIsOldestN<G, A>(s: set<Row<G, A>>, d: set<Row<G, A>>)
    requires UniqueIds(s) && IsPrefix(d, s)
    ensures d == OldestN(s, |d|)
    decreases |d|
  {
    if d != {} {
      var r := Oldest(s);
      var x :| x in d;
      if r !in d { assert Older(x, r) && Older(r, x); }
      PrefixIsOldestN(s - {r}, d - {r});
      assert |d - {r}| == |d| - 1;
    }
  }

  lemma OldestNAll<G, A>(s: set<Row<G, A>>, n: nat)
    requires UniqueIds(s) && |s| <= n
    ensures OldestN(s, n) == s
  {
    OldestNIsPrefix(s, n);
    SubsetSize(OldestN(s, n), s);
  }

  /** Two consecutive batches take what one batch of the summed size takes. */
  lemma {:induction false} OldestNSplit<G, A>(s: set<Row<G, A>>, m: nat, n: nat)
    requires UniqueIds(s)
    ensures OldestN(s, m + n) == OldestN(s, m) + OldestN(s - OldestN(s, m), n)
    decreases m
  {
    if m == 0 || s == {} {
      assert s - {} == s;
    } else {
      var r := Oldest(s);
      OldestNSplit(s - {r}, m - 1, n);
      assert s - OldestN(s, m) == s - {r} - OldestN(s - {r}, m - 1);
    }
  }

  /** The rows a batched DELETE takes: repeatedly the oldest candidate, until the limit. */
  method TakeOldest<G(==), A(==)>(candidates: set<Row<G, A>>, limit: nat) returns (taken: set<Row<G, A>>)
    requires UniqueIds(candidates)
    ensures taken == OldestN(candidates, limit)
  {
    var left := candidates;
    taken := {};
    while left != {} && |taken| < limit
      invariant left == candidates - taken && |taken| <= limit
      invariant IsPrefix(taken, candidates)
      decreases left
    {
      var r := FindOldest(left);
      left, taken := left - {r}, taken + {r};
    }
    PrefixIsOldestN(candidates, taken);
    if left == {} {
      assert taken == candidates;
      if |taken| <= limit { OldestNAll(candidates, limit); }
    }
  }

  method FindOldest<G(==), A(==)>(s: set<Row<G, A>>) returns (r: Row<G, A>)
    requires UniqueIds(s) && s != {}
    ensures IsOldest(r, s)
  {
    r :| r in s;
    var left := s - {r};
    while left != {}
      invariant left <= s && IsOldest(r, s - left)
      decreases left
    {
      var x :| x in left;
      OlderTotal(s, x, r);
      assert s - (left - {x}) == (s - left) + {x};
      if Older(x, r) { r := x; }
      left := left - {x};
    }
    assert s - left == s;
  }
}
