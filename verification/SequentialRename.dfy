/** A series of `UPDATE ... SET market = to WHERE scope = s AND market = from` statements, compared with one
    simultaneous renaming. The two update loops of the canonical market rewrite are instances. */
module SequentialRename {
  import opened Wrappers

  datatype Cell<S, V> = Cell(scope: S, market: string, extra: V)
  datatype Rename<S, V> = Rename(scope: S, from: string, to: string, extra: V)
  type Table<S, V> = map<nat, Cell<S, V>>

  predicate Hits<S(==), V>(r: Rename<S, V>, c: Cell<S, V>) {
    r.scope == c.scope && r.from == c.market
  }

  function Renamed<S(==), V>(c: Cell<S, V>, r: Rename<S, V>): Cell<S, V> {
    if Hits(r, c) then Cell(c.scope, r.to, r.extra) else c
  }

  /** One UPDATE. */
  function Update<S(==), V>(t: Table<S, V>, r: Rename<S, V>): Table<S, V> {
    map id | id in t :: Renamed(t[id], r)
  }

  /** The rows one UPDATE touches; its row count is their number. */
  function Matches<S(==), V>(t: Table<S, V>, r: Rename<S, V>): set<nat> {
    set id | id in t && Hits(r, t[id])
  }

  /** What the loop does to one row. */
  function Chase<S(==), V>(c: Cell<S, V>, rs: seq<Rename<S, V>>): Cell<S, V> {
    if rs == [] then c else Renamed(Chase(c, rs[..|rs| - 1]), rs[|rs| - 1])
  }

  /** The loop. */
  function Sequential<S(==), V>(t: Table<S, V>, rs: seq<Rename<S, V>>): Table<S, V> {
    if rs == [] then t else Update(Sequential(t, rs[..|rs| - 1]), rs[|rs| - 1])
  }

  /** The loop, stopping at the first UPDATE that does not touch exactly one row. */
  function Checked<S(==), V>(t: Table<S, V>, rs: seq<Rename<S, V>>): Option<Table<S, V>> {
    if rs == [] then Some(t)
    else
      match Checked(t, rs[..|rs| - 1])
      case None => None
      case Some(mid) => if |Matches(mid, rs[|rs| - 1])| == 1 then Some(Update(mid, rs[|rs| - 1])) else None
  }

  lemma {:induction false} SequentialChases<S, V>(t: Table<S, V>, rs: seq<Rename<S, V>>)
    ensures Sequential(t, rs) == map id | id in t :: Chase(t[id], rs)
    decreases |rs|
  {
    if rs != [] { SequentialChases(t, rs[..|rs| - 1]); }
  }

  /** One simultaneous renaming: the first matching rename of the start value applies, once. */
  function AtOnce<S(==), V>(c: Cell<S, V>, rs: seq<Rename<S, V>>): Cell<S, V> {
    if rs == [] then c else if Hits(rs[0], c) then Renamed(c, rs[0]) else AtOnce(c, rs[1..])
  }

  /** Rename `i` is the first one that hits the row. */
  ghost predicate FirstHit<S, V>(c: Cell<S, V>, rs: seq<Rename<S, V>>, i: int) {
    0 <= i < |rs| && Hits(rs[i], c) && forall j :: 0 <= j < i ==> !Hits(rs[j], c)
  }

  lemma {:induction false} AtOnceMisses<S, V>(c: Cell<S, V>, rs: seq<Rename<S, V>>)
    requires forall i :: 0 <= i < |rs| ==> !Hits(rs[i], c)
    ensures AtOnce(c, rs) == c
    decreases |rs|
  {
    if rs != [] { AtOnceMisses(c, rs[1..]); }
  }

  lemma {:induction false} AtOnceHits<S, V>(c: Cell<S, V>, rs: seq<Rename<S, V>>, i: nat)
    requires FirstHit(c, rs, i)
    ensures AtOnce(c, rs) == Renamed(c, rs[i])
    decreases |rs|
  {
    if i > 0 {
      assert forall j :: 0 <= j < |rs| - 1 ==> rs[1..][j] == rs[j + 1];
      AtOnceHits(c, rs[1..], i - 1);
    }
  }

  /** Within a scope, no two renames start from the same name. */
  ghost predicate DistinctFrom<S, V>(rs: seq<Rename<S, V>>) {
    forall i, j :: 0 <= i < j < |rs| && rs[i].scope == rs[j].scope ==> rs[i].from != rs[j].from
  }

  /** Within a scope, no two renames end in the same name. */
  ghost predicate DistinctTo<S, V>(rs: seq<Rename<S, V>>) {
    forall i, j :: 0 <= i < j < |rs| && rs[i].scope == rs[j].scope ==> rs[i].to != rs[j].to
  }

  /** No new name is a later old name of the same scope. */
  ghost predicate NoChain<S, V>(rs: seq<Rename<S, V>>) {
    forall i, j :: 0 <= i < j < |rs| && rs[i].scope == rs[j].scope ==> rs[i].to != rs[j].from
  }

  /** A row is untouched, or carries the new name of the first rename that hit it, which was never hit again. */
  lemma {:induction false} ChaseIs<S, V>(c: Cell<S, V>, rs: seq<Rename<S, V>>)
    requires DistinctFrom(rs) && NoChain(rs)
    ensures (forall i :: 0 <= i < |rs| ==> !Hits(rs[i], c)) ==> Chase(c, rs) == c
    ensures forall i :: 0 <= i < |rs| && Hits(rs[i], c) ==> Chase(c, rs) == Renamed(c, rs[i])
    decreases |rs|
  {
    if rs != [] {
      var last := |rs| - 1;
      ChaseIs(c, rs[..last]);
      forall i | 0 <= i < last && Hits(rs[i], c) ensures Chase(c, rs) == Renamed(c, rs[i]) {
        assert rs[..last][i] == rs[i];
      }
      if Hits(rs[last], c) {
        assert forall i :: 0 <= i < last ==> !Hits(rs[..last][i], c);
      }
    }
  }

  lemma ChaseIsAtOnce<S, V>(c: Cell<S, V>, rs: seq<Rename<S, V>>)
    requires DistinctFrom(rs) && NoChain(rs)
    ensures Chase(c, rs) == AtOnce(c, rs)
  {
    ChaseIs(c, rs);
    if i :| 0 <= i < |rs| && Hits(rs[i], c) {
      assert FirstHit(c, rs, i);
      AtOnceHits(c, rs, i);
    } else {
      AtOnceMisses(c, rs);
    }
  }

  /** Past a chain the row ends with the target of rename `j` or a later one. */
  lemma {:induction false} ChaseAfterChain<S, V>(c: Cell<S, V>, rs: seq<Rename<S, V>>, i: nat, j: nat)
    requires i < j < |rs| && DistinctFrom(rs) && DistinctTo(rs)
    requires Hits(rs[i], c) && rs[i].scope == rs[j].scope && rs[i].to == rs[j].from
    ensures Chase(c, rs).scope == c.scope
    ensures exists m :: j <= m < |rs| && rs[m].scope == c.scope && Chase(c, rs).market == rs[m].to
    decreases |rs|
  {
    var last := |rs| - 1;
    var init := rs[..last];
    if j < last {
      assert init[i] == rs[i] && init[j] == rs[j];
      ChaseAfterChain(c, init, i, j);
      var m :| j <= m < last && init[m].scope == c.scope && Chase(c, init).market == init[m].to;
      assert rs[m] == init[m];
      var w := if Hits(rs[last], Chase(c, init)) then last else m;
      assert j <= w < |rs| && rs[w].scope == c.scope && Chase(c, rs).market == rs[w].to;
    } else {
      ChaseToChain(c, rs, i, j);
      assert Chase(c, rs).market == rs[j].to;
    }
  }

  /** Just before `j`, the first later rename of the name, the row carries the new name of rename `i`. */
  lemma {:induction false} ChaseToChain<S, V>(c: Cell<S, V>, rs: seq<Rename<S, V>>, i: nat, j: nat)
    requires i < j < |rs| && DistinctFrom(rs)
    requires Hits(rs[i], c) && rs[i].scope == rs[j].scope && rs[i].to == rs[j].from
    ensures Chase(c, rs[..j]) == Renamed(c, rs[i])
    decreases j
  {
    ChaseUpTo(c, rs, i, j, j);
  }

  lemma {:induction false} ChaseUpTo<S, V>(c: Cell<S, V>, rs: seq<Rename<S, V>>, i: nat, j: nat, n: nat)
    requires i < j < |rs| && DistinctFrom(rs) && n <= j
    requires Hits(rs[i], c) && rs[i].scope == rs[j].scope && rs[i].to == rs[j].from
    ensures Chase(c, rs[..n]) == if n <= i then c else Renamed(c, rs[i])
    decreases n
  {
    if n > 0 {
      ChaseUpTo(c, rs, i, j, n - 1);
      assert rs[..n][..n - 1] == rs[..n - 1];
    }
  }

  /** For renames with distinct old and distinct new names, the loop is the simultaneous renaming of every row
      exactly when no new name is a later old name. */
  lemma SequentialIsAtOnceIff<S(!new), V(!new, 0)>(rs: seq<Rename<S, V>>)
    requires DistinctFrom(rs) && DistinctTo(rs)
    ensures (forall c: Cell<S, V> :: Chase(c, rs) == AtOnce(c, rs)) <==> NoChain(rs)
  {
    if NoChain(rs) {
      forall c: Cell<S, V> ensures Chase(c, rs) == AtOnce(c, rs) { ChaseIsAtOnce(c, rs); }
    } else {
      var i, j :| 0 <= i < j < |rs| && rs[i].scope == rs[j].scope && rs[i].to == rs[j].from;
      var c := Cell(rs[i].scope, rs[i].from, rs[i].extra);
      ChaseAfterChain(c, rs, i, j);
      assert FirstHit(c, rs, i);
      AtOnceHits(c, rs, i);
      assert AtOnce(c, rs).market == rs[i].to;
      assert Chase(c, rs) != AtOnce(c, rs);
    }
  }

  // ----- Exactly one row per rename, or nothing -----

  /** The row counts seen along the loop are those of the start table. */
  lemma {:induction false} MatchesStay<S, V>(t: Table<S, V>, rs: seq<Rename<S, V>>, k: nat)
    requires k < |rs| && DistinctFrom(rs) && NoChain(rs)
    ensures Matches(Sequential(t, rs[..k]), rs[k]) == Matches(t, rs[k])
  {
    var mid := Sequential(t, rs[..k]);
    SequentialChases(t, rs[..k]);
    forall id | id in t ensures Hits(rs[k], mid[id]) <==> Hits(rs[k], t[id]) {
      ChaseIs(t[id], rs[..k]);
      if i :| 0 <= i < k && Hits(rs[..k][i], t[id]) {
        assert mid[id] == Renamed(t[id], rs[i]);
        assert rs[i].scope == t[id].scope;
      }
    }
  }

  /** The checked loop succeeds exactly when every rename matches one row of the start table, and then each row
      is renamed by the one rename that matches it, if any. */
  lemma {:induction false} CheckedIs<S, V>(t: Table<S, V>, rs: seq<Rename<S, V>>)
    requires DistinctFrom(rs) && NoChain(rs)
    ensures Checked(t, rs) ==
      if forall i :: 0 <= i < |rs| ==> |Matches(t, rs[i])| == 1 then Some(Sequential(t, rs)) else None
    decreases |rs|
  {
    if rs != [] {
      var last := |rs| - 1;
      CheckedIs(t, rs[..last]);
      MatchesStay(t, rs, last);
      assert forall i :: 0 <= i < last ==> rs[..last][i] == rs[i];
    }
  }

  lemma CheckedIsAtOnce<S, V>(t: Table<S, V>, rs: seq<Rename<S, V>>)
    requires DistinctFrom(rs) && NoChain(rs) && Checked(t, rs).Some?
    ensures Checked(t, rs).value == map id | id in t :: AtOnce(t[id], rs)
  {
    CheckedIs(t, rs);
    SequentialChases(t, rs);
    forall id | id in t ensures Chase(t[id], rs) == AtOnce(t[id], rs) { ChaseIsAtOnce(t[id], rs); }
  }

  /** On success rename `i` changed exactly one row, which no other rename changed; rows no rename matches are
      as before. */
  lemma CheckedChangesOneRow<S, V>(t: Table<S, V>, rs: seq<Rename<S, V>>, i: nat) returns (id: nat)
    requires DistinctFrom(rs) && NoChain(rs) && Checked(t, rs).Some? && i < |rs|
    ensures id in t && id in Checked(t, rs).value && Matches(t, rs[i]) == {id}
    ensures Checked(t, rs).value[id] == Cell(rs[i].scope, rs[i].to, rs[i].extra)
    ensures forall j :: 0 <= j < |rs| && j != i ==> id !in Matches(t, rs[j])
  {
    CheckedIs(t, rs);
    SequentialChases(t, rs);
    id :| id in Matches(t, rs[i]);
    assert Matches(t, rs[i]) == {id} by { assert |Matches(t, rs[i]) - {id}| == 0; }
    ChaseIs(t[id], rs);
  }

  /** No rename matches the row. */
  predicate NoMatch<S(==), V>(t: Table<S, V>, rs: seq<Rename<S, V>>, id: nat) {
    forall i :: 0 <= i < |rs| ==> id !in Matches(t, rs[i])
  }

  lemma CheckedKeepsOthers<S, V>(t: Table<S, V>, rs: seq<Rename<S, V>>, id: nat)
    requires DistinctFrom(rs) && NoChain(rs) && Checked(t, rs).Some?
    requires id in t && NoMatch(t, rs, id)
    ensures id in Checked(t, rs).value && Checked(t, rs).value[id] == t[id]
  {
    CheckedIs(t, rs);
    SequentialChases(t, rs);
    forall i | 0 <= i < |rs| ensures !Hits(rs[i], t[id]) { assert id !in Matches(t, rs[i]); }
    ChaseIs(t[id], rs);
  }

  function RowsOfScope<S(==), V>(t: Table<S, V>, s: S): set<nat> {
    set id | id in t && t[id].scope == s
  }

  /** No statement of the loop moves a row between scopes, so the number of rows per scope is kept. */
  lemma {:induction false} ScopesStay<S, V>(t: Table<S, V>, rs: seq<Rename<S, V>>, s: S)
    ensures Sequential(t, rs).Keys == t.Keys
    ensures RowsOfScope(Sequential(t, rs), s) == RowsOfScope(t, s)
    decreases |rs|
  {
    if rs != [] { ScopesStay(t, rs[..|rs| - 1], s); }
  }
}
