/** Facts about the cardinality of finite sets. */
module FiniteSets {
  import opened Arithmetic

  lemma SubsetSize<T>(a: set<T>, b: set<T>)
    requires a <= b
    ensures |a| <= |b|
    ensures |a| == |b| ==> a == b
  {
    assert b == a + (b - a);
    assert |b| == |a| + |b - a|;
  }

  lemma PartSizes<T>(whole: set<T>, a: set<T>, b: set<T>)
    requires whole == a + b && a !! b
    ensures |whole| == |a| + |b|
  {
  }

  ghost function Pairs<A, B>(a: set<A>, b: set<B>): set<(A, B)> {
    set x, y | x in a && y in b :: (x, y)
  }

  lemma {:induction false} PairsSize<A, B>(a: set<A>, b: set<B>)
    ensures |Pairs(a, b)| == |a| * |b|
  {
    if a == {} {
      assert Pairs(a, b) == {};
    } else {
      var x :| x in a;
      var rest := a - {x};
      PairsSize(rest, b);
      PairsSplit(x, rest, b);
      assert a == {x} + rest;
      MulSuccessor(|rest|, |b|);
    }
  }

  lemma PairsSplit<A, B>(x: A, rest: set<A>, b: set<B>)
    requires x !in rest
    ensures |Pairs({x} + rest, b)| == |b| + |Pairs(rest, b)|
  {
    RowSize(x, b);
    assert Pairs({x} + rest, b) == Pairs({x}, b) + Pairs(rest, b);
    assert Pairs({x}, b) !! Pairs(rest, b);
  }

  lemma {:induction false} RowSize<A, B>(x: A, b: set<B>)
    ensures |Pairs({x}, b)| == |b|
  {
    if b == {} {
      assert Pairs({x}, b) == {};
    } else {
      var y :| y in b;
      RowSize(x, b - {y});
      assert Pairs({x}, b) == Pairs({x}, b - {y}) + {(x, y)};
    }
  }
}
