/**
 * Dense descending ranking: the largest value gets rank
 * 1, equal values share a rank, and the ranks have no gaps.
 */
module Ranking {

  /** The values of vals strictly above x. */
  function Above(x: real, vals: set<real>): set<real> {
    set v | v in vals && v > x
  }

  /** The dense descending rank of x among vals. */
  function DenseRank(x: real, vals: set<real>): nat {
    |Above(x, vals)| + 1
  }

  lemma ProperSubsetCard(a: set<real>, b: set<real>, y: real)
    requires a <= b && y in b && y !in a
    ensures |a| < |b|
  {
    assert b == a + (b - a);
    assert y in b - a;
  }

  /** Every rank lies between 1 and the number of distinct values. */
  lemma DenseRankBounds(x: real, vals: set<real>)
    requires x in vals
    ensures 1 <= DenseRank(x, vals) <= |vals|
  {
    ProperSubsetCard(Above(x, vals), vals, x);
  }

  /** Equal values share a rank; a larger value has a strictly smaller rank. */
  lemma DenseRankOrder(x: real, y: real, vals: set<real>)
    requires y in vals
    ensures x == y ==> DenseRank(x, vals) == DenseRank(y, vals)
    ensures x < y ==> DenseRank(y, vals) < DenseRank(x, vals)
  {
    if x < y {
      ProperSubsetCard(Above(y, vals), Above(x, vals), y);
    }
  }

  /** The rank order is the reverse of the value order, in both directions. */
  lemma DenseRankIff(x: real, y: real, vals: set<real>)
    requires x in vals && y in vals
    ensures DenseRank(x, vals) < DenseRank(y, vals) <==> x > y
    ensures DenseRank(x, vals) == DenseRank(y, vals) <==> x == y
  {
    DenseRankOrder(x, y, vals);
    DenseRankOrder(y, x, vals);
  }

  /** The largest value has rank 1. */
  lemma DenseRankTop(x: real, vals: set<real>)
    requires x in vals
    requires forall v :: v in vals ==> v <= x
    ensures DenseRank(x, vals) == 1
  {
    assert Above(x, vals) == {};
  }

  /** A non-empty set has an element. */
  lemma Element<T>(s: set<T>) returns (a: T)
    requires s != {}
    ensures a in s
  {
    if forall v :: v !in s {
      assert false;
    }
    a :| a in s;
  }

  /** A finite non-empty set of reals has a least element. */
  lemma {:induction false} HasMin(s: set<real>) returns (m: real)
    requires s != {}
    ensures m in s && forall v :: v in s ==> m <= v
    decreases |s|
  {
    var a := Element(s);
    if s == {a} {
      m := a;
    } else {
      var rest := s - {a};
      var b := HasMin(rest);
      m := if a < b then a else b;
      forall v | v in s ensures m <= v {
        if v != a {
          assert v in rest;
        }
      }
    }
  }

  /** A finite set of reals holding x has a largest element. */
  lemma {:induction false} HasMax(s: set<real>, x: real) returns (m: real)
    requires x in s
    ensures m in s && forall v :: v in s ==> v <= m
    decreases |s|
  {
    if s == {x} {
      m := x;
    } else {
      var rest := s - {x};
      var y := Element(rest);
      var b := HasMax(rest, y);
      m := if x > b then x else b;
      forall v | v in s ensures v <= m {
        if v != x {
          assert v in rest;
        }
      }
    }
  }

  /**
   * Ranks have no gaps: a value ranked below 1 has a value ranked exactly one
   * place above it (the next larger value).
   */
  lemma DenseRankGapFree(x: real, vals: set<real>)
    requires x in vals && DenseRank(x, vals) > 1
    ensures exists y :: y in vals && DenseRank(y, vals) == DenseRank(x, vals) - 1
  {
    var up := Above(x, vals);
    var y := HasMin(up);
    assert Above(y, vals) == up - {y};
    assert DenseRank(y, vals) == DenseRank(x, vals) - 1;
  }
}
