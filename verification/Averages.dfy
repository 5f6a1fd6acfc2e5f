/** Weighted averages shared by both pipelines: a total of points over a
    total of credit hours, and sums over the entries of a keyed collection
    whose iteration order is not specified. */
module Averages {

  /** Points over credits, or 0.0 when there are no credits. */
  function Ratio(points: real, credits: real): real {
    if credits == 0.0 then 0.0 else points / credits
  }

  /** Points of at most `bound` per credit give a ratio of at most `bound`. */
  lemma RatioBounded(points: real, credits: real, bound: real)
    requires 0.0 <= credits && 0.0 <= bound
    requires 0.0 <= points <= bound * credits
    ensures 0.0 <= Ratio(points, credits) <= bound
  {
    if credits != 0.0 {
      assert points / credits <= bound * credits / credits;
    }
  }

  /** Some element of a non-empty set; which one is left open. */
  ghost function Pick<K>(s: set<K>): (k: K)
    requires s != {}
    ensures k in s
  {
    var k :| k in s; k
  }

  /** The sum of `f` over a finite set, independent of any order. */
  ghost function SetSum<K>(s: set<K>, f: K -> real): real
    decreases s
  {
    if s == {} then 0.0
    else
      var k := Pick(s);
      f(k) + SetSum(s - {k}, f)
  }

  /** Any element can be taken out first: the sum does not depend on the
      order in which the elements are visited. */
  lemma {:induction false} SetSumRemove<K>(s: set<K>, f: K -> real, y: K)
    requires y in s
    ensures SetSum(s, f) == f(y) + SetSum(s - {y}, f)
    decreases s
  {
    var x := Pick(s);
    if y != x {
      SetSumRemove(s - {x}, f, y);
      assert s - {x} - {y} == s - {y} - {x};
      SetSumRemove(s - {y}, f, x);
    }
  }

  /** The sum over two disjoint sets is the sum of their sums. */
  lemma {:induction false} SetSumUnion<K>(a: set<K>, b: set<K>, f: K -> real)
    requires a !! b
    ensures SetSum(a + b, f) == SetSum(a, f) + SetSum(b, f)
    decreases b
  {
    if b != {} {
      var y := Pick(b);
      SetSumRemove(a + b, f, y);
      SetSumRemove(b, f, y);
      assert (a + b) - {y} == a + (b - {y});
      SetSumUnion(a, b - {y}, f);
    } else {
      assert a + b == a;
    }
  }

  /** A sum of non-negative terms each at most `bound` times a weight is at
      most `bound` times the sum of the weights. */
  lemma {:induction false} SetSumBounded<K>(s: set<K>, f: K -> real, w: K -> real, bound: real)
    requires forall k :: k in s ==> 0.0 <= f(k) <= bound * w(k)
    ensures 0.0 <= SetSum(s, f) <= bound * SetSum(s, w)
    decreases s
  {
    if s != {} {
      var k := Pick(s);
      SetSumBounded(s - {k}, f, w, bound);
    }
  }
}
