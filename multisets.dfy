/** Small facts about multiset sums, used to account for the entries of subtrees. */
module Multisets {

  /** Multiset bookkeeping for a subtree that grew by `m`. */
  lemma Shift<T>(r: multiset<T>, c: multiset<T>, n: multiset<T>, m: multiset<T>)
    requires r + c == n + (c + m)
    ensures r == n + m
  {
    assert forall x :: r[x] == (n + m)[x] by {
      forall x ensures r[x] == (n + m)[x] {
        assert (r + c)[x] == (n + (c + m))[x];
      }
    }
  }

  /** Trading one element for another keeps the size. */
  lemma SameSize<T>(a: multiset<T>, b: multiset<T>, x: multiset<T>, y: multiset<T>)
    requires a + x == b + y
    requires |x| == |y|
    ensures |a| == |b|
  {
    assert |a + x| == |a| + |x|;
    assert |b + y| == |b| + |y|;
  }

  /** Multiset bookkeeping for a subtree replaced by one with the same contents. */
  lemma Cancel<T>(r: multiset<T>, c: multiset<T>, n: multiset<T>, c': multiset<T>)
    requires r + c == n + c'
    requires c' == c
    ensures r == n
  {
    assert forall x :: r[x] == n[x] by {
      forall x ensures r[x] == n[x] {
        assert (r + c)[x] == (n + c')[x];
      }
    }
  }

  /** Multiset bookkeeping for a replaced subtree. */
  lemma Rebalance<T>(r: multiset<T>, c: multiset<T>, n: multiset<T>, c': multiset<T>, o: multiset<T>, w: multiset<T>)
    requires r + c == n + c'
    requires c' + o == c + w
    ensures r + o == n + w
  {
    calc {
      (r + o) + c;
      (r + c) + o;
      (n + c') + o;
      n + (c' + o);
      (n + w) + c;
    }
    assert forall x :: (r + o)[x] == (n + w)[x] by {
      forall x ensures (r + o)[x] == (n + w)[x] {
        assert ((r + o) + c)[x] == ((n + w) + c)[x];
      }
    }
  }

  /** Multiset bookkeeping for a subtree that lost `o`. */
  lemma Regroup<T>(r: multiset<T>, c: multiset<T>, n: multiset<T>, c': multiset<T>, o: multiset<T>)
    requires r + c == n + c'
    requires c' + o == c
    ensures r + o == n
  {
    assert forall x :: (r + o)[x] == n[x] by {
      forall x ensures (r + o)[x] == n[x] {
        assert (r + c)[x] == (n + c')[x];
        assert (c' + o)[x] == c[x];
      }
    }
  }

  /** A sum of four parts, accumulated from the right. */
  lemma SumOfFour<T>(s0: multiset<T>, s1: multiset<T>, s2: multiset<T>, s3: multiset<T>,
                     a: multiset<T>, b: multiset<T>, c: multiset<T>, d: multiset<T>)
    requires s0 == a + s1 && s1 == b + s2 && s2 == c + s3 && s3 == d + multiset{}
    ensures s0 == a + b + c + d
  {
    assert forall x :: s0[x] == (a + b + c + d)[x];
  }

  /** Moving the first part of a sum into the running total. */
  lemma Regroup3<T>(x: multiset<T>, a: multiset<T>, b: multiset<T>, c: multiset<T>, y: multiset<T>)
    requires x == a + b && y == b + c
    ensures x + c == a + y
  {
    assert forall e :: (x + c)[e] == (a + y)[e];
  }

  /** A split into a left part, a middle part and one more part, regrouped. */
  lemma Regroup4<T>(x: multiset<T>, a: multiset<T>, b: multiset<T>, c: multiset<T>, y: multiset<T>)
    requires x == a + b && a + (b + c) == y
    ensures x + c == y
  {
    assert forall e :: (x + c)[e] == y[e];
  }

  /** Taking a part back out of a sum, and the sizes that go with it. */
  lemma TakeOne<T>(x: multiset<T>, c: multiset<T>, y: multiset<T>)
    requires x + c == y
    ensures x == y - c
    ensures |x| == |y| - |c|
  {
    assert forall e :: x[e] == (y - c)[e];
    assert |x + c| == |x| + |c|;
  }

  lemma Associative<T>(a: multiset<T>, b: multiset<T>, c: multiset<T>)
    ensures a + (b + c) == (a + b) + c
  {
  }
}
