/** Jaccard similarity of two finite sets, in the counting form and in the
    form built from set views. */
module SetMetrics {
  import opened Common

  /** `GoogleJaccard.similarity`: put the smaller set first, then divide the
      size of the intersection view by the size of the union view. Both
      sets empty would be 0/0, so the union must be non-empty. */
  function GoogleJaccard<T>(a: set<T>, b: set<T>): (r: real)
    requires a + b != {}
    ensures r == |a * b| as real / |a + b| as real
  {
    var (x, y) := if |b| < |a| then (b, a) else (a, b);
    assert x * y == a * b && x + y == a + b;
    |x * y| as real / |x + y| as real
  }

  /** `Jaccard.similarity`: count the elements of a that b contains, and
      add to |a| the elements of b that a lacks. */
  method Jaccard<T(==)>(a: set<T>, b: set<T>) returns (r: real)
    requires a + b != {}
    ensures r == GoogleJaccard(a, b)
  {
    var common := CountCommon(a, b);
    var unionSize := CountUnion(a, b);
    r := common as real / unionSize as real;
  }

  /** The first loop of `Jaccard.similarity`. */
  method CountCommon<T(==)>(a: set<T>, b: set<T>) returns (common: nat)
    ensures common == |a * b|
  {
    common := 0;
    var rest := a;
    ghost var seen: set<T> := {};
    while rest != {}
      invariant seen + rest == a && seen !! rest
      invariant common == |seen * b|
      decreases rest
    {
      var o :| o in rest;
      if o in b {
        assert (seen + {o}) * b == seen * b + {o};
        common := common + 1;
      } else {
        assert (seen + {o}) * b == seen * b;
      }
      rest := rest - {o};
      seen := seen + {o};
    }
  }

  /** The second loop of `Jaccard.similarity`, started at |a|. */
  method CountUnion<T(==)>(a: set<T>, b: set<T>) returns (unionSize: nat)
    ensures unionSize == |a + b|
  {
    unionSize := |a|;
    var rest := b;
    ghost var seen: set<T> := {};
    while rest != {}
      invariant seen + rest == b && seen !! rest
      invariant unionSize == |a| + |seen - a|
      decreases rest
    {
      var o :| o in rest;
      if o !in a {
        assert (seen + {o}) - a == (seen - a) + {o};
        unionSize := unionSize + 1;
      } else {
        assert (seen + {o}) - a == seen - a;
      }
      rest := rest - {o};
      seen := seen + {o};
    }
    UnionCard(a, b);
  }

  lemma UnionCard<T>(a: set<T>, b: set<T>)
    ensures |a + b| == |a| + |b - a|
  {
    assert a + b == a + (b - a) && a !! (b - a);
  }

  /** The similarity lies in [0, 1]. */
  lemma JaccardBounds<T>(a: set<T>, b: set<T>)
    requires a + b != {}
    ensures 0.0 <= GoogleJaccard(a, b) <= 1.0
  {
    SubsetCard(a * b, a + b);
    var n, d := |a * b| as real, |a + b| as real;
    DivAtMostOne(n, d);
  }

  lemma DivAtMostOne(n: real, d: real)
    requires 0.0 <= n <= d && d > 0.0
    ensures 0.0 <= n / d <= 1.0
  {
    var q := n / d;
    assert q * d == n;
  }

  /** Identical non-empty sets are fully similar, disjoint sets not at all. */
  lemma JaccardExtremes<T>(a: set<T>, b: set<T>)
    requires a + b != {}
    ensures a == b ==> GoogleJaccard(a, b) == 1.0
    ensures a * b == {} ==> GoogleJaccard(a, b) == 0.0
  {
    var d := |a + b| as real;
    assert d > 0.0;
    if a == b {
      assert a * b == a + b;
      assert d / d == 1.0;
    }
    if a * b == {} {
      assert |a * b| == 0;
      assert 0.0 / d == 0.0;
    }
  }

  /** The swap makes the view form symmetric in its arguments. */
  lemma GoogleJaccardSymmetric<T>(a: set<T>, b: set<T>)
    requires a + b != {}
    ensures GoogleJaccard(a, b) == GoogleJaccard(b, a)
  {
    assert a * b == b * a && a + b == b + a;
  }
}
