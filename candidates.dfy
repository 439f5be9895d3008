/** A scored cell of a similarity matrix, its ordering by score, and the
    descending sort the greedy bipartite selection runs over the cells. */
module Candidates {

  /** Row a, column b and score c of one matrix cell. */
  datatype MatchingIndices = MatchingIndices(a: int, b: int, c: real)

  /** The constructor `MatchingIndices(i, j, d)` stores (a, b, c) = (i, j, d). */
  function MakeIndices(i: int, j: int, d: real): (r: MatchingIndices)
    ensures r.a == i && r.b == j && r.c == d
  {
    MatchingIndices(i, j, d)
  }

  /** `compareTo`: Double.compare of the two scores, the indices play no part. */
  function CompareTo(x: MatchingIndices, o: MatchingIndices): (r: int)
    ensures r < 0 <==> x.c < o.c
    ensures r == 0 <==> x.c == o.c
    ensures r > 0 <==> x.c > o.c
  {
    if x.c < o.c then -1 else if x.c > o.c then 1 else 0
  }

  /** Equal scores compare equal, whatever the indices. */
  lemma CompareIgnoresIndices(x: MatchingIndices, o: MatchingIndices)
    requires x.c == o.c
    ensures CompareTo(x, o) == 0 && CompareTo(o, x) == 0
  {
  }

  /** Antisymmetry: swapping the operands flips the sign. */
  lemma CompareAntisymmetric(x: MatchingIndices, o: MatchingIndices)
    ensures CompareTo(x, o) < 0 <==> CompareTo(o, x) > 0
    ensures CompareTo(x, o) == 0 <==> CompareTo(o, x) == 0
  {
  }

  /** Transitivity of "at most", so compareTo is a total preorder. */
  lemma CompareTransitive(x: MatchingIndices, y: MatchingIndices, z: MatchingIndices)
    requires CompareTo(x, y) <= 0 && CompareTo(y, z) <= 0
    ensures CompareTo(x, z) <= 0
  {
  }

  /** Non-increasing by score: the order of `Collections.reverseOrder()`. */
  ghost predicate SortedDesc(s: seq<MatchingIndices>)
  {
    forall p, q :: 0 <= p < q < |s| ==> s[p].c >= s[q].c
  }

  /** An element scoring at least every element of a sorted list may go
      in front of it. */
  lemma PrependSorted(h: MatchingIndices, t: seq<MatchingIndices>)
    requires SortedDesc(t) && forall k :: 0 <= k < |t| ==> t[k].c <= h.c
    ensures SortedDesc([h] + t)
  {
  }

  /** A rearrangement of s1 plus x scores at most c when they all do. */
  lemma ScoresBounded(t: seq<MatchingIndices>, s1: seq<MatchingIndices>, x: MatchingIndices, c: real)
    requires multiset(t) == multiset(s1) + multiset{x}
    requires x.c <= c && forall k :: 0 <= k < |s1| ==> s1[k].c <= c
    ensures forall k :: 0 <= k < |t| ==> t[k].c <= c
  {
    forall k | 0 <= k < |t|
      ensures t[k].c <= c
    {
      assert t[k] in multiset(t);
      if t[k] != x {
        assert t[k] in multiset(s1);
      }
    }
  }

  /** Put x after every element whose score is at least x's. */
  function Insert(x: MatchingIndices, s: seq<MatchingIndices>): (r: seq<MatchingIndices>)
    requires SortedDesc(s)
    ensures SortedDesc(r)
    ensures multiset(r) == multiset(s) + multiset{x}
    ensures |r| == |s| + 1
  {
    if s == [] then [x]
    else if s[0].c >= x.c then
      assert s == [s[0]] + s[1..];
      var t := Insert(x, s[1..]);
      ScoresBounded(t, s[1..], x, s[0].c);
      PrependSorted(s[0], t);
      [s[0]] + t
    else
      PrependSorted(x, s);
      [x] + s
  }

  /** `Collections.sort(list, Collections.reverseOrder())`: a stable sort by
      non-increasing score (insertion sort; ties keep their input order). */
  function SortDesc(s: seq<MatchingIndices>): (r: seq<MatchingIndices>)
    ensures SortedDesc(r)
    ensures multiset(r) == multiset(s)
    ensures |r| == |s|
  {
    if s == [] then []
    else
      assert s == s[..|s| - 1] + [s[|s| - 1]];
      Insert(s[|s| - 1], SortDesc(s[..|s| - 1]))
  }
}
