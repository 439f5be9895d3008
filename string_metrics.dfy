/** The string-similarity family. The whole-string metrics hand both labels
    to a Lucene primitive; the word metrics tokenise with split(" ") and
    call a token pair a near match when the Lucene Levenshtein primitive
    gives a value strictly above a threshold. Lucene's primitives and the
    token weighter are parameters: nothing is assumed about them beyond
    what the comparisons in the code use. */
module StringMetrics {
  import opened Common
  import opened Words
  import opened Prepared

  /** The three Lucene primitives (`LevensteinDistance`, `NGramDistance`,
      `JaroWinklerDistance`), each a `getDistance(a, b)`. */
  datatype Lucene = Lucene(
    levenshtein: (string, string) -> real,
    ngram: (string, string) -> real,
    jaroWinkler: (string, string) -> real)

  /** The `StringSimilarity` implementations. The weighted ones carry the
      weighter and the `levenshteinThreshold` they were constructed with;
      `Jaro` is the class of that name, which calls JaroWinklerDistance. */
  datatype Metric =
    | Levenshtein
    | NGram
    | Jaro
    | ByWordLevenshtein
    | AFocusedByWordLevenshtein
    | WeightedByWordLevenshtein(weighter: string -> real, threshold: real)
    | WeightedByWordAndPositionLevenshtein(weighter: string -> real, threshold: real)

  /** Default threshold of the weighted word metrics, and the literal
      threshold of ByWordLevenshtein and AFocusedByWordLevenshtein. */
  const DefaultThreshold: real := 0.8

  // ---------------------------------------------------------------------
  // Specification of the token scan shared by all word metrics

  /** The index of the first token of tw that near-matches w, or |tw|. */
  function FirstNear(ld: (string, string) -> real, th: real, w: string, tw: seq<string>): (j: nat)
    ensures j <= |tw|
    ensures j < |tw| ==> ld(w, tw[j]) > th
    ensures forall k :: 0 <= k < j ==> !(ld(w, tw[k]) > th)
  {
    if tw == [] then 0
    else if ld(w, tw[0]) > th then 0
    else 1 + FirstNear(ld, th, w, tw[1..])
  }

  /** The number of tokens of sw that near-match some token of tw: each
      counts once, however many tokens of tw match it. */
  function NearCount(ld: (string, string) -> real, th: real, sw: seq<string>, tw: seq<string>): (m: nat)
    ensures m <= |sw|
  {
    if sw == [] then 0
    else NearCount(ld, th, sw[..|sw| - 1], tw) + (if FirstNear(ld, th, sw[|sw| - 1], tw) < |tw| then 1 else 0)
  }

  /** When every token of sw has a near match, all of them are counted. */
  lemma {:induction false} NearCountAll(ld: (string, string) -> real, th: real, sw: seq<string>, tw: seq<string>)
    requires forall i :: 0 <= i < |sw| ==> FirstNear(ld, th, sw[i], tw) < |tw|
    ensures NearCount(ld, th, sw, tw) == |sw|
  {
    if sw != [] {
      NearCountAll(ld, th, sw[..|sw| - 1], tw);
    }
  }

  /** The inner loop of every word metric: scan tw for the first token that
      near-matches w (the `continue outer` leaves at that token). */
  method FindNear(ld: (string, string) -> real, th: real, w: string, tw: seq<string>) returns (j: nat)
    ensures j <= |tw|
    ensures j < |tw| ==> ld(w, tw[j]) > th
    ensures forall k :: 0 <= k < j ==> !(ld(w, tw[k]) > th)
    ensures j == FirstNear(ld, th, w, tw)
  {
    j := 0;
    while j < |tw| && !(ld(w, tw[j]) > th)
      invariant j <= |tw|
      invariant forall k :: 0 <= k < j ==> !(ld(w, tw[k]) > th)
    {
      j := j + 1;
    }
    var f := FirstNear(ld, th, w, tw);
    assert !(f < j) && !(j < f);
  }

  /** The outer loop of ByWordLevenshtein and AFocusedByWordLevenshtein:
      `matching += 1` for every token of sw with a near match in tw. */
  method CountNear(ld: (string, string) -> real, th: real, sw: seq<string>, tw: seq<string>) returns (m: nat)
    ensures m == NearCount(ld, th, sw, tw)
  {
    m := 0;
    var i := 0;
    while i < |sw|
      invariant i <= |sw|
      invariant m == NearCount(ld, th, sw[..i], tw)
    {
      var j := FindNear(ld, th, sw[i], tw);
      assert sw[..i + 1][..i] == sw[..i];
      if j < |tw| {
        m := m + 1;
      }
      i := i + 1;
    }
    assert sw[..i] == sw;
  }

  // ---------------------------------------------------------------------
  // ByWordLevenshtein

  /** ByWordLevenshtein on token lists: matched s-tokens over the longer
      token count, in [0, 1]. */
  function ByWordScore(ld: (string, string) -> real, sw: seq<string>, tw: seq<string>): (r: real)
    requires |sw| + |tw| > 0
    ensures 0.0 <= r <= 1.0
  {
    var mx := MaxNat(|sw|, |tw|);
    FractionBounds(NearCount(ld, DefaultThreshold, sw, tw), mx);
    NearCount(ld, DefaultThreshold, sw, tw) as real / mx as real
  }

  /** `ByWordLevenshtein.similarity(String, String)`: matched s-tokens over
      the longer token count. Both labels made only of spaces would divide
      0 by 0. */
  method ByWordLevenshteinSimilarity(ld: (string, string) -> real, s: string, t: string) returns (r: real)
    requires |Split(s)| + |Split(t)| > 0
    ensures r == ByWordScore(ld, Split(s), Split(t))
  {
    var swords := Split(s);
    var twords := Split(t);
    var matching := CountNear(ld, DefaultThreshold, swords, twords);
    var mx := MaxNat(|swords|, |twords|);
    r := matching as real / mx as real;
  }

  /** A count over a count at least as large lies in [0, 1]. */
  lemma FractionBounds(m: nat, n: nat)
    requires 0 < n && m <= n
    ensures 0.0 <= m as real / n as real <= 1.0
  {
    var q := m as real / n as real;
    assert q * n as real == m as real;
  }

  // ---------------------------------------------------------------------
  // WeightedByWordLevenshtein

  /** The share of s-token sw that matches: its own normalised weight plus
      that of the first near-matching t-token, or nothing. */
  function WeightedCredit(ld: (string, string) -> real, th: real, sw: string, w: real,
                          tw: seq<string>, wt: seq<real>, total: real): real
    requires |wt| == |tw| && total != 0.0
  {
    var j := FirstNear(ld, th, sw, tw);
    if j < |tw| then w / total + wt[j] / total else 0.0
  }

  /** The uncapped `matching` of WeightedByWordLevenshtein: t-tokens are not
      consumed, so one t-token may be credited for several s-tokens. */
  function WeightedMatching(ld: (string, string) -> real, th: real, sw: seq<string>, ws: seq<real>,
                            tw: seq<string>, wt: seq<real>, total: real): real
    requires |ws| == |sw| && |wt| == |tw| && total != 0.0
  {
    if sw == [] then 0.0
    else WeightedMatching(ld, th, sw[..|sw| - 1], ws[..|ws| - 1], tw, wt, total)
         + WeightedCredit(ld, th, sw[|sw| - 1], ws[|ws| - 1], tw, wt, total)
  }

  /** WeightedByWordLevenshtein on token lists weighed by w, capped at 1. */
  function WeightedScore(ld: (string, string) -> real, th: real, w: string -> real,
                         sw: seq<string>, tw: seq<string>): (r: real)
    requires Sum(Weigh(w, sw)) + Sum(Weigh(w, tw)) != 0.0
    ensures r <= 1.0
  {
    var ws, wt := Weigh(w, sw), Weigh(w, tw);
    Min(WeightedMatching(ld, th, sw, ws, tw, wt, Sum(ws) + Sum(wt)), 1.0)
  }

  /** The constructors: threshold 0.8 by default, or the given one. */
  function NewWeightedByWordLevenshtein(weighter: string -> real): (m: Metric)
    ensures m.WeightedByWordLevenshtein? && m.weighter == weighter && m.threshold == 0.8
  {
    WeightedByWordLevenshtein(weighter, DefaultThreshold)
  }

  function NewWeightedByWordLevenshteinWithThreshold(weighter: string -> real, th: real): (m: Metric)
    ensures m.WeightedByWordLevenshtein? && m.weighter == weighter && m.threshold == th
  {
    WeightedByWordLevenshtein(weighter, th)
  }

  /** The first two loops of the weighted metrics: the sum of all weights
      of both labels. */
  method SumWeights(s: PreparedString, t: PreparedString) returns (sum: real)
    requires s.Valid() && t.Valid()
    ensures sum == Sum(s.weights[..]) + Sum(t.weights[..])
  {
    sum := 0.0;
    var i := 0;
    while i < |s.words|
      invariant i <= |s.words|
      invariant sum == Sum(s.weights[..i])
    {
      assert s.weights[..i + 1][..i] == s.weights[..i];
      sum := sum + s.weights[i];
      i := i + 1;
    }
    assert s.weights[..i] == s.weights[..];
    ghost var sSum := sum;
    i := 0;
    while i < |t.words|
      invariant i <= |t.words|
      invariant sum == sSum + Sum(t.weights[..i])
    {
      assert t.weights[..i + 1][..i] == t.weights[..i];
      sum := sum + t.weights[i];
      i := i + 1;
    }
    assert t.weights[..i] == t.weights[..];
  }

  /** `WeightedByWordLevenshtein.similarity(PreparedString, PreparedString)`:
      matched s-tokens add their normalised weight and that of their first
      near-matching t-token; the total is capped at 1. */
  method WeightedSimilarity(ld: (string, string) -> real, th: real, s: PreparedString, t: PreparedString)
    returns (r: real)
    requires s.Valid() && t.Valid()
    requires Sum(s.weights[..]) + Sum(t.weights[..]) != 0.0
    ensures r == Min(WeightedMatching(ld, th, s.words, s.weights[..], t.words, t.weights[..],
                                      Sum(s.weights[..]) + Sum(t.weights[..])), 1.0)
    ensures r <= 1.0
  {
    var swords := s.words;
    var twords := t.words;
    var sumWeights := SumWeights(s, t);
    ghost var ws := s.weights[..];
    ghost var wt := t.weights[..];
    var matching := 0.0;
    var i := 0;
    while i < |swords|
      invariant i <= |swords|
      invariant matching == WeightedMatching(ld, th, swords[..i], ws[..i], twords, wt, sumWeights)
    {
      var sWeight := s.weights[i] / sumWeights;
      var j := FindNear(ld, th, swords[i], twords);
      assert swords[..i + 1][..i] == swords[..i];
      assert ws[..i + 1][..i] == ws[..i];
      if j < |twords| {
        var tWeight := t.weights[j] / sumWeights;
        matching := matching + sWeight + tWeight;
      }
      i := i + 1;
    }
    assert swords[..i] == swords && ws[..i] == ws;
    r := Min(matching, 1.0);
  }

  /** The two `new PreparedString(_, weighter)` of the String overloads. */
  method PreparePair(s: string, t: string, weighter: string -> real) returns (ps: PreparedString, pt: PreparedString)
    ensures ps.Valid() && ps.words == Split(s) && ps.weights[..] == Weigh(weighter, Split(s))
    ensures pt.Valid() && pt.words == Split(t) && pt.weights[..] == Weigh(weighter, Split(t))
  {
    ps := new PreparedString(s, weighter);
    ghost var ws := ps.weights[..];
    pt := new PreparedString(t, weighter);
    assert ps.Valid() && ps.weights[..] == ws;
  }

  /** `WeightedByWordLevenshtein.similarity(String, String)`: the same as the
      prepared overload on freshly prepared strings. */
  method WeightedSimilarityOfStrings(ld: (string, string) -> real, th: real, weighter: string -> real,
                                    s: string, t: string) returns (r: real)
    requires Sum(Weigh(weighter, Split(s))) + Sum(Weigh(weighter, Split(t))) != 0.0
    ensures r == WeightedScore(ld, th, weighter, Split(s), Split(t))
  {
    var ps, pt := PreparePair(s, t, weighter);
    r := WeightedSimilarity(ld, th, ps, pt);
  }

  /** Because t-tokens are not consumed, the uncapped sum can exceed 1: two
      identical s-tokens both credit the one t-token ("a a" against "a",
      unit weights, a primitive that scores every pair 1). The cap
      `min(matching, 1.0)` is what keeps the result at 1. */
  lemma WeightedCanExceedOne()
    ensures WeightedMatching((x: string, y: string) => 1.0, 0.8, ["a", "a"], [1.0, 1.0], ["a"], [1.0], 3.0) == 4.0 / 3.0
  {
    var ld := (x: string, y: string) => 1.0;
    assert FirstNear(ld, 0.8, "a", ["a"]) == 0;
    assert ["a", "a"][..1] == ["a"];
    assert [1.0, 1.0][..1] == [1.0];
    assert ["a"][..0] == [];
  }

  /** Token i of sw near-matches itself before any other token of sw. */
  predicate OwnFirstNear(ld: (string, string) -> real, th: real, sw: seq<string>, i: nat)
    requires i < |sw|
  {
    FirstNear(ld, th, sw[i], sw) == i
  }

  /** Self-similarity: when every token's first near match in its own label
      is itself (no repeated-token ambiguity) and the weights do not sum to
      zero, the weighted metric of a label against itself is 1. */
  lemma WeightedSelfSimilarity(ld: (string, string) -> real, th: real, sw: seq<string>, ws: seq<real>)
    requires |ws| == |sw|
    requires Sum(ws) != 0.0
    requires forall i :: 0 <= i < |sw| ==> OwnFirstNear(ld, th, sw, i)
    ensures WeightedMatching(ld, th, sw, ws, sw, ws, Sum(ws) + Sum(ws)) == 1.0
  {
    var total := Sum(ws) + Sum(ws);
    SelfPrefix(ld, th, sw, ws, |sw|, total);
    assert sw[..|sw|] == sw && ws[..|ws|] == ws;
    DivSelf(Sum(ws) + Sum(ws));
  }

  lemma DivSelf(x: real)
    requires x != 0.0
    ensures x / x == 1.0
  {
  }

  lemma {:induction false} SelfPrefix(ld: (string, string) -> real, th: real, sw: seq<string>, ws: seq<real>,
                                      n: nat, total: real)
    requires |ws| == |sw| && n <= |sw| && total != 0.0
    requires forall i :: 0 <= i < |sw| ==> OwnFirstNear(ld, th, sw, i)
    ensures WeightedMatching(ld, th, sw[..n], ws[..n], sw, ws, total) == (Sum(ws[..n]) + Sum(ws[..n])) / total
  {
    if n > 0 {
      SelfPrefix(ld, th, sw, ws, n - 1, total);
      var a := Sum(ws[..n - 1]) + Sum(ws[..n - 1]);
      var w := ws[n - 1];
      assert sw[..n][..n - 1] == sw[..n - 1];
      assert ws[..n][..n - 1] == ws[..n - 1];
      assert OwnFirstNear(ld, th, sw, n - 1);
      assert WeightedCredit(ld, th, sw[n - 1], w, sw, ws, total) == w / total + w / total;
      assert WeightedMatching(ld, th, sw[..n], ws[..n], sw, ws, total)
          == WeightedMatching(ld, th, sw[..n - 1], ws[..n - 1], sw, ws, total)
             + WeightedCredit(ld, th, sw[n - 1], w, sw, ws, total);
      assert Sum(ws[..n]) == Sum(ws[..n - 1]) + w;
      ghost var prev := WeightedMatching(ld, th, sw[..n - 1], ws[..n - 1], sw, ws, total);
      assert prev == a / total;
      DivAdd3(a, w, w, total);
      assert Sum(ws[..n]) + Sum(ws[..n]) == a + w + w;
      DivCongruent(Sum(ws[..n]) + Sum(ws[..n]), a + w + w, total);
    } else {
      assert sw[..0] == [] && ws[..0] == [];
      assert (Sum(ws[..0]) + Sum(ws[..0])) / total == 0.0 / total;
    }
  }

  lemma DivCongruent(x: real, y: real, d: real)
    requires x == y && d != 0.0
    ensures x / d == y / d
  {
  }

  lemma DivAdd3(a: real, b: real, c: real, d: real)
    requires d != 0.0
    ensures a / d + (b / d + c / d) == (a + b + c) / d
  {
    assert a / d * d == a && b / d * d == b && c / d * d == c;
    assert (a / d + (b / d + c / d)) * d == a + b + c;
  }

  // ---------------------------------------------------------------------
  // AFocusedByWordLevenshtein

  /** The score formula of `AFocusedByWordLevenshtein._similarity`: 0.8 of
      the match ratio over s's tokens plus 0.2 of that over the longer token
      list. It lies in [0, 1] and is 1 exactly when every s-token matches
      and s has at least as many tokens as t. Zero s-tokens would divide by
      zero. */
  function AFocusedScore(matching: nat, ns: nat, nt: nat): (r: real)
    requires 0 < ns && matching <= ns
    ensures 0.0 <= r <= 1.0
    ensures r == 1.0 <==> matching == ns && ns >= nt
  {
    var mx := MaxNat(ns, nt);
    FractionBounds(matching, ns);
    FractionBounds(matching, mx);
    if matching == ns && ns >= nt then
      DivSelf(ns as real);
      (matching as real / ns as real) * 0.8 + (matching as real / mx as real) * 0.2
    else
      FractionBelowOne(matching, ns, mx);
      (matching as real / ns as real) * 0.8 + (matching as real / mx as real) * 0.2
  }

  /** When not both ratios are full, one of them is strictly below 1. */
  lemma FractionBelowOne(m: nat, n: nat, mx: nat)
    requires 0 < n <= mx && m <= n
    requires !(m == n && n == mx)
    ensures m as real / n as real < 1.0 || m as real / mx as real < 1.0
  {
    if m < n {
      var q := m as real / n as real;
      assert q * n as real == m as real;
    } else {
      var q := m as real / mx as real;
      assert q * mx as real == m as real;
    }
  }

  /** `AFocusedByWordLevenshtein._similarity`. The literal 0.8 is used as
      threshold; the `levenshteinThreshold` field is never read. */
  method AFocusedSimilarityOfWords(ld: (string, string) -> real, swords: seq<string>, twords: seq<string>)
    returns (r: real)
    requires |swords| > 0
    ensures r == AFocusedScore(NearCount(ld, 0.8, swords, twords), |swords|, |twords|)
  {
    var matching := CountNear(ld, 0.8, swords, twords);
    var mx := MaxNat(|swords|, |twords|);
    r := ((matching as real / |swords| as real) * 0.8) + ((matching as real / mx as real) * 0.2);
  }

  /** Every s-token matching and s having at least as many tokens as t give 1. */
  lemma AFocusedFullMatch(ld: (string, string) -> real, swords: seq<string>, twords: seq<string>)
    requires |swords| > 0 && |swords| >= |twords|
    requires forall i :: 0 <= i < |swords| ==> FirstNear(ld, 0.8, swords[i], twords) < |twords|
    ensures NearCount(ld, 0.8, swords, twords) == |swords|
  {
    NearCountAll(ld, 0.8, swords, twords);
  }

  /** The String overload splits both labels. */
  method AFocusedSimilarity(ld: (string, string) -> real, s: string, t: string) returns (r: real)
    requires |Split(s)| > 0
    ensures r == AFocusedScore(NearCount(ld, 0.8, Split(s), Split(t)), |Split(s)|, |Split(t)|)
  {
    r := AFocusedSimilarityOfWords(ld, Split(s), Split(t));
  }

  /** The PreparedString overload uses the prepared tokens. */
  method AFocusedSimilarityPrepared(ld: (string, string) -> real, s: PreparedString, t: PreparedString)
    returns (r: real)
    requires |s.words| > 0
    ensures r == AFocusedScore(NearCount(ld, 0.8, s.words, t.words), |s.words|, |t.words|)
  {
    r := AFocusedSimilarityOfWords(ld, s.words, t.words);
  }

  // ---------------------------------------------------------------------
  // WeightedByWordAndPositionLevenshtein

  /** `weight *= 0.5` when the matched tokens sit at different positions. */
  function PositionFactor(i: nat, j: nat): real
  {
    if i != j then 0.5 else 1.0
  }

  /** What the scan adds from s-token i onwards, given the current (partly
      zeroed) weight copies ws and wt: a matched pair credits the current
      weights, then both are zeroed so that neither is credited again. */
  function PositionMatching(ld: (string, string) -> real, th: real, sw: seq<string>, tw: seq<string>,
                            ws: seq<real>, wt: seq<real>, total: real, i: nat): real
    requires |ws| == |sw| && |wt| == |tw| && i <= |sw| && total != 0.0
    decreases |sw| - i
  {
    if i == |sw| then 0.0
    else
      var j := FirstNear(ld, th, sw[i], tw);
      if j == |tw| then PositionMatching(ld, th, sw, tw, ws, wt, total, i + 1)
      else (ws[i] / total + wt[j] / total) * PositionFactor(i, j)
           + PositionMatching(ld, th, sw, tw, ws[i := 0.0], wt[j := 0.0], total, i + 1)
  }

  /** One step of the position scan. */
  lemma PositionUnfold(ld: (string, string) -> real, th: real, sw: seq<string>, tw: seq<string>,
                       ws: seq<real>, wt: seq<real>, total: real, i: nat)
    requires |ws| == |sw| && |wt| == |tw| && i < |sw| && total != 0.0
    ensures var j := FirstNear(ld, th, sw[i], tw);
      PositionMatching(ld, th, sw, tw, ws, wt, total, i)
      == if j == |tw| then PositionMatching(ld, th, sw, tw, ws, wt, total, i + 1)
         else (ws[i] / total + wt[j] / total) * PositionFactor(i, j)
              + PositionMatching(ld, th, sw, tw, ws[i := 0.0], wt[j := 0.0], total, i + 1)
  {
  }

  /** Matched weights are zeroed, so no weight is credited twice: with
      non-negative weights the scan from token i adds at most the remaining
      s-weights plus all t-weights, normalised. */
  lemma {:induction false} PositionBound(ld: (string, string) -> real, th: real, sw: seq<string>, tw: seq<string>,
                                         ws: seq<real>, wt: seq<real>, total: real, i: nat)
    requires |ws| == |sw| && |wt| == |tw| && i <= |sw| && total > 0.0
    requires forall k :: 0 <= k < |ws| ==> ws[k] >= 0.0
    requires forall k :: 0 <= k < |wt| ==> wt[k] >= 0.0
    ensures 0.0 <= PositionMatching(ld, th, sw, tw, ws, wt, total, i) <= (Sum(ws[i..]) + Sum(wt)) / total
    decreases |sw| - i, 1
  {
    if i == |sw| {
      SumNonNegative(wt);
      SumNonNegative(ws[i..]);
      DivNonneg(Sum(ws[i..]) + Sum(wt), total);
    } else if FirstNear(ld, th, sw[i], tw) == |tw| {
      SumFrom(ws, i);
      PositionBound(ld, th, sw, tw, ws, wt, total, i + 1);
      SkippedBound(ws[i], PositionMatching(ld, th, sw, tw, ws, wt, total, i + 1), Sum(ws[i + 1..]), Sum(wt), total,
                   PositionMatching(ld, th, sw, tw, ws, wt, total, i), Sum(ws[i..]));
    } else {
      PositionBoundMatched(ld, th, sw, tw, ws, wt, total, i);
    }
  }

  /** The case of PositionBound where token i finds a partner j. */
  lemma {:induction false} PositionBoundMatched(ld: (string, string) -> real, th: real, sw: seq<string>, tw: seq<string>,
                                                ws: seq<real>, wt: seq<real>, total: real, i: nat)
    requires |ws| == |sw| && |wt| == |tw| && i < |sw| && total > 0.0
    requires FirstNear(ld, th, sw[i], tw) < |tw|
    requires forall k :: 0 <= k < |ws| ==> ws[k] >= 0.0
    requires forall k :: 0 <= k < |wt| ==> wt[k] >= 0.0
    ensures 0.0 <= PositionMatching(ld, th, sw, tw, ws, wt, total, i) <= (Sum(ws[i..]) + Sum(wt)) / total
    decreases |sw| - i, 0
  {
    var j := FirstNear(ld, th, sw[i], tw);
    SumFrom(ws, i);
    var ws', wt' := ws[i := 0.0], wt[j := 0.0];
    PositionBound(ld, th, sw, tw, ws', wt', total, i + 1);
    assert ws'[i + 1..] == ws[i + 1..];
    SumUpdate(wt, j, 0.0);
    MatchedBound(ws[i], wt[j], PositionFactor(i, j),
                 PositionMatching(ld, th, sw, tw, ws', wt', total, i + 1),
                 Sum(ws[i + 1..]), Sum(wt), total,
                 PositionMatching(ld, th, sw, tw, ws, wt, total, i), Sum(ws[i..]), Sum(wt'));
  }

  /** The arithmetic of an unmatched token: its weight is credited to
      nobody, so the running bound only grows. */
  lemma SkippedBound(a: real, rest: real, s: real, t: real, total: real, p: real, sa: real)
    requires a >= 0.0 && total > 0.0 && 0.0 <= rest <= (s + t) / total
    requires p == rest && sa == a + s
    ensures 0.0 <= p <= (sa + t) / total
  {
    DivMono(s + t, sa + t, total);
  }

  /** The arithmetic of one matched pair: crediting both weights (halved or
      not) and zeroing the t-weight keeps the running bound. */
  lemma MatchedBound(a: real, b: real, f: real, rest: real, s: real, t: real, total: real, p: real, sa: real, tb: real)
    requires a >= 0.0 && b >= 0.0 && total > 0.0 && (f == 0.5 || f == 1.0)
    requires tb == t - b && 0.0 <= rest <= (s + tb) / total
    requires p == (a / total + b / total) * f + rest && sa == a + s
    ensures 0.0 <= p <= (sa + t) / total
  {
    DivAdd(a, b, total);
    DivNonneg(a, total);
    DivNonneg(b, total);
    DivAdd(a + b, s + (t - b), total);
    assert (a + b) + (s + (t - b)) == (a + s) + t;
  }

  /** Without the cap the position metric already stays within [0, 1] when
      the weights are non-negative and not all zero. */
  lemma PositionAtMostOne(ld: (string, string) -> real, th: real, sw: seq<string>, tw: seq<string>,
                          ws: seq<real>, wt: seq<real>)
    requires |ws| == |sw| && |wt| == |tw| && Sum(ws) + Sum(wt) > 0.0
    requires forall k :: 0 <= k < |ws| ==> ws[k] >= 0.0
    requires forall k :: 0 <= k < |wt| ==> wt[k] >= 0.0
    ensures 0.0 <= PositionMatching(ld, th, sw, tw, ws, wt, Sum(ws) + Sum(wt), 0) <= 1.0
  {
    PositionBound(ld, th, sw, tw, ws, wt, Sum(ws) + Sum(wt), 0);
    assert ws[0..] == ws;
    DivSelf(Sum(ws) + Sum(wt));
  }

  lemma DivAdd(a: real, b: real, d: real)
    requires d != 0.0
    ensures a / d + b / d == (a + b) / d
  {
    assert a / d * d == a && b / d * d == b;
    assert (a / d + b / d) * d == a + b;
  }

  lemma DivNonneg(a: real, d: real)
    requires a >= 0.0 && d > 0.0
    ensures a / d >= 0.0
  {
  }

  lemma DivMono(a: real, b: real, d: real)
    requires a <= b && d > 0.0
    ensures a / d <= b / d
  {
    DivAdd(a, b - a, d);
    DivNonneg(b - a, d);
  }

  /** WeightedByWordAndPositionLevenshtein on token lists weighed by w,
      capped at 1. */
  function PositionScore(ld: (string, string) -> real, th: real, w: string -> real,
                         sw: seq<string>, tw: seq<string>): (r: real)
    requires Sum(Weigh(w, sw)) + Sum(Weigh(w, tw)) != 0.0
    ensures r <= 1.0
  {
    var ws, wt := Weigh(w, sw), Weigh(w, tw);
    Min(PositionMatching(ld, th, sw, tw, ws, wt, Sum(ws) + Sum(wt), 0), 1.0)
  }

  /** The constructor passes the weighter up and keeps the default 0.8. */
  function NewWeightedByWordAndPositionLevenshtein(weighter: string -> real): (m: Metric)
    ensures m.WeightedByWordAndPositionLevenshtein? && m.weighter == weighter && m.threshold == 0.8
  {
    WeightedByWordAndPositionLevenshtein(weighter, DefaultThreshold)
  }

  /** `Arrays.copyOf(a, a.length)`. */
  method CopyOf(a: array<real>) returns (c: array<real>)
    ensures fresh(c) && c[..] == a[..]
  {
    c := new real[a.Length];
    var k := 0;
    while k < a.Length
      invariant k <= a.Length
      invariant forall m :: 0 <= m < k ==> c[m] == a[m]
    {
      c[k] := a[k];
      k := k + 1;
    }
  }

  /** `WeightedByWordAndPositionLevenshtein.similarity(PreparedString,
      PreparedString)`. It works on copies of the weight arrays, so the
      caller's PreparedStrings are not touched (the method modifies
      nothing that existed before the call). */
  method PositionSimilarity(ld: (string, string) -> real, th: real, s: PreparedString, t: PreparedString)
    returns (r: real)
    requires s.Valid() && t.Valid()
    requires Sum(s.weights[..]) + Sum(t.weights[..]) != 0.0
    ensures r == Min(PositionMatching(ld, th, s.words, t.words, s.weights[..], t.weights[..],
                                      Sum(s.weights[..]) + Sum(t.weights[..]), 0), 1.0)
    ensures r <= 1.0
  {
    var swords := s.words;
    var twords := t.words;
    var sweights := CopyOf(s.weights);
    var tweights := CopyOf(t.weights);
    var sumWeights := SumWeights(s, t);
    ghost var goal := PositionMatching(ld, th, swords, twords, s.weights[..], t.weights[..], sumWeights, 0);
    var matching := 0.0;
    var i := 0;
    while i < |swords|
      invariant i <= |swords|
      invariant sweights.Length == |swords| && tweights.Length == |twords|
      invariant matching + PositionMatching(ld, th, swords, twords, sweights[..], tweights[..], sumWeights, i) == goal
      modifies sweights, tweights
    {
      var weight := PositionStep(ld, th, swords, twords, sweights, tweights, sumWeights, i);
      matching := matching + weight;
      i := i + 1;
    }
    r := Min(matching, 1.0);
  }

  /** One pass of the outer loop of the position metric: find the first
      near match of s-token i, credit the current weights of both tokens
      (halved at differing positions), then zero both. */
  method PositionStep(ld: (string, string) -> real, th: real, swords: seq<string>, twords: seq<string>,
                      sweights: array<real>, tweights: array<real>, sumWeights: real, i: nat)
    returns (weight: real)
    requires sweights.Length == |swords| && tweights.Length == |twords|
    requires i < |swords| && sumWeights != 0.0 && sweights != tweights
    modifies sweights, tweights
    ensures weight + PositionMatching(ld, th, swords, twords, sweights[..], tweights[..], sumWeights, i + 1)
            == old(PositionMatching(ld, th, swords, twords, sweights[..], tweights[..], sumWeights, i))
  {
    ghost var cs, ct := sweights[..], tweights[..];
    PositionUnfold(ld, th, swords, twords, cs, ct, sumWeights, i);
    var sWeight := sweights[i] / sumWeights;
    var j := FindNear(ld, th, swords[i], twords);
    weight := 0.0;
    if j < |twords| {
      var tWeight := tweights[j] / sumWeights;
      weight := sWeight + tWeight;
      sweights[i] := 0.0;
      tweights[j] := 0.0;
      if i != j {
        weight := weight * 0.5;
      }
      assert sweights[..] == cs[i := 0.0] && tweights[..] == ct[j := 0.0];
    }
  }

  /** The String overload prepares both labels with the metric's weighter. */
  method PositionSimilarityOfStrings(ld: (string, string) -> real, th: real, weighter: string -> real,
                                    s: string, t: string) returns (r: real)
    requires Sum(Weigh(weighter, Split(s))) + Sum(Weigh(weighter, Split(t))) != 0.0
    ensures r == PositionScore(ld, th, weighter, Split(s), Split(t))
  {
    var ps, pt := PreparePair(s, t, weighter);
    r := PositionSimilarity(ld, th, ps, pt);
  }

  // ---------------------------------------------------------------------
  // The `StringSimilarity` interface: one entry point per overload

  /** The inputs on which a metric's String overload divides by a non-zero
      amount. */
  predicate Defined(m: Metric, s: string, t: string)
  {
    match m
    case ByWordLevenshtein => |Split(s)| + |Split(t)| > 0
    case AFocusedByWordLevenshtein => |Split(s)| > 0
    case WeightedByWordLevenshtein(w, _) => Sum(Weigh(w, Split(s))) + Sum(Weigh(w, Split(t))) != 0.0
    case WeightedByWordAndPositionLevenshtein(w, _) => Sum(Weigh(w, Split(s))) + Sum(Weigh(w, Split(t))) != 0.0
    case _ => true
  }

  /** `similarity(String, String)` of every metric. The word metrics stay
      within [0, 1] on the normalised side: the two count-based ones lie in
      [0, 1], the two weighted ones are capped at 1. */
  function Similarity(lu: Lucene, m: Metric, s: string, t: string): (r: real)
    requires Defined(m, s, t)
    ensures m.ByWordLevenshtein? || m.AFocusedByWordLevenshtein? ==> 0.0 <= r <= 1.0
    ensures m.WeightedByWordLevenshtein? || m.WeightedByWordAndPositionLevenshtein? ==> r <= 1.0
  {
    match m
    case Levenshtein => lu.levenshtein(s, t)
    case NGram => lu.ngram(s, t)
    case Jaro => lu.jaroWinkler(s, t)
    case ByWordLevenshtein => ByWordScore(lu.levenshtein, Split(s), Split(t))
    case AFocusedByWordLevenshtein =>
      AFocusedScore(NearCount(lu.levenshtein, 0.8, Split(s), Split(t)), |Split(s)|, |Split(t)|)
    case WeightedByWordLevenshtein(w, th) => WeightedScore(lu.levenshtein, th, w, Split(s), Split(t))
    case WeightedByWordAndPositionLevenshtein(w, th) => PositionScore(lu.levenshtein, th, w, Split(s), Split(t))
  }

  /** The inputs on which a metric's PreparedString overload divides by a
      non-zero amount. The whole-string metrics and ByWordLevenshtein go
      back to the labels' text. */
  predicate DefinedOnLabels(m: Metric, s: Label, t: Label)
  {
    match m
    case AFocusedByWordLevenshtein => |s.words| > 0
    case WeightedByWordLevenshtein(_, _) => Sum(s.weights) + Sum(t.weights) != 0.0
    case WeightedByWordAndPositionLevenshtein(_, _) => Sum(s.weights) + Sum(t.weights) != 0.0
    case _ => Defined(m, s.text, t.text)
  }

  /** One weight per token. */
  predicate WellFormed(s: Label)
  {
    |s.weights| == |s.words|
  }

  /** `similarity(PreparedString, PreparedString)` of every metric, on the
      labels' contents: the whole-string metrics and ByWordLevenshtein apply
      the String overload to the text; the others read the prepared tokens,
      and the weighted ones the prepared weights (not their own weighter). */
  function LabelSimilarity(lu: Lucene, m: Metric, s: Label, t: Label): (r: real)
    requires WellFormed(s) && WellFormed(t) && DefinedOnLabels(m, s, t)
    ensures m.Levenshtein? || m.NGram? || m.Jaro? || m.ByWordLevenshtein? ==> r == Similarity(lu, m, s.text, t.text)
    ensures m.AFocusedByWordLevenshtein? ==> 0.0 <= r <= 1.0
    ensures m.WeightedByWordLevenshtein? || m.WeightedByWordAndPositionLevenshtein? ==> r <= 1.0
  {
    match m
    case AFocusedByWordLevenshtein =>
      AFocusedScore(NearCount(lu.levenshtein, 0.8, s.words, t.words), |s.words|, |t.words|)
    case WeightedByWordLevenshtein(_, th) =>
      var total := Sum(s.weights) + Sum(t.weights);
      Min(WeightedMatching(lu.levenshtein, th, s.words, s.weights, t.words, t.weights, total), 1.0)
    case WeightedByWordAndPositionLevenshtein(_, th) =>
      var total := Sum(s.weights) + Sum(t.weights);
      Min(PositionMatching(lu.levenshtein, th, s.words, t.words, s.weights, t.weights, total, 0), 1.0)
    case _ => Similarity(lu, m, s.text, t.text)
  }

  /** A label prepared with the metric's own weighter gives the same score
      through either overload. */
  lemma PreparedAgreesWithText(lu: Lucene, m: Metric, s: Label, t: Label)
    requires s.words == Split(s.text) && t.words == Split(t.text)
    requires m.WeightedByWordLevenshtein? || m.WeightedByWordAndPositionLevenshtein? ==>
               s.weights == Weigh(m.weighter, s.words) && t.weights == Weigh(m.weighter, t.words)
    requires !(m.WeightedByWordLevenshtein? || m.WeightedByWordAndPositionLevenshtein?) ==> WellFormed(s) && WellFormed(t)
    requires Defined(m, s.text, t.text)
    ensures WellFormed(s) && WellFormed(t) && DefinedOnLabels(m, s, t)
    ensures LabelSimilarity(lu, m, s, t) == Similarity(lu, m, s.text, t.text)
  {
    match m
    case WeightedByWordLevenshtein(w, th) => WeightedAgrees(lu, w, th, s, t);
    case WeightedByWordAndPositionLevenshtein(w, th) => PositionAgrees(lu, w, th, s, t);
    case AFocusedByWordLevenshtein =>
    case _ =>
  }

  /** The WeightedByWordLevenshtein case of PreparedAgreesWithText. */
  lemma WeightedAgrees(lu: Lucene, w: string -> real, th: real, s: Label, t: Label)
    requires s.words == Split(s.text) && t.words == Split(t.text)
    requires s.weights == Weigh(w, s.words) && t.weights == Weigh(w, t.words)
    requires Sum(s.weights) + Sum(t.weights) != 0.0
    ensures WellFormed(s) && WellFormed(t)
    ensures LabelSimilarity(lu, WeightedByWordLevenshtein(w, th), s, t)
         == WeightedScore(lu.levenshtein, th, w, s.words, t.words)
  {
  }

  /** The WeightedByWordAndPositionLevenshtein case of PreparedAgreesWithText. */
  lemma PositionAgrees(lu: Lucene, w: string -> real, th: real, s: Label, t: Label)
    requires s.words == Split(s.text) && t.words == Split(t.text)
    requires s.weights == Weigh(w, s.words) && t.weights == Weigh(w, t.words)
    requires Sum(s.weights) + Sum(t.weights) != 0.0
    ensures WellFormed(s) && WellFormed(t)
    ensures LabelSimilarity(lu, WeightedByWordAndPositionLevenshtein(w, th), s, t)
         == PositionScore(lu.levenshtein, th, w, s.words, t.words)
  {
  }

  /** The uncapped sum of WeightedByWordLevenshtein is non-negative when
      the weights are. */
  lemma {:induction false} WeightedMatchingNonNegative(ld: (string, string) -> real, th: real, sw: seq<string>, ws: seq<real>,
                                                       tw: seq<string>, wt: seq<real>, total: real)
    requires |ws| == |sw| && |wt| == |tw| && total > 0.0
    requires forall k :: 0 <= k < |ws| ==> ws[k] >= 0.0
    requires forall k :: 0 <= k < |wt| ==> wt[k] >= 0.0
    ensures WeightedMatching(ld, th, sw, ws, tw, wt, total) >= 0.0
  {
    if sw != [] {
      WeightedMatchingNonNegative(ld, th, sw[..|sw| - 1], ws[..|ws| - 1], tw, wt, total);
      var j := FirstNear(ld, th, sw[|sw| - 1], tw);
      DivNonneg(ws[|ws| - 1], total);
      if j < |tw| {
        DivNonneg(wt[j], total);
      }
    }
  }

  /** A weighter that never gives a negative weight keeps the capped
      WeightedByWordLevenshtein score non-negative. */
  lemma WeightedScoreNonNegative(ld: (string, string) -> real, th: real, w: string -> real,
                                 sw: seq<string>, tw: seq<string>)
    requires Sum(Weigh(w, sw)) + Sum(Weigh(w, tw)) != 0.0
    requires forall x :: w(x) >= 0.0
    ensures WeightedScore(ld, th, w, sw, tw) >= 0.0
  {
    var ws, wt := Weigh(w, sw), Weigh(w, tw);
    SumNonNegative(ws);
    SumNonNegative(wt);
    WeightedMatchingNonNegative(ld, th, sw, ws, tw, wt, Sum(ws) + Sum(wt));
  }

  /** The same for the position metric. */
  lemma PositionScoreNonNegative(ld: (string, string) -> real, th: real, w: string -> real,
                                 sw: seq<string>, tw: seq<string>)
    requires Sum(Weigh(w, sw)) + Sum(Weigh(w, tw)) != 0.0
    requires forall x :: w(x) >= 0.0
    ensures PositionScore(ld, th, w, sw, tw) >= 0.0
  {
    var ws, wt := Weigh(w, sw), Weigh(w, tw);
    SumNonNegative(ws);
    SumNonNegative(wt);
    PositionAtMostOne(ld, th, sw, tw, ws, wt);
  }

  /** With a weighter that never gives a negative weight, every word metric
      lies in [0, 1]. */
  lemma WordMetricInUnitInterval(lu: Lucene, m: Metric, s: string, t: string)
    requires Defined(m, s, t)
    requires !(m.Levenshtein? || m.NGram? || m.Jaro?)
    requires m.WeightedByWordLevenshtein? || m.WeightedByWordAndPositionLevenshtein? ==>
               forall x :: m.weighter(x) >= 0.0
    ensures 0.0 <= Similarity(lu, m, s, t) <= 1.0
  {
    match m
    case WeightedByWordLevenshtein(w, th) =>
      WeightedScoreNonNegative(lu.levenshtein, th, w, Split(s), Split(t));
    case WeightedByWordAndPositionLevenshtein(w, th) =>
      PositionScoreNonNegative(lu.levenshtein, th, w, Split(s), Split(t));
    case _ =>
  }

  /** Dispatch of `similarity(String, String)` to the metric's method. */
  method Compute(lu: Lucene, m: Metric, s: string, t: string) returns (r: real)
    requires Defined(m, s, t)
    ensures r == Similarity(lu, m, s, t)
  {
    match m
    case Levenshtein => r := lu.levenshtein(s, t);
    case NGram => r := lu.ngram(s, t);
    case Jaro => r := lu.jaroWinkler(s, t);
    case ByWordLevenshtein => r := ByWordLevenshteinSimilarity(lu.levenshtein, s, t);
    case AFocusedByWordLevenshtein => r := AFocusedSimilarity(lu.levenshtein, s, t);
    case WeightedByWordLevenshtein(w, th) => r := WeightedSimilarityOfStrings(lu.levenshtein, th, w, s, t);
    case WeightedByWordAndPositionLevenshtein(w, th) => r := PositionSimilarityOfStrings(lu.levenshtein, th, w, s, t);
  }

  /** Dispatch of `similarity(PreparedString, PreparedString)`. */
  method ComputePrepared(lu: Lucene, m: Metric, s: PreparedString, t: PreparedString) returns (r: real)
    requires s.Valid() && t.Valid() && DefinedOnLabels(m, s.View(), t.View())
    ensures r == LabelSimilarity(lu, m, s.View(), t.View())
  {
    match m
    case AFocusedByWordLevenshtein => r := AFocusedSimilarityPrepared(lu.levenshtein, s, t);
    case WeightedByWordLevenshtein(_, th) => r := WeightedSimilarity(lu.levenshtein, th, s, t);
    case WeightedByWordAndPositionLevenshtein(_, th) => r := PositionSimilarity(lu.levenshtein, th, s, t);
    case _ => r := Compute(lu, m, s.text, t.text);
  }
}
