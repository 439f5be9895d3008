/** A label tokenised once and weighted once, so that the weighted word
    metrics need not re-tokenise it for every pair they compare. */
module Prepared {
  import opened Common
  import opened Words

  /** The weight of every token, in token order. */
  function Weigh(weigh: string -> real, ws: seq<string>): (r: seq<real>)
    ensures |r| == |ws|
    ensures forall j :: 0 <= j < |ws| ==> r[j] == weigh(ws[j])
  {
    if ws == [] then [] else Weigh(weigh, ws[..|ws| - 1]) + [weigh(ws[|ws| - 1])]
  }

  /** A prepared label read as a value: its text, tokens and weights. */
  datatype Label = Label(text: string, words: seq<string>, weights: seq<real>)

  class PreparedString {
    const text: string
    const words: seq<string>
    const weights: array<real>
    var weightSum: real

    /** One weight per token and weightSum their total. */
    ghost predicate Valid()
      reads this, weights
    {
      weights.Length == |words| && weightSum == Sum(weights[..])
    }

    /** The label's current contents. */
    function View(): (v: Label)
      reads this, weights
      ensures v.text == text && v.words == words && v.weights == weights[..]
    {
      Label(text, words, weights[..])
    }

    /** The constructor: `words = s.split(" ")`, then one call to the
        weighter per token, adding each weight to weightSum as it goes. */
    constructor (s: string, weigh: string -> real)
      ensures text == s && words == Split(s)
      ensures fresh(weights) && weights[..] == Weigh(weigh, words)
      ensures Valid()
    {
      var ws := Split(s);
      var w := new real[|ws|];
      var sum := 0.0;
      var j := 0;
      while j < |ws|
        invariant 0 <= j <= |ws|
        invariant forall k :: 0 <= k < j ==> w[k] == weigh(ws[k])
        invariant sum == Sum(w[..j])
      {
        var weight := weigh(ws[j]);
        w[j] := weight;
        assert w[..j + 1][..j] == w[..j];
        sum := sum + weight;
        j := j + 1;
      }
      assert w[..j] == w[..];
      text := s;
      words := ws;
      weights := w;
      weightSum := sum;
    }
  }
}
