/** The two java.lang.String operations the library relies on for labels:
    `split(" ")`, which turns a label into its tokens, and `trim()`, which
    the label normaliser applies. Both are written out, character by
    character, as the JDK defines them. */
module Words {

  /** Every piece between spaces, including empty ones: "a  b " has the
      four pieces "a", "", "b", "". */
  function Pieces(s: string): (r: seq<string>)
    ensures |r| >= 1
    decreases |s|
  {
    if s == [] then [""]
    else if s[0] == ' ' then [""] + Pieces(s[1..])
    else
      var p := Pieces(s[1..]);
      [[s[0]] + p[0]] + p[1..]
  }

  /** Gluing pieces back together with one space between each two. */
  function Join(ps: seq<string>): string
  {
    if ps == [] then ""
    else if |ps| == 1 then ps[0]
    else ps[0] + " " + Join(ps[1..])
  }

  /** The pieces contain no space and glue back into the original string. */
  lemma {:induction false} PiecesJoin(s: string)
    ensures Join(Pieces(s)) == s
    ensures forall k :: 0 <= k < |Pieces(s)| ==> ' ' !in Pieces(s)[k]
    decreases |s|
  {
    if s != [] {
      PiecesJoin(s[1..]);
      var p := Pieces(s[1..]);
      if s[0] == ' ' {
        assert Pieces(s) == [""] + p;
        assert Pieces(s)[1..] == p;
        assert s == [' '] + s[1..];
      } else {
        var r := Pieces(s);
        assert r[0] == [s[0]] + p[0];
        assert r[1..] == p[1..];
        if |p| == 1 {
          assert s == [s[0]] + p[0];
        } else {
          assert Join(p) == p[0] + " " + Join(p[1..]);
          assert s == [s[0]] + s[1..];
        }
        forall k | 0 <= k < |r|
          ensures ' ' !in r[k]
        {
          if k > 0 {
            assert r[k] == p[k];
          }
        }
      }
    }
  }

  /** Java drops trailing empty strings from the result of split when the
      limit argument is zero (the one-argument overload). */
  function DropTrailingEmpty(ps: seq<string>): (r: seq<string>)
    ensures |r| <= |ps| && r == ps[..|r|]
    ensures r == [] || r[|r| - 1] != ""
    ensures forall k :: |r| <= k < |ps| ==> ps[k] == ""
  {
    if ps != [] && ps[|ps| - 1] == "" then DropTrailingEmpty(ps[..|ps| - 1])
    else ps
  }

  /** `s.split(" ")`: with no space in s, Java returns the one-element array
      {s} (so "" gives {""}); otherwise it cuts at every space and drops the
      trailing empty pieces (so " " gives the empty array). */
  function Split(s: string): seq<string>
  {
    if ' ' !in s then [s] else DropTrailingEmpty(Pieces(s))
  }

  /** A string made only of spaces, and at least one of them. */
  predicate Blank(s: string)
  {
    |s| > 0 && forall k :: 0 <= k < |s| ==> s[k] == ' '
  }

  /** Every piece of a string of spaces is empty, and there are |s| + 1. */
  lemma {:induction false} PiecesOfSpaces(s: string)
    requires forall k :: 0 <= k < |s| ==> s[k] == ' '
    ensures |Pieces(s)| == |s| + 1
    ensures forall k :: 0 <= k < |Pieces(s)| ==> Pieces(s)[k] == ""
    decreases |s|
  {
    if s != [] {
      PiecesOfSpaces(s[1..]);
    }
  }

  /** A string with a non-space character has a non-empty piece. */
  lemma {:induction false} PiecesOfNonBlank(s: string, k: nat)
    requires k < |s| && s[k] != ' '
    ensures exists m :: 0 <= m < |Pieces(s)| && Pieces(s)[m] != ""
    decreases |s|
  {
    if s[0] != ' ' {
      assert Pieces(s)[0] != "";
    } else {
      PiecesOfNonBlank(s[1..], k - 1);
      var m :| 0 <= m < |Pieces(s[1..])| && Pieces(s[1..])[m] != "";
      assert Pieces(s)[m + 1] == Pieces(s[1..])[m];
    }
  }

  /** The tokens contain no space, they are the leading pieces of s, and
      only empty pieces are dropped. */
  lemma SplitTokens(s: string)
    ensures forall k :: 0 <= k < |Split(s)| ==> ' ' !in Split(s)[k]
    ensures ' ' in s ==> Split(s) == Pieces(s)[..|Split(s)|]
    ensures ' ' in s ==> forall k :: |Split(s)| <= k < |Pieces(s)| ==> Pieces(s)[k] == ""
  {
    PiecesJoin(s);
  }

  /** split(" ") yields no token exactly for a non-empty string of spaces:
      this is the one input on which the word metrics see zero tokens. */
  lemma SplitEmptyIffBlank(s: string)
    ensures |Split(s)| == 0 <==> Blank(s)
  {
    if Blank(s) {
      assert s[0] == ' ';
      PiecesOfSpaces(s);
      assert Split(s) == DropTrailingEmpty(Pieces(s));
    } else if ' ' in s {
      var k :| 0 <= k < |s| && s[k] != ' ';
      PiecesOfNonBlank(s, k);
      var m :| 0 <= m < |Pieces(s)| && Pieces(s)[m] != "";
      assert |Split(s)| > m;
    }
  }

  /** Number of leading characters that `trim` removes (code point <= ' '). */
  function LeadingSpace(s: string): (k: nat)
    ensures k <= |s|
    ensures forall m :: 0 <= m < k ==> s[m] <= ' '
    ensures k < |s| ==> s[k] > ' '
  {
    if s == [] || s[0] > ' ' then 0 else 1 + LeadingSpace(s[1..])
  }

  /** Length of s after removing trailing characters <= ' '. */
  function TrailingEnd(s: string): (e: nat)
    ensures e <= |s|
    ensures forall m :: e <= m < |s| ==> s[m] <= ' '
    ensures e > 0 ==> s[e - 1] > ' '
  {
    if s == [] || s[|s| - 1] > ' ' then |s| else TrailingEnd(s[..|s| - 1])
  }

  /** `String.trim()`: the longest middle part of s that neither starts nor
      ends with a character <= ' '. */
  function Trim(s: string): (r: string)
    ensures exists i, j :: 0 <= i <= j <= |s| && r == s[i..j]
                             && (forall m :: 0 <= m < i ==> s[m] <= ' ')
                             && (forall m :: j <= m < |s| ==> s[m] <= ' ')
    ensures r == [] || (r[0] > ' ' && r[|r| - 1] > ' ')
  {
    var k := LeadingSpace(s);
    var e := TrailingEnd(s[k..]);
    assert s[k..][..e] == s[k..k + e];
    s[k..][..e]
  }

  /** Trimming a trimmed string changes nothing. */
  lemma TrimIdempotent(s: string)
    ensures Trim(Trim(s)) == Trim(s)
  {
    var t := Trim(s);
    assert LeadingSpace(t) == 0;
    assert t[0..] == t;
    assert TrailingEnd(t) == |t|;
    assert t[..|t|] == t;
  }
}
