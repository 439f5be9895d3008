/** The greedy bipartite selection, as values: which cells it accepts,
    what one acceptance does to the matrix, and what holds when the walk
    over the candidates ends. */
module Greedy {
  import opened Common
  import opened Candidates
  import opened Grids


  /** Cell (i, j) is one of the accepted candidates. */
  predicate AcceptedAt(acc: seq<MatchingIndices>, i: int, j: int)
  {
    exists p :: 0 <= p < |acc| && acc[p].a == i && acc[p].b == j
  }

  /** No two accepted candidates share a row or a column. */
  predicate Monogamous(acc: seq<MatchingIndices>)
  {
    forall p, q :: 0 <= p < q < |acc| ==> acc[p].a != acc[q].a && acc[p].b != acc[q].b
  }

  /** x is a non-zero cell of g with its value. */
  predicate IsCellOf(x: MatchingIndices, g: Grid)
  {
    0 <= x.a < |g| && 0 <= x.b < |g[x.a]| && g[x.a][x.b] != 0.0 && x.c == g[x.a][x.b]
  }

  /** What the greedy selection leaves: the accepted cells with their old
      values, 0 everywhere else. */
  function KeepOnly(g: Grid, n: nat, acc: seq<MatchingIndices>): (r: Grid)
    requires IsRect(g, |g|, n)
    ensures IsRect(r, |g|, n)
  {
    seq(|g|, i requires 0 <= i < |g| => seq(n, j requires 0 <= j < n => if AcceptedAt(acc, i, j) then g[i][j] else 0.0))
  }

  /** Some accepted cell shares a row or a column with x and scores at
      least as high. */
  predicate BlockedBy(acc: seq<MatchingIndices>, x: MatchingIndices)
  {
    exists p :: 0 <= p < |acc| && (acc[p].a == x.a || acc[p].b == x.b) && acc[p].c >= x.c
  }

  /** Every non-zero cell that was not accepted lost to an accepted cell in
      its row or its column whose score is at least its own. */
  predicate Blocked(g: Grid, n: nat, acc: seq<MatchingIndices>)
    requires IsRect(g, |g|, n)
  {
    forall i, j :: 0 <= i < |g| && 0 <= j < n && g[i][j] != 0.0 && !AcceptedAt(acc, i, j) ==>
      BlockedBy(acc, MatchingIndices(i, j, g[i][j]))
  }

  /** Dropping the last accepted cell keeps the selection monogamous. */
  lemma MonogamousPrefix(acc: seq<MatchingIndices>)
    requires Monogamous(acc) && acc != []
    ensures Monogamous(acc[..|acc| - 1])
    ensures acc[|acc| - 1].a !in RowsOf(acc[..|acc| - 1])
    ensures acc[|acc| - 1].b !in ColsOf(acc[..|acc| - 1])
  {
  }

  /** In a monogamous selection the accepted cells use |acc| distinct
      rows. */
  lemma {:induction false} MonogamousRows(acc: seq<MatchingIndices>)
    requires Monogamous(acc)
    ensures |RowsOf(acc)| == |acc|
  {
    if acc != [] {
      var p := acc[..|acc| - 1];
      MonogamousPrefix(acc);
      MonogamousRows(p);
      assert RowsOf(acc) == RowsOf(p) + {acc[|acc| - 1].a};
    }
  }

  /** And as many distinct columns. */
  lemma {:induction false} MonogamousCols(acc: seq<MatchingIndices>)
    requires Monogamous(acc)
    ensures |ColsOf(acc)| == |acc|
  {
    if acc != [] {
      var p := acc[..|acc| - 1];
      MonogamousPrefix(acc);
      MonogamousCols(p);
      assert ColsOf(acc) == ColsOf(p) + {acc[|acc| - 1].b};
    }
  }

  /** In a monogamous selection every row and every column holds at most
      one surviving cell. */
  lemma KeepOnlyOnePerLine(g: Grid, n: nat, acc: seq<MatchingIndices>, i: int, j: int, j': int)
    requires IsRect(g, |g|, n) && Monogamous(acc)
    requires 0 <= i < |g| && 0 <= j < n && 0 <= j' < n && j != j'
    ensures KeepOnly(g, n, acc)[i][j] == 0.0 || KeepOnly(g, n, acc)[i][j'] == 0.0
  {
  }

  lemma KeepOnlyOnePerColumn(g: Grid, n: nat, acc: seq<MatchingIndices>, i: int, i': int, j: int)
    requires IsRect(g, |g|, n) && Monogamous(acc)
    requires 0 <= i < |g| && 0 <= i' < |g| && 0 <= j < n && i != i'
    ensures KeepOnly(g, n, acc)[i][j] == 0.0 || KeepOnly(g, n, acc)[i'][j] == 0.0
  {
  }

  /** One acceptance: row a and column b cleared, cell (a, b) set to sim. */
  function ClearLines(h: Grid, n: nat, a: int, b: int, sim: real): (r: Grid)
    requires IsRect(h, |h|, n)
    ensures IsRect(r, |h|, n)
  {
    seq(|h|, i requires 0 <= i < |h| => seq(n, j requires 0 <= j < n =>
      if i == a && j == b then sim else if i == a || j == b then 0.0 else h[i][j]))
  }

  /** The matrix during the walk: accepted cells keep their value of g,
      cells on a taken row or column are cleared, the rest are untouched. */
  ghost predicate Tracks(h: Grid, g: Grid, n: nat, acc: seq<MatchingIndices>)
  {
    IsRect(g, |g|, n) && IsRect(h, |g|, n)
    && forall i, j :: 0 <= i < |g| && 0 <= j < n ==>
         h[i][j] == if AcceptedAt(acc, i, j) then g[i][j]
                    else if i in RowsOf(acc) || j in ColsOf(acc) then 0.0 else g[i][j]
  }

  /** What the walk knows after the first k candidates: the accepted cells
      are monogamous cells of g in falling order, each at least every
      candidate still to come, and each earlier candidate was accepted or
      blocked. */
  ghost predicate Walked(g: Grid, n: nat, cand: seq<MatchingIndices>, acc: seq<MatchingIndices>, k: nat)
  {
    IsRect(g, |g|, n) && k <= |cand|
    && SortedDesc(cand) && multiset(cand) == multiset(NonZeroCells(g))
    && Monogamous(acc) && SortedDesc(acc)
    && (forall p :: 0 <= p < |acc| ==> IsCellOf(acc[p], g))
    && (forall p, q :: 0 <= p < |acc| && k <= q < |cand| ==> acc[p].c >= cand[q].c)
    && (forall q :: 0 <= q < k ==> AcceptedAt(acc, cand[q].a, cand[q].b) || BlockedBy(acc, cand[q]))
  }

  /** The walk starts on the sorted cells with nothing accepted. */
  lemma WalkStart(g: Grid, n: nat, cand: seq<MatchingIndices>)
    requires IsRect(g, |g|, n) && SortedDesc(cand) && multiset(cand) == multiset(NonZeroCells(g))
    ensures Walked(g, n, cand, [], 0) && Tracks(g, g, n, [])
  {
  }

  /** A candidate is a non-zero cell of g. */
  lemma CandidateIsCell(g: Grid, cand: seq<MatchingIndices>, k: nat)
    requires k < |cand| && multiset(cand) == multiset(NonZeroCells(g))
    ensures IsCellOf(cand[k], g)
  {
    assert cand[k] in multiset(cand);
    assert cand[k] in NonZeroCells(g);
  }

  /** A candidate whose row or column is taken is blocked: skip it. */
  lemma SkipStep(g: Grid, n: nat, cand: seq<MatchingIndices>, acc: seq<MatchingIndices>, k: nat)
    requires Walked(g, n, cand, acc, k) && k < |cand|
    requires cand[k].a in RowsOf(acc) || cand[k].b in ColsOf(acc)
    ensures Walked(g, n, cand, acc, k + 1)
  {
    var x := cand[k];
    var p :| 0 <= p < |acc| && (acc[p].a == x.a || acc[p].b == x.b);
    assert acc[p].c >= x.c;
    assert BlockedBy(acc, x);
  }

  /** Appending x adds exactly x's cell to the accepted ones. */
  lemma AcceptedAtAppend(acc: seq<MatchingIndices>, x: MatchingIndices, i: int, j: int)
    ensures AcceptedAt(acc + [x], i, j) <==> AcceptedAt(acc, i, j) || (x.a == i && x.b == j)
  {
    var acc' := acc + [x];
    if AcceptedAt(acc, i, j) {
      var p :| 0 <= p < |acc| && acc[p].a == i && acc[p].b == j;
      assert acc'[p] == acc[p];
    }
    if x.a == i && x.b == j {
      assert acc'[|acc|] == x;
    }
    if AcceptedAt(acc', i, j) {
      var p :| 0 <= p < |acc'| && acc'[p].a == i && acc'[p].b == j;
      if p < |acc| {
        assert acc'[p] == acc[p];
      }
    }
  }

  /** Appending x adds x's row and column to the taken ones. */
  lemma LinesAppend(acc: seq<MatchingIndices>, x: MatchingIndices)
    ensures RowsOf(acc + [x]) == RowsOf(acc) + {x.a}
    ensures ColsOf(acc + [x]) == ColsOf(acc) + {x.b}
  {
    assert (acc + [x])[..|acc|] == acc;
  }

  /** A candidate on a free row and a free column is accepted: the walk
      goes on with it appended. */
  lemma AcceptStep(g: Grid, n: nat, cand: seq<MatchingIndices>, acc: seq<MatchingIndices>, k: nat)
    requires Walked(g, n, cand, acc, k) && k < |cand|
    requires cand[k].a !in RowsOf(acc) && cand[k].b !in ColsOf(acc)
    ensures 0 <= cand[k].a < |g| && 0 <= cand[k].b < n && cand[k].c == g[cand[k].a][cand[k].b]
    ensures Walked(g, n, cand, acc + [cand[k]], k + 1)
  {
    CandidateIsCell(g, cand, k);
    AcceptOrdered(g, n, cand, acc, k);
    AcceptDecided(cand, acc, k);
  }

  /** The appended candidate keeps the accepted cells monogamous, in
      falling order and above every candidate still to come. */
  lemma AcceptOrdered(g: Grid, n: nat, cand: seq<MatchingIndices>, acc: seq<MatchingIndices>, k: nat)
    requires Walked(g, n, cand, acc, k) && k < |cand| && IsCellOf(cand[k], g)
    requires cand[k].a !in RowsOf(acc) && cand[k].b !in ColsOf(acc)
    ensures var acc' := acc + [cand[k]];
            Monogamous(acc') && SortedDesc(acc')
            && (forall p :: 0 <= p < |acc'| ==> IsCellOf(acc'[p], g))
            && (forall p, q :: 0 <= p < |acc'| && k + 1 <= q < |cand| ==> acc'[p].c >= cand[q].c)
  {
    var x := cand[k];
    assert forall p :: 0 <= p < |acc| ==> acc[p].c >= x.c;
    AppendMonogamous(acc, x);
    AppendSorted(acc, x);
    AppendCells(acc, x, g);
    AppendAbove(acc, cand, k);
  }

  /** Appending a cell of g keeps every listed entry a cell of g. */
  lemma AppendCells(acc: seq<MatchingIndices>, x: MatchingIndices, g: Grid)
    requires IsCellOf(x, g) && forall p :: 0 <= p < |acc| ==> IsCellOf(acc[p], g)
    ensures forall p :: 0 <= p < |acc| + 1 ==> IsCellOf((acc + [x])[p], g)
  {
    var acc' := acc + [x];
    assert forall p :: 0 <= p < |acc| ==> acc'[p] == acc[p];
  }

  /** Appending candidate k of a falling list keeps the accepted cells above
      every candidate after k. */
  lemma AppendAbove(acc: seq<MatchingIndices>, cand: seq<MatchingIndices>, k: nat)
    requires k < |cand| && SortedDesc(cand)
    requires forall p, q :: 0 <= p < |acc| && k <= q < |cand| ==> acc[p].c >= cand[q].c
    ensures forall p, q :: 0 <= p < |acc| + 1 && k + 1 <= q < |cand| ==> (acc + [cand[k]])[p].c >= cand[q].c
  {
    var acc' := acc + [cand[k]];
    assert forall p :: 0 <= p < |acc| ==> acc'[p] == acc[p];
  }

  /** A cell on a fresh row and a fresh column keeps a list monogamous. */
  lemma AppendMonogamous(acc: seq<MatchingIndices>, x: MatchingIndices)
    requires Monogamous(acc) && x.a !in RowsOf(acc) && x.b !in ColsOf(acc)
    ensures Monogamous(acc + [x])
  {
    var acc' := acc + [x];
    assert forall p :: 0 <= p < |acc| ==> acc'[p] == acc[p] && acc[p].a != x.a && acc[p].b != x.b;
  }

  /** A cell scoring at most every listed one keeps the list falling. */
  lemma AppendSorted(acc: seq<MatchingIndices>, x: MatchingIndices)
    requires SortedDesc(acc) && forall p :: 0 <= p < |acc| ==> acc[p].c >= x.c
    ensures SortedDesc(acc + [x])
  {
    var acc' := acc + [x];
    assert forall p :: 0 <= p < |acc| ==> acc'[p] == acc[p];
  }

  /** Every candidate up to the appended one is accepted or blocked. */
  lemma AcceptDecided(cand: seq<MatchingIndices>, acc: seq<MatchingIndices>, k: nat)
    requires k < |cand|
    requires forall q :: 0 <= q < k ==> AcceptedAt(acc, cand[q].a, cand[q].b) || BlockedBy(acc, cand[q])
    ensures forall q :: 0 <= q < k + 1 ==>
              AcceptedAt(acc + [cand[k]], cand[q].a, cand[q].b) || BlockedBy(acc + [cand[k]], cand[q])
  {
    var x := cand[k];
    var acc' := acc + [x];
    forall q | 0 <= q < k + 1
      ensures AcceptedAt(acc', cand[q].a, cand[q].b) || BlockedBy(acc', cand[q])
    {
      AcceptedAtAppend(acc, x, cand[q].a, cand[q].b);
      if q < k && !AcceptedAt(acc, cand[q].a, cand[q].b) {
        var p :| 0 <= p < |acc| && (acc[p].a == cand[q].a || acc[p].b == cand[q].b) && acc[p].c >= cand[q].c;
        assert acc'[p] == acc[p];
      }
    }
  }

  /** Clearing the lines of an accepted candidate keeps the matrix tracked. */
  lemma ClearStep(h: Grid, g: Grid, n: nat, acc: seq<MatchingIndices>, x: MatchingIndices)
    requires Tracks(h, g, n, acc)
    requires 0 <= x.a < |g| && 0 <= x.b < n && x.c == g[x.a][x.b]
    requires x.a !in RowsOf(acc) && x.b !in ColsOf(acc)
    ensures Tracks(ClearLines(h, n, x.a, x.b, x.c), g, n, acc + [x])
  {
    var acc' := acc + [x];
    var h' := ClearLines(h, n, x.a, x.b, x.c);
    LinesAppend(acc, x);
    forall i, j | 0 <= i < |g| && 0 <= j < n
      ensures h'[i][j] == if AcceptedAt(acc', i, j) then g[i][j]
                          else if i in RowsOf(acc') || j in ColsOf(acc') then 0.0 else g[i][j]
    {
      AcceptedAtAppend(acc, x, i, j);
      if AcceptedAt(acc, i, j) {
        var p :| 0 <= p < |acc| && acc[p].a == i && acc[p].b == j;
        assert i in RowsOf(acc) && j in ColsOf(acc);
      }
    }
  }

  /** When the walk ends, because the candidates ran out or because every
      row or every column is taken, every non-zero cell it did not accept
      is blocked. */
  lemma GreedyBlocked(g: Grid, n: nat, cand: seq<MatchingIndices>, acc: seq<MatchingIndices>, k: nat)
    requires Walked(g, n, cand, acc, k)
    requires k == |cand| || |acc| == MinNat(|g|, n)
    ensures Blocked(g, n, acc)
  {
    forall i, j | 0 <= i < |g| && 0 <= j < n && g[i][j] != 0.0 && !AcceptedAt(acc, i, j)
      ensures BlockedBy(acc, MatchingIndices(i, j, g[i][j]))
    {
      var x := MatchingIndices(i, j, g[i][j]);
      CellListed(g, n, i, j);
      assert x in multiset(cand);
      var q :| 0 <= q < |cand| && cand[q] == x;
      if q >= k {
        LineTaken(g, n, acc, i, j);
        var p :| 0 <= p < |acc| && (acc[p].a == i || acc[p].b == j);
        assert acc[p].c >= cand[q].c;
      }
    }
  }

  /** Every non-zero cell of g is listed. */
  lemma CellListed(g: Grid, n: nat, i: int, j: int)
    requires IsRect(g, |g|, n) && 0 <= i < |g| && 0 <= j < n && g[i][j] != 0.0
    ensures MatchingIndices(i, j, g[i][j]) in NonZeroCells(g)
  {
  }

  /** With min(rows, columns) monogamous acceptances every row or every
      column is taken. */
  lemma LineTaken(g: Grid, n: nat, acc: seq<MatchingIndices>, i: int, j: int)
    requires IsRect(g, |g|, n) && 0 <= i < |g| && 0 <= j < n
    requires Monogamous(acc) && forall p :: 0 <= p < |acc| ==> IsCellOf(acc[p], g)
    requires |acc| == MinNat(|g|, n)
    ensures exists p :: 0 <= p < |acc| && (acc[p].a == i || acc[p].b == j)
  {
    MonogamousRows(acc);
    MonogamousCols(acc);
    if |g| <= n {
      assert forall x :: x in RowsOf(acc) ==> 0 <= x < |g|;
      SubsetOfRangeFull(RowsOf(acc), |g|);
      assert i in RowsOf(acc);
    } else {
      assert forall x :: x in ColsOf(acc) ==> 0 <= x < n;
      SubsetOfRangeFull(ColsOf(acc), n);
      assert j in ColsOf(acc);
    }
  }

  /** A tracked matrix in which every unaccepted non-zero cell is blocked
      holds exactly the accepted cells. */
  lemma GreedyKeeps(h: Grid, g: Grid, n: nat, acc: seq<MatchingIndices>)
    requires Tracks(h, g, n, acc) && Blocked(g, n, acc)
    ensures h == KeepOnly(g, n, acc)
  {
    var r := KeepOnly(g, n, acc);
    forall i | 0 <= i < |g|
      ensures h[i] == r[i]
    {
      forall j | 0 <= j < n
        ensures h[i][j] == r[i][j]
      {
        if !AcceptedAt(acc, i, j) && g[i][j] != 0.0 {
          assert BlockedBy(acc, MatchingIndices(i, j, g[i][j]));
          var p :| 0 <= p < |acc| && (acc[p].a == i || acc[p].b == j) && acc[p].c >= g[i][j];
          assert i in RowsOf(acc) || j in ColsOf(acc);
        }
      }
    }
  }

  /** A monogamous selection within a rows x columns matrix has at most
      min(rows, columns) cells. */
  lemma MonogamousBound(g: Grid, n: nat, acc: seq<MatchingIndices>)
    requires IsRect(g, |g|, n) && Monogamous(acc) && forall p :: 0 <= p < |acc| ==> IsCellOf(acc[p], g)
    ensures |acc| <= MinNat(|g|, n)
  {
    MonogamousRows(acc);
    MonogamousCols(acc);
    SubsetOfRangeCard(RowsOf(acc), |g|);
    SubsetOfRangeCard(ColsOf(acc), n);
  }
  /** What a monogamous selection leaves is monogamous again when read
      back as the list of non-zero cells. */
  lemma KeptCellsMonogamous(g: Grid, n: nat, acc: seq<MatchingIndices>)
    requires IsRect(g, |g|, n) && Monogamous(acc)
    ensures Monogamous(NonZeroCells(KeepOnly(g, n, acc)))
    ensures |NonZeroCells(KeepOnly(g, n, acc))| <= MinNat(|g|, n)
  {
    var h := KeepOnly(g, n, acc);
    var cs := NonZeroCells(h);
    NonZeroCellsRowMajor(h);
    forall p, q | 0 <= p < q < |cs|
      ensures cs[p].a != cs[q].a && cs[p].b != cs[q].b
    {
      assert cs[p] in cs && cs[q] in cs;
      if cs[p].a == cs[q].a {
        KeepOnlyOnePerLine(g, n, acc, cs[p].a, cs[p].b, cs[q].b);
      } else if cs[p].b == cs[q].b {
        KeepOnlyOnePerColumn(g, n, acc, cs[p].a, cs[q].a, cs[p].b);
      }
    }
    assert forall p :: 0 <= p < |cs| ==> cs[p] in cs;
    MonogamousBound(h, n, cs);
  }

  /** After a threshold at th, every cell the selection keeps scored at
      least th and kept its score. */
  lemma KeptCellsAboveThreshold(g: Grid, n: nat, th: real, acc: seq<MatchingIndices>)
    requires IsRect(g, |g|, n)
    ensures var cs := NonZeroCells(KeepOnly(Threshold(g, th), n, acc));
            forall k :: 0 <= k < |cs| ==>
              0 <= cs[k].a < |g| && 0 <= cs[k].b < n && cs[k].c >= th && cs[k].c == g[cs[k].a][cs[k].b]
  {
    var t := Threshold(g, th);
    ThresholdCells(g, th);
    var h := KeepOnly(t, n, acc);
    var cs := NonZeroCells(h);
    forall k | 0 <= k < |cs|
      ensures 0 <= cs[k].a < |g| && 0 <= cs[k].b < n && cs[k].c >= th && cs[k].c == g[cs[k].a][cs[k].b]
    {
      assert cs[k] in cs;
    }
  }
}
