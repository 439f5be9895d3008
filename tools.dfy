/** The entry points of the library: building the similarity matrix of two
    label lists from a list of metrics, the default label mapping, lookup
    of a needle in a table of strings, and label normalisation. */
module Tools {
  import opened Common
  import opened Words
  import opened Candidates
  import opened Grids
  import opened Prepared
  import opened Snapshots
  import opened Greedy
  import opened Matrices
  import opened Hits
  import opened StringMetrics

  // ---------------------------------------------------------------------
  // Building the matrix
  // ---------------------------------------------------------------------

  /** Every pair of labels lies in the domain of m. */
  predicate DefinedOnAll(m: Metric, a: seq<string>, b: seq<string>)
  {
    forall i, j :: 0 <= i < |a| && 0 <= j < |b| ==> Defined(m, a[i], b[j])
  }

  /** One metric's matrix: cell (x, y) is the similarity of a[x] and b[y]. */
  function ScoreGrid(lu: Lucene, m: Metric, a: seq<string>, b: seq<string>): (r: Grid)
    requires DefinedOnAll(m, a, b)
    ensures IsRect(r, |a|, |b|)
  {
    seq(|a|, x requires 0 <= x < |a| => seq(|b|, y requires 0 <= y < |b| => Similarity(lu, m, a[x], b[y])))
  }

  /** The matrix of every metric of a list. */
  function ScoreGrids(lu: Lucene, ms: seq<Metric>, a: seq<string>, b: seq<string>): (r: seq<Grid>)
    requires forall k :: 0 <= k < |ms| ==> DefinedOnAll(ms[k], a, b)
    ensures |r| == |ms| && forall k :: 0 <= k < |ms| ==> r[k] == ScoreGrid(lu, ms[k], a, b)
  {
    seq(|ms|, k requires 0 <= k < |ms| => ScoreGrid(lu, ms[k], a, b))
  }

  /** Every grid of the list is m x n. */
  predicate AllRect(gs: seq<Grid>, m: nat, n: nat)
  {
    forall k :: 0 <= k < |gs| ==> IsRect(gs[k], m, n)
  }

  /** The AGG_AVG branch of `doMatch`: the first matrix averaged with the
      second, that result with the third, and so on. */
  function FoldAvg(gs: seq<Grid>, m: nat, n: nat): (r: Grid)
    requires |gs| > 0 && forall k :: 0 <= k < |gs| ==> IsRect(gs[k], m, n)
    ensures IsRect(r, m, n)
  {
    if |gs| == 1 then gs[0] else AvgGrid(FoldAvg(gs[..|gs| - 1], m, n), gs[|gs| - 1], n)
  }

  /** The matrix `doMatch(a, b, metrics)` computes. */
  function MatchGrid(lu: Lucene, ms: seq<Metric>, a: seq<string>, b: seq<string>): (r: Grid)
    requires |ms| > 0 && forall k :: 0 <= k < |ms| ==> DefinedOnAll(ms[k], a, b)
    ensures IsRect(r, |a|, |b|)
  {
    FoldAvg(ScoreGrids(lu, ms, a, b), |a|, |b|)
  }

  /** Averaging keeps every cell within the bounds all the matrices share. */
  lemma {:induction false} FoldAvgBounds(gs: seq<Grid>, m: nat, n: nat, lo: real, hi: real)
    requires |gs| > 0 && forall k :: 0 <= k < |gs| ==> IsRect(gs[k], m, n)
    requires forall k, i, j :: 0 <= k < |gs| && 0 <= i < |gs[k]| && 0 <= j < |gs[k][i]| ==> lo <= gs[k][i][j] <= hi
    ensures forall i, j :: 0 <= i < m && 0 <= j < n ==> lo <= FoldAvg(gs, m, n)[i][j] <= hi
  {
    if |gs| > 1 {
      var p := gs[..|gs| - 1];
      assert forall k :: 0 <= k < |p| ==> p[k] == gs[k];
      FoldAvgBounds(p, m, n, lo, hi);
    }
  }

  /** Folding copies of one matrix gives that matrix back. */
  lemma {:induction false} FoldAvgSame(gs: seq<Grid>, m: nat, n: nat, g: Grid)
    requires IsRect(g, m, n) && |gs| > 0 && forall k :: 0 <= k < |gs| ==> gs[k] == g
    ensures FoldAvg(gs, m, n) == g
  {
    if |gs| > 1 {
      var p := gs[..|gs| - 1];
      FoldAvgSame(p, m, n, g);
      var r := FoldAvg(gs, m, n);
      forall i | 0 <= i < m
        ensures r[i] == g[i]
      {
      }
    }
  }

  /** Folding one more grid averages it into the running result. */
  lemma FoldAvgStep(gs: seq<Grid>, k: nat, m: nat, n: nat)
    requires 1 <= k < |gs| && AllRect(gs, m, n)
    ensures AllRect(gs[..k], m, n) && AllRect(gs[..k + 1], m, n)
    ensures FoldAvg(gs[..k + 1], m, n) == AvgGrid(FoldAvg(gs[..k], m, n), gs[k], n)
  {
    assert gs[..k + 1][..k] == gs[..k];
  }

  /** With two metrics a cell is the plain mean of the two scores. */
  lemma FoldAvgTwo(gs: seq<Grid>, m: nat, n: nat)
    requires |gs| == 2 && forall k :: 0 <= k < 2 ==> IsRect(gs[k], m, n)
    ensures forall i, j :: 0 <= i < m && 0 <= j < n ==>
              FoldAvg(gs, m, n)[i][j] == (gs[0][i][j] + gs[1][i][j]) / 2.0
  {
    assert gs[..1] == [gs[0]];
  }

  /** With three metrics a cell is ((s0 + s1) / 2 + s2) / 2, so the last
      metric weighs half and the first two a quarter each. */
  lemma FoldAvgThree(gs: seq<Grid>, m: nat, n: nat)
    requires |gs| == 3 && forall k :: 0 <= k < 3 ==> IsRect(gs[k], m, n)
    ensures forall i, j :: 0 <= i < m && 0 <= j < n ==>
              FoldAvg(gs, m, n)[i][j] == ((gs[0][i][j] + gs[1][i][j]) / 2.0 + gs[2][i][j]) / 2.0
  {
    var p := gs[..2];
    assert p[..1] == [gs[0]];
    assert FoldAvg(p, m, n) == AvgGrid(gs[0], gs[1], n);
  }

  /** Hence with three metrics a cell is the plain mean exactly when the
      third score is the mean of the first two. */
  lemma FoldAvgMeanIff(gs: seq<Grid>, m: nat, n: nat)
    requires |gs| == 3 && forall k :: 0 <= k < 3 ==> IsRect(gs[k], m, n)
    ensures forall i, j :: 0 <= i < m && 0 <= j < n ==>
              (FoldAvg(gs, m, n)[i][j] == (gs[0][i][j] + gs[1][i][j] + gs[2][i][j]) / 3.0
               <==> 2.0 * gs[2][i][j] == gs[0][i][j] + gs[1][i][j])
  {
    FoldAvgThree(gs, m, n);
  }

  /** The loop filling one metric's matrix. */
  method FillScores(lu: Lucene, m: Metric, a: seq<string>, b: seq<string>) returns (mat: array2<real>)
    requires DefinedOnAll(m, a, b)
    ensures fresh(mat) && mat.Length0 == |a| && mat.Length1 == |b|
    ensures GridOf(mat) == ScoreGrid(lu, m, a, b)
  {
    ghost var g := ScoreGrid(lu, m, a, b);
    mat := new real[|a|, |b|];
    var x := 0;
    while x < |a|
      invariant 0 <= x <= |a|
      invariant forall i, j :: 0 <= i < x && 0 <= j < |b| ==> mat[i, j] == g[i][j]
    {
      var y := 0;
      while y < |b|
        invariant 0 <= y <= |b|
        invariant forall i, j :: 0 <= i < x && 0 <= j < |b| ==> mat[i, j] == g[i][j]
        invariant forall j :: 0 <= j < y ==> mat[x, j] == g[x][j]
      {
        mat[x, y] := Compute(lu, m, a[x], b[y]);
        y := y + 1;
      }
      x := x + 1;
    }
    GridFromCells(mat, g);
  }

  /** The prepared labels are well formed. */
  ghost predicate AllValid(ps: seq<PreparedString>)
    reads set p | p in ps
    reads set p | p in ps :: p.weights
  {
    forall i :: 0 <= i < |ps| ==> ps[i].Valid()
  }

  /** The contents of every prepared label. */
  ghost function Views(ps: seq<PreparedString>): (r: seq<Label>)
    reads set p | p in ps
    reads set p | p in ps :: p.weights
    ensures |r| == |ps| && forall i :: 0 <= i < |ps| ==> r[i] == ps[i].View()
  {
    if ps == [] then []
    else
      var p := ps[..|ps| - 1];
      assert forall i :: 0 <= i < |p| ==> p[i] == ps[i];
      Views(p) + [ps[|ps| - 1].View()]
  }

  /** Both lists of prepared labels are well formed and hold va and vb. */
  ghost predicate PreparedAs(a: seq<PreparedString>, b: seq<PreparedString>, va: seq<Label>, vb: seq<Label>)
    reads set p | p in a + b
    reads set p | p in a + b :: p.weights
  {
    AllValid(a) && AllValid(b) && Views(a) == va && Views(b) == vb
  }

  /** Every label carries one weight per token. */
  predicate AllWellFormed(ls: seq<Label>)
  {
    forall i :: 0 <= i < |ls| ==> WellFormed(ls[i])
  }

  /** Every pair of prepared labels lies in the domain of m. */
  predicate DefinedOnAllLabels(m: Metric, a: seq<Label>, b: seq<Label>)
  {
    AllWellFormed(a) && AllWellFormed(b)
    && forall i, j :: 0 <= i < |a| && 0 <= j < |b| ==> DefinedOnLabels(m, a[i], b[j])
  }

  /** One metric's matrix over prepared labels. */
  function LabelGrid(lu: Lucene, m: Metric, a: seq<Label>, b: seq<Label>): (r: Grid)
    requires DefinedOnAllLabels(m, a, b)
    ensures IsRect(r, |a|, |b|)
  {
    seq(|a|, x requires 0 <= x < |a| => seq(|b|, y requires 0 <= y < |b| => LabelSimilarity(lu, m, a[x], b[y])))
  }

  /** The matrix of every metric of a list, over prepared labels. */
  function LabelGrids(lu: Lucene, ms: seq<Metric>, a: seq<Label>, b: seq<Label>): (r: seq<Grid>)
    requires forall k :: 0 <= k < |ms| ==> DefinedOnAllLabels(ms[k], a, b)
    ensures |r| == |ms| && forall k :: 0 <= k < |ms| ==> r[k] == LabelGrid(lu, ms[k], a, b)
  {
    seq(|ms|, k requires 0 <= k < |ms| => LabelGrid(lu, ms[k], a, b))
  }

  /** One row of the filling loop over prepared labels: row x scores the
      label s against every label of b. */
  method FillRowPrepared(lu: Lucene, m: Metric, mat: array2<real>, x: nat, s: PreparedString, b: seq<PreparedString>,
                         ghost vs: Label, ghost vb: seq<Label>)
    requires x < mat.Length0 && mat.Length1 == |b| && |vb| == |b|
    requires s.Valid() && s.View() == vs && WellFormed(vs)
    requires forall j :: 0 <= j < |b| ==> b[j].Valid() && b[j].View() == vb[j]
    requires forall j :: 0 <= j < |b| ==> WellFormed(vb[j]) && DefinedOnLabels(m, vs, vb[j])
    modifies mat
    ensures forall j :: 0 <= j < |b| ==> mat[x, j] == LabelSimilarity(lu, m, vs, vb[j])
    ensures forall i, j :: 0 <= i < mat.Length0 && i != x && 0 <= j < mat.Length1 ==> mat[i, j] == old(mat[i, j])
  {
    var y := 0;
    while y < |b|
      invariant 0 <= y <= |b|
      invariant forall j :: 0 <= j < y ==> mat[x, j] == LabelSimilarity(lu, m, vs, vb[j])
      invariant forall i, j :: 0 <= i < mat.Length0 && i != x && 0 <= j < mat.Length1 ==> mat[i, j] == old(mat[i, j])
    {
      var v := ComputePrepared(lu, m, s, b[y]);
      mat[x, y] := v;
      y := y + 1;
    }
  }

  /** The loop filling one metric's matrix over prepared labels. */
  method FillScoresPrepared(lu: Lucene, m: Metric, a: seq<PreparedString>, b: seq<PreparedString>,
                            ghost va: seq<Label>, ghost vb: seq<Label>) returns (mat: array2<real>)
    requires |va| == |a| && forall i :: 0 <= i < |a| ==> a[i].Valid() && a[i].View() == va[i]
    requires |vb| == |b| && forall j :: 0 <= j < |b| ==> b[j].Valid() && b[j].View() == vb[j]
    requires DefinedOnAllLabels(m, va, vb)
    ensures fresh(mat) && mat.Length0 == |a| && mat.Length1 == |b|
    ensures GridOf(mat) == LabelGrid(lu, m, va, vb)
  {
    mat := new real[|a|, |b|];
    var x := 0;
    while x < |a|
      invariant 0 <= x <= |a|
      invariant forall i, j :: 0 <= i < x && 0 <= j < |b| ==> mat[i, j] == LabelSimilarity(lu, m, va[i], vb[j])
    {
      FillRowPrepared(lu, m, mat, x, a[x], b, va[x], vb);
      x := x + 1;
    }
    GridFromCells(mat, LabelGrid(lu, m, va, vb));
  }

  /** The first matrices of the build loop: m x n, labelled la and lb,
      holding the first grids of gs, each in its own array. */
  ghost predicate Built(mats: seq<SimMatrix>, m: nat, n: nat, la: seq<string>, lb: seq<string>, gs: seq<Grid>)
    reads set i | 0 <= i < |mats| :: mats[i].M
  {
    |mats| <= |gs|
    && (forall i :: 0 <= i < |mats| ==> mats[i].A == Some(la) && mats[i].B == Some(lb))
    && (forall i :: 0 <= i < |mats| ==> mats[i].M.Length0 == m && mats[i].M.Length1 == n)
    && (forall i :: 0 <= i < |mats| ==> GridOf(mats[i].M) == gs[i])
    && forall i, l :: 0 <= i < l < |mats| ==> mats[i].M != mats[l].M
  }

  /** A new matrix holding the next grid extends a build. */
  lemma BuiltAppend(mats: seq<SimMatrix>, sm: SimMatrix, m: nat, n: nat, la: seq<string>, lb: seq<string>, gs: seq<Grid>)
    requires Built(mats, m, n, la, lb, gs) && |mats| < |gs|
    requires sm.A == Some(la) && sm.B == Some(lb)
    requires sm.M.Length0 == m && sm.M.Length1 == n && GridOf(sm.M) == gs[|mats|]
    requires forall i :: 0 <= i < |mats| ==> mats[i].M != sm.M
    ensures Built(mats + [sm], m, n, la, lb, gs)
  {
    var r := mats + [sm];
    assert forall i :: 0 <= i < |mats| ==> r[i] == mats[i];
  }

  /** One pass of the first loop of `doMatch`: a new labelled matrix
      holding one metric's scores. */
  method NewScoreMatrix(lu: Lucene, m: Metric, a: seq<string>, b: seq<string>) returns (sm: SimMatrix)
    requires DefinedOnAll(m, a, b)
    ensures fresh(sm.M) && sm.A == Some(a) && sm.B == Some(b)
    ensures sm.M.Length0 == |a| && sm.M.Length1 == |b|
    ensures GridOf(sm.M) == ScoreGrid(lu, m, a, b)
  {
    var mat := FillScores(lu, m, a, b);
    sm := new SimMatrix(mat, Some(a), Some(b));
  }

  /** The first loop of `doMatch`: one labelled matrix per metric. */
  method BuildMatrices(lu: Lucene, metrics: seq<Metric>, a: seq<string>, b: seq<string>) returns (mats: seq<SimMatrix>)
    requires forall k :: 0 <= k < |metrics| ==> DefinedOnAll(metrics[k], a, b)
    ensures |mats| == |metrics|
    ensures forall k :: 0 <= k < |mats| ==>
              fresh(mats[k].M) && mats[k].A == Some(a) && mats[k].B == Some(b)
              && mats[k].M.Length0 == |a| && mats[k].M.Length1 == |b|
              && GridOf(mats[k].M) == ScoreGrid(lu, metrics[k], a, b)
    ensures forall k, l :: 0 <= k < l < |mats| ==> mats[k].M != mats[l].M
  {
    ghost var gs := ScoreGrids(lu, metrics, a, b);
    mats := [];
    var k := 0;
    while k < |metrics|
      invariant 0 <= k <= |metrics| && |mats| == k
      invariant forall i :: 0 <= i < k ==> fresh(mats[i].M)
      invariant Built(mats, |a|, |b|, a, b, gs)
    {
      var sm := NewScoreMatrix(lu, metrics[k], a, b);
      BuiltAppend(mats, sm, |a|, |b|, a, b, gs);
      mats := mats + [sm];
      k := k + 1;
    }
  }

  /** One pass of the first loop of `doMatch` over prepared labels: a new
      matrix holding one metric's scores, the labels left as they were. */
  method NewLabelMatrix(lu: Lucene, m: Metric, a: seq<PreparedString>, b: seq<PreparedString>,
                        ghost va: seq<Label>, ghost vb: seq<Label>) returns (sm: SimMatrix)
    requires |va| == |a| && (forall i :: 0 <= i < |a| ==> a[i].Valid() && a[i].View() == va[i])
    requires |vb| == |b| && (forall j :: 0 <= j < |b| ==> b[j].Valid() && b[j].View() == vb[j])
    requires DefinedOnAllLabels(m, va, vb)
    ensures fresh(sm.M) && sm.A == Some(Texts(a)) && sm.B == Some(Texts(b))
    ensures sm.M.Length0 == |a| && sm.M.Length1 == |b|
    ensures GridOf(sm.M) == LabelGrid(lu, m, va, vb)
    ensures forall i :: 0 <= i < |a| ==> a[i].Valid() && a[i].View() == va[i]
    ensures forall j :: 0 <= j < |b| ==> b[j].Valid() && b[j].View() == vb[j]
  {
    var mat := FillScoresPrepared(lu, m, a, b, va, vb);
    sm := new SimMatrix.FromPrepared(mat, a, b);
  }

  /** The first loop of `doMatch` over prepared labels. */
  method BuildMatricesPrepared(lu: Lucene, metrics: seq<Metric>, a: seq<PreparedString>, b: seq<PreparedString>,
                               ghost va: seq<Label>, ghost vb: seq<Label>) returns (mats: seq<SimMatrix>)
    requires PreparedAs(a, b, va, vb)
    requires forall k :: 0 <= k < |metrics| ==> DefinedOnAllLabels(metrics[k], va, vb)
    ensures |mats| == |metrics|
    ensures forall k :: 0 <= k < |mats| ==>
              fresh(mats[k].M) && mats[k].A == Some(Texts(a)) && mats[k].B == Some(Texts(b))
              && mats[k].M.Length0 == |a| && mats[k].M.Length1 == |b|
              && GridOf(mats[k].M) == LabelGrid(lu, metrics[k], va, vb)
    ensures forall k, l :: 0 <= k < l < |mats| ==> mats[k].M != mats[l].M
  {
    ghost var gs := LabelGrids(lu, metrics, va, vb);
    mats := [];
    var k := 0;
    while k < |metrics|
      invariant 0 <= k <= |metrics| && |mats| == k
      invariant forall i :: 0 <= i < k ==> fresh(mats[i].M)
      invariant Built(mats, |a|, |b|, Texts(a), Texts(b), gs)
      invariant |va| == |a| && (forall i :: 0 <= i < |a| ==> a[i].Valid() && a[i].View() == va[i])
      invariant |vb| == |b| && (forall j :: 0 <= j < |b| ==> b[j].Valid() && b[j].View() == vb[j])
    {
      var sm := NewLabelMatrix(lu, metrics[k], a, b, va, vb);
      BuiltAppend(mats, sm, |a|, |b|, Texts(a), Texts(b), gs);
      mats := mats + [sm];
      k := k + 1;
    }
  }

  /** The AGG_AVG loop of `doMatch`: every further matrix averaged into the
      first one, in list order. */
  method FoldMatrices(mats: seq<SimMatrix>, ghost gs: seq<Grid>)
    requires |mats| > 0
    requires forall k :: 0 <= k < |mats| ==> mats[k].M.Length0 == mats[0].M.Length0 && mats[k].M.Length1 == mats[0].M.Length1
    requires forall k :: 1 <= k < |mats| ==> mats[k].M != mats[0].M
    modifies mats[0].M
    requires |gs| == |mats| && forall k :: 0 <= k < |mats| ==> GridOf(mats[k].M) == gs[k]
    requires AllRect(gs, mats[0].M.Length0, mats[0].M.Length1)
    ensures GridOf(mats[0].M) == FoldAvg(gs, mats[0].M.Length0, mats[0].M.Length1)
  {
    var first := mats[0];
    ghost var m, n := first.M.Length0, first.M.Length1;
    assert gs[..1] == [gs[0]];
    var k := 1;
    while k < |mats|
      invariant 1 <= k <= |mats|
      invariant GridOf(first.M) == FoldAvg(gs[..k], m, n)
    {
      FoldAvgStep(gs, k, m, n);
      assert GridOf(mats[k].M) == old(GridOf(mats[k].M));
      var same := first.AggregateAvg(mats[k]);
      k := k + 1;
    }
    assert gs[..|mats|] == gs;
  }

  // ---------------------------------------------------------------------
  // Lookup in a table
  // ---------------------------------------------------------------------

  /** The table has a first row and no row shorter than it, so every
      cell `locate` reads exists. */
  predicate Rectangular(h: seq<seq<string>>)
  {
    |h| > 0 && forall x :: 0 <= x < |h| ==> |h[x]| >= |h[0]|
  }

  /** Every cell `locate` reads lies in the domain of m paired with the
      needle. */
  predicate LocateDefined(m: Metric, needle: string, h: seq<seq<string>>)
  {
    |h| > 0 ==> forall x, y :: 0 <= x < |h| && 0 <= y < |h[0]| && y < |h[x]| ==> Defined(m, needle, h[x][y])
  }

  /** The hit matrix of one needle: |h| x |h[0]| similarities. */
  function LocateGrid(lu: Lucene, m: Metric, needle: string, h: seq<seq<string>>): (r: Grid)
    requires Rectangular(h) && LocateDefined(m, needle, h)
    ensures IsRect(r, |h|, |h[0]|)
  {
    seq(|h|, x requires 0 <= x < |h| => seq(|h[0]|, y requires 0 <= y < |h[0]| => Similarity(lu, m, needle, h[x][y])))
  }

  /** Every needle can be paired with the cell t. */
  predicate NeedlesDefined(m: Metric, ns: seq<string>, t: string)
  {
    forall k :: 0 <= k < |ns| ==> Defined(m, ns[k], t)
  }

  /** The score of a cell against many needles: the largest of 0 and the
      similarity of every needle, the first one winning ties. */
  function BestNeedle(lu: Lucene, m: Metric, ns: seq<string>, t: string): (r: real)
    requires NeedlesDefined(m, ns, t)
    ensures r >= 0.0
    ensures forall k :: 0 <= k < |ns| ==> r >= Similarity(lu, m, ns[k], t)
    ensures r == 0.0 || exists k :: 0 <= k < |ns| && r == Similarity(lu, m, ns[k], t)
  {
    if ns == [] then 0.0
    else
      var best := BestNeedle(lu, m, ns[..|ns| - 1], t);
      var s := Similarity(lu, m, ns[|ns| - 1], t);
      assert forall k :: 0 <= k < |ns| - 1 ==> ns[..|ns| - 1][k] == ns[k];
      if s > best then s else best
  }

  /** One more needle: the running best moves only on a strictly larger
      similarity. */
  lemma BestNeedleStep(lu: Lucene, m: Metric, ns: seq<string>, t: string, i: nat)
    requires i < |ns| && NeedlesDefined(m, ns, t)
    ensures NeedlesDefined(m, ns[..i + 1], t) && NeedlesDefined(m, ns[..i], t)
    ensures BestNeedle(lu, m, ns[..i + 1], t) ==
              var s := Similarity(lu, m, ns[i], t);
              var best := BestNeedle(lu, m, ns[..i], t);
              if s > best then s else best
  {
    assert ns[..i + 1][..i] == ns[..i];
  }

  /** The inner loop of `locate(needles, h)`. */
  method BestNeedleScore(lu: Lucene, m: Metric, ns: seq<string>, t: string) returns (maxSim: real)
    requires NeedlesDefined(m, ns, t)
    ensures maxSim == BestNeedle(lu, m, ns, t)
  {
    maxSim := 0.0;
    var i := 0;
    assert ns[..0] == [];
    while i < |ns|
      invariant 0 <= i <= |ns|
      invariant NeedlesDefined(m, ns[..i], t)
      invariant maxSim == BestNeedle(lu, m, ns[..i], t)
    {
      var needleSim := Compute(lu, m, ns[i], t);
      BestNeedleStep(lu, m, ns, t, i);
      if needleSim > maxSim {
        maxSim := needleSim;
      }
      i := i + 1;
    }
    assert ns[..i] == ns;
  }

  /** Every needle can be paired with every cell `locate` reads. */
  predicate LocateManyDefined(m: Metric, ns: seq<string>, h: seq<seq<string>>)
  {
    forall k :: 0 <= k < |ns| ==> LocateDefined(m, ns[k], h)
  }

  /** Every needle can be paired with any one cell `locate` reads. */
  lemma ManyDefinedAt(m: Metric, ns: seq<string>, h: seq<seq<string>>, x: int, y: int)
    requires Rectangular(h) && LocateManyDefined(m, ns, h)
    requires 0 <= x < |h| && 0 <= y < |h[0]|
    ensures NeedlesDefined(m, ns, h[x][y])
  {
  }

  /** The hit matrix of many needles. */
  function LocateManyGrid(lu: Lucene, m: Metric, ns: seq<string>, h: seq<seq<string>>): (r: Grid)
    requires Rectangular(h) && LocateManyDefined(m, ns, h)
    ensures IsRect(r, |h|, |h[0]|)
  {
    seq(|h|, x requires 0 <= x < |h| => seq(|h[0]|, y requires 0 <= y < |h[0]| =>
      ManyDefinedAt(m, ns, h, x, y);
      BestNeedle(lu, m, ns, h[x][y])))
  }

  /** With one needle whose similarities are never negative, the two forms
      of `locate` give the same matrix. */
  lemma LocateOneNeedle(lu: Lucene, m: Metric, needle: string, h: seq<seq<string>>)
    requires Rectangular(h) && LocateDefined(m, needle, h)
    requires forall x, y :: 0 <= x < |h| && 0 <= y < |h[0]| ==> LocateGrid(lu, m, needle, h)[x][y] >= 0.0
    ensures LocateManyDefined(m, [needle], h)
    ensures LocateManyGrid(lu, m, [needle], h) == LocateGrid(lu, m, needle, h)
  {
    var g, g1 := LocateGrid(lu, m, needle, h), LocateManyGrid(lu, m, [needle], h);
    forall x | 0 <= x < |h|
      ensures g1[x] == g[x]
    {
      forall y | 0 <= y < |h[0]|
        ensures g1[x][y] == g[x][y]
      {
        assert [needle][..0] == [];
      }
    }
  }

  /** The scoring loop of `locate(needle, h)`. */
  method FillHits(lu: Lucene, m: Metric, needle: string, h: seq<seq<string>>) returns (mat: array2<real>)
    requires Rectangular(h) && LocateDefined(m, needle, h)
    ensures fresh(mat) && GridOf(mat) == LocateGrid(lu, m, needle, h)
  {
    ghost var g := LocateGrid(lu, m, needle, h);
    var n := |h[0]|;
    mat := new real[|h|, n];
    var x := 0;
    while x < |h|
      invariant 0 <= x <= |h|
      invariant forall i, j :: 0 <= i < x && 0 <= j < n ==> mat[i, j] == g[i][j]
    {
      var y := 0;
      while y < n
        invariant 0 <= y <= n
        invariant forall i, j :: 0 <= i < x && 0 <= j < n ==> mat[i, j] == g[i][j]
        invariant forall j :: 0 <= j < y ==> mat[x, j] == g[x][j]
      {
        mat[x, y] := Compute(lu, m, needle, h[x][y]);
        y := y + 1;
      }
      x := x + 1;
    }
    GridFromCells(mat, g);
  }

    /** Row x of the scoring loop of `locate(needles, h)`. */
  method FillManyHitsRow(lu: Lucene, m: Metric, ns: seq<string>, h: seq<seq<string>>, mat: array2<real>, x: nat)
    requires Rectangular(h) && LocateManyDefined(m, ns, h)
    requires x < |h| == mat.Length0 && mat.Length1 == |h[0]|
    modifies mat
    ensures forall j :: 0 <= j < mat.Length1 ==> mat[x, j] == LocateManyGrid(lu, m, ns, h)[x][j]
    ensures forall i, j :: 0 <= i < mat.Length0 && i != x && 0 <= j < mat.Length1 ==> mat[i, j] == old(mat[i, j])
  {
    ghost var row := LocateManyGrid(lu, m, ns, h)[x];
    var y := 0;
    while y < mat.Length1
      invariant 0 <= y <= mat.Length1
      invariant forall j :: 0 <= j < y ==> mat[x, j] == row[j]
      invariant forall i, j :: 0 <= i < mat.Length0 && i != x && 0 <= j < mat.Length1 ==> mat[i, j] == old(mat[i, j])
    {
      ManyDefinedAt(m, ns, h, x, y);
      mat[x, y] := BestNeedleScore(lu, m, ns, h[x][y]);
      y := y + 1;
    }
  }

  /** The scoring loop of `locate(needles, h)`. */
  method FillManyHits(lu: Lucene, m: Metric, ns: seq<string>, h: seq<seq<string>>) returns (mat: array2<real>)
    requires Rectangular(h) && LocateManyDefined(m, ns, h)
    ensures fresh(mat) && GridOf(mat) == LocateManyGrid(lu, m, ns, h)
  {
    ghost var g := LocateManyGrid(lu, m, ns, h);
    mat := new real[|h|, |h[0]|];
    var x := 0;
    while x < |h|
      invariant 0 <= x <= |h|
      invariant forall i, j :: 0 <= i < x && 0 <= j < |h[0]| ==> mat[i, j] == g[i][j]
    {
      FillManyHitsRow(lu, m, ns, h, mat, x);
      x := x + 1;
    }
    GridFromCells(mat, g);
  }

  // ---------------------------------------------------------------------
  // Label normalisation
  // ---------------------------------------------------------------------

  /** One entry of `cleanStringArray`: a missing label becomes empty, any
      other is lower-cased and trimmed. */
  function CleanLabel(lower: string -> string, s: Option<string>): (r: string)
    ensures s.None? ==> r == []
    ensures s.Some? ==>
              exists i, j :: 0 <= i <= j <= |lower(s.value)| && r == lower(s.value)[i..j]
                && (forall m :: 0 <= m < i ==> lower(s.value)[m] <= ' ')
                && (forall m :: j <= m < |lower(s.value)| ==> lower(s.value)[m] <= ' ')
    ensures r == [] || (r[0] > ' ' && r[|r| - 1] > ' ')
  {
    match s
    case None => ""
    case Some(t) => Trim(lower(t))
  }

  /** Cleaning again a label whose lower-casing is already lower-cased and
      trimmed changes nothing. */
  lemma CleanLabelStable(lower: string -> string, s: string)
    requires lower(s) == s && Trim(s) == s
    ensures CleanLabel(lower, Some(CleanLabel(lower, Some(s)))) == CleanLabel(lower, Some(s))
  {
  }

  // ---------------------------------------------------------------------
  // The facade
  // ---------------------------------------------------------------------

  class MatchTools {
    const weighter: string -> real
    /** The Lucene distances every metric delegates to. */
    const lucene: Lucene
    var levenshtein: Metric
    var byWordLevenshtein: Metric
    var weightedByWordLevenshtein: Metric
    var ngram: Metric
    var jaro: Metric
    var aFocusedByWordLevenshtein: Metric
    var weightedByWordAndPositionLevenshtein: Metric
    /** Declared and never assigned: null. */
    var fastWeightedByWordLevenshtein: Option<Metric>

    /** `MatchTools(weighter)`: one instance of every metric, the weighted
        ones with the default threshold; `jaro` holds a Levenshtein. */
    constructor (weighter: string -> real, lucene: Lucene)
      ensures this.weighter == weighter && this.lucene == lucene
      ensures levenshtein == Levenshtein && byWordLevenshtein == ByWordLevenshtein && ngram == NGram
      ensures weightedByWordLevenshtein == WeightedByWordLevenshtein(weighter, 0.8)
      ensures jaro == Levenshtein
      ensures aFocusedByWordLevenshtein == AFocusedByWordLevenshtein
      ensures weightedByWordAndPositionLevenshtein == WeightedByWordAndPositionLevenshtein(weighter, 0.8)
      ensures fastWeightedByWordLevenshtein.None?
    {
      this.weighter := weighter;
      this.lucene := lucene;
      levenshtein := Levenshtein;
      byWordLevenshtein := ByWordLevenshtein;
      weightedByWordLevenshtein := NewWeightedByWordLevenshtein(weighter);
      ngram := NGram;
      jaro := Levenshtein;
      aFocusedByWordLevenshtein := AFocusedByWordLevenshtein;
      weightedByWordAndPositionLevenshtein := NewWeightedByWordAndPositionLevenshtein(weighter);
      fastWeightedByWordLevenshtein := None;
    }

    /** `doMatch(String[] a, String[] b, matchers, AGG_AVG)`: one matrix per
        metric, folded by pairwise averaging into the first one. An empty
        metric list has no first matrix: the error case. */
    method DoMatch(a: seq<string>, b: seq<string>, metrics: seq<Metric>) returns (r: Option<SimMatrix>)
      requires forall k :: 0 <= k < |metrics| ==> DefinedOnAll(metrics[k], a, b)
      ensures r.None? <==> metrics == []
      ensures r.Some? ==> fresh(r.value.M) && r.value.M.Length0 == |a| && r.value.M.Length1 == |b|
      ensures r.Some? ==> r.value.A == Some(a) && r.value.B == Some(b)
                          && GridOf(r.value.M) == MatchGrid(lucene, metrics, a, b)
    {
      var mats := BuildMatrices(lucene, metrics, a, b);
      if |mats| == 0 {
        return None;
      }
      FoldMatrices(mats, ScoreGrids(lucene, metrics, a, b));
      r := Some(mats[0]);
    }

    /** `doMatch(PreparedString[] a, PreparedString[] b, matchers, AGG_AVG)`:
        the same over prepared labels; the labels of the result are their
        text. */
    method DoMatchPrepared(a: seq<PreparedString>, b: seq<PreparedString>, metrics: seq<Metric>)
      returns (r: Option<SimMatrix>)
      requires AllValid(a) && AllValid(b)
      requires forall k :: 0 <= k < |metrics| ==> DefinedOnAllLabels(metrics[k], Views(a), Views(b))
      ensures r.None? <==> metrics == []
      ensures r.Some? ==> fresh(r.value.M) && r.value.M.Length0 == |a| && r.value.M.Length1 == |b|
      ensures r.Some? ==> r.value.A == Some(Texts(a)) && r.value.B == Some(Texts(b))
                          && GridOf(r.value.M) == FoldAvg(LabelGrids(lucene, metrics, old(Views(a)), old(Views(b))), |a|, |b|)
    {
      ghost var va, vb := Views(a), Views(b);
      assert forall i :: 0 <= i < |a| ==> a[i] in a;
      assert forall j :: 0 <= j < |b| ==> b[j] in b;
      var mats := BuildMatricesPrepared(lucene, metrics, a, b, va, vb);
      if |mats| == 0 {
        return None;
      }
      FoldMatrices(mats, LabelGrids(lucene, metrics, va, vb));
      r := Some(mats[0]);
    }

    /** `doMatch(a, b)`: weightedByWordLevenshtein averaged with ngram. */
    method DoMatchDefault(a: seq<string>, b: seq<string>) returns (r: SimMatrix)
      requires DefinedOnAll(weightedByWordLevenshtein, a, b) && DefinedOnAll(ngram, a, b)
      ensures fresh(r) && fresh(r.M) && r.A == Some(a) && r.B == Some(b)
      ensures r.M.Length0 == |a| && r.M.Length1 == |b|
      ensures GridOf(r.M) == MatchGrid(lucene, [weightedByWordLevenshtein, ngram], a, b)
      ensures forall x, y :: 0 <= x < |a| && 0 <= y < |b| ==>
                r.M[x, y] == (Similarity(lucene, weightedByWordLevenshtein, a[x], b[y])
                              + Similarity(lucene, ngram, a[x], b[y])) / 2.0
    {
      var lst := [weightedByWordLevenshtein, ngram];
      var m := DoMatch(a, b, lst);
      r := m.value;
      FoldAvgTwo(ScoreGrids(lucene, lst, a, b), |a|, |b|);
    }

    /** `defaultMapping(a, b)`: the default matrix, thresholded at 0.13,
        reduced by the greedy bipartite selection, read as label pairs.
        The greedy selection `acc` is returned as a ghost witness. */
    method DefaultMapping(a: seq<string>, b: seq<string>)
      returns (r: seq<Match>, ghost acc: seq<MatchingIndices>, ghost cells: seq<MatchingIndices>)
      requires DefinedOnAll(weightedByWordLevenshtein, a, b) && DefinedOnAll(ngram, a, b)
      ensures var g := Threshold(MatchGrid(lucene, [weightedByWordLevenshtein, ngram], a, b), 0.13);
              Monogamous(acc) && SortedDesc(acc)
              && (forall p :: 0 <= p < |acc| ==> IsCellOf(acc[p], g))
              && Blocked(g, |b|, acc)
              && cells == NonZeroCells(KeepOnly(g, |b|, acc))
      ensures Monogamous(cells) && |cells| <= MinNat(|a|, |b|)
      ensures |r| == |cells|
      ensures forall k :: 0 <= k < |cells| ==>
                0 <= cells[k].a < |a| && 0 <= cells[k].b < |b|
                && r[k] == Match(a[cells[k].a], b[cells[k].b], cells[k].c)
                && r[k].score >= 0.13
                && r[k].score == MatchGrid(lucene, [weightedByWordLevenshtein, ngram], a, b)[cells[k].a][cells[k].b]
    {
      var m := DoMatchDefault(a, b);
      ghost var g0 := GridOf(m.M);
      m.SelectThreshold(0.13);
      ghost var g := GridOf(m.M);
      ThresholdCells(g0, 0.13);
      acc := m.SelectBipartiteGreedy();
      cells := NonZeroCells(GridOf(m.M));
      KeptCellsMonogamous(g, |b|, acc);
      r := m.GetMapping();
      KeptCellsAboveThreshold(g0, |b|, 0.13, acc);
    }

    /** `locate(needle, h)`: the |h| x |h[0]| hit matrix of one needle under
        weightedByWordLevenshtein. A table without rows, or with a row
        shorter than the first, makes the Java method fail: None. */
    method Locate(needle: string, h: seq<seq<string>>) returns (r: Option<HitMatrix>)
      requires LocateDefined(weightedByWordLevenshtein, needle, h)
      ensures r.None? <==> !Rectangular(h)
      ensures r.Some? ==> fresh(r.value) && fresh(r.value.base.M)
      ensures r.Some? ==> r.value.needle == Some(needle) && r.value.needles.None? && r.value.haystack == h
                          && r.value.base.A.None? && r.value.base.B.None?
                          && GridOf(r.value.base.M) == LocateGrid(lucene, weightedByWordLevenshtein, needle, h)
    {
      if |h| == 0 || exists x :: 0 <= x < |h| && |h[x]| < |h[0]| {
        return None;
      }
      var mat := FillHits(lucene, weightedByWordLevenshtein, needle, h);
      var hits := new HitMatrix.FromNeedle(mat, needle, h);
      r := Some(hits);
    }

    /** `locate(needles, h)`: every cell scores the best needle, and 0 when
        no needle scores above 0. */
    method LocateMany(needles: seq<string>, h: seq<seq<string>>) returns (r: Option<HitMatrix>)
      requires LocateManyDefined(weightedByWordLevenshtein, needles, h)
      ensures r.None? <==> !Rectangular(h)
      ensures r.Some? ==> fresh(r.value) && fresh(r.value.base.M)
      ensures r.Some? ==> r.value.needles == Some(needles) && r.value.needle.None? && r.value.haystack == h
                          && r.value.base.A.None? && r.value.base.B.None?
                          && GridOf(r.value.base.M) == LocateManyGrid(lucene, weightedByWordLevenshtein, needles, h)
    {
      if |h| == 0 || exists x :: 0 <= x < |h| && |h[x]| < |h[0]| {
        return None;
      }
      var mat := FillManyHits(lucene, weightedByWordLevenshtein, needles, h);
      var hits := new HitMatrix.FromNeedles(mat, needles, h);
      r := Some(hits);
    }

    /** `cleanStringArray(S)`: every entry cleaned in place, with the
        locale's lower-casing passed in. */
    method CleanStringArray(S: array<Option<string>>, lower: string -> string)
      modifies S
      ensures forall i :: 0 <= i < S.Length ==> S[i] == Some(CleanLabel(lower, old(S[i])))
    {
      var i := 0;
      while i < S.Length
        invariant 0 <= i <= S.Length
        invariant forall k :: 0 <= k < i ==> S[k] == Some(CleanLabel(lower, old(S[k])))
        invariant forall k :: i <= k < S.Length ==> S[k] == old(S[k])
      {
        var s := S[i];
        if s.None? {
          S[i] := Some("");
        } else {
          S[i] := Some(Trim(lower(s.value)));
        }
        i := i + 1;
      }
    }
  }
}
