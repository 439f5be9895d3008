/** Value-level specifications of the operations on a similarity matrix:
    a matrix is a sequence of rows, every row of one length. */
module Grids {
  import opened Common
  import opened Candidates

  type Grid = seq<seq<real>>

  /** m rows of n cells each. */
  predicate IsRect(g: Grid, m: nat, n: nat)
  {
    |g| == m && forall i :: 0 <= i < m ==> |g[i]| == n
  }

  // ---------------------------------------------------------------------
  // ThresholdFunction

  /** `ThresholdFunction.apply`: a value at least the threshold stays, any
      other becomes 0. */
  function ThresholdCell(d: real, th: real): real
  {
    if d >= th then d else 0.0
  }

  /** `selectThreshold(th)` applied to every cell. */
  function Threshold(g: Grid, th: real): (r: Grid)
    ensures |r| == |g| && forall i :: 0 <= i < |g| ==> |r[i]| == |g[i]|
  {
    seq(|g|, i requires 0 <= i < |g| => seq(|g[i]|, j requires 0 <= j < |g[i]| => ThresholdCell(g[i][j], th)))
  }

  /** Cells at or above the threshold are unchanged, all others are 0. */
  lemma ThresholdCells(g: Grid, th: real)
    ensures forall i, j :: 0 <= i < |g| && 0 <= j < |g[i]| ==>
              Threshold(g, th)[i][j] == (if g[i][j] >= th then g[i][j] else 0.0)
  {
  }

  /** Thresholding twice at the same level is thresholding once. */
  lemma ThresholdIdempotent(g: Grid, th: real)
    ensures Threshold(Threshold(g, th), th) == Threshold(g, th)
  {
    var r := Threshold(g, th);
    forall i | 0 <= i < |g|
      ensures Threshold(r, th)[i] == r[i]
    {
      assert forall j :: 0 <= j < |g[i]| ==> ThresholdCell(ThresholdCell(g[i][j], th), th) == ThresholdCell(g[i][j], th);
    }
  }

  // ---------------------------------------------------------------------
  // maxima, matMax, selectWhereLarger

  /** The largest entry of a non-empty row (`getMaxLocation()[0]`). */
  function SeqMax(s: seq<real>): (r: real)
    requires |s| > 0
    ensures forall k :: 0 <= k < |s| ==> s[k] <= r
    ensures exists k :: 0 <= k < |s| && s[k] == r
  {
    if |s| == 1 then s[0]
    else
      var p := SeqMax(s[..|s| - 1]);
      assert forall k :: 0 <= k < |s| - 1 ==> s[..|s| - 1][k] == s[k];
      if s[|s| - 1] > p then s[|s| - 1] else p
  }

  /** Column j, read top to bottom (`viewDice()` then a row). */
  function Column(g: Grid, j: nat): (c: seq<real>)
    requires forall i :: 0 <= i < |g| ==> j < |g[i]|
    ensures |c| == |g| && forall i :: 0 <= i < |g| ==> c[i] == g[i][j]
  {
    seq(|g|, i requires 0 <= i < |g| => g[i][j])
  }

    /** A value reached by some element and exceeded by none is the maximum. */
  lemma SeqMaxIs(s: seq<real>, v: real, k: nat)
    requires k < |s| && s[k] == v
    requires forall p :: 0 <= p < |s| ==> s[p] <= v
    ensures SeqMax(s) == v
  {
    var q :| 0 <= q < |s| && s[q] == SeqMax(s);
  }

  /** The maximum of every row (`maxima`); an empty row has none and
      gets 0. */
  function RowMaxes(g: Grid): (r: seq<real>)
    ensures |r| == |g|
    ensures forall i :: 0 <= i < |g| && |g[i]| > 0 ==> r[i] == SeqMax(g[i])
  {
    seq(|g|, i requires 0 <= i < |g| => if |g[i]| > 0 then SeqMax(g[i]) else 0.0)
  }

  /** The maximum of every column (`maxima` of the transpose). */
  function ColumnMaxes(g: Grid, n: nat): (r: seq<real>)
    requires IsRect(g, |g|, n)
    ensures |r| == n
    ensures |g| > 0 ==> forall j :: 0 <= j < n ==> r[j] == SeqMax(Column(g, j))
  {
    seq(n, j requires 0 <= j < n => if |g| > 0 then SeqMax(Column(g, j)) else 0.0)
  }

  /** `selectMaxDelta(delta)`: both maxima lowered by delta, their larger
      one taken (`matMax`), and a cell kept when it is at least that
      (`selectWhereLarger`). */
  function SelectMaxGrid(g: Grid, n: nat, delta: real): (r: Grid)
    requires IsRect(g, |g|, n)
    ensures IsRect(r, |g|, n)
  {
    var rm, cm := RowMaxes(g), ColumnMaxes(g, n);
    seq(|g|, i requires 0 <= i < |g| =>
      seq(n, j requires 0 <= j < n =>
        if g[i][j] >= Max(rm[i] - delta, cm[j] - delta) then g[i][j] else 0.0))
  }

  /** One cell of `SelectMaxGrid`. */
  lemma SelectMaxCell(g: Grid, n: nat, delta: real, i: nat, j: nat)
    requires IsRect(g, |g|, n) && i < |g| && j < n
    ensures SelectMaxGrid(g, n, delta)[i][j]
            == if g[i][j] >= Max(RowMaxes(g)[i] - delta, ColumnMaxes(g, n)[j] - delta) then g[i][j] else 0.0
  {
  }

  /** A cell survives exactly when it is at least its row maximum and at
      least its column maximum, both lowered by delta; otherwise it is 0. */
  lemma SelectMaxKeepsIff(g: Grid, n: nat, delta: real)
    requires IsRect(g, |g|, n)
    ensures forall i, j :: 0 <= i < |g| && 0 <= j < n ==>
              SelectMaxGrid(g, n, delta)[i][j]
              == if g[i][j] >= SeqMax(g[i]) - delta && g[i][j] >= SeqMax(Column(g, j)) - delta
                 then g[i][j] else 0.0
  {
    forall i, j | 0 <= i < |g| && 0 <= j < n
      ensures SelectMaxGrid(g, n, delta)[i][j]
              == if g[i][j] >= SeqMax(g[i]) - delta && g[i][j] >= SeqMax(Column(g, j)) - delta
                 then g[i][j] else 0.0
    {
      SelectMaxCell(g, n, delta, i, j);
      assert RowMaxes(g)[i] == SeqMax(g[i]) && ColumnMaxes(g, n)[j] == SeqMax(Column(g, j));
    }
  }

  /** Without delta, every non-zero survivor is the maximum of its row and
      of its column. */
  lemma SelectMaxSurvivorsAreMaxima(g: Grid, n: nat, i: nat, j: nat)
    requires IsRect(g, |g|, n) && i < |g| && j < n
    requires SelectMaxGrid(g, n, 0.0)[i][j] != 0.0
    ensures g[i][j] == SeqMax(g[i]) && g[i][j] == SeqMax(Column(g, j))
  {
    assert g[i][j] <= SeqMax(g[i]);
    assert Column(g, j)[i] == g[i][j];
  }

  // ---------------------------------------------------------------------
  // aggregateAvg and aggregateMax

  /** `AverageFunction` cell by cell. */
  function AvgGrid(g: Grid, o: Grid, n: nat): (r: Grid)
    requires IsRect(g, |g|, n) && IsRect(o, |g|, n)
    ensures IsRect(r, |g|, n)
  {
    seq(|g|, i requires 0 <= i < |g| => seq(n, j requires 0 <= j < n => (g[i][j] + o[i][j]) / 2.0))
  }

  /** `DoubleFunctions.max` cell by cell. */
  function MaxGrid(g: Grid, o: Grid, n: nat): (r: Grid)
    requires IsRect(g, |g|, n) && IsRect(o, |g|, n)
    ensures IsRect(r, |g|, n)
  {
    seq(|g|, i requires 0 <= i < |g| => seq(n, j requires 0 <= j < n => Max(g[i][j], o[i][j])))
  }

  /** Averaging a matrix with itself (the aliased call) changes nothing. */
  lemma AvgGridSelf(g: Grid, n: nat)
    requires IsRect(g, |g|, n)
    ensures AvgGrid(g, g, n) == g
  {
    forall i | 0 <= i < |g|
      ensures AvgGrid(g, g, n)[i] == g[i]
    {
    }
  }

  /** A second aggregateMax with the same matrix changes nothing. */
  lemma MaxGridIdempotent(g: Grid, o: Grid, n: nat)
    requires IsRect(g, |g|, n) && IsRect(o, |g|, n)
    ensures MaxGrid(MaxGrid(g, o, n), o, n) == MaxGrid(g, o, n)
  {
    var r := MaxGrid(g, o, n);
    forall i | 0 <= i < |g|
      ensures MaxGrid(r, o, n)[i] == r[i]
    {
    }
  }

  /** The maximum is at least both operands, so aggregateMax never lowers a
      cell of either matrix. */
  lemma MaxGridDominates(g: Grid, o: Grid, n: nat)
    requires IsRect(g, |g|, n) && IsRect(o, |g|, n)
    ensures forall i, j :: 0 <= i < |g| && 0 <= j < n ==>
              MaxGrid(g, o, n)[i][j] >= g[i][j] && MaxGrid(g, o, n)[i][j] >= o[i][j]
  {
  }

  // ---------------------------------------------------------------------
  // aggregateMajorityHorizontal

  /** `DoubleFunctions.sign`. */
  function Sign(x: real): real
  {
    if x > 0.0 then 1.0 else if x < 0.0 then -1.0 else 0.0
  }

  /** The number of the other matrices that are positive at cell (i, j)
      (`SignAndAddFunction`, once per other matrix). */
  function CountPositive(os: seq<Grid>, m: nat, n: nat, i: nat, j: nat): (c: nat)
    requires i < m && j < n && forall k :: 0 <= k < |os| ==> IsRect(os[k], m, n)
    ensures c <= |os|
  {
    if os == [] then 0
    else
      assert IsRect(os[|os| - 1], m, n);
      CountPositive(os[..|os| - 1], m, n, i, j) + (if os[|os| - 1][i][j] > 0.0 then 1 else 0)
  }

  /** The vote count of every cell: the sign of the cell itself plus one for
      every other matrix positive there. */
  function VoteGrid(g: Grid, n: nat, os: seq<Grid>): (r: Grid)
    requires IsRect(g, |g|, n)
    requires forall k :: 0 <= k < |os| ==> IsRect(os[k], |g|, n)
    ensures IsRect(r, |g|, n)
    ensures forall i, j :: 0 <= i < |g| && 0 <= j < n ==> -1.0 <= r[i][j] <= |os| as real + 1.0
  {
    seq(|g|, i requires 0 <= i < |g| =>
      seq(n, j requires 0 <= j < n => Sign(g[i][j]) + CountPositive(os, |g|, n, i, j) as real))
  }

  /** `(int) ceil((k + 1.0) / 2.0)` for k other matrices. */
  function Majority(k: nat): nat
  {
    (k + 2) / 2
  }

  /** `Math.ceil` on a real, as an integer. */
  function Ceil(x: real): (c: int)
    ensures c as real - 1.0 < x <= c as real
  {
    -((-x).Floor)
  }

  /** The integer ceiling is unique. */
  lemma CeilUnique(x: real, c: int)
    requires c as real - 1.0 < x <= c as real
    ensures Ceil(x) == c
  {
    var d := Ceil(x);
    assert d as real - 1.0 < x <= d as real;
    assert c as real - 1.0 < d as real && d as real - 1.0 < c as real;
  }

  /** `(int) ceil((k + 1.0) / 2.0)` is Majority(k). */
  lemma {:induction false} MajorityCeil(k: nat)
    ensures Ceil((k as real + 1.0) / 2.0) == Majority(k) as int
  {
    MajorityIsCeiling(k);
    var c := Majority(k) as int;
    assert 2.0 * (c as real) >= k as real + 1.0;
    assert 2.0 * (c as real - 1.0) < k as real + 1.0;
    CeilUnique((k as real + 1.0) / 2.0, c);
  }

  /** Majority(k) is the least integer at least (k + 1) / 2. */
  lemma MajorityIsCeiling(k: nat)
    ensures 2 * Majority(k) >= k + 1
    ensures 2 * (Majority(k) - 1) < k + 1
  {
  }

  /** After the vote a cell holds its count when the count reaches the
      majority, and 0 otherwise; it never holds a 0/1 flag. */
  lemma MajorityCells(g: Grid, n: nat, os: seq<Grid>)
    requires IsRect(g, |g|, n)
    requires forall k :: 0 <= k < |os| ==> IsRect(os[k], |g|, n)
    ensures forall i, j :: 0 <= i < |g| && 0 <= j < n ==>
              var c := Sign(g[i][j]) + CountPositive(os, |g|, n, i, j) as real;
              Threshold(VoteGrid(g, n, os), Majority(|os|) as real)[i][j]
              == if c >= Majority(|os|) as real then c else 0.0
  {
  }

  /** `assign(DoubleFunctions.sign)` cell by cell. */
  function SignGrid(g: Grid, n: nat): (r: Grid)
    requires IsRect(g, |g|, n)
    ensures IsRect(r, |g|, n)
  {
    seq(|g|, i requires 0 <= i < |g| => seq(n, j requires 0 <= j < n => Sign(g[i][j])))
  }

  /** `assign(o, signAndAddFunction)`: one vote added where o is positive. */
  function AddVotes(h: Grid, o: Grid, n: nat): (r: Grid)
    requires IsRect(h, |h|, n) && IsRect(o, |h|, n)
    ensures IsRect(r, |h|, n)
  {
    seq(|h|, i requires 0 <= i < |h| => seq(n, j requires 0 <= j < n =>
      if o[i][j] > 0.0 then h[i][j] + 1.0 else h[i][j]))
  }

  /** Before any other matrix has voted, the count is the sign. */
  lemma VoteStart(g: Grid, n: nat)
    requires IsRect(g, |g|, n)
    ensures VoteGrid(g, n, []) == SignGrid(g, n)
  {
    var v, s := VoteGrid(g, n, []), SignGrid(g, n);
    forall i | 0 <= i < |g|
      ensures v[i] == s[i]
    {
      assert forall j :: 0 <= j < n ==> CountPositive([], |g|, n, i, j) == 0;
    }
  }

  /** Each further matrix adds its votes to the count so far. */
  lemma VoteStep(g: Grid, n: nat, os: seq<Grid>, k: nat)
    requires IsRect(g, |g|, n) && k < |os|
    requires forall q :: 0 <= q < |os| ==> IsRect(os[q], |g|, n)
    ensures VoteGrid(g, n, os[..k + 1]) == AddVotes(VoteGrid(g, n, os[..k]), os[k], n)
  {
    var v, w := VoteGrid(g, n, os[..k + 1]), AddVotes(VoteGrid(g, n, os[..k]), os[k], n);
    assert os[..k + 1][..k] == os[..k];
    forall i | 0 <= i < |g|
      ensures v[i] == w[i]
    {
      forall j | 0 <= j < n
        ensures v[i][j] == w[i][j]
      {
        assert CountPositive(os[..k + 1], |g|, n, i, j)
               == CountPositive(os[..k], |g|, n, i, j) + (if os[k][i][j] > 0.0 then 1 else 0);
      }
    }
  }

  // ---------------------------------------------------------------------
  // getNonZeros, in row-major order

  /** The non-zero cells of row i, left to right. */
  function RowCells(i: int, row: seq<real>): (r: seq<MatchingIndices>)
    ensures forall x :: x in r <==> x.a == i && 0 <= x.b < |row| && row[x.b] != 0.0 && x.c == row[x.b]
  {
    if row == [] then []
    else
      var p := RowCells(i, row[..|row| - 1]);
      assert forall b :: 0 <= b < |row| - 1 ==> row[..|row| - 1][b] == row[b];
      p + (if row[|row| - 1] != 0.0 then [MatchingIndices(i, |row| - 1, row[|row| - 1])] else [])
  }

  /** The non-zero cells of g, row by row. */
  function NonZeroCells(g: Grid): (r: seq<MatchingIndices>)
    ensures forall x :: x in r <==>
              0 <= x.a < |g| && 0 <= x.b < |g[x.a]| && g[x.a][x.b] != 0.0 && x.c == g[x.a][x.b]
  {
    if g == [] then []
    else
      var p := NonZeroCells(g[..|g| - 1]);
      assert forall a :: 0 <= a < |g| - 1 ==> g[..|g| - 1][a] == g[a];
      p + RowCells(|g| - 1, g[|g| - 1])
  }

  /** In an m x n grid every listed cell lies inside the grid. */
  lemma NonZeroCellsInside(g: Grid, m: nat, n: nat)
    requires IsRect(g, m, n)
    ensures forall k :: 0 <= k < |NonZeroCells(g)| ==>
              0 <= NonZeroCells(g)[k].a < m && 0 <= NonZeroCells(g)[k].b < n
  {
    var cs := NonZeroCells(g);
    forall k | 0 <= k < |cs|
      ensures 0 <= cs[k].a < m && 0 <= cs[k].b < n
    {
      assert cs[k] in cs;
    }
  }

  /** Every row is listed before the next one, and within a row the columns
      increase: no cell is listed twice. */
  lemma {:induction false} NonZeroCellsRowMajor(g: Grid)
    ensures forall p, q :: 0 <= p < q < |NonZeroCells(g)| ==>
              NonZeroCells(g)[p].a < NonZeroCells(g)[q].a
              || (NonZeroCells(g)[p].a == NonZeroCells(g)[q].a && NonZeroCells(g)[p].b < NonZeroCells(g)[q].b)
  {
    if g != [] {
      NonZeroCellsRowMajor(g[..|g| - 1]);
      RowCellsIncreasing(|g| - 1, g[|g| - 1]);
      var p := NonZeroCells(g[..|g| - 1]);
      assert forall x :: x in p ==> x.a < |g| - 1;
      assert forall k :: 0 <= k < |p| ==> p[k] in p;
    }
  }

  lemma {:induction false} RowCellsIncreasing(i: int, row: seq<real>)
    ensures forall p, q :: 0 <= p < q < |RowCells(i, row)| ==> RowCells(i, row)[p].b < RowCells(i, row)[q].b
  {
    if row != [] {
      var p := RowCells(i, row[..|row| - 1]);
      RowCellsIncreasing(i, row[..|row| - 1]);
      assert forall k :: 0 <= k < |p| ==> p[k] in p;
    }
  }

  /** `getMatchingIndicesMapAtoB`: each listed cell puts its column under
      its row, a later cell of the same row replacing an earlier one. */
  function RowToColumn(cs: seq<MatchingIndices>): map<int, int>
  {
    if cs == [] then map[] else RowToColumn(cs[..|cs| - 1])[cs[|cs| - 1].a := cs[|cs| - 1].b]
  }

  /** `getMatchingIndicesMapAtoBWithSim`: the same, keeping the whole cell. */
  function RowToCell(cs: seq<MatchingIndices>): map<int, MatchingIndices>
  {
    if cs == [] then map[] else RowToCell(cs[..|cs| - 1])[cs[|cs| - 1].a := cs[|cs| - 1]]
  }

  /** The keys of the map to columns are the rows of the list, and every
      value is the column of a listed cell of that row. */
  lemma {:induction false} RowToColumnEntries(cs: seq<MatchingIndices>)
    ensures RowToColumn(cs).Keys == RowsOf(cs)
    ensures forall a :: a in RowToColumn(cs) ==>
              exists k :: 0 <= k < |cs| && cs[k].a == a && cs[k].b == RowToColumn(cs)[a]
  {
    if cs != [] {
      var p := cs[..|cs| - 1];
      RowToColumnEntries(p);
      forall a | a in RowToColumn(cs)
        ensures exists k :: 0 <= k < |cs| && cs[k].a == a && cs[k].b == RowToColumn(cs)[a]
      {
        if a != cs[|cs| - 1].a {
          var k :| 0 <= k < |p| && p[k].a == a && p[k].b == RowToColumn(p)[a];
          assert cs[k] == p[k];
        }
      }
    }
  }

  /** The keys of the map to cells are the rows of the list, and every
      value is a listed cell of that row. */
  lemma {:induction false} RowToCellEntries(cs: seq<MatchingIndices>)
    ensures RowToCell(cs).Keys == RowsOf(cs)
    ensures forall a :: a in RowToCell(cs) ==> RowToCell(cs)[a] in cs && RowToCell(cs)[a].a == a
  {
    if cs != [] {
      var p := cs[..|cs| - 1];
      RowToCellEntries(p);
      forall a | a in RowToCell(cs)
        ensures RowToCell(cs)[a] in cs && RowToCell(cs)[a].a == a
      {
        if a != cs[|cs| - 1].a {
          assert RowToCell(p)[a] in p;
        }
      }
    }
  }

  /** On the non-zero cells of g the map from rows to columns has exactly
      the rows holding a non-zero cell as keys, and sends each to a column
      where that row is non-zero; the map to cells sends it to such a cell
      with its value. */
  lemma RowMapsOfNonZeroCells(g: Grid)
    ensures RowToColumn(NonZeroCells(g)).Keys == NonZeroRows(g)
    ensures RowToCell(NonZeroCells(g)).Keys == NonZeroRows(g)
    ensures forall a :: a in RowToColumn(NonZeroCells(g)) ==>
              0 <= a < |g| && 0 <= RowToColumn(NonZeroCells(g))[a] < |g[a]|
              && g[a][RowToColumn(NonZeroCells(g))[a]] != 0.0
    ensures forall a :: a in RowToCell(NonZeroCells(g)) ==>
              var x := RowToCell(NonZeroCells(g))[a];
              x.a == a && 0 <= x.b < |g[a]| && g[a][x.b] != 0.0 && x.c == g[a][x.b]
  {
    var cs := NonZeroCells(g);
    RowToColumnEntries(cs);
    RowToCellEntries(cs);
    RowsOfNonZeroCells(g);
    forall a | a in RowToColumn(cs)
      ensures 0 <= a < |g| && 0 <= RowToColumn(cs)[a] < |g[a]| && g[a][RowToColumn(cs)[a]] != 0.0
    {
      var k :| 0 <= k < |cs| && cs[k].a == a && cs[k].b == RowToColumn(cs)[a];
      assert cs[k] in cs;
    }
  }

  // ---------------------------------------------------------------------
  // Sums over a matrix

  /** All cells, row by row: the order in which selectAboveNoise feeds the
      standard deviation. */
  function Flatten(g: Grid): seq<real>
  {
    if g == [] then [] else Flatten(g[..|g| - 1]) + g[|g| - 1]
  }

  lemma {:induction false} FlattenLength(g: Grid, n: nat)
    requires IsRect(g, |g|, n)
    ensures |Flatten(g)| == |g| * n
  {
    if g != [] {
      FlattenLength(g[..|g| - 1], n);
      assert (|g| - 1) * n + n == |g| * n;
    }
  }

  /** The sum of every row. */
  function RowSums(g: Grid): (r: seq<real>)
    ensures |r| == |g| && forall i :: 0 <= i < |g| ==> r[i] == Sum(g[i])
  {
    seq(|g|, i requires 0 <= i < |g| => Sum(g[i]))
  }

  /** The sum of every column. */
  function ColumnSums(g: Grid, n: nat): (r: seq<real>)
    requires IsRect(g, |g|, n)
    ensures |r| == n && forall j :: 0 <= j < n ==> r[j] == Sum(Column(g, j))
  {
    seq(n, j requires 0 <= j < n => Sum(Column(g, j)))
  }

  /** The total of the row sums is the sum of all cells. */
  lemma {:induction false} RowSumsTotal(g: Grid)
    ensures Sum(RowSums(g)) == Sum(Flatten(g))
  {
    if g != [] {
      var h := g[..|g| - 1];
      RowSumsTotal(h);
      assert RowSums(g)[..|g| - 1] == RowSums(h);
      SumConcat(Flatten(h), g[|g| - 1]);
    }
  }

  /** Summing by columns gives the same total as summing by rows, which is
      why transposing before the row sums does not change the monogamy. */
  lemma {:induction false} ColumnSumsTotal(g: Grid, n: nat)
    requires IsRect(g, |g|, n)
    ensures Sum(ColumnSums(g, n)) == Sum(RowSums(g))
  {
    if g != [] {
      var h := g[..|g| - 1];
      ColumnSumsTotal(h, n);
      assert RowSums(g)[..|g| - 1] == RowSums(h);
      var last := g[|g| - 1];
      forall j | 0 <= j < n
        ensures ColumnSums(g, n)[j] == ColumnSums(h, n)[j] + last[j]
      {
        assert Column(g, j)[..|g| - 1] == Column(h, j);
      }
      SumPointwise(ColumnSums(g, n), ColumnSums(h, n), last);
      assert Sum(RowSums(g)) == Sum(RowSums(h)) + Sum(last);
    } else {
      var z := ColumnSums(g, n);
      SumPointwise(z, z, z);
    }
  }

  /** If c is a + b entry by entry, the sums add up too. */
  lemma {:induction false} SumPointwise(c: seq<real>, a: seq<real>, b: seq<real>)
    requires |c| == |a| == |b|
    requires forall k :: 0 <= k < |c| ==> c[k] == a[k] + b[k]
    ensures Sum(c) == Sum(a) + Sum(b)
  {
    if c != [] {
      SumPointwise(c[..|c| - 1], a[..|a| - 1], b[..|b| - 1]);
    }
  }

  // ---------------------------------------------------------------------
  // selectAboveNoise

  /** The mean of all m x n cells. */
  function Mean(g: Grid, n: nat): real
    requires |g| * n > 0
  {
    Sum(Flatten(g)) / (|g| * n) as real
  }

  /** The noise level: the mean plus twice the standard deviation of all
      cells, read row by row. */
  function NoiseLevel(g: Grid, n: nat, stdDev: seq<real> -> real): real
    requires |g| * n > 0
  {
    Mean(g, n) + 2.0 * stdDev(Flatten(g))
  }

  /** The mean is the total of the row sums over the number of cells. */
  lemma MeanByRows(g: Grid, n: nat)
    requires |g| * n > 0
    ensures Mean(g, n) == Sum(RowSums(g)) / (|g| * n) as real
  {
    RowSumsTotal(g);
  }

  /** With a non-negative deviation, every cell that survives the noise
      filter is non-zero only if it is at least the mean. */
  lemma AboveNoiseAtLeastMean(g: Grid, n: nat, stdDev: seq<real> -> real, i: nat, j: nat)
    requires IsRect(g, |g|, n) && |g| * n > 0 && i < |g| && j < n
    requires stdDev(Flatten(g)) >= 0.0
    requires Threshold(g, NoiseLevel(g, n, stdDev))[i][j] != 0.0
    ensures g[i][j] >= Mean(g, n)
  {
    ThresholdCells(g, NoiseLevel(g, n, stdDev));
  }

  // ---------------------------------------------------------------------
  // partnerMatrix and getMonogamy

  /** The number of positive entries (the `entries` indicator summed). */
  function PositiveCount(s: seq<real>): (c: nat)
    ensures c <= |s|
  {
    if s == [] then 0 else PositiveCount(s[..|s| - 1]) + (if s[|s| - 1] > 0.0 then 1 else 0)
  }

  /** A positive entry is counted. */
  lemma {:induction false} PositiveCountPos(s: seq<real>, k: nat)
    requires k < |s| && s[k] > 0.0
    ensures PositiveCount(s) >= 1
  {
    if k < |s| - 1 {
      PositiveCountPos(s[..|s| - 1], k);
    }
  }

  /** The partner of cell (i, j): for a positive cell, the positive cells
      of its row plus those of its column, itself counted once; 1 for any
      other cell. It is never below 1, so dividing by it is safe. */
  function Partner(g: Grid, n: nat, i: nat, j: nat): (r: real)
    requires IsRect(g, |g|, n) && i < |g| && j < n
    ensures r >= 1.0
    ensures g[i][j] > 0.0 ==> r == (PositiveCount(g[i]) + PositiveCount(Column(g, j))) as real - 1.0
  {
    if g[i][j] > 0.0 then
      PositiveCountPos(g[i], j);
      PositiveCountPos(Column(g, j), i);
      (PositiveCount(g[i]) + PositiveCount(Column(g, j))) as real - 1.0
    else 1.0
  }

  /** The share of every cell: its value over its partner. */
  function ShareGrid(g: Grid, n: nat): (r: Grid)
    requires IsRect(g, |g|, n)
    ensures IsRect(r, |g|, n)
    ensures forall i, j :: 0 <= i < |g| && 0 <= j < n ==> r[i][j] == g[i][j] / Partner(g, n, i, j)
  {
    seq(|g|, i requires 0 <= i < |g| => seq(n, j requires 0 <= j < n => g[i][j] / Partner(g, n, i, j)))
  }

  /** `getMonogamy`: the total share divided by the longer side. */
  function Monogamy(g: Grid, n: nat): real
    requires IsRect(g, |g|, n) && MaxNat(|g|, n) > 0
  {
    Sum(RowSums(ShareGrid(g, n))) / MaxNat(|g|, n) as real
  }

  /** A row of shares over a row of values in [0, 1]: the shares are 0 off
      the positive cells and between 0 and c on them, so they add up to at
      most c times the positive count. */
  lemma {:induction false} SumBoundedByCount(s: seq<real>, row: seq<real>, c: real)
    requires |s| == |row| && c >= 0.0
    requires forall j :: 0 <= j < |s| ==> if row[j] > 0.0 then 0.0 <= s[j] <= c else s[j] == 0.0
    ensures 0.0 <= Sum(s) <= PositiveCount(row) as real * c
  {
    if s != [] {
      SumBoundedByCount(s[..|s| - 1], row[..|row| - 1], c);
    }
  }

  /** x / p <= 1 / q for 0 < x <= 1 and p >= q >= 1. */
  lemma ShareAtMost(x: real, p: real, q: real)
    requires 0.0 < x <= 1.0 && p >= q >= 1.0
    ensures 0.0 <= x / p <= 1.0 / q
  {
    assert x / p <= 1.0 / p;
    assert 1.0 / p <= 1.0 / q;
  }

  /** One share: 0 on a cell that is not positive, at most one over the
      row's positive count on a positive one. */
  lemma ShareCellBound(g: Grid, n: nat, i: nat, j: nat)
    requires IsRect(g, |g|, n) && i < |g| && j < n && 0.0 <= g[i][j] <= 1.0
    ensures g[i][j] > 0.0 ==> PositiveCount(g[i]) >= 1
    ensures if g[i][j] > 0.0 then 0.0 <= ShareGrid(g, n)[i][j] <= 1.0 / PositiveCount(g[i]) as real
            else ShareGrid(g, n)[i][j] == 0.0
  {
    if g[i][j] > 0.0 {
      PositiveCountPos(g[i], j);
      PositiveCountPos(Column(g, j), i);
      ShareAtMost(g[i][j], Partner(g, n, i, j), PositiveCount(g[i]) as real);
    }
  }

  /** One over the number of positive cells of a row, 0 for none. */
  function Cap(row: seq<real>): real
  {
    if PositiveCount(row) == 0 then 0.0 else 1.0 / PositiveCount(row) as real
  }

  /** Every share of row i is 0 off the positive cells and at most the
      row's cap on them. */
  lemma ShareRowCells(g: Grid, n: nat, i: nat)
    requires IsRect(g, |g|, n) && i < |g|
    requires forall r, c :: 0 <= r < |g| && 0 <= c < n ==> 0.0 <= g[r][c] <= 1.0
    ensures forall j :: 0 <= j < n ==>
              if g[i][j] > 0.0 then 0.0 <= ShareGrid(g, n)[i][j] <= Cap(g[i]) else ShareGrid(g, n)[i][j] == 0.0
  {
    forall j | 0 <= j < n
      ensures if g[i][j] > 0.0 then 0.0 <= ShareGrid(g, n)[i][j] <= Cap(g[i]) else ShareGrid(g, n)[i][j] == 0.0
    {
      ShareCellBound(g, n, i, j);
    }
  }

  /** On values in [0, 1] the shares of one row add up to at most 1. */
  lemma ShareRowBound(g: Grid, n: nat, i: nat)
    requires IsRect(g, |g|, n) && i < |g|
    requires forall r, c :: 0 <= r < |g| && 0 <= c < n ==> 0.0 <= g[r][c] <= 1.0
    ensures 0.0 <= Sum(ShareGrid(g, n)[i]) <= 1.0
  {
    ShareRowCells(g, n, i);
    RowTotalAtMostOne(ShareGrid(g, n)[i], g[i]);
  }

  /** Shares capped by the row's cap add up to at most 1. */
  lemma RowTotalAtMostOne(s: seq<real>, row: seq<real>)
    requires |s| == |row|
    requires forall j :: 0 <= j < |s| ==> if row[j] > 0.0 then 0.0 <= s[j] <= Cap(row) else s[j] == 0.0
    ensures 0.0 <= Sum(s) <= 1.0
  {
    CapTimesCount(row);
    SumBoundedByCount(s, row, Cap(row));
  }

  lemma CapTimesCount(row: seq<real>)
    ensures Cap(row) >= 0.0 && PositiveCount(row) as real * Cap(row) <= 1.0
  {
    if PositiveCount(row) > 0 {
      MulInverse(PositiveCount(row) as real);
    }
  }

  lemma MulInverse(x: real)
    requires x > 0.0
    ensures x * (1.0 / x) == 1.0
  {
  }

  /** The rows' share totals are each in [0, 1], so their sum is at most
      the number of rows. */
  lemma {:induction false} ShareTotalBound(g: Grid, n: nat, k: nat)
    requires IsRect(g, |g|, n) && k <= |g|
    requires forall r, c :: 0 <= r < |g| && 0 <= c < n ==> 0.0 <= g[r][c] <= 1.0
    ensures 0.0 <= Sum(RowSums(ShareGrid(g, n))[..k]) <= k as real
  {
    if k > 0 {
      ShareTotalBound(g, n, k - 1);
      var t := RowSums(ShareGrid(g, n));
      assert t[..k][..k - 1] == t[..k - 1];
      ShareRowBound(g, n, k - 1);
    }
  }

  /** On similarities in [0, 1] the monogamy lies in [0, 1]. */
  lemma MonogamyBounds(g: Grid, n: nat)
    requires IsRect(g, |g|, n) && MaxNat(|g|, n) > 0
    requires forall r, c :: 0 <= r < |g| && 0 <= c < n ==> 0.0 <= g[r][c] <= 1.0
    ensures 0.0 <= Monogamy(g, n) <= 1.0
  {
    var t := RowSums(ShareGrid(g, n));
    ShareTotalBound(g, n, |g|);
    assert t[..|g|] == t;
    DivBounds(Sum(t), MaxNat(|g|, n) as real);
  }

  lemma DivBounds(x: real, d: real)
    requires 0.0 <= x <= d && d > 0.0
    ensures 0.0 <= x / d <= 1.0
  {
    assert (x / d) * d == x;
  }

  // ---------------------------------------------------------------------
  // Rows and columns that hold a match

  /** The rows of a list of cells. */
  function RowsOf(cs: seq<MatchingIndices>): (r: set<int>)
    ensures forall a :: a in r <==> exists k :: 0 <= k < |cs| && cs[k].a == a
  {
    if cs == [] then {}
    else
      var p := RowsOf(cs[..|cs| - 1]);
      assert forall k :: 0 <= k < |cs| - 1 ==> cs[..|cs| - 1][k] == cs[k];
      p + {cs[|cs| - 1].a}
  }

  /** The columns of a list of cells. */
  function ColsOf(cs: seq<MatchingIndices>): (r: set<int>)
    ensures forall b :: b in r <==> exists k :: 0 <= k < |cs| && cs[k].b == b
  {
    if cs == [] then {}
    else
      var p := ColsOf(cs[..|cs| - 1]);
      assert forall k :: 0 <= k < |cs| - 1 ==> cs[..|cs| - 1][k] == cs[k];
      p + {cs[|cs| - 1].b}
  }

  predicate HasNonZero(s: seq<real>)
  {
    exists k :: 0 <= k < |s| && s[k] != 0.0
  }

  /** The rows holding a non-zero cell. */
  function NonZeroRows(g: Grid): set<int>
  {
    set i | 0 <= i < |g| && HasNonZero(g[i])
  }

  /** The columns holding a non-zero cell. */
  function NonZeroColumns(g: Grid, n: nat): set<int>
    requires IsRect(g, |g|, n)
  {
    set j | 0 <= j < n && HasNonZero(Column(g, j))
  }

  /** The rows of the listed non-zero cells are the rows holding one. */
  lemma RowsOfNonZeroCells(g: Grid)
    ensures RowsOf(NonZeroCells(g)) == NonZeroRows(g)
  {
    var cs := NonZeroCells(g);
    forall a | a in NonZeroRows(g)
      ensures a in RowsOf(cs)
    {
      var b :| 0 <= b < |g[a]| && g[a][b] != 0.0;
      assert MatchingIndices(a, b, g[a][b]) in cs;
    }
    forall a | a in RowsOf(cs)
      ensures a in NonZeroRows(g)
    {
      var k :| 0 <= k < |cs| && cs[k].a == a;
      assert cs[k] in cs;
    }
  }

  /** The columns of the listed non-zero cells are the columns holding one. */
  lemma ColsOfNonZeroCells(g: Grid, n: nat)
    requires IsRect(g, |g|, n)
    ensures ColsOf(NonZeroCells(g)) == NonZeroColumns(g, n)
  {
    NonZeroColumnsListed(g, n);
    ListedColumnsNonZero(g, n);
  }

  /** Every column holding a non-zero cell has a listed cell. */
  lemma NonZeroColumnsListed(g: Grid, n: nat)
    requires IsRect(g, |g|, n)
    ensures NonZeroColumns(g, n) <= ColsOf(NonZeroCells(g))
  {
    var cs := NonZeroCells(g);
    forall b | b in NonZeroColumns(g, n)
      ensures b in ColsOf(cs)
    {
      var a :| 0 <= a < |g| && Column(g, b)[a] != 0.0;
      assert MatchingIndices(a, b, g[a][b]) in cs;
    }
  }

  /** Every listed cell lies in a column holding a non-zero cell. */
  lemma ListedColumnsNonZero(g: Grid, n: nat)
    requires IsRect(g, |g|, n)
    ensures ColsOf(NonZeroCells(g)) <= NonZeroColumns(g, n)
  {
    var cs := NonZeroCells(g);
    forall b | b in ColsOf(cs)
      ensures b in NonZeroColumns(g, n)
    {
      var k :| 0 <= k < |cs| && cs[k].b == b;
      assert cs[k] in cs;
      assert Column(g, b)[cs[k].a] != 0.0;
    }
  }

  /** `getCoverageA` on |A| labels: the share of rows holding a match. */
  function CoverageRows(g: Grid, labels: nat): real
    requires labels > 0
  {
    |NonZeroRows(g)| as real / labels as real
  }

  /** `getCoverageB` on |B| labels: the share of columns holding a match. */
  function CoverageColumns(g: Grid, n: nat, labels: nat): real
    requires IsRect(g, |g|, n) && labels > 0
  {
    |NonZeroColumns(g, n)| as real / labels as real
  }

  /** With one label per row, the row coverage lies in [0, 1] and is 1
      exactly when every row holds a non-zero cell. */
  lemma CoverageRowsBounds(g: Grid)
    requires |g| > 0
    ensures 0.0 <= CoverageRows(g, |g|) <= 1.0
    ensures CoverageRows(g, |g|) == 1.0 <==> forall i :: 0 <= i < |g| ==> HasNonZero(g[i])
  {
    var s := NonZeroRows(g);
    SubsetOfRangeCard(s, |g|);
    UnitFraction(|s|, |g|);
    if |s| == |g| {
      SubsetOfRangeFull(s, |g|);
      forall i | 0 <= i < |g|
        ensures HasNonZero(g[i])
      {
        assert i in s;
      }
    }
    if forall i :: 0 <= i < |g| ==> HasNonZero(g[i]) {
      assert forall i :: 0 <= i < |g| ==> i in s;
      assert Range(|g|) <= s;
      SubsetCard(Range(|g|), s);
      assert |s| == |g|;
    }
  }

  /** With one label per column, the column coverage lies in [0, 1] and is
      1 exactly when every column holds a non-zero cell. */
  lemma CoverageColumnsBounds(g: Grid, n: nat)
    requires IsRect(g, |g|, n) && n > 0
    ensures 0.0 <= CoverageColumns(g, n, n) <= 1.0
    ensures CoverageColumns(g, n, n) == 1.0 <==> forall j :: 0 <= j < n ==> HasNonZero(Column(g, j))
  {
    var s := NonZeroColumns(g, n);
    SubsetOfRangeCard(s, n);
    UnitFraction(|s|, n);
    if |s| == n {
      SubsetOfRangeFull(s, n);
      forall j | 0 <= j < n
        ensures HasNonZero(Column(g, j))
      {
        assert j in s;
      }
    }
    if forall j :: 0 <= j < n ==> HasNonZero(Column(g, j)) {
      assert forall j :: 0 <= j < n ==> j in s;
      assert Range(n) <= s;
      SubsetCard(Range(n), s);
      assert |s| == n;
    }
  }

  /** m / n lies in [0, 1] for m <= n, and is 1 exactly when m == n. */
  lemma UnitFraction(m: nat, n: nat)
    requires 0 < n && m <= n
    ensures 0.0 <= m as real / n as real <= 1.0
    ensures m as real / n as real == 1.0 <==> m == n
  {
    var q := m as real / n as real;
    assert q * n as real == m as real;
  }

  // ---------------------------------------------------------------------
  // getMaxLocation

  /** (i, j) comes before (r, c) in row-major order. */
  predicate Before(i: int, j: int, r: int, c: int)
  {
    i < r || (i == r && j < c)
  }

  /** (r, c) holds the largest value of g, and no earlier cell holds it. */
  predicate IsFirstMax(g: Grid, n: nat, r: int, c: int)
    requires IsRect(g, |g|, n)
  {
    0 <= r < |g| && 0 <= c < n
    && (forall i, j :: 0 <= i < |g| && 0 <= j < n ==> g[i][j] <= g[r][c])
    && (forall i, j :: 0 <= i < |g| && 0 <= j < n && Before(i, j, r, c) ==> g[i][j] < g[r][c])
  }

  /** The largest cell of a non-empty matrix: the larger of the largest
      cell above the last row and the largest cell of the last row. */
  function GlobalMax(g: Grid, n: nat): real
    requires IsRect(g, |g|, n) && |g| > 0 && n > 0
  {
    if |g| == 1 then SeqMax(g[0])
    else Max(GlobalMax(g[..|g| - 1], n), SeqMax(g[|g| - 1]))
  }

  /** No cell exceeds the largest one, and some cell reaches it. */
  lemma {:induction false} GlobalMaxBounds(g: Grid, n: nat)
    requires IsRect(g, |g|, n) && |g| > 0 && n > 0
    ensures forall i, j :: 0 <= i < |g| && 0 <= j < n ==> g[i][j] <= GlobalMax(g, n)
    ensures exists i, j :: 0 <= i < |g| && 0 <= j < n && g[i][j] == GlobalMax(g, n)
  {
    var last := g[|g| - 1];
    var k :| 0 <= k < n && last[k] == SeqMax(last);
    if |g| > 1 {
      var p := g[..|g| - 1];
      GlobalMaxBounds(p, n);
      assert forall i :: 0 <= i < |p| ==> p[i] == g[i];
      var i, j :| 0 <= i < |p| && 0 <= j < n && p[i][j] == GlobalMax(p, n);
      assert g[i][j] == GlobalMax(p, n);
    }
  }

  /** The cell found first holds the global maximum. */
  lemma FirstMaxIsGlobal(g: Grid, n: nat, r: int, c: int)
    requires IsRect(g, |g|, n) && IsFirstMax(g, n, r, c)
    ensures g[r][c] == GlobalMax(g, n)
  {
    GlobalMaxBounds(g, n);
    var i, j :| 0 <= i < |g| && 0 <= j < n && g[i][j] == GlobalMax(g, n);
  }

  /** The first maximum is unique. */
  lemma FirstMaxUnique(g: Grid, n: nat, r: int, c: int, r': int, c': int)
    requires IsRect(g, |g|, n) && IsFirstMax(g, n, r, c) && IsFirstMax(g, n, r', c')
    ensures r == r' && c == c'
  {
    assert g[r][c] <= g[r'][c'] && g[r'][c'] <= g[r][c];
  }
}
