/** The similarity matrix: a dense rows x columns matrix of reals with the
    labels of its rows (A) and of its columns (B). The selection and
    aggregation operators overwrite its cells in place; each is proved
    against its value-level specification in module Grids. */
module Matrices {
  import opened Common
  import opened Candidates
  import opened Grids
  import opened Prepared
  import opened Snapshots
  import opened Greedy

  /** Colt's `assign(DoubleFunction)`: every cell replaced by f of itself. */
  method Assign(a: array2<real>, f: real -> real)
    modifies a
    ensures forall i, j :: 0 <= i < a.Length0 && 0 <= j < a.Length1 ==> a[i, j] == f(old(a[i, j]))
  {
    var i := 0;
    while i < a.Length0
      invariant 0 <= i <= a.Length0
      invariant forall r, c :: 0 <= r < a.Length0 && 0 <= c < a.Length1 ==>
                  a[r, c] == if r < i then f(old(a[r, c])) else old(a[r, c])
    {
      var j := 0;
      while j < a.Length1
        invariant 0 <= j <= a.Length1
        invariant forall r, c :: 0 <= r < a.Length0 && 0 <= c < a.Length1 ==>
                    a[r, c] == if r < i || (r == i && c < j) then f(old(a[r, c])) else old(a[r, c])
      {
        a[i, j] := f(a[i, j]);
        j := j + 1;
      }
      i := i + 1;
    }
  }

  /** Colt's `assign(DoubleMatrix2D, DoubleDoubleFunction)`: every cell of a
      replaced by f of itself and the same cell of b. Each cell reads only
      its own position, so b may be a itself. */
  method Assign2(a: array2<real>, b: array2<real>, f: (real, real) -> real)
    requires b.Length0 == a.Length0 && b.Length1 == a.Length1
    modifies a
    ensures forall i, j :: 0 <= i < a.Length0 && 0 <= j < a.Length1 ==>
              a[i, j] == f(old(a[i, j]), old(b[i, j]))
  {
    var i := 0;
    while i < a.Length0
      invariant 0 <= i <= a.Length0
      invariant forall r, c :: 0 <= r < a.Length0 && 0 <= c < a.Length1 ==>
                  a[r, c] == (if r < i then f(old(a[r, c]), old(b[r, c])) else old(a[r, c]))
                  && (r >= i ==> b[r, c] == old(b[r, c]))
    {
      var j := 0;
      while j < a.Length1
        invariant 0 <= j <= a.Length1
        invariant forall r, c :: 0 <= r < a.Length0 && 0 <= c < a.Length1 ==>
                    a[r, c] == (if r < i || (r == i && c < j) then f(old(a[r, c]), old(b[r, c])) else old(a[r, c]))
                    && (r > i || (r == i && c >= j) ==> b[r, c] == old(b[r, c]))
      {
        a[i, j] := f(a[i, j], b[i, j]);
        j := j + 1;
      }
      i := i + 1;
    }
  }

  /** The first step of the majority vote: every cell becomes its sign. */
  method SignCells(a: array2<real>)
    modifies a
    ensures GridOf(a) == SignGrid(old(GridOf(a)), a.Length1)
  {
    ghost var g := GridOf(a);
    Assign(a, Sign);
    GridFromCells(a, SignGrid(g, a.Length1));
  }

  /** One vote of the majority vote: a cell gains one where o is positive. */
  method AddVotesOf(a: array2<real>, o: array2<real>)
    requires a != o && o.Length0 == a.Length0 && o.Length1 == a.Length1
    modifies a
    ensures GridOf(a) == AddVotes(old(GridOf(a)), GridOf(o), a.Length1)
  {
    ghost var h := GridOf(a);
    Assign2(a, o, (d1, d2) => if d2 > 0.0 then d1 + 1.0 else d1);
    GridFromCells(a, AddVotes(h, GridOf(o), a.Length1));
  }

  /** The first loop of `maxima`: the largest entry of row i
      (`viewRow(i).getMaxLocation()[0]`). */
  method RowMaximum(a: array2<real>, i: nat) returns (mx: real)
    requires i < a.Length0 && a.Length1 > 0
    ensures mx == RowMaxes(GridOf(a))[i]
  {
    mx := a[i, 0];
    var at, j := 0, 1;
    while j < a.Length1
      invariant 1 <= j <= a.Length1 && 0 <= at < j && mx == a[i, at]
      invariant forall q :: 0 <= q < j ==> a[i, q] <= mx
    {
      if a[i, j] > mx {
        mx, at := a[i, j], j;
      }
      j := j + 1;
    }
    SeqMaxIs(GridOf(a)[i], mx, at);
  }

  /** The largest entry of column j. */
  method ColumnMaximum(a: array2<real>, j: nat) returns (mx: real)
    requires j < a.Length1 && a.Length0 > 0
    ensures mx == ColumnMaxes(GridOf(a), a.Length1)[j]
  {
    mx := a[0, j];
    var at, i := 0, 1;
    while i < a.Length0
      invariant 1 <= i <= a.Length0 && 0 <= at < i && mx == a[at, j]
      invariant forall p :: 0 <= p < i ==> a[p, j] <= mx
    {
      if a[i, j] > mx {
        mx, at := a[i, j], i;
      }
      i := i + 1;
    }
    SeqMaxIs(Column(GridOf(a), j), mx, at);
  }

  /** Row i of t set to v (the repeat of a column vector). */
  method FillRow(t: array2<real>, i: nat, v: real)
    requires i < t.Length0
    modifies t
    ensures forall r, c :: 0 <= r < t.Length0 && 0 <= c < t.Length1 ==> t[r, c] == if r == i then v else old(t[r, c])
  {
    var j := 0;
    while j < t.Length1
      invariant 0 <= j <= t.Length1
      invariant forall r, c :: 0 <= r < t.Length0 && 0 <= c < t.Length1 ==>
                  t[r, c] == if r == i && c < j then v else old(t[r, c])
    {
      t[i, j] := v;
      j := j + 1;
    }
  }

  /** Column j of t set to v. */
  method FillColumn(t: array2<real>, j: nat, v: real)
    requires j < t.Length1
    modifies t
    ensures forall r, c :: 0 <= r < t.Length0 && 0 <= c < t.Length1 ==> t[r, c] == if c == j then v else old(t[r, c])
  {
    var i := 0;
    while i < t.Length0
      invariant 0 <= i <= t.Length0
      invariant forall r, c :: 0 <= r < t.Length0 && 0 <= c < t.Length1 ==>
                  t[r, c] == if c == j && r < i then v else old(t[r, c])
    {
      t[i, j] := v;
      i := i + 1;
    }
  }

  /** `maxima(m)`: a fresh matrix of m's shape whose every row is filled
      with that row's maximum (the column vector repeated across). */
  method RowMaxima(a: array2<real>) returns (t: array2<real>)
    ensures fresh(t) && t.Length0 == a.Length0 && t.Length1 == a.Length1
    ensures forall i, j :: 0 <= i < a.Length0 && 0 <= j < a.Length1 ==> t[i, j] == RowMaxes(GridOf(a))[i]
  {
    ghost var g := GridOf(a);
    t := new real[a.Length0, a.Length1];
    var i := 0;
    while i < a.Length0
      invariant 0 <= i <= a.Length0
      invariant forall r, c :: 0 <= r < i && 0 <= c < a.Length1 ==> t[r, c] == RowMaxes(g)[r]
    {
      if a.Length1 > 0 {
        var mx := RowMaximum(a, i);
        FillRow(t, i, mx);
      }
      i := i + 1;
    }
  }

  /** `maxima(m.viewDice()).viewDice()`: every column filled with that
      column's maximum. */
  method ColumnMaxima(a: array2<real>) returns (t: array2<real>)
    ensures fresh(t) && t.Length0 == a.Length0 && t.Length1 == a.Length1
    ensures forall i, j :: 0 <= i < a.Length0 && 0 <= j < a.Length1 ==> t[i, j] == ColumnMaxes(GridOf(a), a.Length1)[j]
  {
    ghost var g := GridOf(a);
    t := new real[a.Length0, a.Length1];
    var j := 0;
    while j < a.Length1
      invariant 0 <= j <= a.Length1
      invariant forall r, c :: 0 <= r < a.Length0 && 0 <= c < j ==> t[r, c] == ColumnMaxes(g, a.Length1)[c]
    {
      if a.Length0 > 0 {
        var mx := ColumnMaximum(a, j);
        FillColumn(t, j, mx);
      }
      j := j + 1;
    }
  }

  /** `matMax(a, b)`: a overwritten with the cell-wise larger of a and b,
      and returned. */
  method MatMax(a: array2<real>, b: array2<real>) returns (r: array2<real>)
    requires b.Length0 == a.Length0 && b.Length1 == a.Length1
    modifies a
    ensures r == a
    ensures forall i, j :: 0 <= i < a.Length0 && 0 <= j < a.Length1 ==> a[i, j] == Max(old(a[i, j]), old(b[i, j]))
  {
    Assign2(a, b, (x, y) => Max(x, y));
    r := a;
  }

  /** `t_m` of `selectMax`: the larger of row and column maximum. */
  method CombinedMaxima(a: array2<real>) returns (tm: array2<real>)
    ensures fresh(tm) && tm.Length0 == a.Length0 && tm.Length1 == a.Length1
    ensures forall i, j :: 0 <= i < a.Length0 && 0 <= j < a.Length1 ==>
              tm[i, j] == Max(RowMaxes(GridOf(a))[i] - 0.0, ColumnMaxes(GridOf(a), a.Length1)[j] - 0.0)
  {
    var th := RowMaxima(a);
    var tv := ColumnMaxima(a);
    tm := MatMax(th, tv);
  }

  /** `assign(new DeltaFunction(delta))`: every cell lowered by delta. */
  method Lower(t: array2<real>, delta: real)
    modifies t
    ensures forall i, j :: 0 <= i < t.Length0 && 0 <= j < t.Length1 ==> t[i, j] == old(t[i, j]) - delta
  {
    Assign(t, d => d - delta);
  }

  /** `maxima(M).assign(df)`. */
  method LoweredRowMaxima(a: array2<real>, delta: real) returns (th: array2<real>)
    ensures fresh(th) && th.Length0 == a.Length0 && th.Length1 == a.Length1
    ensures forall i, j :: 0 <= i < a.Length0 && 0 <= j < a.Length1 ==> th[i, j] == RowMaxes(GridOf(a))[i] - delta
  {
    th := RowMaxima(a);
    Lower(th, delta);
  }

  /** `maxima(M.viewDice()).viewDice().assign(df)`. */
  method LoweredColumnMaxima(a: array2<real>, delta: real) returns (tv: array2<real>)
    ensures fresh(tv) && tv.Length0 == a.Length0 && tv.Length1 == a.Length1
    ensures forall i, j :: 0 <= i < a.Length0 && 0 <= j < a.Length1 ==> tv[i, j] == ColumnMaxes(GridOf(a), a.Length1)[j] - delta
  {
    tv := ColumnMaxima(a);
    Lower(tv, delta);
  }

  /** `t_m` of `selectMaxDelta`: both maxima lowered by delta, then the
      larger taken. */
  method LoweredMaxima(a: array2<real>, delta: real) returns (tm: array2<real>)
    ensures fresh(tm) && tm.Length0 == a.Length0 && tm.Length1 == a.Length1
    ensures forall i, j :: 0 <= i < a.Length0 && 0 <= j < a.Length1 ==>
              tm[i, j] == Max(RowMaxes(GridOf(a))[i] - delta, ColumnMaxes(GridOf(a), a.Length1)[j] - delta)
  {
    var th := LoweredRowMaxima(a, delta);
    var tv := LoweredColumnMaxima(a, delta);
    tm := MatMax(th, tv);
  }

  /** A matrix that kept each cell of g at least its lowered maximum holds
      `SelectMaxGrid(g, delta)`. */
  lemma SelectedCells(m: array2<real>, tm: array2<real>, g: Grid, delta: real)
    requires IsRect(g, m.Length0, m.Length1)
    requires tm.Length0 == m.Length0 && tm.Length1 == m.Length1
    requires forall i, j :: 0 <= i < m.Length0 && 0 <= j < m.Length1 ==>
               tm[i, j] == Max(RowMaxes(g)[i] - delta, ColumnMaxes(g, m.Length1)[j] - delta)
    requires forall i, j :: 0 <= i < m.Length0 && 0 <= j < m.Length1 ==>
               m[i, j] == if g[i][j] >= tm[i, j] then g[i][j] else 0.0
    ensures GridOf(m) == SelectMaxGrid(g, m.Length1, delta)
  {
    var h := SelectMaxGrid(g, m.Length1, delta);
    forall i, j | 0 <= i < m.Length0 && 0 <= j < m.Length1
      ensures m[i, j] == h[i][j]
    {
      SelectMaxCell(g, m.Length1, delta, i, j);
    }
    GridFromCells(m, h);
  }

  /** `DoubleMatrix2D.copy()`: a fresh array with the same cells. */
  method CopyCells(a: array2<real>) returns (c: array2<real>)
    ensures fresh(c) && GridOf(c) == GridOf(a)
  {
    c := new real[a.Length0, a.Length1];
    var i := 0;
    while i < a.Length0
      invariant 0 <= i <= a.Length0
      invariant forall r, k :: 0 <= r < i && 0 <= k < a.Length1 ==> c[r, k] == a[r, k]
    {
      var j := 0;
      while j < a.Length1
        invariant 0 <= j <= a.Length1
        invariant forall r, k :: 0 <= r < a.Length0 && 0 <= k < a.Length1 && (r < i || (r == i && k < j)) ==> c[r, k] == a[r, k]
      {
        c[i, j] := a[i, j];
        j := j + 1;
      }
      i := i + 1;
    }
    GridFromCells(c, GridOf(a));
  }

  /** The indicator matrix of `partnerMatrix`: created full of 1, then
      every (non-zero) entry replaced by 1 where mat is positive and 0
      elsewhere. */
  method PositiveIndicator(mat: array2<real>) returns (e: array2<int>)
    ensures fresh(e) && e.Length0 == mat.Length0 && e.Length1 == mat.Length1
    ensures forall i, j :: 0 <= i < mat.Length0 && 0 <= j < mat.Length1 ==>
              e[i, j] == if mat[i, j] > 0.0 then 1 else 0
  {
    e := new int[mat.Length0, mat.Length1];
    var i := 0;
    while i < mat.Length0
      invariant 0 <= i <= mat.Length0
      invariant forall r, c :: 0 <= r < i && 0 <= c < mat.Length1 ==> e[r, c] == if mat[r, c] > 0.0 then 1 else 0
    {
      var j := 0;
      while j < mat.Length1
        invariant 0 <= j <= mat.Length1
        invariant forall r, c :: 0 <= r < mat.Length0 && 0 <= c < mat.Length1 && (r < i || (r == i && c < j)) ==>
                    e[r, c] == if mat[r, c] > 0.0 then 1 else 0
      {
        e[i, j] := if mat[i, j] > 0.0 then 1 else 0;
        j := j + 1;
      }
      i := i + 1;
    }
  }

  /** `entries.viewRow(i).zSum()`: the positive cells of row i of g, counted
      on its indicator matrix. */
  method RowPositives(e: array2<int>, ghost g: Grid, i: nat) returns (c: int)
    requires IsRect(g, e.Length0, e.Length1) && i < e.Length0
    requires forall r, k :: 0 <= r < e.Length0 && 0 <= k < e.Length1 ==> e[r, k] == if g[r][k] > 0.0 then 1 else 0
    ensures c == PositiveCount(g[i])
  {
    c := 0;
    var j := 0;
    while j < e.Length1
      invariant 0 <= j <= e.Length1
      invariant c == PositiveCount(g[i][..j])
    {
      assert g[i][..j + 1][..j] == g[i][..j];
      c := c + e[i, j];
      j := j + 1;
    }
    assert g[i][..j] == g[i];
  }

  /** `entries.viewColumn(j).zSum()`: the positive cells of column j. */
  method ColumnPositives(e: array2<int>, ghost g: Grid, j: nat) returns (c: int)
    requires IsRect(g, e.Length0, e.Length1) && j < e.Length1
    requires forall r, k :: 0 <= r < e.Length0 && 0 <= k < e.Length1 ==> e[r, k] == if g[r][k] > 0.0 then 1 else 0
    ensures c == PositiveCount(Column(g, j))
  {
    ghost var col := Column(g, j);
    c := 0;
    var i := 0;
    while i < e.Length0
      invariant 0 <= i <= e.Length0
      invariant c == PositiveCount(col[..i])
    {
      assert col[..i + 1][..i] == col[..i];
      c := c + e[i, j];
      i := i + 1;
    }
    assert col[..i] == col;
  }

  /** The `rowSums` array of `partnerMatrix`: the positive cells of every row. */
  method RowCounts(e: array2<int>, ghost g: Grid) returns (rowSums: array<int>)
    requires IsRect(g, e.Length0, e.Length1)
    requires forall r, k :: 0 <= r < e.Length0 && 0 <= k < e.Length1 ==> e[r, k] == if g[r][k] > 0.0 then 1 else 0
    ensures fresh(rowSums) && rowSums.Length == e.Length0
    ensures forall r :: 0 <= r < e.Length0 ==> rowSums[r] == PositiveCount(g[r])
  {
    rowSums := new int[e.Length0];
    var i := 0;
    while i < e.Length0
      invariant 0 <= i <= e.Length0
      invariant forall r :: 0 <= r < i ==> rowSums[r] == PositiveCount(g[r])
    {
      rowSums[i] := RowPositives(e, g, i);
      i := i + 1;
    }
  }

  /** The `colSums` array of `partnerMatrix`: the positive cells of every
      column. */
  method ColumnCounts(e: array2<int>, ghost g: Grid) returns (colSums: array<int>)
    requires IsRect(g, e.Length0, e.Length1)
    requires forall r, k :: 0 <= r < e.Length0 && 0 <= k < e.Length1 ==> e[r, k] == if g[r][k] > 0.0 then 1 else 0
    ensures fresh(colSums) && colSums.Length == e.Length1
    ensures forall c :: 0 <= c < e.Length1 ==> colSums[c] == PositiveCount(Column(g, c))
  {
    colSums := new int[e.Length1];
    var j := 0;
    while j < e.Length1
      invariant 0 <= j <= e.Length1
      invariant forall c :: 0 <= c < j ==> colSums[c] == PositiveCount(Column(g, c))
    {
      colSums[j] := ColumnPositives(e, g, j);
      j := j + 1;
    }
  }

  /** The last loop of `partnerMatrix`: a fresh matrix holding
      rowSums[x] + colSums[y] - 1 where the indicator is set and 1 elsewhere. */
  method FillPartners(entries: array2<int>, rowSums: array<int>, colSums: array<int>) returns (p: array2<real>)
    requires rowSums.Length == entries.Length0 && colSums.Length == entries.Length1
    ensures fresh(p) && p.Length0 == entries.Length0 && p.Length1 == entries.Length1
    ensures forall r, c :: 0 <= r < p.Length0 && 0 <= c < p.Length1 ==>
              p[r, c] == if entries[r, c] > 0 then (rowSums[r] + colSums[c]) as real - 1.0 else 1.0
  {
    var n, m := entries.Length0, entries.Length1;
    p := new real[n, m];
    var x := 0;
    while x < n
      invariant 0 <= x <= n
      invariant forall r, c :: 0 <= r < x && 0 <= c < m ==>
                  p[r, c] == if entries[r, c] > 0 then (rowSums[r] + colSums[c]) as real - 1.0 else 1.0
    {
      var y := 0;
      while y < m
        invariant 0 <= y <= m
        invariant forall r, c :: 0 <= r < n && 0 <= c < m && (r < x || (r == x && c < y)) ==>
                    p[r, c] == if entries[r, c] > 0 then (rowSums[r] + colSums[c]) as real - 1.0 else 1.0
      {
        p[x, y] := if entries[x, y] > 0 then (rowSums[x] + colSums[y]) as real - 1.0 else 1.0;
        y := y + 1;
      }
      x := x + 1;
    }
  }

  /** `partnerMatrix(mat)`: for a positive cell the positive cells of its
      row plus those of its column minus one, for every other cell 1. */
  method PartnerMatrix(mat: array2<real>) returns (p: array2<real>)
    ensures fresh(p) && p.Length0 == mat.Length0 && p.Length1 == mat.Length1
    ensures forall i, j :: 0 <= i < mat.Length0 && 0 <= j < mat.Length1 ==>
              p[i, j] == Partner(GridOf(mat), mat.Length1, i, j)
  {
    ghost var g := GridOf(mat);
    var entries := PositiveIndicator(mat);
    var rowSums := RowCounts(entries, g);
    var colSums := ColumnCounts(entries, g);
    p := FillPartners(entries, rowSums, colSums);
    forall i, j | 0 <= i < mat.Length0 && 0 <= j < mat.Length1
      ensures p[i, j] == Partner(g, mat.Length1, i, j)
    {
      assert entries[i, j] > 0 <==> g[i][j] > 0.0;
    }
  }

  /** `partnerMatrix.assign(M, (d1, d2) -> d2 / d1)`: every partner replaced
      by the cell's value over it. */
  method DivideInto(p: array2<real>, mat: array2<real>)
    requires p != mat && p.Length0 == mat.Length0 && p.Length1 == mat.Length1
    requires forall i, j :: 0 <= i < p.Length0 && 0 <= j < p.Length1 ==> p[i, j] >= 1.0
    modifies p
    ensures forall i, j :: 0 <= i < p.Length0 && 0 <= j < p.Length1 ==> p[i, j] == mat[i, j] / old(p[i, j])
  {
    var i := 0;
    while i < p.Length0
      invariant 0 <= i <= p.Length0
      invariant forall r, c :: 0 <= r < p.Length0 && 0 <= c < p.Length1 ==>
                  p[r, c] == if r < i then mat[r, c] / old(p[r, c]) else old(p[r, c])
    {
      var j := 0;
      while j < p.Length1
        invariant 0 <= j <= p.Length1
        invariant forall r, c :: 0 <= r < p.Length0 && 0 <= c < p.Length1 ==>
                    p[r, c] == if r < i || (r == i && c < j) then mat[r, c] / old(p[r, c]) else old(p[r, c])
      {
        p[i, j] := mat[i, j] / p[i, j];
        j := j + 1;
      }
      i := i + 1;
    }
  }

  /** `zSum()` of a vector. */
  method Total(s: seq<real>) returns (t: real)
    ensures t == Sum(s)
  {
    t := 0.0;
    var k := 0;
    while k < |s|
      invariant 0 <= k <= |s|
      invariant t == Sum(s[..k])
    {
      assert s[..k + 1][..k] == s[..k];
      t := t + s[k];
      k := k + 1;
    }
    assert s[..k] == s;
  }

  /** `viewRow(i).zSum()`. */
  method RowTotal(a: array2<real>, i: nat) returns (t: real)
    requires i < a.Length0
    ensures t == Sum(GridOf(a)[i])
  {
    ghost var row := GridOf(a)[i];
    t := 0.0;
    var j := 0;
    while j < a.Length1
      invariant 0 <= j <= a.Length1
      invariant t == Sum(row[..j])
    {
      assert row[..j + 1][..j] == row[..j];
      t := t + a[i, j];
      j := j + 1;
    }
    assert row[..j] == row;
  }

  /** `viewDice().viewRow(j).zSum()`: the sum of column j. */
  method ColumnTotal(a: array2<real>, j: nat) returns (t: real)
    requires j < a.Length1
    ensures t == Sum(Column(GridOf(a), j))
  {
    ghost var col := Column(GridOf(a), j);
    t := 0.0;
    var i := 0;
    while i < a.Length0
      invariant 0 <= i <= a.Length0
      invariant t == Sum(col[..i])
    {
      assert col[..i + 1][..i] == col[..i];
      t := t + a[i, j];
      i := i + 1;
    }
    assert col[..i] == col;
  }

  /** The `rowSums` vector of `getMonogamy` on an untransposed matrix. */
  method RowSumsOf(a: array2<real>) returns (s: seq<real>)
    ensures s == RowSums(GridOf(a))
  {
    ghost var g := GridOf(a);
    s := [];
    var i := 0;
    while i < a.Length0
      invariant 0 <= i <= a.Length0
      invariant s == RowSums(g)[..i]
    {
      var t := RowTotal(a, i);
      s := s + [t];
      i := i + 1;
    }
    assert RowSums(g)[..i] == RowSums(g);
  }

  /** The `rowSums` vector of `getMonogamy` on the transposed matrix: one
      sum per column. */
  method ColumnSumsOf(a: array2<real>) returns (s: seq<real>)
    ensures s == ColumnSums(GridOf(a), a.Length1)
  {
    ghost var g := GridOf(a);
    s := [];
    var j := 0;
    while j < a.Length1
      invariant 0 <= j <= a.Length1
      invariant s == ColumnSums(g, a.Length1)[..j]
    {
      var t := ColumnTotal(a, j);
      s := s + [t];
      j := j + 1;
    }
    assert ColumnSums(g, a.Length1)[..j] == ColumnSums(g, a.Length1);
  }

  /** A Match of `getMapping`: the two labels and the score. */
  datatype Match = Match(labelA: string, labelB: string, score: real)

  /** The loop of `getMapping`: every cell becomes the pair of its row and
      column labels with its score, in the same order. */
  method LabelCells(cs: seq<MatchingIndices>, la: seq<string>, lb: seq<string>) returns (r: seq<Match>)
    requires forall q :: 0 <= q < |cs| ==> 0 <= cs[q].a < |la| && 0 <= cs[q].b < |lb|
    ensures |r| == |cs|
    ensures forall q :: 0 <= q < |cs| ==> r[q] == Match(la[cs[q].a], lb[cs[q].b], cs[q].c)
  {
    r := [];
    var k := 0;
    while k < |cs|
      invariant 0 <= k <= |cs| && |r| == k
      invariant forall q :: 0 <= q < k ==> r[q] == Match(la[cs[q].a], lb[cs[q].b], cs[q].c)
    {
      r := r + [Match(la[cs[k].a], lb[cs[k].b], cs[k].c)];
      k := k + 1;
    }
  }

  /** The `string` of every prepared label (the unboxing loops). */
  function Texts(ps: seq<PreparedString>): (r: seq<string>)
    ensures |r| == |ps| && forall i :: 0 <= i < |ps| ==> r[i] == ps[i].text
  {
    if ps == [] then [] else Texts(ps[..|ps| - 1]) + [ps[|ps| - 1].text]
  }

  /** The unboxing loop of the PreparedString constructors. */
  method Unbox(ps: seq<PreparedString>) returns (r: seq<string>)
    ensures r == Texts(ps)
  {
    r := [];
    var i := 0;
    while i < |ps|
      invariant i <= |ps|
      invariant r == Texts(ps[..i])
    {
      assert ps[..i + 1][..i] == ps[..i];
      r := r + [ps[i].text];
      i := i + 1;
    }
    assert ps[..i] == ps;
  }

  /** The cells of every matrix of a list. */
  ghost function GridsOf(ms: seq<SimMatrix>): (r: seq<Grid>)
    reads set m | m in ms :: m.M
    ensures |r| == |ms| && forall k :: 0 <= k < |ms| ==> r[k] == GridOf(ms[k].M)
  {
    if ms == [] then []
    else GridsOf(ms[..|ms| - 1]) + [GridOf(ms[|ms| - 1].M)]
  }

  /** The bit set of rows filled from a list of cells. */
  method MatchedRows(cs: seq<MatchingIndices>) returns (r: set<int>)
    ensures r == RowsOf(cs)
  {
    r := {};
    var k := 0;
    while k < |cs|
      invariant 0 <= k <= |cs|
      invariant r == RowsOf(cs[..k])
    {
      assert cs[..k + 1][..k] == cs[..k];
      r := r + {cs[k].a};
      k := k + 1;
    }
    assert cs[..k] == cs;
  }

  /** The bit set of columns filled from a list of cells. */
  method MatchedColumns(cs: seq<MatchingIndices>) returns (r: set<int>)
    ensures r == ColsOf(cs)
  {
    r := {};
    var k := 0;
    while k < |cs|
      invariant 0 <= k <= |cs|
      invariant r == ColsOf(cs[..k])
    {
      assert cs[..k + 1][..k] == cs[..k];
      r := r + {cs[k].b};
      k := k + 1;
    }
    assert cs[..k] == cs;
  }

  class SimMatrix {
    const M: array2<real>
    /** The labels of the rows and of the columns; None is Java's null. */
    const A: Option<seq<string>>
    const B: Option<seq<string>>

    /** Labels, when present, match the matrix shape. */
    predicate Labelled()
    {
      A.Some? && B.Some? && |A.value| == M.Length0 && |B.value| == M.Length1
    }

    /** `SimMatrix(m)`: no labels. */
    constructor FromMatrix(m: array2<real>)
      ensures M == m && A.None? && B.None?
    {
      M := m;
      A := None;
      B := None;
    }

    /** `SimMatrix(m, a, b)`, with None for a null array. */
    constructor (m: array2<real>, a: Option<seq<string>>, b: Option<seq<string>>)
      ensures M == m && A == a && B == b
    {
      M := m;
      A := a;
      B := b;
    }

    /** `SimMatrix(m, PreparedString[] a, PreparedString[] b)`: the labels
        are the prepared labels' text. */
    constructor FromPrepared(m: array2<real>, a: seq<PreparedString>, b: seq<PreparedString>)
      ensures M == m && A == Some(Texts(a)) && B == Some(Texts(b))
    {
      var unboxedA := Unbox(a);
      var unboxedB := Unbox(b);
      M := m;
      A := Some(unboxedA);
      B := Some(unboxedB);
    }

    /** `SimMatrix(m, String[] a, PreparedString[] b)`. */
    constructor FromStringsAndPrepared(m: array2<real>, a: seq<string>, b: seq<PreparedString>)
      ensures M == m && A == Some(a) && B == Some(Texts(b))
    {
      var unboxedB := Unbox(b);
      M := m;
      A := Some(a);
      B := Some(unboxedB);
    }

    /** `selectThreshold(th)`. */
    method SelectThreshold(th: real)
      modifies M
      ensures GridOf(M) == Threshold(old(GridOf(M)), th)
    {
      ghost var g := GridOf(M);
      Assign(M, d => ThresholdCell(d, th));
      GridFromCells(M, Threshold(g, th));
    }

    /** The common body of `selectMax` and `selectMaxDelta`, with the lowered
        maxima given: keep the cells at least the larger of the two. */
    method SelectWhereLarger(b: array2<real>)
      requires b.Length0 == M.Length0 && b.Length1 == M.Length1
      modifies M
      ensures forall i, j :: 0 <= i < M.Length0 && 0 <= j < M.Length1 ==>
                M[i, j] == if old(M[i, j]) >= old(b[i, j]) then old(M[i, j]) else 0.0
    {
      Assign2(M, b, (x, y) => if x >= y then x else 0.0);
    }

    /** `selectMaxDelta(delta)`. */
    method SelectMaxDelta(delta: real)
      modifies M
      ensures GridOf(M) == SelectMaxGrid(old(GridOf(M)), M.Length1, delta)
    {
      ghost var g := GridOf(M);
      var tm := LoweredMaxima(M, delta);
      SelectWhereLarger(tm);
      SelectedCells(M, tm, g, delta);
    }

    /** `selectMaxDelta()`: delta 0.1. */
    method SelectMaxDeltaDefault()
      modifies M
      ensures GridOf(M) == SelectMaxGrid(old(GridOf(M)), M.Length1, 0.1)
    {
      SelectMaxDelta(0.1);
    }

    /** `selectMax()`: the maxima are used as they are. */
    method SelectMax()
      modifies M
      ensures GridOf(M) == SelectMaxGrid(old(GridOf(M)), M.Length1, 0.0)
    {
      ghost var g := GridOf(M);
      var tm := CombinedMaxima(M);
      SelectWhereLarger(tm);
      GridFromCells(M, SelectMaxGrid(g, M.Length1, 0.0));
    }

    /** `aggregateAvg(m)`: every cell the mean of itself and m's cell; the
        result is this matrix. */
    method AggregateAvg(o: SimMatrix) returns (r: SimMatrix)
      requires o.M.Length0 == M.Length0 && o.M.Length1 == M.Length1
      modifies M
      ensures r == this
      ensures GridOf(M) == AvgGrid(old(GridOf(M)), old(GridOf(o.M)), M.Length1)
    {
      ghost var g, go := GridOf(M), GridOf(o.M);
      Assign2(M, o.M, (x, y) => (x + y) / 2.0);
      GridFromCells(M, AvgGrid(g, go, M.Length1));
      r := this;
    }

    /** `aggregateMax(m)`: every cell the larger of itself and m's cell. */
    method AggregateMax(o: SimMatrix) returns (r: SimMatrix)
      requires o.M.Length0 == M.Length0 && o.M.Length1 == M.Length1
      modifies M
      ensures r == this
      ensures GridOf(M) == MaxGrid(old(GridOf(M)), old(GridOf(o.M)), M.Length1)
    {
      ghost var g, go := GridOf(M), GridOf(o.M);
      Assign2(M, o.M, (x, y) => Max(x, y));
      GridFromCells(M, MaxGrid(g, go, M.Length1));
      r := this;
    }

    /** `getNonZeros` on one row: the non-zero cells of row i, left to
        right. */
    method RowNonZeros(i: nat) returns (r: seq<MatchingIndices>)
      requires i < M.Length0
      ensures r == RowCells(i, GridOf(M)[i])
    {
      ghost var row := GridOf(M)[i];
      r := [];
      var j := 0;
      while j < M.Length1
        invariant 0 <= j <= M.Length1
        invariant r == RowCells(i, row[..j])
      {
        assert row[..j + 1][..j] == row[..j];
        if M[i, j] != 0.0 {
          r := r + [MatchingIndices(i, j, M[i, j])];
        }
        j := j + 1;
      }
      assert row[..j] == row;
    }

    /** `getMatchingIndices()`: every non-zero cell with its value, in the
        row-major order of `getNonZeros`. */
    method GetMatchingIndices() returns (r: seq<MatchingIndices>)
      ensures r == NonZeroCells(GridOf(M))
    {
      ghost var g := GridOf(M);
      r := [];
      var i := 0;
      while i < M.Length0
        invariant 0 <= i <= M.Length0
        invariant r == NonZeroCells(g[..i])
      {
        var cells := RowNonZeros(i);
        assert g[..i + 1][..i] == g[..i];
        r := r + cells;
        i := i + 1;
      }
      assert g[..i] == g;
    }

    /** `countMatches()`: `cardinality()`, the number of non-zero cells. */
    method CountMatches() returns (c: nat)
      ensures c == |NonZeroCells(GridOf(M))|
    {
      var cells := GetMatchingIndices();
      c := |cells|;
    }

    /** `getMapping()`: every non-zero cell as the pair of its row and
        column labels with its score. The labels must be present (a null
        array makes the Java code throw). */
    method GetMapping() returns (r: seq<Match>)
      requires Labelled()
      ensures var cs := NonZeroCells(GridOf(M));
              |r| == |cs|
              && forall k :: 0 <= k < |cs| ==>
                   0 <= cs[k].a < |A.value| && 0 <= cs[k].b < |B.value|
                   && r[k] == Match(A.value[cs[k].a], B.value[cs[k].b], cs[k].c)
    {
      var cs := GetMatchingIndices();
      NonZeroCellsInside(GridOf(M), |A.value|, |B.value|);
      r := LabelCells(cs, A.value, B.value);
    }

    /** `copy()`: a new SimMatrix over a copy of the cells, sharing the
        label arrays. */
    method Copy() returns (r: SimMatrix)
      ensures fresh(r) && fresh(r.M)
      ensures GridOf(r.M) == GridOf(M) && r.A == A && r.B == B
    {
      var c := CopyCells(M);
      r := new SimMatrix(c, A, B);
    }

    /** The accumulation loop of `selectAboveNoise`: every cell, row by row,
        is fed to the standard deviation and added to the sum; the level is
        the mean over |A| x |B| cells plus twice the deviation. */
    method NoiseLevelOf(stdDev: seq<real> -> real) returns (level: real)
      requires Labelled() && |A.value| * |B.value| > 0
      ensures level == NoiseLevel(GridOf(M), M.Length1, stdDev)
    {
      ghost var g := GridOf(M);
      var m, n := |A.value|, |B.value|;
      var vals: seq<real> := [];
      var s := 0.0;
      var i := 0;
      while i < m
        invariant 0 <= i <= m
        invariant vals == Flatten(g[..i]) && s == Sum(vals)
      {
        var j := 0;
        while j < n
          invariant 0 <= j <= n
          invariant vals == Flatten(g[..i]) + g[i][..j] && s == Sum(vals)
        {
          var v := M[i, j];
          assert g[i][..j + 1] == g[i][..j] + [v];
          assert (vals + [v])[..|vals|] == vals;
          vals := vals + [v];
          s := s + v;
          j := j + 1;
        }
        assert g[i][..n] == g[i];
        assert g[..i + 1][..i] == g[..i];
        i := i + 1;
      }
      assert g[..m] == g;
      level := s / (m * n) as real + 2.0 * stdDev(vals);
    }

    /** `selectAboveNoise()`: `selectThreshold` at the noise level. On a
        matrix without cells there is nothing to threshold. */
    method SelectAboveNoise(stdDev: seq<real> -> real)
      requires Labelled()
      modifies M
      ensures |A.value| * |B.value| > 0 ==>
                GridOf(M) == Threshold(old(GridOf(M)), NoiseLevel(old(GridOf(M)), M.Length1, stdDev))
      ensures |A.value| * |B.value| == 0 ==> GridOf(M) == old(GridOf(M))
    {
      if |A.value| * |B.value| > 0 {
        var noiseLevel := NoiseLevelOf(stdDev);
        SelectThreshold(noiseLevel);
      }
    }

    /** The voting loops of `aggregateMajorityHorizontal`: every cell
        becomes its sign, then gains one for each other matrix positive
        there. */
    method CountVotes(others: seq<SimMatrix>)
      requires forall k :: 0 <= k < |others| ==>
                 others[k].M != M && others[k].M.Length0 == M.Length0 && others[k].M.Length1 == M.Length1
      modifies M
      ensures GridOf(M) == VoteGrid(old(GridOf(M)), M.Length1, old(GridsOf(others)))
    {
      ghost var g := GridOf(M);
      ghost var os := GridsOf(others);
      var n := M.Length1;
      SignCells(M);
      VoteStart(g, n);
      var k := 0;
      while k < |others|
        invariant 0 <= k <= |others|
        invariant GridOf(M) == VoteGrid(g, n, os[..k])
      {
        assert GridOf(others[k].M) == old(GridOf(others[k].M)) == os[k];
        AddVotesOf(M, others[k].M);
        VoteStep(g, n, os, k);
        k := k + 1;
      }
      assert os[..|others|] == os;
    }

    /** `aggregateMajorityHorizontal(mats)`: the vote count of every cell,
        kept when it reaches ceil((k + 1) / 2) for k others. */
    method AggregateMajorityHorizontal(others: seq<SimMatrix>) returns (r: SimMatrix)
      requires forall k :: 0 <= k < |others| ==>
                 others[k].M != M && others[k].M.Length0 == M.Length0 && others[k].M.Length1 == M.Length1
      modifies M
      ensures r == this
      ensures GridOf(M) == Threshold(VoteGrid(old(GridOf(M)), M.Length1, old(GridsOf(others))), Majority(|others|) as real)
    {
      CountVotes(others);
      var majority := Ceil((|others| as real + 1.0) / 2.0);
      MajorityCeil(|others|);
      SelectThreshold(majority as real);
      r := this;
    }

    /** `getMatchingIndicesMapAtoB()`: the listed non-zero cells put into a
        map from row to column. */
    method GetMatchingIndicesMapAtoB() returns (r: map<int, int>)
      ensures r == RowToColumn(NonZeroCells(GridOf(M)))
      ensures r.Keys == NonZeroRows(GridOf(M))
      ensures forall a :: a in r ==> 0 <= a < M.Length0 && 0 <= r[a] < M.Length1 && M[a, r[a]] != 0.0
    {
      var cs := GetMatchingIndices();
      r := map[];
      var k := 0;
      while k < |cs|
        invariant 0 <= k <= |cs|
        invariant r == RowToColumn(cs[..k])
      {
        assert cs[..k + 1][..k] == cs[..k];
        r := r[cs[k].a := cs[k].b];
        k := k + 1;
      }
      assert cs[..k] == cs;
      RowMapsOfNonZeroCells(GridOf(M));
    }

    /** `getMatchingIndicesMapAtoBWithSim()`: the same map, holding the
        whole cell. */
    method GetMatchingIndicesMapAtoBWithSim() returns (r: map<int, MatchingIndices>)
      ensures r == RowToCell(NonZeroCells(GridOf(M)))
      ensures r.Keys == NonZeroRows(GridOf(M))
      ensures forall a :: a in r ==>
                r[a].a == a && 0 <= a < M.Length0 && 0 <= r[a].b < M.Length1
                && M[a, r[a].b] != 0.0 && r[a].c == M[a, r[a].b]
    {
      var cs := GetMatchingIndices();
      r := map[];
      var k := 0;
      while k < |cs|
        invariant 0 <= k <= |cs|
        invariant r == RowToCell(cs[..k])
      {
        assert cs[..k + 1][..k] == cs[..k];
        r := r[cs[k].a := MatchingIndices(cs[k].a, cs[k].b, cs[k].c)];
        k := k + 1;
      }
      assert cs[..k] == cs;
      RowMapsOfNonZeroCells(GridOf(M));
    }

    /** `getCoverageA()`: the rows of the listed cells, counted as a bit set,
        over the number of row labels. It lies in [0, 1] and is 1 exactly
        when every row holds a non-zero cell. */
    method GetCoverageA() returns (r: real)
      requires Labelled() && |A.value| > 0
      ensures r == CoverageRows(GridOf(M), |A.value|)
      ensures 0.0 <= r <= 1.0
      ensures r == 1.0 <==> forall i :: 0 <= i < M.Length0 ==> HasNonZero(GridOf(M)[i])
    {
      var matches := GetMatchingIndices();
      var matchedRows := MatchedRows(matches);
      RowsOfNonZeroCells(GridOf(M));
      r := |matchedRows| as real / |A.value| as real;
      CoverageRowsBounds(GridOf(M));
    }

    /** `getCoverageB()`: the column analogue over the column labels. */
    method GetCoverageB() returns (r: real)
      requires Labelled() && |B.value| > 0
      ensures r == CoverageColumns(GridOf(M), M.Length1, |B.value|)
      ensures 0.0 <= r <= 1.0
      ensures r == 1.0 <==> forall j :: 0 <= j < M.Length1 ==> HasNonZero(Column(GridOf(M), j))
    {
      var matches := GetMatchingIndices();
      var matchedCols := MatchedColumns(matches);
      ColsOfNonZeroCells(GridOf(M), M.Length1);
      r := |matchedCols| as real / |B.value| as real;
      CoverageColumnsBounds(GridOf(M), M.Length1);
    }

    /** `getBestCoverage()`: the larger of the two coverages. */
    method GetBestCoverage() returns (r: real)
      requires Labelled() && |A.value| > 0 && |B.value| > 0
      ensures r == Max(CoverageRows(GridOf(M), |A.value|), CoverageColumns(GridOf(M), M.Length1, |B.value|))
      ensures 0.0 <= r <= 1.0
    {
      var ca := GetCoverageA();
      var cb := GetCoverageB();
      r := Max(ca, cb);
    }

    /** `getMonogamy()`: every cell divided by its partner, summed row by row
        over the matrix, or over its transpose when it has fewer rows than
        columns, and divided by the number of those rows, which is the
        longer side. On similarities in [0, 1] the result lies in [0, 1]. */
    method GetMonogamy() returns (r: real)
      requires MaxNat(M.Length0, M.Length1) > 0
      ensures r == Monogamy(GridOf(M), M.Length1)
    {
      ghost var g := GridOf(M);
      var n := M.Length1;
      var partner := PartnerMatrix(M);
      DivideInto(partner, M);
      GridFromCells(partner, ShareGrid(g, n));
      var rowSums: seq<real>;
      if M.Length0 < M.Length1 {
        rowSums := ColumnSumsOf(partner);
        ColumnSumsTotal(ShareGrid(g, n), n);
      } else {
        rowSums := RowSumsOf(partner);
      }
      var total := Total(rowSums);
      r := total / |rowSums| as real;
    }

    /** The body of one accepted candidate in `selectBipartiteGreedy`:
        row a and column b cleared, then cell (a, b) set to sim. */
    method ClearLinesAndSet(a: nat, b: nat, sim: real)
      requires a < M.Length0 && b < M.Length1
      modifies M
      ensures GridOf(M) == ClearLines(old(GridOf(M)), M.Length1, a, b, sim)
    {
      ghost var h := GridOf(M);
      FillRow(M, a, 0.0);
      FillColumn(M, b, 0.0);
      M[a, b] := sim;
      GridFromCells(M, ClearLines(h, M.Length1, a, b, sim));
    }

    /** `selectBipartiteGreedy()`: walk the non-zero cells by falling score
        and accept a cell when neither its row nor its column is taken yet,
        clearing both lines around it; stop after min(rows, columns)
        acceptances. The accepted cells are returned as a ghost witness. */
    method SelectBipartiteGreedy() returns (ghost acc: seq<MatchingIndices>)
      modifies M
      ensures Monogamous(acc) && SortedDesc(acc)
      ensures forall p :: 0 <= p < |acc| ==> IsCellOf(acc[p], old(GridOf(M)))
      ensures |acc| <= MinNat(M.Length0, M.Length1)
      ensures Blocked(old(GridOf(M)), M.Length1, acc)
      ensures GridOf(M) == KeepOnly(old(GridOf(M)), M.Length1, acc)
    {
      ghost var g := GridOf(M);
      var m, n := M.Length0, M.Length1;
      var usedRows: set<int> := {};
      var usedCols: set<int> := {};
      var maxMatches := MinNat(m, n);
      var matches := 0;
      var rawMatches := GetMatchingIndices();
      var cand := SortDesc(rawMatches);
      acc := [];
      WalkStart(g, n, cand);
      var k := 0;
      while k < |cand|
        invariant Walked(g, n, cand, acc, k) && Tracks(GridOf(M), g, n, acc)
        invariant usedRows == RowsOf(acc) && usedCols == ColsOf(acc)
        invariant matches == |acc|
      {
        var mi := cand[k];
        var a, b, sim := mi.a, mi.b, mi.c;
        if a in usedRows || b in usedCols {
          SkipStep(g, n, cand, acc, k);
          k := k + 1;
          continue;
        }
        AcceptStep(g, n, cand, acc, k);
        ClearStep(GridOf(M), g, n, acc, mi);
        LinesAppend(acc, mi);
        usedRows := usedRows + {a};
        usedCols := usedCols + {b};
        ClearLinesAndSet(a, b, sim);
        acc := acc + [mi];
        matches := matches + 1;
        k := k + 1;
        if matches == maxMatches {
          break;
        }
      }
      MonogamousBound(g, n, acc);
      GreedyBlocked(g, n, cand, acc, k);
      GreedyKeeps(GridOf(M), g, n, acc);
    }
  }
}
