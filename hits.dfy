/** The hit matrix of a lookup: a similarity matrix of one needle (or a
    list of needles) against every cell of a table of strings, together
    with the table and the needles it was built from. */
module Hits {
  import opened Common
  import opened Candidates
  import opened Grids
  import opened Snapshots
  import opened Matrices

  /** Colt's `getMaxLocation()`: a row-major scan that starts at the first
      cell and moves to a cell only when it is strictly larger, so the
      result is the first largest cell, as (row, column, value). A matrix
      without cells has no first cell to start from, and the call fails
      there: None. */
  method MaxLocation(a: array2<real>) returns (loc: Option<MatchingIndices>)
    ensures loc.None? <==> a.Length0 == 0 || a.Length1 == 0
    ensures loc.Some? ==> IsFirstMax(GridOf(a), a.Length1, loc.value.a, loc.value.b)
                          && loc.value.c == a[loc.value.a, loc.value.b]
  {
    if a.Length0 == 0 || a.Length1 == 0 {
      return None;
    }
    var v, row, col := a[0, 0], 0, 0;
    var i := 0;
    while i < a.Length0
      invariant 0 <= i <= a.Length0
      invariant 0 <= row < a.Length0 && 0 <= col < a.Length1 && v == a[row, col]
      invariant (row == 0 && col == 0) || Before(row, col, i, 0)
      invariant forall p, q :: 0 <= p < a.Length0 && 0 <= q < a.Length1 && Before(p, q, i, 0) ==> a[p, q] <= v
      invariant forall p, q :: 0 <= p < a.Length0 && 0 <= q < a.Length1 && Before(p, q, row, col) ==> a[p, q] < v
    {
      var j := 0;
      while j < a.Length1
        invariant 0 <= j <= a.Length1
        invariant 0 <= row < a.Length0 && 0 <= col < a.Length1 && v == a[row, col]
        invariant (row == 0 && col == 0) || Before(row, col, i, j)
        invariant forall p, q :: 0 <= p < a.Length0 && 0 <= q < a.Length1 && Before(p, q, i, j) ==> a[p, q] <= v
        invariant forall p, q :: 0 <= p < a.Length0 && 0 <= q < a.Length1 && Before(p, q, row, col) ==> a[p, q] < v
      {
        if v < a[i, j] {
          v, row, col := a[i, j], i, j;
        }
        j := j + 1;
      }
      i := i + 1;
    }
    loc := Some(MatchingIndices(row, col, v));
  }

  /** The value part of `getMaxLocation()`: the largest cell, or None where
      the call fails. */
  method MaxValue(a: array2<real>) returns (v: Option<real>)
    ensures v.None? <==> a.Length0 == 0 || a.Length1 == 0
    ensures v.Some? ==> v.value == GlobalMax(GridOf(a), a.Length1)
  {
    var loc := MaxLocation(a);
    if loc.None? {
      return None;
    }
    FirstMaxIsGlobal(GridOf(a), a.Length1, loc.value.a, loc.value.b);
    v := Some(loc.value.c);
  }

  /** `selectMaxDelta(delta)` on values: every cell below the largest one
      minus delta becomes 0. */
  function MaxDeltaGrid(g: Grid, n: nat, delta: real): (r: Grid)
    requires IsRect(g, |g|, n) && |g| > 0 && n > 0
    ensures IsRect(r, |g|, n)
  {
    Threshold(g, GlobalMax(g, n) - delta)
  }

  /** A cell survives `selectMaxDelta` unchanged when it is within delta of
      the largest cell, and becomes 0 otherwise. */
  lemma MaxDeltaCells(g: Grid, n: nat, delta: real)
    requires IsRect(g, |g|, n) && |g| > 0 && n > 0
    ensures forall i, j :: 0 <= i < |g| && 0 <= j < n ==>
              (MaxDeltaGrid(g, n, delta)[i][j] == g[i][j] && g[i][j] >= GlobalMax(g, n) - delta)
              || (MaxDeltaGrid(g, n, delta)[i][j] == 0.0 && g[i][j] < GlobalMax(g, n) - delta)
  {
    ThresholdCells(g, GlobalMax(g, n) - delta);
  }

  /** With a positive best score and a non-negative delta, the best hit
      survives `selectMaxDelta` and is still the best hit afterwards. */
  lemma BestHitSurvives(g: Grid, n: nat, delta: real, r: int, c: int)
    requires IsRect(g, |g|, n) && |g| > 0 && n > 0
    requires IsFirstMax(g, n, r, c) && g[r][c] > 0.0 && delta >= 0.0
    ensures IsFirstMax(MaxDeltaGrid(g, n, delta), n, r, c)
    ensures MaxDeltaGrid(g, n, delta)[r][c] == g[r][c]
  {
    FirstMaxIsGlobal(g, n, r, c);
    MaxDeltaCells(g, n, delta);
  }

  /** A value reached by some cell and exceeded by none is the largest. */
  lemma GlobalMaxIs(g: Grid, n: nat, v: real, i: int, j: int)
    requires IsRect(g, |g|, n) && |g| > 0 && n > 0
    requires 0 <= i < |g| && 0 <= j < n && g[i][j] == v
    requires forall p, q :: 0 <= p < |g| && 0 <= q < n ==> g[p][q] <= v
    ensures GlobalMax(g, n) == v
  {
    GlobalMaxBounds(g, n);
    var p, q :| 0 <= p < |g| && 0 <= q < n && g[p][q] == GlobalMax(g, n);
  }

  /** Under the same conditions `selectMaxDelta` keeps the largest value. */
  lemma MaxDeltaKeepsTop(g: Grid, n: nat, delta: real)
    requires IsRect(g, |g|, n) && |g| > 0 && n > 0
    requires GlobalMax(g, n) > 0.0 && delta >= 0.0
    ensures GlobalMax(MaxDeltaGrid(g, n, delta), n) == GlobalMax(g, n)
  {
    var top := GlobalMax(g, n);
    var h := MaxDeltaGrid(g, n, delta);
    MaxDeltaCells(g, n, delta);
    GlobalMaxBounds(g, n);
    var i, j :| 0 <= i < |g| && 0 <= j < n && g[i][j] == top;
    GlobalMaxIs(h, n, top, i, j);
  }

  /** `selectMaxDelta` is the threshold at the largest value minus delta. */
  lemma MaxDeltaIsThreshold(g: Grid, n: nat, delta: real, t: real)
    requires IsRect(g, |g|, n) && |g| > 0 && n > 0
    requires t == GlobalMax(g, n) - delta
    ensures MaxDeltaGrid(g, n, delta) == Threshold(g, t)
  {
    assert MaxDeltaGrid(g, n, delta) == Threshold(g, GlobalMax(g, n) - delta);
  }

  /** Hence applying `selectMaxDelta` twice is applying it once. */
  lemma MaxDeltaIdempotent(g: Grid, n: nat, delta: real)
    requires IsRect(g, |g|, n) && |g| > 0 && n > 0
    requires GlobalMax(g, n) > 0.0 && delta >= 0.0
    ensures MaxDeltaGrid(MaxDeltaGrid(g, n, delta), n, delta) == MaxDeltaGrid(g, n, delta)
  {
    var t := GlobalMax(g, n) - delta;
    MaxDeltaKeepsTop(g, n, delta);
    MaxDeltaIsThreshold(g, n, delta, t);
    MaxDeltaIsThreshold(MaxDeltaGrid(g, n, delta), n, delta, t);
    ThresholdIdempotent(g, t);
  }

  class HitMatrix {
    /** The inherited similarity matrix, without labels. */
    const base: SimMatrix
    var haystack: seq<seq<string>>
    var needle: Option<string>
    var needles: Option<seq<string>>

    /** `HitMatrix(m, needle, haystack)`. */
    constructor FromNeedle(m: array2<real>, needle: string, haystack: seq<seq<string>>)
      ensures base.M == m && base.A.None? && base.B.None?
      ensures this.needle == Some(needle) && this.needles.None? && this.haystack == haystack
    {
      base := new SimMatrix.FromMatrix(m);
      this.needle := Some(needle);
      this.needles := None;
      this.haystack := haystack;
    }

    /** `HitMatrix(m, needles, haystack)`. */
    constructor FromNeedles(m: array2<real>, needles: seq<string>, haystack: seq<seq<string>>)
      ensures base.M == m && base.A.None? && base.B.None?
      ensures this.needles == Some(needles) && this.needle.None? && this.haystack == haystack
    {
      base := new SimMatrix.FromMatrix(m);
      this.needle := None;
      this.needles := Some(needles);
      this.haystack := haystack;
    }

    /** `getBestHit()`: the first largest cell, as (row, column, score);
        None on a matrix without cells, where `getMaxLocation` fails. */
    method GetBestHit() returns (hit: Option<MatchingIndices>)
      ensures hit.None? <==> base.M.Length0 == 0 || base.M.Length1 == 0
      ensures hit.Some? ==> IsFirstMax(GridOf(base.M), base.M.Length1, hit.value.a, hit.value.b)
      ensures hit.Some? ==> hit.value.c == base.M[hit.value.a, hit.value.b] == GlobalMax(GridOf(base.M), base.M.Length1)
    {
      hit := MaxLocation(base.M);
      if hit.Some? {
        FirstMaxIsGlobal(GridOf(base.M), base.M.Length1, hit.value.a, hit.value.b);
      }
    }

    /** `selectMaxDelta(delta)`: keep only the cells within delta of the
        largest one. On a matrix without cells `getMaxLocation` fails before
        anything is changed: `ok` is false and the matrix stays as it is. */
    method SelectMaxDelta(delta: real) returns (ok: bool)
      modifies base.M
      ensures ok <==> base.M.Length0 > 0 && base.M.Length1 > 0
      ensures ok ==> GridOf(base.M) == MaxDeltaGrid(old(GridOf(base.M)), base.M.Length1, delta)
      ensures !ok ==> GridOf(base.M) == old(GridOf(base.M))
    {
      ghost var g := GridOf(base.M);
      var v := MaxValue(base.M);
      if v.None? {
        return false;
      }
      MaxDeltaIsThreshold(g, base.M.Length1, delta, v.value - delta);
      base.SelectThreshold(v.value - delta);
      ok := true;
    }

    /** `selectMaxDelta()`: the same with delta 0.1. */
    method SelectMaxDeltaDefault() returns (ok: bool)
      modifies base.M
      ensures ok <==> base.M.Length0 > 0 && base.M.Length1 > 0
      ensures ok ==> GridOf(base.M) == MaxDeltaGrid(old(GridOf(base.M)), base.M.Length1, 0.1)
      ensures !ok ==> GridOf(base.M) == old(GridOf(base.M))
    {
      ok := SelectMaxDelta(0.1);
    }

    /** `setHaystack(h)`: nothing but the table changes. */
    method SetHaystack(haystack: seq<seq<string>>)
      modifies this
      ensures this.haystack == haystack && needle == old(needle) && needles == old(needles)
    {
      this.haystack := haystack;
    }

    /** `setNeedle(s)`: nothing but the needle changes. */
    method SetNeedle(needle: string)
      modifies this
      ensures this.needle == Some(needle) && haystack == old(haystack) && needles == old(needles)
    {
      this.needle := Some(needle);
    }
  }
}
