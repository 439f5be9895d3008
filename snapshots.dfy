/** The contents of a two-dimensional array, read as a value. */
module Snapshots {
  import opened Grids

  /** The cells of an array2 as a grid of rows. */
  ghost function GridOf(a: array2<real>): (g: Grid)
    reads a
    ensures IsRect(g, a.Length0, a.Length1)
    ensures forall i, j :: 0 <= i < a.Length0 && 0 <= j < a.Length1 ==> g[i][j] == a[i, j]
  {
    seq(a.Length0, i requires 0 <= i < a.Length0 reads a =>
      seq(a.Length1, j requires 0 <= j < a.Length1 reads a => a[i, j]))
  }

  /** An array2 whose cells agree with a grid of its shape is that grid. */
  lemma GridFromCells(a: array2<real>, h: Grid)
    requires IsRect(h, a.Length0, a.Length1)
    requires forall i, j :: 0 <= i < a.Length0 && 0 <= j < a.Length1 ==> a[i, j] == h[i][j]
    ensures GridOf(a) == h
  {
    var g := GridOf(a);
    forall i | 0 <= i < a.Length0
      ensures g[i] == h[i]
    {
    }
  }
}
