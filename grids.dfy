/** Rectangular grids of cell ages: the value held by a Stanford `Grid<int>`.
    A cell is 0 when dead and holds its age when alive. */
module Grids {

  /** A grid as rows of cells, addressed (row, col), 0-indexed. */
  type Grid = seq<seq<int>>

  /** The grid has `rows` rows of exactly `cols` cells each. */
  predicate IsRect(g: Grid, rows: nat, cols: nat) {
    |g| == rows && forall i :: 0 <= i < |g| ==> |g[i]| == cols
  }

  /** The library's `inBounds(row, col)`. */
  predicate InBounds(g: Grid, row: int, col: int) {
    0 <= row < |g| && 0 <= col < |g[row]|
  }

  /** Every cell of the grid is dead. */
  ghost predicate AllDead(g: Grid) {
    forall i, j :: InBounds(g, i, j) ==> g[i][j] == 0
  }

  /** No cell holds a negative value: each is dead or alive with an age. */
  ghost predicate AllNonNegative(g: Grid) {
    forall i, j :: InBounds(g, i, j) ==> g[i][j] >= 0
  }

  /** The contents of a two-dimensional array, read as a grid value. */
  ghost function Cells(a: array2<int>): (g: Grid)
    reads a
    ensures IsRect(g, a.Length0, a.Length1)
    ensures forall i, j :: 0 <= i < a.Length0 && 0 <= j < a.Length1 ==> g[i][j] == a[i, j]
  {
    seq(a.Length0, i requires 0 <= i < a.Length0 reads a =>
      seq(a.Length1, j requires 0 <= j < a.Length1 reads a => a[i, j]))
  }
}
