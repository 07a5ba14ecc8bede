/** Grids of cell values, as values (rows of columns) and as the two-dimensional
    integer array the simulation keeps. A cell holds 1 when alive and 0 when dead. */
module Grids {

  /** A grid as a value: `g[r][c]` is the cell in row `r`, column `c`. */
  type Grid = seq<seq<int>>

  /** Every row is as long as there are rows: an N x N grid. */
  predicate IsSquare(g: Grid)
  {
    forall r :: 0 <= r < |g| ==> |g[r]| == |g|
  }

  /** Every cell holds one of the two states, 0 (dead) or 1 (alive). */
  predicate IsBinary(g: Grid)
  {
    forall r, c :: 0 <= r < |g| && 0 <= c < |g[r]| ==> g[r][c] == 0 || g[r][c] == 1
  }

  /** The all-dead N x N grid. */
  function Zeros(n: nat): (g: Grid)
    ensures |g| == n && IsSquare(g) && IsBinary(g)
    ensures forall r, c :: 0 <= r < n && 0 <= c < n ==> g[r][c] == 0
  {
    seq(n, r => seq(n, c => 0))
  }

  /** The cell at (r, c), where every position off the grid reads as dead:
      there is no wrap-around. */
  function At(g: Grid, r: int, c: int): (v: int)
    ensures IsBinary(g) ==> v == 0 || v == 1
    ensures !(0 <= r < |g| && 0 <= c < |g[r]|) ==> v == 0
  {
    if 0 <= r < |g| && 0 <= c < |g[r]| then g[r][c] else 0
  }

  /** The grid with the single cell (r, c) replaced by v. */
  function SetCell(g: Grid, r: nat, c: nat, v: int): (h: Grid)
    requires IsSquare(g) && r < |g| && c < |g|
    ensures |h| == |g| && IsSquare(h)
    ensures h[r][c] == v
    ensures forall i, j :: 0 <= i < |g| && 0 <= j < |g| && !(i == r && j == c) ==> h[i][j] == g[i][j]
    ensures IsBinary(g) && (v == 0 || v == 1) ==> IsBinary(h)
  {
    g[r := g[r][c := v]]
  }

  /** Two grids with the same shape and the same cells are the same grid. */
  lemma GridsEqual(g: Grid, h: Grid)
    requires |g| == |h|
    requires forall r :: 0 <= r < |g| ==> |g[r]| == |h[r]|
    requires forall r, c :: 0 <= r < |g| && 0 <= c < |g[r]| ==> g[r][c] == h[r][c]
    ensures g == h
  {
    forall r | 0 <= r < |g|
      ensures g[r] == h[r]
    {
      assert forall c :: 0 <= c < |g[r]| ==> g[r][c] == h[r][c];
    }
  }

  /** The current contents of a two-dimensional array, as a grid value. */
  function Cells(a: array2<int>): (g: Grid)
    reads a
    ensures |g| == a.Length0
    ensures forall r :: 0 <= r < |g| ==> |g[r]| == a.Length1
    ensures forall r, c :: 0 <= r < a.Length0 && 0 <= c < a.Length1 ==> g[r][c] == a[r, c]
  {
    seq(a.Length0, r requires 0 <= r < a.Length0 reads a =>
      seq(a.Length1, c requires 0 <= c < a.Length1 reads a => a[r, c]))
  }
}
