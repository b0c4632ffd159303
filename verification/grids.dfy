/**
 * The crossword grid: `rows` lists of `cols` cells, each either the blocked
 * marker '#' or a letter. Methods mutate an `array2<char>`; contracts
 * speak about a value snapshot of it.
 */
module Grids {

  /** The marker of a cell that holds no letter. */
  const Blocked: char := '#'

  type Grid = seq<seq<char>>

  /** `g` has `rows` rows of `cols` cells each. */
  predicate Shaped(g: Grid, rows: nat, cols: nat)
  {
    |g| == rows && forall r :: 0 <= r < rows ==> |g[r]| == cols
  }

  predicate InBounds(rows: nat, cols: nat, r: int, c: int)
  {
    0 <= r < rows && 0 <= c < cols
  }

  /** The value held by the mutable grid right now. */
  function Snapshot(a: array2<char>): (g: Grid)
    reads a
    ensures Shaped(g, a.Length0, a.Length1)
    ensures forall r, c :: 0 <= r < a.Length0 && 0 <= c < a.Length1 ==> g[r][c] == a[r, c]
  {
    seq(a.Length0, r requires 0 <= r < a.Length0 reads a =>
      seq(a.Length1, c requires 0 <= c < a.Length1 reads a => a[r, c]))
  }

  /** The grid of a fresh attempt: every cell blocked. */
  function EmptyGrid(rows: nat, cols: nat): (g: Grid)
    ensures Shaped(g, rows, cols)
    ensures forall r, c :: InBounds(rows, cols, r, c) ==> g[r][c] == Blocked
  {
    seq(rows, _ => seq(cols, _ => Blocked))
  }

  /** Two grids of the same shape with the same cells are the same value. */
  lemma SameCells(g: Grid, h: Grid, rows: nat, cols: nat)
    requires Shaped(g, rows, cols) && Shaped(h, rows, cols)
    requires forall r, c :: InBounds(rows, cols, r, c) ==> g[r][c] == h[r][c]
    ensures g == h
  {
    forall r | 0 <= r < rows
      ensures g[r] == h[r]
    {
      assert forall c :: 0 <= c < cols ==> g[r][c] == h[r][c];
    }
  }

  /** `_make_grid`: a new `rows × cols` grid, all blocked. */
  method MakeGrid(rows: nat, cols: nat) returns (grid: array2<char>)
    ensures fresh(grid)
    ensures grid.Length0 == rows && grid.Length1 == cols
    ensures Snapshot(grid) == EmptyGrid(rows, cols)
  {
    grid := new char[rows, cols]((_, _) => Blocked);
    SameCells(Snapshot(grid), EmptyGrid(rows, cols), rows, cols);
  }
}
