/**
 * The placement validator `_validate_placement` and the writer `_place_word`
 * (src/generator.py). A span is the line of cells a word would occupy from
 * its start in one direction.
 */
module Placement {
  import opened Wrappers
  import opened Grids
  import opened Puzzles

  /** Row of the span's i-th cell: `row + dr * i`, with (dr, dc) = (0, 1) across, (1, 0) down. */
  function SpanRow(row: int, d: Direction, i: int): int
  {
    if d == Across then row else row + i
  }

  /** Column of the span's i-th cell: `col + dc * i`. */
  function SpanCol(col: int, d: Direction, i: int): int
  {
    if d == Across then col + i else col
  }

  /** Row of the perpendicular neighbour on side `sign` (-1 or 1) of cell (r, c). */
  function PerpRow(r: int, d: Direction, sign: int): int
  {
    if d == Across then r + sign else r
  }

  function PerpCol(c: int, d: Direction, sign: int): int
  {
    if d == Across then c else c + sign
  }

  /** Rule 1: the span of a word of length `len` starts and ends inside the grid. */
  predicate Fits(rows: nat, cols: nat, len: nat, row: int, col: int, d: Direction)
  {
    row >= 0 && col >= 0 && SpanRow(row, d, len - 1) < rows && SpanCol(col, d, len - 1) < cols
  }

  lemma FitsInBounds(rows: nat, cols: nat, len: nat, row: int, col: int, d: Direction, i: int)
    requires Fits(rows, cols, len, row, col, d) && 0 <= i < len
    ensures InBounds(rows, cols, SpanRow(row, d, i), SpanCol(col, d, i))
  {
  }

  /** A cell that is off the grid or blocked. */
  predicate Open(g: Grid, rows: nat, cols: nat, r: int, c: int)
    requires Shaped(g, rows, cols)
  {
    !InBounds(rows, cols, r, c) || g[r][c] == Blocked
  }

  /** The grid's letter under the span's i-th cell. */
  function SpanCell(g: Grid, rows: nat, cols: nat, word: string, row: int, col: int, d: Direction, i: int): char
    requires Shaped(g, rows, cols) && Fits(rows, cols, |word|, row, col, d) && 0 <= i < |word|
  {
    g[SpanRow(row, d, i)][SpanCol(col, d, i)]
  }

  /**
   * Rules 2 and 3 for the span's i-th cell: a blocked cell needs blocked
   * (or off-grid) perpendicular neighbours; a letter must equal word[i].
   */
  predicate CellOk(g: Grid, rows: nat, cols: nat, word: string, row: int, col: int, d: Direction, i: int)
    requires Shaped(g, rows, cols) && Fits(rows, cols, |word|, row, col, d) && 0 <= i < |word|
  {
    var r, c := SpanRow(row, d, i), SpanCol(col, d, i);
    if g[r][c] == Blocked then
      Open(g, rows, cols, PerpRow(r, d, -1), PerpCol(c, d, -1))
      && Open(g, rows, cols, PerpRow(r, d, 1), PerpCol(c, d, 1))
    else
      g[r][c] == word[i]
  }

  /** Number of the first n span cells already holding the word's letter. */
  function MatchCount(g: Grid, rows: nat, cols: nat, word: string, row: int, col: int, d: Direction, n: nat): nat
    requires Shaped(g, rows, cols) && Fits(rows, cols, |word|, row, col, d) && n <= |word|
  {
    if n == 0 then 0
    else
      var ch := SpanCell(g, rows, cols, word, row, col, d, n - 1);
      MatchCount(g, rows, cols, word, row, col, d, n - 1) + (if ch != Blocked && ch == word[n - 1] then 1 else 0)
  }

  /** Number of the first n span cells that are still blocked (would be new). */
  function NewCount(g: Grid, rows: nat, cols: nat, word: string, row: int, col: int, d: Direction, n: nat): nat
    requires Shaped(g, rows, cols) && Fits(rows, cols, |word|, row, col, d) && n <= |word|
  {
    if n == 0 then 0
    else
      NewCount(g, rows, cols, word, row, col, d, n - 1)
      + (if SpanCell(g, rows, cols, word, row, col, d, n - 1) == Blocked then 1 else 0)
  }

  /**
   * Rules 2, 3 and 5 over the span of a word that fits: every cell passes
   * `CellOk` and at least one cell is new; the verdict is the number of
   * cells already holding their letter.
   */
  function SpanVerdict(g: Grid, rows: nat, cols: nat, word: string, row: int, col: int, d: Direction): Option<nat>
    requires Shaped(g, rows, cols) && Fits(rows, cols, |word|, row, col, d)
  {
    if exists i :: 0 <= i < |word| && !CellOk(g, rows, cols, word, row, col, d, i) then None
    else if NewCount(g, rows, cols, word, row, col, d, |word|) == 0 then None
    else Some(MatchCount(g, rows, cols, word, row, col, d, |word|))
  }

  /**
   * The crossword legality rules: `Some(intersections)` when the word may be
   * written at (row, col) in direction d, `None` otherwise.
   */
  function Validate(g: Grid, rows: nat, cols: nat, word: string, row: int, col: int, d: Direction): Option<nat>
    requires Shaped(g, rows, cols)
  {
    if !Fits(rows, cols, |word|, row, col, d) then None
    else if !Open(g, rows, cols, SpanRow(row, d, -1), SpanCol(col, d, -1)) then None
    else if !Open(g, rows, cols, SpanRow(row, d, |word|), SpanCol(col, d, |word|)) then None
    else SpanVerdict(g, rows, cols, word, row, col, d)
  }

  /** `_validate_placement`: reads the grid, never changes it. */
  method ValidatePlacement(grid: array2<char>, word: string, row: int, col: int, d: Direction, rows: nat, cols: nat)
    returns (result: Option<nat>)
    requires grid.Length0 == rows && grid.Length1 == cols
    ensures result == Validate(Snapshot(grid), rows, cols, word, row, col, d)
  {
    var length := |word|;
    // Rule 1: bounds
    var endR, endC := SpanRow(row, d, length - 1), SpanCol(col, d, length - 1);
    if row < 0 || col < 0 || endR >= rows || endC >= cols {
      return None;
    }
    // Bookends: the cells just before the start and just after the end
    var br, bc := SpanRow(row, d, -1), SpanCol(col, d, -1);
    if 0 <= br < rows && 0 <= bc < cols && grid[br, bc] != Blocked {
      return None;
    }
    var ar, ac := SpanRow(row, d, length), SpanCol(col, d, length);
    if 0 <= ar < rows && 0 <= ac < cols && grid[ar, ac] != Blocked {
      return None;
    }
    result := CheckSpan(grid, word, row, col, d, rows, cols);
  }

  /** The span loop of `_validate_placement`, with its final new-cell check. */
  method CheckSpan(grid: array2<char>, word: string, row: int, col: int, d: Direction, rows: nat, cols: nat)
    returns (result: Option<nat>)
    requires grid.Length0 == rows && grid.Length1 == cols && Fits(rows, cols, |word|, row, col, d)
    ensures result == SpanVerdict(Snapshot(grid), rows, cols, word, row, col, d)
  {
    ghost var g := Snapshot(grid);
    var intersections, newCells := 0, 0;
    var i := 0;
    while i < |word|
      invariant 0 <= i <= |word|
      invariant forall j :: 0 <= j < i ==> CellOk(g, rows, cols, word, row, col, d, j)
      invariant intersections == MatchCount(g, rows, cols, word, row, col, d, i)
      invariant newCells == NewCount(g, rows, cols, word, row, col, d, i)
    {
      var r, c := SpanRow(row, d, i), SpanCol(col, d, i);
      var cell := grid[r, c];
      if cell == Blocked {
        newCells := newCells + 1;
        // Parallel adjacency: both perpendicular neighbours blocked or off the grid
        var clear := NeighboursClear(grid, r, c, d, rows, cols);
        if !clear {
          assert !CellOk(g, rows, cols, word, row, col, d, i);
          return None;
        }
      } else if cell == word[i] {
        intersections := intersections + 1;
      } else {
        // Letter conflict
        assert !CellOk(g, rows, cols, word, row, col, d, i);
        return None;
      }
      assert CellOk(g, rows, cols, word, row, col, d, i);
      i := i + 1;
    }
    // At least one new cell
    if newCells == 0 {
      return None;
    }
    return Some(intersections);
  }

  /** The perpendicular-neighbour loop of `_validate_placement`: both neighbours of (r, c) are open. */
  method NeighboursClear(grid: array2<char>, r: int, c: int, d: Direction, rows: nat, cols: nat) returns (clear: bool)
    requires grid.Length0 == rows && grid.Length1 == cols
    ensures clear <==> (Open(Snapshot(grid), rows, cols, PerpRow(r, d, -1), PerpCol(c, d, -1))
                        && Open(Snapshot(grid), rows, cols, PerpRow(r, d, 1), PerpCol(c, d, 1)))
  {
    ghost var g := Snapshot(grid);
    var signs := [-1, 1];
    for k := 0 to 2
      invariant forall j :: 0 <= j < k ==> Open(g, rows, cols, PerpRow(r, d, signs[j]), PerpCol(c, d, signs[j]))
    {
      var nr, nc := PerpRow(r, d, signs[k]), PerpCol(c, d, signs[k]);
      if 0 <= nr < rows && 0 <= nc < cols && grid[nr, nc] != Blocked {
        return false;
      }
    }
    assert signs[0] == -1 && signs[1] == 1;
    return true;
  }

  /** The cell (r, c) lies on the span of a word of length `len` starting at (row, col). */
  predicate OnSpan(row: int, col: int, d: Direction, len: nat, r: int, c: int)
  {
    if d == Across then r == row && col <= c < col + len else c == col && row <= r < row + len
  }

  /** Position within the span of a cell on it. */
  function SpanIndex(row: int, col: int, d: Direction, r: int, c: int): int
  {
    if d == Across then c - col else r - row
  }

  /** The grid after writing `word` at (row, col) in direction d. */
  function Written(g: Grid, rows: nat, cols: nat, word: string, row: int, col: int, d: Direction): (h: Grid)
    requires Shaped(g, rows, cols)
    ensures Shaped(h, rows, cols)
    ensures Fits(rows, cols, |word|, row, col, d) ==>
      forall i :: 0 <= i < |word| ==> h[SpanRow(row, d, i)][SpanCol(col, d, i)] == word[i]
    ensures forall r, c :: InBounds(rows, cols, r, c) && !OnSpan(row, col, d, |word|, r, c) ==> h[r][c] == g[r][c]
  {
    seq(rows, r requires 0 <= r < rows => seq(cols, c requires 0 <= c < cols =>
      if OnSpan(row, col, d, |word|, r, c) then word[SpanIndex(row, col, d, r, c)] else g[r][c]))
  }

  /**
   * `_place_word`: writes the word's letters into the span, in place. Every
   * span cell must be on the grid (an empty word writes nothing).
   */
  method PlaceWord(grid: array2<char>, word: string, row: int, col: int, d: Direction)
    requires |word| == 0 || Fits(grid.Length0, grid.Length1, |word|, row, col, d)
    modifies grid
    ensures Snapshot(grid) == Written(old(Snapshot(grid)), grid.Length0, grid.Length1, word, row, col, d)
  {
    ghost var g := Snapshot(grid);
    for i := 0 to |word|
      invariant forall r, c :: 0 <= r < grid.Length0 && 0 <= c < grid.Length1 ==>
        grid[r, c] == if OnSpan(row, col, d, i, r, c) then word[SpanIndex(row, col, d, r, c)] else g[r][c]
    {
      grid[SpanRow(row, d, i), SpanCol(col, d, i)] := word[i];
    }
    SameCells(Snapshot(grid), Written(g, grid.Length0, grid.Length1, word, row, col, d), grid.Length0, grid.Length1);
  }

  lemma {:induction false} CountsAddUp(g: Grid, rows: nat, cols: nat, word: string, row: int, col: int, d: Direction, n: nat)
    requires Shaped(g, rows, cols) && Fits(rows, cols, |word|, row, col, d) && n <= |word|
    requires forall i :: 0 <= i < n ==> CellOk(g, rows, cols, word, row, col, d, i)
    ensures MatchCount(g, rows, cols, word, row, col, d, n) + NewCount(g, rows, cols, word, row, col, d, n) == n
  {
    if n > 0 {
      CountsAddUp(g, rows, cols, word, row, col, d, n - 1);
      assert CellOk(g, rows, cols, word, row, col, d, n - 1);
    }
  }

  /**
   * An accepted placement reports how many span cells already held the
   * word's letter; every other span cell is new, and at least one is, so the
   * count is at most `len(word) - 1`.
   */
  lemma ValidateCounts(g: Grid, rows: nat, cols: nat, word: string, row: int, col: int, d: Direction)
    requires Shaped(g, rows, cols) && Validate(g, rows, cols, word, row, col, d).Some?
    ensures Fits(rows, cols, |word|, row, col, d)
    ensures Validate(g, rows, cols, word, row, col, d).value + NewCount(g, rows, cols, word, row, col, d, |word|) == |word|
    ensures Validate(g, rows, cols, word, row, col, d).value < |word|
  {
    CountsAddUp(g, rows, cols, word, row, col, d, |word|);
  }

  lemma {:induction false} WrittenSpanCounts(h: Grid, rows: nat, cols: nat, word: string, row: int, col: int, d: Direction, n: nat)
    requires Shaped(h, rows, cols) && Fits(rows, cols, |word|, row, col, d) && n <= |word| && NoBlocked(word)
    requires forall i :: 0 <= i < |word| ==> h[SpanRow(row, d, i)][SpanCol(col, d, i)] == word[i]
    ensures MatchCount(h, rows, cols, word, row, col, d, n) == n
    ensures NewCount(h, rows, cols, word, row, col, d, n) == 0
  {
    if n > 0 {
      WrittenSpanCounts(h, rows, cols, word, row, col, d, n - 1);
    }
  }

  /**
   * Re-validating a placement right after committing it: every span cell now
   * holds the word's letter, so no cell is new and the validator rejects it.
   */
  lemma PlaceThenValidate(g: Grid, rows: nat, cols: nat, word: string, row: int, col: int, d: Direction)
    requires Shaped(g, rows, cols) && Validate(g, rows, cols, word, row, col, d).Some? && NoBlocked(word)
    ensures Fits(rows, cols, |word|, row, col, d)
    ensures MatchCount(Written(g, rows, cols, word, row, col, d), rows, cols, word, row, col, d, |word|) == |word|
    ensures Validate(Written(g, rows, cols, word, row, col, d), rows, cols, word, row, col, d) == None
  {
    var h := Written(g, rows, cols, word, row, col, d);
    WrittenSpanCounts(h, rows, cols, word, row, col, d, |word|);
  }

  /**
   * Committing an accepted placement never overwrites a letter with a
   * different one: a cell either keeps its value or goes from blocked to a
   * letter.
   */
  lemma PlaceKeepsLetters(g: Grid, rows: nat, cols: nat, word: string, row: int, col: int, d: Direction)
    requires Shaped(g, rows, cols) && Validate(g, rows, cols, word, row, col, d).Some? && NoBlocked(word)
    ensures forall r, c :: InBounds(rows, cols, r, c) ==>
      var h := Written(g, rows, cols, word, row, col, d);
      h[r][c] == g[r][c] || (g[r][c] == Blocked && h[r][c] != Blocked)
  {
    var h := Written(g, rows, cols, word, row, col, d);
    forall r, c | InBounds(rows, cols, r, c)
      ensures h[r][c] == g[r][c] || (g[r][c] == Blocked && h[r][c] != Blocked)
    {
      if OnSpan(row, col, d, |word|, r, c) {
        var i := SpanIndex(row, col, d, r, c);
        assert SpanRow(row, d, i) == r && SpanCol(col, d, i) == c;
        assert CellOk(g, rows, cols, word, row, col, d, i);
      }
    }
  }
}
