/**
 * Clue numbering `extract_clues` (src/clues.py): one row-major scan of the
 * grid with a single counter shared by both directions. A letter cell that
 * starts an across or a down word takes the next number; a clue is emitted
 * for each direction it starts in that has a placement record there.
 */
module Clues {
  import opened Grids
  import opened Puzzles

  /* ---- Lookup of placement records by start ---- */

  /** `placement_lookup`: for each start key, the last record with that key. */
  function Lookup(placed: seq<PlacementRecord>): map<StartKey, PlacementRecord>
  {
    if |placed| == 0 then map[]
    else Lookup(placed[..|placed| - 1])[RecordKey(placed[|placed| - 1]) := placed[|placed| - 1]]
  }

  /** The loop that fills `placement_lookup`. */
  method BuildLookup(placed: seq<PlacementRecord>) returns (lookup: map<StartKey, PlacementRecord>)
    ensures lookup == Lookup(placed)
  {
    lookup := map[];
    for i := 0 to |placed|
      invariant lookup == Lookup(placed[..i])
    {
      assert placed[..i + 1][..i] == placed[..i];
      lookup := lookup[RecordKey(placed[i]) := placed[i]];
    }
    assert placed[..|placed|] == placed;
  }

  /**
   * A key is looked up iff some record has it, and then it yields the last
   * such record.
   */
  lemma {:induction false} LookupLastWins(placed: seq<PlacementRecord>, k: StartKey)
    ensures k in Lookup(placed) <==> exists i :: 0 <= i < |placed| && RecordKey(placed[i]) == k
    ensures k in Lookup(placed) ==>
              exists i :: (0 <= i < |placed| && Lookup(placed)[k] == placed[i]
                           && RecordKey(placed[i]) == k
                           && forall j :: i < j < |placed| ==> RecordKey(placed[j]) != k)
  {
    if |placed| > 0 {
      var p, x := placed[..|placed| - 1], placed[|placed| - 1];
      LookupLastWins(p, k);
      if RecordKey(x) == k {
        assert RecordKey(placed[|placed| - 1]) == k;
      } else {
        if exists i :: 0 <= i < |placed| && RecordKey(placed[i]) == k {
          var i :| 0 <= i < |placed| && RecordKey(placed[i]) == k;
          assert i < |p| && RecordKey(p[i]) == k;
        }
        if k in Lookup(p) {
          var i :| 0 <= i < |p| && Lookup(p)[k] == p[i] && RecordKey(p[i]) == k
            && forall j :: i < j < |p| ==> RecordKey(p[j]) != k;
          assert placed[i] == p[i];
          assert forall j :: i < j < |placed| ==> RecordKey(placed[j]) != k by {
            forall j | i < j < |placed| ensures RecordKey(placed[j]) != k {
              if j < |p| {
                assert placed[j] == p[j];
              }
            }
          }
        }
      }
    }
  }

  /* ---- Start detection ---- */

  /**
   * The letter cell (r, c) starts a word in direction d: the cell before it
   * (left, or above) is the edge or '#', and the cell after it (right, or
   * below) is on the grid and holds a letter.
   */
  predicate Starts(g: Grid, rows: nat, cols: nat, r: int, c: int, d: Direction)
    requires Shaped(g, rows, cols) && InBounds(rows, cols, r, c)
  {
    g[r][c] != Blocked
    && if d == Across then
         (c == 0 || g[r][c - 1] == Blocked) && c + 1 < cols && g[r][c + 1] != Blocked
       else
         (r == 0 || g[r - 1][c] == Blocked) && r + 1 < rows && g[r + 1][c] != Blocked
  }

  /** The cell takes a clue number: it starts an across word, a down word, or both. */
  predicate IsStart(g: Grid, rows: nat, cols: nat, r: int, c: int)
    requires Shaped(g, rows, cols) && InBounds(rows, cols, r, c)
  {
    Starts(g, rows, cols, r, c, Across) || Starts(g, rows, cols, r, c, Down)
  }

  /* ---- Reference numbering: counting start cells in row-major order ---- */

  /** Start cells among (r, 0) .. (r, n-1). */
  function CountRow(g: Grid, rows: nat, cols: nat, r: nat, n: nat): nat
    requires Shaped(g, rows, cols) && r < rows && n <= cols
  {
    if n == 0 then 0 else CountRow(g, rows, cols, r, n - 1) + (if IsStart(g, rows, cols, r, n - 1) then 1 else 0)
  }

  /** Start cells in rows 0 .. n-1. */
  function CountRows(g: Grid, rows: nat, cols: nat, n: nat): nat
    requires Shaped(g, rows, cols) && n <= rows
  {
    if n == 0 then 0 else CountRows(g, rows, cols, n - 1) + CountRow(g, rows, cols, n - 1, cols)
  }

  /** The number a start cell should carry: one more than the start cells before it in row-major order. */
  function Ordinal(g: Grid, rows: nat, cols: nat, r: nat, c: nat): nat
    requires Shaped(g, rows, cols) && r < rows && c < cols
  {
    CountRows(g, rows, cols, r) + CountRow(g, rows, cols, r, c) + 1
  }

  /** Row-major order of cells. */
  predicate Before(r1: int, c1: int, r2: int, c2: int)
  {
    r1 < r2 || (r1 == r2 && c1 < c2)
  }

  lemma {:induction false} CountRowMonotone(g: Grid, rows: nat, cols: nat, r: nat, m: nat, n: nat)
    requires Shaped(g, rows, cols) && r < rows && m <= n <= cols
    ensures CountRow(g, rows, cols, r, m) <= CountRow(g, rows, cols, r, n)
  {
    if m < n {
      CountRowMonotone(g, rows, cols, r, m, n - 1);
    }
  }

  lemma {:induction false} CountRowsMonotone(g: Grid, rows: nat, cols: nat, m: nat, n: nat)
    requires Shaped(g, rows, cols) && m <= n <= rows
    ensures CountRows(g, rows, cols, m) <= CountRows(g, rows, cols, n)
  {
    if m < n {
      CountRowsMonotone(g, rows, cols, m, n - 1);
    }
  }

  /** A start cell's ordinal is below that of every cell after it. */
  lemma OrdinalIncreasing(g: Grid, rows: nat, cols: nat, r1: nat, c1: nat, r2: nat, c2: nat)
    requires Shaped(g, rows, cols) && r1 < rows && c1 < cols && r2 < rows && c2 < cols
    requires IsStart(g, rows, cols, r1, c1) && Before(r1, c1, r2, c2)
    ensures Ordinal(g, rows, cols, r1, c1) < Ordinal(g, rows, cols, r2, c2)
  {
    if r1 == r2 {
      CountRowMonotone(g, rows, cols, r1, c1 + 1, c2);
    } else {
      CountRowMonotone(g, rows, cols, r1, c1 + 1, cols);
      CountRowsMonotone(g, rows, cols, r1 + 1, r2);
    }
  }

  /* ---- The scan ---- */

  /** The scan's state: the shared counter `clue_number` and the two clue lists. */
  datatype ScanState = ScanState(number: nat, across: seq<Clue>, down: seq<Clue>)

  /** The clue list of direction d. */
  function ListOf(st: ScanState, d: Direction): seq<Clue>
  {
    if d == Across then st.across else st.down
  }

  /** The clue for a start in direction d, if a record was placed there. */
  function ClueAt(lookup: map<StartKey, PlacementRecord>, number: nat, r: int, c: int, d: Direction): seq<Clue>
  {
    if (r, c, d) in lookup then [Clue(number, lookup[(r, c, d)].word, lookup[(r, c, d)].hint, r, c)] else []
  }

  /** One cell of the scan. */
  function CellStep(g: Grid, rows: nat, cols: nat, lookup: map<StartKey, PlacementRecord>, r: nat, c: nat, st: ScanState): ScanState
    requires Shaped(g, rows, cols) && r < rows && c < cols
  {
    if g[r][c] == Blocked then st
    else
      var startsAcross := Starts(g, rows, cols, r, c, Across);
      var startsDown := Starts(g, rows, cols, r, c, Down);
      if !startsAcross && !startsDown then st
      else
        var n := st.number + 1;
        ScanState(n,
                  st.across + (if startsAcross then ClueAt(lookup, n, r, c, Across) else []),
                  st.down + (if startsDown then ClueAt(lookup, n, r, c, Down) else []))
  }

  /** The state after cells (r, 0) .. (r, n-1), starting from `st`. */
  function RowScan(g: Grid, rows: nat, cols: nat, lookup: map<StartKey, PlacementRecord>, r: nat, n: nat, st: ScanState): ScanState
    requires Shaped(g, rows, cols) && r < rows && n <= cols
  {
    if n == 0 then st else CellStep(g, rows, cols, lookup, r, n - 1, RowScan(g, rows, cols, lookup, r, n - 1, st))
  }

  /** The state after rows 0 .. n-1. */
  function GridScan(g: Grid, rows: nat, cols: nat, lookup: map<StartKey, PlacementRecord>, n: nat): ScanState
    requires Shaped(g, rows, cols) && n <= rows
  {
    if n == 0 then ScanState(0, [], [])
    else RowScan(g, rows, cols, lookup, n - 1, cols, GridScan(g, rows, cols, lookup, n - 1))
  }

  /** The clue lists `extract_clues` builds. */
  function ClueListsOf(g: Grid, rows: nat, cols: nat, placed: seq<PlacementRecord>): ClueLists
    requires Shaped(g, rows, cols)
  {
    var st := GridScan(g, rows, cols, Lookup(placed), rows);
    ClueLists(st.across, st.down)
  }

  /** `extract_clues`: the puzzle with its placement records replaced by the two clue lists. */
  method ExtractClues(puzzle: Puzzle) returns (result: Puzzle)
    requires puzzle.entries.Placed? && Shaped(puzzle.cells, puzzle.rows, puzzle.cols)
    ensures result == puzzle.(entries := Clued(ClueListsOf(puzzle.cells, puzzle.rows, puzzle.cols, puzzle.entries.placed)))
  {
    var grid, rows, cols := puzzle.cells, puzzle.rows, puzzle.cols;
    // Build lookup from placed words
    var lookup := BuildLookup(puzzle.entries.placed);
    var st := ScanState(0, [], []);
    for r := 0 to rows
      invariant st == GridScan(grid, rows, cols, lookup, r)
    {
      st := NumberRow(grid, rows, cols, lookup, r, st);
    }
    result := puzzle.(entries := Clued(ClueLists(st.across, st.down)));
  }

  /** One row of the numbering scan. */
  method NumberRow(grid: Grid, rows: nat, cols: nat, lookup: map<StartKey, PlacementRecord>, r: nat, st: ScanState)
    returns (st': ScanState)
    requires Shaped(grid, rows, cols) && r < rows
    ensures st' == RowScan(grid, rows, cols, lookup, r, cols, st)
  {
    var clueNumber, across, down := st.number, st.across, st.down;
    for c := 0 to cols
      invariant ScanState(clueNumber, across, down) == RowScan(grid, rows, cols, lookup, r, c, st)
    {
      if grid[r][c] == Blocked {
        continue;
      }
      // Across start: left is '#' or the edge, right is a letter
      var leftBlocked := c == 0 || grid[r][c - 1] == Blocked;
      var rightExists := c + 1 < cols && grid[r][c + 1] != Blocked;
      var startsAcross := leftBlocked && rightExists;
      // Down start: above is '#' or the edge, below is a letter
      var topBlocked := r == 0 || grid[r - 1][c] == Blocked;
      var bottomExists := r + 1 < rows && grid[r + 1][c] != Blocked;
      var startsDown := topBlocked && bottomExists;
      if !startsAcross && !startsDown {
        continue;
      }
      clueNumber := clueNumber + 1;
      if startsAcross && (r, c, Across) in lookup {
        var p := lookup[(r, c, Across)];
        across := across + [Clue(clueNumber, p.word, p.hint, r, c)];
      }
      if startsDown && (r, c, Down) in lookup {
        var p := lookup[(r, c, Down)];
        down := down + [Clue(clueNumber, p.word, p.hint, r, c)];
      }
    }
    st' := ScanState(clueNumber, across, down);
  }

  /* ---- What the numbering guarantees ---- */

  /**
   * A clue in the list of direction d is right: its cell starts a word in d,
   * a record was placed there and supplies the answer and hint, and its
   * number is the cell's ordinal among all start cells.
   */
  predicate ClueOk(g: Grid, rows: nat, cols: nat, lookup: map<StartKey, PlacementRecord>, x: Clue, d: Direction)
    requires Shaped(g, rows, cols)
  {
    InBounds(rows, cols, x.row, x.col)
    && Starts(g, rows, cols, x.row, x.col, d)
    && (x.row, x.col, d) in lookup
    && x.answer == lookup[(x.row, x.col, d)].word
    && x.hint == lookup[(x.row, x.col, d)].hint
    && x.number == Ordinal(g, rows, cols, x.row, x.col)
  }

  /** Clue positions strictly increase in row-major order. */
  predicate InScanOrder(xs: seq<Clue>)
  {
    forall i, j :: 0 <= i < j < |xs| ==> Before(xs[i].row, xs[i].col, xs[j].row, xs[j].col)
  }

  /** Some clue of the list sits at (r, c). */
  predicate HasClueAt(xs: seq<Clue>, r: int, c: int)
  {
    exists i :: 0 <= i < |xs| && xs[i].row == r && xs[i].col == c
  }

  /**
   * The clue list of direction d once every cell before (r, c) has been
   * scanned: right clues, all before (r, c), in scan order, and one for
   * every scanned start of d that has a record.
   */
  ghost predicate ListOk(g: Grid, rows: nat, cols: nat, lookup: map<StartKey, PlacementRecord>, xs: seq<Clue>, d: Direction, r: int, c: int)
    requires Shaped(g, rows, cols)
  {
    (forall i :: 0 <= i < |xs| ==> ClueOk(g, rows, cols, lookup, xs[i], d) && Before(xs[i].row, xs[i].col, r, c))
    && InScanOrder(xs)
    && (forall r', c' :: (InBounds(rows, cols, r', c') && Before(r', c', r, c)
                          && Starts(g, rows, cols, r', c', d) && (r', c', d) in lookup) ==> HasClueAt(xs, r', c'))
  }

  /** How one cell of the scan changes the state. */
  lemma CellStepShape(g: Grid, rows: nat, cols: nat, lookup: map<StartKey, PlacementRecord>, r: nat, c: nat, st: ScanState)
    requires Shaped(g, rows, cols) && r < rows && c < cols
    ensures var n := st.number + 1;
            CellStep(g, rows, cols, lookup, r, c, st)
            == ScanState(if IsStart(g, rows, cols, r, c) then n else st.number,
                         st.across + (if Starts(g, rows, cols, r, c, Across) then ClueAt(lookup, n, r, c, Across) else []),
                         st.down + (if Starts(g, rows, cols, r, c, Down) then ClueAt(lookup, n, r, c, Down) else []))
  {
    assert st.across + [] == st.across && st.down + [] == st.down;
  }

  /** Scanning cell (r, c) keeps the list of direction d right, given the cell's ordinal as its number. */
  lemma ListStep(g: Grid, rows: nat, cols: nat, lookup: map<StartKey, PlacementRecord>, xs: seq<Clue>, d: Direction, r: nat, c: nat, n: nat)
    requires Shaped(g, rows, cols) && r < rows && c < cols
    requires ListOk(g, rows, cols, lookup, xs, d, r, c)
    requires n == Ordinal(g, rows, cols, r, c)
    ensures ListOk(g, rows, cols, lookup, xs + (if Starts(g, rows, cols, r, c, d) then ClueAt(lookup, n, r, c, d) else []), d, r, c + 1)
  {
    var ys := xs + (if Starts(g, rows, cols, r, c, d) then ClueAt(lookup, n, r, c, d) else []);
    assert forall i :: 0 <= i < |xs| ==> ys[i] == xs[i];
    forall r', c' | InBounds(rows, cols, r', c') && Before(r', c', r, c + 1)
      && Starts(g, rows, cols, r', c', d) && (r', c', d) in lookup
      ensures HasClueAt(ys, r', c')
    {
      if Before(r', c', r, c) {
        var i :| 0 <= i < |xs| && xs[i].row == r' && xs[i].col == c';
        assert ys[i] == xs[i];
      } else {
        assert ys[|xs|].row == r' && ys[|xs|].col == c';
      }
    }
  }

  /** At the end of row r the state is the state before row r + 1. */
  lemma ListRowEnd(g: Grid, rows: nat, cols: nat, lookup: map<StartKey, PlacementRecord>, xs: seq<Clue>, d: Direction, r: nat)
    requires Shaped(g, rows, cols) && r < rows
    requires ListOk(g, rows, cols, lookup, xs, d, r, cols)
    ensures ListOk(g, rows, cols, lookup, xs, d, r + 1, 0)
  {
    forall r', c' | InBounds(rows, cols, r', c') && Before(r', c', r + 1, 0)
      && Starts(g, rows, cols, r', c', d) && (r', c', d) in lookup
      ensures HasClueAt(xs, r', c')
    {
      assert Before(r', c', r, cols);
    }
  }

  /** Both clue lists are right once every cell before (r, c) has been scanned. */
  ghost predicate ScanOk(g: Grid, rows: nat, cols: nat, lookup: map<StartKey, PlacementRecord>, st: ScanState, r: int, c: int)
    requires Shaped(g, rows, cols)
  {
    ListOk(g, rows, cols, lookup, st.across, Across, r, c) && ListOk(g, rows, cols, lookup, st.down, Down, r, c)
  }

  /** Scanning cell (r, c) keeps both lists right and counts the cell if it is a start. */
  lemma CellStepOk(g: Grid, rows: nat, cols: nat, lookup: map<StartKey, PlacementRecord>, r: nat, c: nat, st: ScanState)
    requires Shaped(g, rows, cols) && r < rows && c < cols
    requires ScanOk(g, rows, cols, lookup, st, r, c)
    requires st.number == CountRows(g, rows, cols, r) + CountRow(g, rows, cols, r, c)
    ensures var st' := CellStep(g, rows, cols, lookup, r, c, st);
            ScanOk(g, rows, cols, lookup, st', r, c + 1)
            && st'.number == CountRows(g, rows, cols, r) + CountRow(g, rows, cols, r, c + 1)
  {
    CellStepShape(g, rows, cols, lookup, r, c, st);
    ListStep(g, rows, cols, lookup, st.across, Across, r, c, st.number + 1);
    ListStep(g, rows, cols, lookup, st.down, Down, r, c, st.number + 1);
  }

  /** Scanning (r, 0) .. (r, n-1) keeps both lists right and counts the start cells. */
  lemma {:induction false} RowScanOk(g: Grid, rows: nat, cols: nat, lookup: map<StartKey, PlacementRecord>, r: nat, n: nat, st: ScanState)
    requires Shaped(g, rows, cols) && r < rows && n <= cols
    requires ScanOk(g, rows, cols, lookup, st, r, 0)
    requires st.number == CountRows(g, rows, cols, r)
    ensures var st' := RowScan(g, rows, cols, lookup, r, n, st);
            ScanOk(g, rows, cols, lookup, st', r, n)
            && st'.number == CountRows(g, rows, cols, r) + CountRow(g, rows, cols, r, n)
  {
    if n > 0 {
      RowScanOk(g, rows, cols, lookup, r, n - 1, st);
      CellStepOk(g, rows, cols, lookup, r, n - 1, RowScan(g, rows, cols, lookup, r, n - 1, st));
    }
  }

  /** Scanning rows 0 .. n-1 keeps both lists right and counts the start cells. */
  lemma {:induction false} GridScanOk(g: Grid, rows: nat, cols: nat, lookup: map<StartKey, PlacementRecord>, n: nat)
    requires Shaped(g, rows, cols) && n <= rows
    ensures var st := GridScan(g, rows, cols, lookup, n);
            ScanOk(g, rows, cols, lookup, st, n, 0) && st.number == CountRows(g, rows, cols, n)
  {
    if n > 0 {
      var prev := GridScan(g, rows, cols, lookup, n - 1);
      GridScanOk(g, rows, cols, lookup, n - 1);
      RowScanOk(g, rows, cols, lookup, n - 1, cols, prev);
      var st := RowScan(g, rows, cols, lookup, n - 1, cols, prev);
      ListRowEnd(g, rows, cols, lookup, st.across, Across, n - 1);
      ListRowEnd(g, rows, cols, lookup, st.down, Down, n - 1);
    }
  }

  /**
   * The clue lists of `extract_clues`: every clue is right (its cell starts
   * a word in its direction, the record placed there supplies answer and
   * hint, its number is the cell's ordinal), the clues run in scan order,
   * and every start cell that has a record gets a clue.
   */
  lemma ClueListsCorrect(g: Grid, rows: nat, cols: nat, placed: seq<PlacementRecord>)
    requires Shaped(g, rows, cols)
    ensures var cl := ClueListsOf(g, rows, cols, placed);
            && (forall i :: 0 <= i < |cl.across| ==> ClueOk(g, rows, cols, Lookup(placed), cl.across[i], Across))
            && (forall i :: 0 <= i < |cl.down| ==> ClueOk(g, rows, cols, Lookup(placed), cl.down[i], Down))
            && InScanOrder(cl.across) && InScanOrder(cl.down)
            && (forall r, c :: (InBounds(rows, cols, r, c) && Starts(g, rows, cols, r, c, Across)
                                && (r, c, Across) in Lookup(placed)) ==> HasClueAt(cl.across, r, c))
            && (forall r, c :: (InBounds(rows, cols, r, c) && Starts(g, rows, cols, r, c, Down)
                                && (r, c, Down) in Lookup(placed)) ==> HasClueAt(cl.down, r, c))
  {
    GridScanOk(g, rows, cols, Lookup(placed), rows);
  }

  /** The counter ends at the number of start cells in the grid. */
  lemma FinalNumber(g: Grid, rows: nat, cols: nat, placed: seq<PlacementRecord>)
    requires Shaped(g, rows, cols)
    ensures GridScan(g, rows, cols, Lookup(placed), rows).number == CountRows(g, rows, cols, rows)
  {
    GridScanOk(g, rows, cols, Lookup(placed), rows);
  }

  /** Clue numbers start at 1 and strictly increase along each list. */
  lemma ClueNumbersIncrease(g: Grid, rows: nat, cols: nat, placed: seq<PlacementRecord>, d: Direction)
    requires Shaped(g, rows, cols)
    ensures var xs := ListOf(GridScan(g, rows, cols, Lookup(placed), rows), d);
            (forall i :: 0 <= i < |xs| ==> xs[i].number >= 1)
            && forall i, j :: 0 <= i < j < |xs| ==> xs[i].number < xs[j].number
  {
    var lookup := Lookup(placed);
    var xs := ListOf(GridScan(g, rows, cols, lookup, rows), d);
    GridScanOk(g, rows, cols, lookup, rows);
    forall i, j | 0 <= i < j < |xs| ensures xs[i].number < xs[j].number {
      assert ClueOk(g, rows, cols, lookup, xs[i], d) && ClueOk(g, rows, cols, lookup, xs[j], d);
      OrdinalIncreasing(g, rows, cols, xs[i].row, xs[i].col, xs[j].row, xs[j].col);
    }
  }

  /**
   * An across clue and a down clue share their number exactly when they sit
   * on the same cell: the counter is shared and advances once per start cell.
   */
  lemma SharedNumbers(g: Grid, rows: nat, cols: nat, placed: seq<PlacementRecord>, i: nat, j: nat)
    requires Shaped(g, rows, cols)
    requires i < |ClueListsOf(g, rows, cols, placed).across| && j < |ClueListsOf(g, rows, cols, placed).down|
    ensures var cl := ClueListsOf(g, rows, cols, placed);
            cl.across[i].number == cl.down[j].number
            <==> cl.across[i].row == cl.down[j].row && cl.across[i].col == cl.down[j].col
  {
    var cl := ClueListsOf(g, rows, cols, placed);
    ClueListsCorrect(g, rows, cols, placed);
    var a, b := cl.across[i], cl.down[j];
    assert ClueOk(g, rows, cols, Lookup(placed), a, Across);
    assert ClueOk(g, rows, cols, Lookup(placed), b, Down);
    if Before(a.row, a.col, b.row, b.col) {
      OrdinalIncreasing(g, rows, cols, a.row, a.col, b.row, b.col);
    } else if Before(b.row, b.col, a.row, a.col) {
      OrdinalIncreasing(g, rows, cols, b.row, b.col, a.row, a.col);
    }
  }

  /**
   * Each clue comes from a placement record at its start, and from the last
   * one when several records share that start.
   */
  lemma {:induction false} ClueFromRecord(g: Grid, rows: nat, cols: nat, placed: seq<PlacementRecord>, d: Direction, x: Clue)
    requires Shaped(g, rows, cols)
    requires x in ListOf(GridScan(g, rows, cols, Lookup(placed), rows), d)
    ensures exists k :: (0 <= k < |placed| && placed[k].row == x.row && placed[k].col == x.col
                         && placed[k].dir == d
                         && placed[k].word == x.answer && placed[k].hint == x.hint
                         && forall j :: k < j < |placed| ==> RecordKey(placed[j]) != (x.row, x.col, d))
  {
    var lookup := Lookup(placed);
    var xs := ListOf(GridScan(g, rows, cols, lookup, rows), d);
    GridScanOk(g, rows, cols, lookup, rows);
    var i :| 0 <= i < |xs| && xs[i] == x;
    assert ClueOk(g, rows, cols, lookup, x, d);
    LookupLastWins(placed, (x.row, x.col, d));
  }
}
