/**
 * The state behind the viewer window `CrosswordViewer` (src/gui.py): a
 * browser-style history of puzzles with a current index, the rules that
 * enable its buttons, and the map from cells to the clue numbers drawn in
 * them. Widgets, drawing and dialogs are not modelled.
 */
module Viewer {
  import opened Wrappers
  import opened Grids
  import opened Puzzles
  import opened Attempts
  import opened Generator
  import opened Clues
  import opened WordList

  /* ---- The history as a value ---- */

  /** `history` and `history_index`. */
  datatype HistoryState = HistoryState(puzzles: seq<Puzzle>, index: int)

  /** The index points into the history, and is -1 exactly when the history is empty. */
  predicate Coherent(h: HistoryState)
  {
    -1 <= h.index < |h.puzzles| && (h.index == -1 <==> |h.puzzles| == 0)
  }

  /** The history of a fresh window. */
  const EmptyHistory := HistoryState([], -1)

  /** The puzzle on display, if any. */
  function Current(h: HistoryState): Option<Puzzle>
  {
    if 0 <= h.index < |h.puzzles| then Some(h.puzzles[h.index]) else None
  }

  /** `_push_puzzle`: drop everything after the current puzzle, append, and show the new one. */
  function Push(h: HistoryState, p: Puzzle): HistoryState
    requires Coherent(h)
  {
    var kept := h.puzzles[..h.index + 1] + [p];
    HistoryState(kept, |kept| - 1)
  }

  /** `_go_back`: one step towards the oldest puzzle, when there is one. */
  function Back(h: HistoryState): HistoryState
  {
    if h.index > 0 then h.(index := h.index - 1) else h
  }

  /** `_go_forward`: one step towards the newest puzzle, when there is one. */
  function Forward(h: HistoryState): HistoryState
  {
    if h.index < |h.puzzles| - 1 then h.(index := h.index + 1) else h
  }

  /* ---- Button enablement (`_update_buttons`) ---- */

  predicate BackEnabled(h: HistoryState)
  {
    h.index > 0
  }

  predicate ForwardEnabled(h: HistoryState)
  {
    h.index < |h.puzzles| - 1
  }

  predicate SaveEnabled(h: HistoryState)
  {
    |h.puzzles| > 0
  }

  /** "New Random" is enabled when a word list was loaded, even an empty one. */
  predicate NewEnabled(entries: Option<seq<WordEntry>>)
  {
    entries.Some?
  }

  /**
   * Pushing keeps the history coherent, shows the new puzzle as the newest
   * one, keeps everything up to the old current puzzle and drops the rest.
   */
  lemma PushShowsNewest(h: HistoryState, p: Puzzle)
    requires Coherent(h)
    ensures var h' := Push(h, p);
            Coherent(h') && Current(h') == Some(p) && !ForwardEnabled(h')
            && |h'.puzzles| == h.index + 2 && h'.puzzles[..h.index + 1] == h.puzzles[..h.index + 1]
            && (BackEnabled(h') <==> Current(h).Some?)
  {
    var kept := h.puzzles[..h.index + 1] + [p];
    assert kept[..h.index + 1] == h.puzzles[..h.index + 1];
  }

  /** Going back right after a push shows the puzzle that was current before it. */
  lemma PushThenBack(h: HistoryState, p: Puzzle)
    requires Coherent(h) && Current(h).Some?
    ensures Current(Back(Push(h, p))) == Current(h)
  {
    var kept := h.puzzles[..h.index + 1] + [p];
    assert kept[h.index] == h.puzzles[h.index];
  }

  /**
   * A step back or forward moves the index exactly when its button is
   * enabled, keeps the history coherent and never changes the puzzles.
   */
  lemma StepsMoveIffEnabled(h: HistoryState)
    requires Coherent(h)
    ensures Coherent(Back(h)) && Back(h).puzzles == h.puzzles
    ensures Coherent(Forward(h)) && Forward(h).puzzles == h.puzzles
    ensures BackEnabled(h) <==> Back(h).index == h.index - 1
    ensures !BackEnabled(h) <==> Back(h) == h
    ensures ForwardEnabled(h) <==> Forward(h).index == h.index + 1
    ensures !ForwardEnabled(h) <==> Forward(h) == h
  {
  }

  /** Forward undoes Back and Back undoes Forward, whenever the first step is enabled. */
  lemma BackForwardInverse(h: HistoryState)
    requires Coherent(h)
    ensures BackEnabled(h) ==> ForwardEnabled(Back(h)) && Forward(Back(h)) == h
    ensures ForwardEnabled(h) ==> BackEnabled(Forward(h)) && Back(Forward(h)) == h
  {
  }

  /** Save is enabled exactly when a puzzle is on display. */
  lemma SaveIffShowing(h: HistoryState)
    requires Coherent(h)
    ensures SaveEnabled(h) <==> Current(h).Some?
  {
  }

  /* ---- The number map of `_draw_grid` ---- */

  /** Some clue of the list starts at pos. */
  predicate ClueAtPos(xs: seq<Clue>, pos: (int, int))
  {
    exists i :: 0 <= i < |xs| && xs[i].row == pos.0 && xs[i].col == pos.1
  }

  /** The across clues' numbers by position, a later clue overwriting an earlier one. */
  function AcrossNumbers(across: seq<Clue>): map<(int, int), nat>
  {
    if |across| == 0 then map[]
    else
      var x := across[|across| - 1];
      AcrossNumbers(across[..|across| - 1])[(x.row, x.col) := x.number]
  }

  /** The down clues' numbers added to m, only at positions m does not have yet. */
  function DownNumbers(m: map<(int, int), nat>, down: seq<Clue>): map<(int, int), nat>
  {
    if |down| == 0 then m
    else
      var prev := DownNumbers(m, down[..|down| - 1]);
      var x := down[|down| - 1];
      if (x.row, x.col) in prev then prev else prev[(x.row, x.col) := x.number]
  }

  /** `number_map`: empty for a puzzle without clues. */
  function NumberMap(entries: Entries): map<(int, int), nat>
  {
    match entries
    case Placed(_) => map[]
    case Clued(cl) => DownNumbers(AcrossNumbers(cl.across), cl.down)
  }

  /** The two loops that fill `number_map`. */
  method BuildNumberMap(puzzle: Puzzle) returns (numbers: map<(int, int), nat>)
    ensures numbers == NumberMap(puzzle.entries)
  {
    numbers := map[];
    if puzzle.entries.Placed? {
      return;
    }
    var across, down := puzzle.entries.clues.across, puzzle.entries.clues.down;
    for i := 0 to |across|
      invariant numbers == AcrossNumbers(across[..i])
    {
      assert across[..i + 1][..i] == across[..i];
      numbers := numbers[(across[i].row, across[i].col) := across[i].number];
    }
    assert across[..|across|] == across;
    ghost var acrossMap := numbers;
    for i := 0 to |down|
      invariant numbers == DownNumbers(acrossMap, down[..i])
    {
      assert down[..i + 1][..i] == down[..i];
      var pos := (down[i].row, down[i].col);
      if pos !in numbers {
        numbers := numbers[pos := down[i].number];
      }
    }
    assert down[..|down|] == down;
  }

  /** A position has an across number exactly when an across clue starts there, and it is the last such clue's. */
  lemma {:induction false} AcrossNumbersLastWins(across: seq<Clue>, pos: (int, int))
    ensures pos in AcrossNumbers(across) <==> ClueAtPos(across, pos)
    ensures pos in AcrossNumbers(across) ==>
              exists i :: (0 <= i < |across| && across[i].row == pos.0 && across[i].col == pos.1
                           && AcrossNumbers(across)[pos] == across[i].number
                           && forall j :: i < j < |across| ==> !(across[j].row == pos.0 && across[j].col == pos.1))
  {
    if |across| > 0 {
      var init := across[..|across| - 1];
      var x := across[|across| - 1];
      AcrossNumbersLastWins(init, pos);
      if (x.row, x.col) == pos {
        assert across[|across| - 1] == x;
      } else {
        if ClueAtPos(init, pos) {
          var i :| 0 <= i < |init| && init[i].row == pos.0 && init[i].col == pos.1;
          assert across[i] == init[i];
        }
        if ClueAtPos(across, pos) {
          var i :| 0 <= i < |across| && across[i].row == pos.0 && across[i].col == pos.1;
          assert init[i] == across[i];
        }
        if pos in AcrossNumbers(across) {
          var i :| 0 <= i < |init| && init[i].row == pos.0 && init[i].col == pos.1
                   && AcrossNumbers(init)[pos] == init[i].number
                   && forall j :: i < j < |init| ==> !(init[j].row == pos.0 && init[j].col == pos.1);
          assert across[i] == init[i];
          assert forall j :: i < j < |init| ==> across[j] == init[j];
        }
      }
    }
  }

  /**
   * A down clue only fills a position m lacks: such a position gets a number
   * exactly when a down clue starts there, and it is the first such clue's.
   */
  lemma {:induction false} DownNumbersFirstWins(m: map<(int, int), nat>, down: seq<Clue>, pos: (int, int))
    ensures pos in m ==> pos in DownNumbers(m, down) && DownNumbers(m, down)[pos] == m[pos]
    ensures pos !in m ==> (pos in DownNumbers(m, down) <==> ClueAtPos(down, pos))
    ensures pos !in m && pos in DownNumbers(m, down) ==>
              exists i :: (0 <= i < |down| && down[i].row == pos.0 && down[i].col == pos.1
                           && DownNumbers(m, down)[pos] == down[i].number
                           && forall j :: 0 <= j < i ==> !(down[j].row == pos.0 && down[j].col == pos.1))
  {
    if |down| > 0 {
      var init := down[..|down| - 1];
      var prev := DownNumbers(m, init);
      var x := down[|down| - 1];
      DownNumbersFirstWins(m, init, pos);
      if ClueAtPos(init, pos) {
        var i :| 0 <= i < |init| && init[i].row == pos.0 && init[i].col == pos.1;
        assert down[i] == init[i];
      }
      if ClueAtPos(down, pos) && (x.row, x.col) != pos {
        var i :| 0 <= i < |down| && down[i].row == pos.0 && down[i].col == pos.1;
        assert init[i] == down[i];
      }
      if pos !in m && pos in prev {
        var i :| 0 <= i < |init| && init[i].row == pos.0 && init[i].col == pos.1
                 && prev[pos] == init[i].number
                 && forall j :: 0 <= j < i ==> !(init[j].row == pos.0 && init[j].col == pos.1);
        assert down[i] == init[i];
        assert forall j :: 0 <= j < i ==> down[j] == init[j];
      } else if pos !in m && (x.row, x.col) == pos {
        assert down[|down| - 1] == x;
        forall j | 0 <= j < |down| - 1 ensures !(down[j].row == pos.0 && down[j].col == pos.1) {
          assert down[j] == init[j];
        }
      }
    }
  }

  /**
   * For clues numbered by `extract_clues`, the map holds exactly the cells
   * where a clue starts, each a start cell carrying its ordinal among all
   * start cells, whichever list supplied the number.
   */
  lemma NumberMapOfExtracted(g: Grid, rows: nat, cols: nat, placed: seq<PlacementRecord>, pos: (int, int))
    requires Shaped(g, rows, cols)
    ensures var cl := ClueListsOf(g, rows, cols, placed);
            var numbers := NumberMap(Clued(cl));
            (pos in numbers <==> ClueAtPos(cl.across, pos) || ClueAtPos(cl.down, pos))
            && (pos in numbers ==> InBounds(rows, cols, pos.0, pos.1) && IsStart(g, rows, cols, pos.0, pos.1)
                                   && numbers[pos] == Ordinal(g, rows, cols, pos.0, pos.1))
  {
    var cl := ClueListsOf(g, rows, cols, placed);
    var acrossMap := AcrossNumbers(cl.across);
    ClueListsCorrect(g, rows, cols, placed);
    AcrossNumbersLastWins(cl.across, pos);
    DownNumbersFirstWins(acrossMap, cl.down, pos);
    if pos in acrossMap {
      var i :| 0 <= i < |cl.across| && cl.across[i].row == pos.0 && cl.across[i].col == pos.1
               && acrossMap[pos] == cl.across[i].number
               && forall j :: i < j < |cl.across| ==> !(cl.across[j].row == pos.0 && cl.across[j].col == pos.1);
      assert ClueOk(g, rows, cols, Lookup(placed), cl.across[i], Across);
    } else if pos in NumberMap(Clued(cl)) {
      var i :| 0 <= i < |cl.down| && cl.down[i].row == pos.0 && cl.down[i].col == pos.1
               && NumberMap(Clued(cl))[pos] == cl.down[i].number
               && forall j :: 0 <= j < i ==> !(cl.down[j].row == pos.0 && cl.down[j].col == pos.1);
      assert ClueOk(g, rows, cols, Lookup(placed), cl.down[i], Down);
    }
  }

  /* ---- Generating a new puzzle ---- */

  /** `generate_crossword`'s default number of attempts. */
  const DefaultMaxAttempts: nat := 200

  /**
   * What "New Random" shows: a puzzle generated from the loaded entries with
   * a freshly drawn seed and the default attempts, then numbered by
   * `extract_clues`.
   */
  function NewPuzzle(entries: seq<WordEntry>, rows: nat, cols: nat, drawnSeed: int, perms: seq<seq<nat>>): Puzzle
    requires AreShuffles(perms, DefaultMaxAttempts, |entries|)
    requires FirstWordLands(entries, rows, cols) && forall e :: e in entries ==> IsWord(e.word)
  {
    GenerateWellFormed(entries, rows, cols, None, drawnSeed, DefaultMaxAttempts, perms);
    var p := GenerateSpec(entries, rows, cols, None, drawnSeed, DefaultMaxAttempts, perms);
    p.(entries := Clued(ClueListsOf(p.cells, rows, cols, p.entries.placed)))
  }

  /* ---- The window's state ---- */

  class CrosswordViewer {
    var history: seq<Puzzle>
    var historyIndex: int
    /** The entries loaded from the word list, when a word-list path was given. */
    const entries: Option<seq<WordEntry>>
    const rows: nat
    const cols: nat

    function State(): HistoryState
      reads this
    {
      HistoryState(history, historyIndex)
    }

    ghost predicate Valid()
      reads this
    {
      Coherent(State())
      && (entries.Some? ==> forall e :: e in entries.value ==> IsWord(e.word))
    }

    /**
     * Opens the window: loads the word list when its lines are given, then
     * shows the given puzzle, or else a new one when entries were loaded.
     */
    constructor (puzzle: Option<Puzzle>, wordListLines: Option<seq<string>>, rows: nat, cols: nat,
                 drawnSeed: int, perms: seq<seq<nat>>)
      requires puzzle.None? && wordListLines.Some? ==>
                 AreShuffles(perms, DefaultMaxAttempts, |Load(wordListLines.value)|)
                 && FirstWordLands(Load(wordListLines.value), rows, cols)
      ensures Valid()
      ensures this.rows == rows && this.cols == cols
      ensures entries == if wordListLines.Some? then Some(Load(wordListLines.value)) else None
      ensures puzzle.Some? ==> State() == Push(EmptyHistory, puzzle.value)
      ensures puzzle.None? && entries.Some? && |entries.value| > 0 ==>
                State() == Push(EmptyHistory, NewPuzzle(entries.value, rows, cols, drawnSeed, perms))
      ensures puzzle.None? && (entries.None? || |entries.value| == 0) ==> State() == EmptyHistory
    {
      this.rows := rows;
      this.cols := cols;
      history := [];
      historyIndex := -1;
      if wordListLines.Some? {
        var loaded := LoadWordlist(wordListLines.value);
        LoadedWordsDistinct(wordListLines.value);
        entries := Some(loaded);
      } else {
        entries := None;
      }
      new;
      if puzzle.Some? {
        PushPuzzle(puzzle.value);
      } else if entries.Some? && |entries.value| > 0 {
        GenerateNew(drawnSeed, perms);
      }
    }

    /** `_push_puzzle`. */
    method PushPuzzle(p: Puzzle)
      requires Valid()
      modifies this
      ensures Valid()
      ensures State() == Push(old(State()), p)
    {
      history := history[..historyIndex + 1];
      history := history + [p];
      historyIndex := |history| - 1;
    }

    /** `_go_back`. */
    method GoBack()
      requires Valid()
      modifies this
      ensures Valid()
      ensures State() == Back(old(State()))
    {
      if historyIndex > 0 {
        historyIndex := historyIndex - 1;
      }
    }

    /** `_go_forward`. */
    method GoForward()
      requires Valid()
      modifies this
      ensures Valid()
      ensures State() == Forward(old(State()))
    {
      if historyIndex < |history| - 1 {
        historyIndex := historyIndex + 1;
      }
    }

    /**
     * `_generate_new`: nothing without entries (none loaded, or an empty
     * list); otherwise generate, number and push a new puzzle.
     */
    method GenerateNew(drawnSeed: int, perms: seq<seq<nat>>)
      requires Valid()
      requires entries.Some? ==> AreShuffles(perms, DefaultMaxAttempts, |entries.value|)
                                 && FirstWordLands(entries.value, rows, cols)
      modifies this
      ensures Valid()
      ensures entries.None? || |entries.value| == 0 ==> State() == old(State())
      ensures entries.Some? && |entries.value| > 0 ==>
                State() == Push(old(State()), NewPuzzle(entries.value, rows, cols, drawnSeed, perms))
    {
      if entries.None? || |entries.value| == 0 {
        return;
      }
      GenerateWellFormed(entries.value, rows, cols, None, drawnSeed, DefaultMaxAttempts, perms);
      var puzzle := GenerateCrossword(entries.value, rows, cols, None, drawnSeed, DefaultMaxAttempts, perms);
      puzzle := ExtractClues(puzzle);
      PushPuzzle(puzzle);
    }
  }
}
