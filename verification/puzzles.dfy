/**
 * The plain data the components pass to each other: word entries,
 * placement records, clues, metadata and the puzzle itself.
 */
module Puzzles {
  import opened Wrappers
  import opened Grids

  datatype Direction = Across | Down

  /** A word with its hint, as loaded from the word list. */
  datatype WordEntry = WordEntry(word: string, hint: string)

  /** One successfully placed word of an attempt. */
  datatype PlacementRecord = PlacementRecord(
    word: string, hint: string, row: int, col: int, dir: Direction, intersections: nat)

  /** The `(row, col, direction)` key that identifies a start. */
  type StartKey = (int, int, Direction)

  function RecordKey(p: PlacementRecord): StartKey
  {
    (p.row, p.col, p.dir)
  }

  /** What one attempt produces: its grid and its placement records, in placement order. */
  datatype AttemptResult = AttemptResult(cells: Grid, placed: seq<PlacementRecord>)

  datatype Clue = Clue(number: nat, answer: string, hint: string, row: int, col: int)

  datatype ClueLists = ClueLists(across: seq<Clue>, down: seq<Clue>)

  /** Before numbering a puzzle carries its placement records, afterwards its clues. */
  datatype Entries = Placed(placed: seq<PlacementRecord>) | Clued(clues: ClueLists)

  /** The metadata block of a generated puzzle (the wall-clock `runtime_ms` is not modelled). */
  datatype Metadata = Metadata(
    placed: nat, total: nat, bestAttempt: nat, attempts: nat, intersections: nat, score: real)

  /** One slot of prototype mode as reported in the result. */
  datatype SelectedWord = SelectedWord(chosen: string, alternatives: seq<string>, hint: string)

  /** The `prototype` block attached by prototype mode (without `total_runtime_ms`). */
  datatype PrototypeInfo = PrototypeInfo(
    totalCombinations: nat, evaluated: nat, skippedDuplicates: nat,
    bestComboIndex: nat, selectedWords: seq<SelectedWord>)

  datatype Puzzle = Puzzle(
    seed: int, rows: nat, cols: nat, cells: Grid,
    entries: Entries, metadata: Metadata, prototype: Option<PrototypeInfo>)

  /** What the word-list loader guarantees: at least two letters, all of them A–Z. */
  predicate IsWord(w: string)
  {
    |w| >= 2 && forall i :: 0 <= i < |w| ==> 'A' <= w[i] <= 'Z'
  }

  /** A word that can never be confused with a blocked cell. */
  predicate NoBlocked(w: string)
  {
    forall i :: 0 <= i < |w| ==> w[i] != Blocked
  }
}
