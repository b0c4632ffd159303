/**
 * The greedy attempt runner `_run_attempt` (src/generator.py): words are
 * taken in a shuffled order; the first one is centred across, every later
 * one is committed at its best-scoring candidate or skipped.
 */
module Attempts {
  import opened Wrappers
  import opened Grids
  import opened Puzzles
  import opened Placement
  import opened CandidateFinder
  import opened Scoring

  function Max(a: nat, b: nat): nat
  {
    if a >= b then a else b
  }

  /** `perm` lists each index below n exactly once. */
  predicate IsPermutation(perm: seq<nat>, n: nat)
  {
    |perm| == n
    && (forall i :: 0 <= i < n ==> perm[i] < n)
    && (forall i, j :: 0 <= i < j < n ==> perm[i] != perm[j])
  }

  /** The entry list after the shuffle that produced `perm`. */
  function Shuffled(entries: seq<WordEntry>, perm: seq<nat>): (order: seq<WordEntry>)
    requires IsPermutation(perm, |entries|)
    ensures |order| == |entries|
    ensures forall i :: 0 <= i < |order| ==> order[i] == entries[perm[i]]
  {
    seq(|perm|, i requires 0 <= i < |perm| => entries[perm[i]])
  }

  /** Indices above j moved down by one, closing the gap that removing index j leaves. */
  function Renumber(perm: seq<nat>, j: nat): seq<nat>
  {
    seq(|perm|, i requires 0 <= i < |perm| => if perm[i] <= j then perm[i] else perm[i] - 1)
  }

  /** Dropping the last position of a permutation and renumbering gives a permutation of one fewer. */
  lemma RenumberIsPermutation(perm: seq<nat>, n: nat)
    requires IsPermutation(perm, n) && n > 0
    ensures IsPermutation(Renumber(perm[..n - 1], perm[n - 1]), n - 1)
  {
    var q := Renumber(perm[..n - 1], perm[n - 1]);
    forall i | 0 <= i < n - 1
      ensures q[i] < n - 1
    {
      assert perm[i] != perm[n - 1];
    }
    forall i, k | 0 <= i < k < n - 1
      ensures q[i] != q[k]
    {
      assert perm[i] != perm[n - 1] && perm[k] != perm[n - 1] && perm[i] != perm[k];
    }
  }

  /** The shuffle is the shuffle of the list without the last drawn entry, followed by that entry. */
  lemma ShuffleLast(entries: seq<WordEntry>, perm: seq<nat>)
    requires IsPermutation(perm, |entries|) && |entries| > 0
    ensures var n, j := |entries|, perm[|entries| - 1];
            IsPermutation(Renumber(perm[..n - 1], j), n - 1)
            && Shuffled(entries, perm)
               == Shuffled(entries[..j] + entries[j + 1..], Renumber(perm[..n - 1], j)) + [entries[j]]
  {
    var n, j := |entries|, perm[|entries| - 1];
    RenumberIsPermutation(perm, n);
    var rest, q := entries[..j] + entries[j + 1..], Renumber(perm[..n - 1], j);
    forall i | 0 <= i < n - 1
      ensures Shuffled(entries, perm)[i] == Shuffled(rest, q)[i]
    {
      assert perm[i] != perm[n - 1];
    }
  }

  /**
   * The shuffle only reorders: the shuffled list holds the same entries, each
   * as often as before. Induction on the length: the entry drawn last is
   * removed, and the other indices are renumbered into the shorter list.
   */
  lemma {:induction false} ShuffleKeepsEntries(entries: seq<WordEntry>, perm: seq<nat>)
    requires IsPermutation(perm, |entries|)
    ensures multiset(Shuffled(entries, perm)) == multiset(entries)
    decreases |entries|
  {
    var n := |entries|;
    if n == 0 {
      assert Shuffled(entries, perm) == [];
    } else {
      var j := perm[n - 1];
      var rest := entries[..j] + entries[j + 1..];
      ShuffleLast(entries, perm);
      ShuffleKeepsEntries(rest, Renumber(perm[..n - 1], j));
      assert entries == entries[..j] + [entries[j]] + entries[j + 1..];
    }
  }

  /**
   * The first word is centred on row rows/2 and needs a row to land in: on
   * a grid without rows any non-empty word that fits the width would be
   * written out of range.
   */
  predicate FirstWordLands(entries: seq<WordEntry>, rows: nat, cols: nat)
  {
    rows >= 1 || forall e :: e in entries ==> |e.word| == 0 || |e.word| > cols
  }

  /** The first word, centred across on row rows/2 (skipped when wider than the grid). */
  function PlaceFirst(e: WordEntry, rows: nat, cols: nat, acc: AttemptResult): (next: AttemptResult)
    requires Shaped(acc.cells, rows, cols)
    ensures Shaped(next.cells, rows, cols)
  {
    var w := e.word;
    if |w| > cols then acc
    else
      var r, c := rows / 2, (cols - |w|) / 2;
      AttemptResult(Written(acc.cells, rows, cols, w, r, c, Across),
                    acc.placed + [PlacementRecord(w, e.hint, r, c, Across, 0)])
  }

  /** A later word, committed at its best candidate (skipped when it has none). */
  function PlaceAnchored(e: WordEntry, rows: nat, cols: nat, acc: AttemptResult): (next: AttemptResult)
    requires Shaped(acc.cells, rows, cols)
    ensures Shaped(next.cells, rows, cols)
  {
    var w := e.word;
    var cands := Candidates(acc.cells, rows, cols, w);
    if |cands| == 0 then acc
    else
      var x := cands[BestIndex(cands, rows, cols)];
      AttemptResult(Written(acc.cells, rows, cols, w, x.row, x.col, x.dir),
                    acc.placed + [PlacementRecord(w, e.hint, x.row, x.col, x.dir, x.intersections)])
  }

  /** Handling of the i-th word of `order`, given the attempt so far. */
  function AttemptStep(order: seq<WordEntry>, rows: nat, cols: nat, i: nat, acc: AttemptResult): (next: AttemptResult)
    requires i < |order| && Shaped(acc.cells, rows, cols)
    ensures Shaped(next.cells, rows, cols)
  {
    if |order[i].word| > Max(rows, cols) then acc
    else if i == 0 then PlaceFirst(order[i], rows, cols, acc)
    else PlaceAnchored(order[i], rows, cols, acc)
  }

  /** The attempt after the first n words of `order`. */
  function AttemptUpTo(order: seq<WordEntry>, rows: nat, cols: nat, n: nat): (a: AttemptResult)
    requires n <= |order|
    ensures Shaped(a.cells, rows, cols)
  {
    if n == 0 then AttemptResult(EmptyGrid(rows, cols), [])
    else AttemptStep(order, rows, cols, n - 1, AttemptUpTo(order, rows, cols, n - 1))
  }

  /** What `_run_attempt` returns for the shuffle `perm`. */
  function Attempt(entries: seq<WordEntry>, rows: nat, cols: nat, perm: seq<nat>): AttemptResult
    requires IsPermutation(perm, |entries|)
  {
    AttemptUpTo(Shuffled(entries, perm), rows, cols, |entries|)
  }

  /** `_run_attempt`, with the shuffle supplied as the permutation it produced. */
  method RunAttempt(entries: seq<WordEntry>, rows: nat, cols: nat, perm: seq<nat>) returns (result: AttemptResult)
    requires IsPermutation(perm, |entries|) && FirstWordLands(entries, rows, cols)
    ensures result == Attempt(entries, rows, cols, perm)
  {
    var order := Shuffled(entries, perm);
    var grid := MakeGrid(rows, cols);
    var placed: seq<PlacementRecord> := [];
    for i := 0 to |order|
      invariant AttemptResult(Snapshot(grid), placed) == AttemptUpTo(order, rows, cols, i)
    {
      assert i == 0 ==> order[0] in entries;
      placed := PlaceNext(grid, order, rows, cols, i, placed);
    }
    result := AttemptResult(Snapshot(grid), placed);
  }

  /** One iteration of the attempt loop: skip the i-th word or commit it and record it. */
  method PlaceNext(grid: array2<char>, order: seq<WordEntry>, rows: nat, cols: nat, i: nat, placed: seq<PlacementRecord>)
    returns (placed': seq<PlacementRecord>)
    requires grid.Length0 == rows && grid.Length1 == cols && i < |order|
    requires i == 0 ==> rows >= 1 || |order[0].word| == 0 || |order[0].word| > cols
    modifies grid
    ensures AttemptResult(Snapshot(grid), placed') == AttemptStep(order, rows, cols, i, AttemptResult(old(Snapshot(grid)), placed))
  {
    var word := order[i].word;
    if |word| > Max(rows, cols) {
      placed' := placed;
    } else if i == 0 {
      placed' := CentreFirst(grid, order[i], rows, cols, placed);
    } else {
      placed' := CommitBest(grid, order[i], rows, cols, placed);
    }
  }

  /** The first word: placed across, centred, with no intersections. */
  method CentreFirst(grid: array2<char>, e: WordEntry, rows: nat, cols: nat, placed: seq<PlacementRecord>)
    returns (placed': seq<PlacementRecord>)
    requires grid.Length0 == rows && grid.Length1 == cols
    requires rows >= 1 || |e.word| == 0 || |e.word| > cols
    modifies grid
    ensures AttemptResult(Snapshot(grid), placed') == PlaceFirst(e, rows, cols, AttemptResult(old(Snapshot(grid)), placed))
  {
    var word, hint := e.word, e.hint;
    if |word| > cols {
      return placed;
    }
    var r, c := rows / 2, (cols - |word|) / 2;
    PlaceWord(grid, word, r, c, Across);
    placed' := placed + [PlacementRecord(word, hint, r, c, Across, 0)];
  }

  /** A later word: find its candidates, commit the first best-scoring one. */
  method CommitBest(grid: array2<char>, e: WordEntry, rows: nat, cols: nat, placed: seq<PlacementRecord>)
    returns (placed': seq<PlacementRecord>)
    requires grid.Length0 == rows && grid.Length1 == cols
    modifies grid
    ensures AttemptResult(Snapshot(grid), placed') == PlaceAnchored(e, rows, cols, AttemptResult(old(Snapshot(grid)), placed))
  {
    var word, hint := e.word, e.hint;
    ghost var g := Snapshot(grid);
    // Find all valid candidate placements
    var candidates := FindCandidates(grid, word, rows, cols);
    if |candidates| == 0 {
      return placed;
    }
    // Score and pick best
    var best := candidates[BestIndex(candidates, rows, cols)];
    CandidatesSound(g, rows, cols, word);
    assert Accepted(g, rows, cols, word, best);
    ValidateCounts(g, rows, cols, word, best.row, best.col, best.dir);
    PlaceWord(grid, word, best.row, best.col, best.dir);
    placed' := placed + [PlacementRecord(word, hint, best.row, best.col, best.dir, best.intersections)];
  }

  /* ---- Properties of an attempt ---- */

  /** Records are only ever appended; each comes from a word of `order` that fits the grid. */
  lemma {:induction false} AttemptRecordsFromOrder(order: seq<WordEntry>, rows: nat, cols: nat, n: nat)
    requires n <= |order|
    ensures |AttemptUpTo(order, rows, cols, n).placed| <= n
    ensures forall p :: p in AttemptUpTo(order, rows, cols, n).placed ==>
      WordEntry(p.word, p.hint) in order[..n] && |p.word| <= Max(rows, cols)
  {
    if n > 0 {
      AttemptRecordsFromOrder(order, rows, cols, n - 1);
      assert order[..n] == order[..n - 1] + [order[n - 1]];
    }
  }

  /** Later words never remove or change earlier records. */
  lemma {:induction false} AttemptExtends(order: seq<WordEntry>, rows: nat, cols: nat, m: nat, n: nat)
    requires m <= n <= |order|
    ensures AttemptUpTo(order, rows, cols, m).placed <= AttemptUpTo(order, rows, cols, n).placed
  {
    if m < n {
      AttemptExtends(order, rows, cols, m, n - 1);
    }
  }

  /** A first word that fits the width is the first record: centred across, no intersections. */
  lemma FirstWordCentred(order: seq<WordEntry>, rows: nat, cols: nat, n: nat)
    requires 1 <= n <= |order| && |order[0].word| <= cols
    ensures |AttemptUpTo(order, rows, cols, n).placed| >= 1
    ensures AttemptUpTo(order, rows, cols, n).placed[0]
      == PlacementRecord(order[0].word, order[0].hint, rows / 2, (cols - |order[0].word|) / 2, Across, 0)
  {
    AttemptExtends(order, rows, cols, 1, n);
  }

  /**
   * A first word too wide for the grid leaves the grid without letters, so
   * no later word has a candidate: the attempt places nothing.
   */
  lemma {:induction false} FirstSkippedNothingPlaced(order: seq<WordEntry>, rows: nat, cols: nat, n: nat)
    requires n <= |order| && |order| > 0 && |order[0].word| > cols
    requires forall e :: e in order ==> NoBlocked(e.word)
    ensures AttemptUpTo(order, rows, cols, n) == AttemptResult(EmptyGrid(rows, cols), [])
  {
    if n > 0 {
      FirstSkippedNothingPlaced(order, rows, cols, n - 1);
      if n - 1 > 0 {
        assert order[n - 1] in order;
        NoCandidatesOnEmptyGrid(rows, cols, order[n - 1].word);
      }
    }
  }

  predicate IsLetter(ch: char)
  {
    'A' <= ch <= 'Z'
  }

  /** Every cell is blocked or holds a letter A–Z. */
  predicate LetterGrid(g: Grid, rows: nat, cols: nat)
    requires Shaped(g, rows, cols)
  {
    forall r, c :: 0 <= r < rows && 0 <= c < cols ==> g[r][c] == Blocked || IsLetter(g[r][c])
  }

  /** The record's word is on the grid at its span. */
  predicate Reads(g: Grid, rows: nat, cols: nat, p: PlacementRecord)
    requires Shaped(g, rows, cols)
  {
    Fits(rows, cols, |p.word|, p.row, p.col, p.dir)
    && forall i :: 0 <= i < |p.word| ==> SpanCell(g, rows, cols, p.word, p.row, p.col, p.dir, i) == p.word[i]
  }

  /**
   * What an attempt over proper words keeps true: the grid holds only
   * '#' and letters, every record is a proper word that still reads from
   * the grid with fewer intersections than letters, and every record after
   * the first crosses at least one earlier word.
   */
  predicate WellFormed(rows: nat, cols: nat, a: AttemptResult)
  {
    Shaped(a.cells, rows, cols)
    && LetterGrid(a.cells, rows, cols)
    && (forall k :: 0 <= k < |a.placed| ==>
          IsWord(a.placed[k].word) && Reads(a.cells, rows, cols, a.placed[k])
          && a.placed[k].intersections < |a.placed[k].word|)
    && (forall k :: 0 < k < |a.placed| ==> a.placed[k].intersections >= 1)
  }

  /** Writing a proper word keeps the grid made of '#' and letters. */
  lemma WrittenLetterGrid(g: Grid, rows: nat, cols: nat, word: string, row: int, col: int, d: Direction)
    requires Shaped(g, rows, cols) && LetterGrid(g, rows, cols) && IsWord(word) && Fits(rows, cols, |word|, row, col, d)
    ensures LetterGrid(Written(g, rows, cols, word, row, col, d), rows, cols)
  {
    var h := Written(g, rows, cols, word, row, col, d);
    forall r, c | InBounds(rows, cols, r, c) ensures h[r][c] == Blocked || IsLetter(h[r][c]) {
      if OnSpan(row, col, d, |word|, r, c) {
        var i := SpanIndex(row, col, d, r, c);
        assert SpanRow(row, d, i) == r && SpanCol(col, d, i) == c;
      }
    }
  }

  /** A record on letters only keeps reading after a write that never changes a letter. */
  lemma RecordSurvivesWrite(g: Grid, h: Grid, rows: nat, cols: nat, p: PlacementRecord)
    requires Shaped(g, rows, cols) && Shaped(h, rows, cols)
    requires Reads(g, rows, cols, p) && IsWord(p.word)
    requires forall r, c :: InBounds(rows, cols, r, c) ==> h[r][c] == g[r][c] || g[r][c] == Blocked
    ensures Reads(h, rows, cols, p)
  {
    forall i | 0 <= i < |p.word| ensures SpanCell(h, rows, cols, p.word, p.row, p.col, p.dir, i) == p.word[i] {
      FitsInBounds(rows, cols, |p.word|, p.row, p.col, p.dir, i);
      assert SpanCell(g, rows, cols, p.word, p.row, p.col, p.dir, i) == p.word[i];
    }
  }

  /**
   * Committing a word keeps an attempt well formed, when it is the first
   * record or a placement the validator accepted.
   */
  lemma CommitKeepsWellFormed(a: AttemptResult, rows: nat, cols: nat, e: WordEntry, row: int, col: int, d: Direction, n: nat)
    requires WellFormed(rows, cols, a) && IsWord(e.word)
    requires Fits(rows, cols, |e.word|, row, col, d) && n < |e.word|
    requires a.placed == [] || Validate(a.cells, rows, cols, e.word, row, col, d) == Some(n)
    requires a.placed != [] ==> n >= 1
    ensures WellFormed(rows, cols,
      AttemptResult(Written(a.cells, rows, cols, e.word, row, col, d), a.placed + [PlacementRecord(e.word, e.hint, row, col, d, n)]))
  {
    var h := Written(a.cells, rows, cols, e.word, row, col, d);
    var placed := a.placed + [PlacementRecord(e.word, e.hint, row, col, d, n)];
    WrittenLetterGrid(a.cells, rows, cols, e.word, row, col, d);
    if a.placed != [] {
      PlaceKeepsLetters(a.cells, rows, cols, e.word, row, col, d);
      forall k | 0 <= k < |a.placed| ensures Reads(h, rows, cols, a.placed[k]) {
        RecordSurvivesWrite(a.cells, h, rows, cols, a.placed[k]);
      }
    }
    assert forall k :: 0 <= k < |a.placed| ==> placed[k] == a.placed[k];
  }

  lemma FirstKeepsWellFormed(e: WordEntry, rows: nat, cols: nat, acc: AttemptResult)
    requires WellFormed(rows, cols, acc) && acc.placed == [] && IsWord(e.word)
    requires rows >= 1 || |e.word| > cols
    ensures WellFormed(rows, cols, PlaceFirst(e, rows, cols, acc))
  {
    if |e.word| <= cols {
      CommitKeepsWellFormed(acc, rows, cols, e, rows / 2, (cols - |e.word|) / 2, Across, 0);
    }
  }

  lemma AnchoredKeepsWellFormed(e: WordEntry, rows: nat, cols: nat, acc: AttemptResult)
    requires WellFormed(rows, cols, acc) && IsWord(e.word)
    ensures WellFormed(rows, cols, PlaceAnchored(e, rows, cols, acc))
  {
    var cands := Candidates(acc.cells, rows, cols, e.word);
    if |cands| > 0 {
      var x := cands[BestIndex(cands, rows, cols)];
      CandidatesSound(acc.cells, rows, cols, e.word);
      assert Accepted(acc.cells, rows, cols, e.word, x);
      ValidateCounts(acc.cells, rows, cols, e.word, x.row, x.col, x.dir);
      CommitKeepsWellFormed(acc, rows, cols, e, x.row, x.col, x.dir, x.intersections);
    }
  }

  /** Every attempt over proper words is well formed. */
  lemma {:induction false} AttemptWellFormed(order: seq<WordEntry>, rows: nat, cols: nat, n: nat)
    requires n <= |order| && FirstWordLands(order, rows, cols)
    requires forall e :: e in order ==> IsWord(e.word)
    ensures WellFormed(rows, cols, AttemptUpTo(order, rows, cols, n))
  {
    if n > 0 {
      AttemptWellFormed(order, rows, cols, n - 1);
      var acc := AttemptUpTo(order, rows, cols, n - 1);
      var e := order[n - 1];
      assert e in order;
      if |e.word| > Max(rows, cols) {
      } else if n - 1 == 0 {
        FirstKeepsWellFormed(e, rows, cols, acc);
      } else {
        AnchoredKeepsWellFormed(e, rows, cols, acc);
      }
    }
  }

  /** An attempt over proper words is well formed and places at most every entry. */
  lemma AttemptIsWellFormed(entries: seq<WordEntry>, rows: nat, cols: nat, perm: seq<nat>)
    requires IsPermutation(perm, |entries|) && FirstWordLands(entries, rows, cols)
    requires forall e :: e in entries ==> IsWord(e.word)
    ensures WellFormed(rows, cols, Attempt(entries, rows, cols, perm))
    ensures |Attempt(entries, rows, cols, perm).placed| <= |entries|
  {
    var order := Shuffled(entries, perm);
    forall e | e in order ensures e in entries {
      var i :| 0 <= i < |order| && order[i] == e;
      assert order[i] == entries[perm[i]];
    }
    AttemptWellFormed(order, rows, cols, |order|);
    AttemptRecordsFromOrder(order, rows, cols, |order|);
  }

  /** An attempt over proper words scores between 0 and 1. */
  lemma AttemptScoreInRange(entries: seq<WordEntry>, rows: nat, cols: nat, perm: seq<nat>)
    requires IsPermutation(perm, |entries|) && FirstWordLands(entries, rows, cols)
    requires forall e :: e in entries ==> IsWord(e.word)
    ensures 0.0 <= PuzzleScore(Attempt(entries, rows, cols, perm), |entries|) <= 1.0
  {
    AttemptIsWellFormed(entries, rows, cols, perm);
    var a := Attempt(entries, rows, cols, perm);
    forall p | p in a.placed ensures p.intersections <= |p.word| {
      var k :| 0 <= k < |a.placed| && a.placed[k] == p;
    }
    PuzzleScoreNonNegative(a, |entries|);
    PuzzleScoreAtMostOne(a, |entries|, rows, cols);
  }
}
