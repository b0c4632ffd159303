/**
 * The two scores of src/generator.py, over exact reals: `_score_candidate`
 * ranks the candidates of one word, `_score_puzzle` ranks whole attempts.
 * The committed candidate is the first maximum, as Python's `max` returns.
 */
module Scoring {
  import opened Grids
  import opened Puzzles
  import opened Placement
  import opened CandidateFinder

  function Abs(x: real): real
  {
    if x < 0.0 then -x else x
  }

  /** 1 at the grid centre falling linearly to 0 at a corner (Manhattan distance); 1 on a 0 × 0 grid. */
  function Centrality(rows: nat, cols: nat, r: int, c: int): real
  {
    var centerR, centerC := rows as real / 2.0, cols as real / 2.0;
    var maxDist := centerR + centerC;
    if maxDist > 0.0 then 1.0 - (Abs(r as real - centerR) + Abs(c as real - centerC)) / maxDist else 1.0
  }

  /** `_score_candidate`: two points per intersection plus the centrality. */
  function CandidateScore(x: Candidate, rows: nat, cols: nat): real
  {
    2.0 * x.intersections as real + Centrality(rows, cols, x.row, x.col)
  }

  /** A start on the grid has centrality between 0 and 1. */
  lemma CentralityRange(rows: nat, cols: nat, r: int, c: int)
    requires InBounds(rows, cols, r, c)
    ensures 0.0 <= Centrality(rows, cols, r, c) <= 1.0
  {
    var centerR, centerC := rows as real / 2.0, cols as real / 2.0;
    var dist := Abs(r as real - centerR) + Abs(c as real - centerC);
    var maxDist := centerR + centerC;
    assert 0.0 <= dist <= maxDist;
    DivideAtMostOne(dist, maxDist);
  }

  lemma DivideAtMostOne(x: real, y: real)
    requires 0.0 <= x <= y && y > 0.0
    ensures 0.0 <= x / y <= 1.0
  {
    assert x / y * y == x;
  }

  /** For a start on the grid, the score is two points per intersection plus at most one. */
  lemma CandidateScoreRange(x: Candidate, rows: nat, cols: nat)
    requires InBounds(rows, cols, x.row, x.col)
    ensures 2.0 * x.intersections as real <= CandidateScore(x, rows, cols) <= 2.0 * x.intersections as real + 1.0
    ensures CandidateScore(x, rows, cols) >= 0.0
  {
    CentralityRange(rows, cols, x.row, x.col);
  }

  /**
   * Intersections dominate the candidate score: among starts on the grid,
   * one more intersection outweighs any difference in centrality.
   */
  lemma IntersectionsDominate(x: Candidate, y: Candidate, rows: nat, cols: nat)
    requires InBounds(rows, cols, x.row, x.col) && InBounds(rows, cols, y.row, y.col)
    requires x.intersections > y.intersections
    ensures CandidateScore(x, rows, cols) > CandidateScore(y, rows, cols)
  {
    CentralityRange(rows, cols, x.row, x.col);
    CentralityRange(rows, cols, y.row, y.col);
  }

  /**
   * `max(candidates, key=_score_candidate)`: the index of the first
   * candidate whose score no other candidate exceeds.
   */
  function BestIndex(s: seq<Candidate>, rows: nat, cols: nat): (b: nat)
    requires |s| > 0
    ensures b < |s|
    ensures forall j :: 0 <= j < |s| ==> CandidateScore(s[j], rows, cols) <= CandidateScore(s[b], rows, cols)
    ensures forall j :: 0 <= j < b ==> CandidateScore(s[j], rows, cols) < CandidateScore(s[b], rows, cols)
  {
    if |s| == 1 then 0
    else
      var b := BestIndex(s[..|s| - 1], rows, cols);
      if CandidateScore(s[|s| - 1], rows, cols) > CandidateScore(s[b], rows, cols) then |s| - 1 else b
  }

  /** The committed candidate has the most intersections of all candidates on the grid. */
  lemma BestHasMostIntersections(s: seq<Candidate>, rows: nat, cols: nat)
    requires |s| > 0
    requires forall j :: 0 <= j < |s| ==> InBounds(rows, cols, s[j].row, s[j].col)
    ensures forall j :: 0 <= j < |s| ==> s[j].intersections <= s[BestIndex(s, rows, cols)].intersections
  {
    var b := BestIndex(s, rows, cols);
    forall j | 0 <= j < |s| ensures s[j].intersections <= s[b].intersections {
      if s[j].intersections > s[b].intersections {
        IntersectionsDominate(s[j], s[b], rows, cols);
      }
    }
  }

  function SumIntersections(placed: seq<PlacementRecord>): nat
  {
    if |placed| == 0 then 0 else SumIntersections(placed[..|placed| - 1]) + placed[|placed| - 1].intersections
  }

  function SumLetters(placed: seq<PlacementRecord>): nat
  {
    if |placed| == 0 then 0 else SumLetters(placed[..|placed| - 1]) + |placed[|placed| - 1].word|
  }

  /** Number of letter (non-'#') cells of one grid row. */
  function FilledInRow(row: seq<char>): nat
  {
    if |row| == 0 then 0 else FilledInRow(row[..|row| - 1]) + (if row[|row| - 1] != Blocked then 1 else 0)
  }

  function FilledCells(g: Grid): nat
  {
    if |g| == 0 then 0 else FilledCells(g[..|g| - 1]) + FilledInRow(g[|g| - 1])
  }

  /** Columns as `_score_puzzle` reads them: the length of the first row, 0 for no rows. */
  function Width(g: Grid): nat
  {
    if |g| > 0 then |g[0]| else 0
  }

  /**
   * `_score_puzzle`: half for the share of words placed, three tenths for
   * intersections per letter, a fifth for the share of filled cells; 0 for
   * an empty entry list.
   */
  function PuzzleScore(a: AttemptResult, totalWords: nat): real
  {
    if totalWords == 0 then 0.0
    else
      var placedRatio := |a.placed| as real / totalWords as real;
      var letters := SumLetters(a.placed);
      var density := if letters > 0 then SumIntersections(a.placed) as real / letters as real else 0.0;
      var area := |a.cells| * Width(a.cells);
      var fill := if area > 0 then FilledCells(a.cells) as real / area as real else 0.0;
      0.5 * placedRatio + 0.3 * density + 0.2 * fill
  }

  lemma {:induction false} FilledInRowBound(row: seq<char>)
    ensures FilledInRow(row) <= |row|
  {
    if |row| > 0 {
      FilledInRowBound(row[..|row| - 1]);
    }
  }

  lemma {:induction false} FilledCellsBound(g: Grid, cols: nat)
    requires forall r :: 0 <= r < |g| ==> |g[r]| == cols
    ensures FilledCells(g) <= |g| * cols
  {
    if |g| > 0 {
      FilledCellsBound(g[..|g| - 1], cols);
      FilledInRowBound(g[|g| - 1]);
    }
  }

  lemma {:induction false} SumIntersectionsBound(placed: seq<PlacementRecord>)
    requires forall p :: p in placed ==> p.intersections <= |p.word|
    ensures SumIntersections(placed) <= SumLetters(placed)
  {
    if |placed| > 0 {
      SumIntersectionsBound(placed[..|placed| - 1]);
    }
  }

  /** Every attempt scores at least 0, so the first attempt always beats the initial best of -1. */
  lemma PuzzleScoreNonNegative(a: AttemptResult, totalWords: nat)
    ensures PuzzleScore(a, totalWords) >= 0.0
  {
  }

  /**
   * For a consistent attempt (no more records than words, no record with
   * more intersections than letters, a rectangular grid) the score is at
   * most 1.
   */
  lemma PuzzleScoreAtMostOne(a: AttemptResult, totalWords: nat, rows: nat, cols: nat)
    requires |a.placed| <= totalWords
    requires forall p :: p in a.placed ==> p.intersections <= |p.word|
    requires Shaped(a.cells, rows, cols)
    ensures PuzzleScore(a, totalWords) <= 1.0
  {
    if totalWords > 0 {
      DivideAtMostOne(|a.placed| as real, totalWords as real);
      SumIntersectionsBound(a.placed);
      if SumLetters(a.placed) > 0 {
        DivideAtMostOne(SumIntersections(a.placed) as real, SumLetters(a.placed) as real);
      }
      FilledCellsBound(a.cells, cols);
      if rows > 0 {
        assert Width(a.cells) == cols;
      }
      var area := |a.cells| * Width(a.cells);
      if area > 0 {
        DivideAtMostOne(FilledCells(a.cells) as real, area as real);
      }
    }
  }
}
