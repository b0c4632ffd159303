/**
 * The candidate finder `_find_candidates` (src/generator.py): for each
 * direction, each letter position of the word and each grid cell holding
 * that letter, derive the start that would put the letter there, validate
 * it, then drop later finds of an already seen (row, col, direction).
 */
module CandidateFinder {
  import opened Wrappers
  import opened Grids
  import opened Puzzles
  import opened Placement

  /** A validated, not yet committed placement option. */
  datatype Candidate = Candidate(row: int, col: int, dir: Direction, intersections: nat)

  function CandidateKey(c: Candidate): StartKey
  {
    (c.row, c.col, c.dir)
  }

  /** The find (if any) from anchoring word[idx] on cell (r, c). */
  function Probe(g: Grid, rows: nat, cols: nat, word: string, d: Direction, idx: nat, r: nat, c: nat): seq<Candidate>
    requires Shaped(g, rows, cols) && idx < |word| && r < rows && c < cols
  {
    if g[r][c] != word[idx] then []
    else
      var sr, sc := SpanRow(r, d, -(idx as int)), SpanCol(c, d, -(idx as int));
      match Validate(g, rows, cols, word, sr, sc, d)
      case None => []
      case Some(n) => [Candidate(sr, sc, d, n)]
  }

  /** Finds from columns 0 .. n-1 of row r. */
  function ScanRow(g: Grid, rows: nat, cols: nat, word: string, d: Direction, idx: nat, r: nat, n: nat): seq<Candidate>
    requires Shaped(g, rows, cols) && idx < |word| && r < rows && n <= cols
  {
    if n == 0 then [] else ScanRow(g, rows, cols, word, d, idx, r, n - 1) + Probe(g, rows, cols, word, d, idx, r, n - 1)
  }

  /** Finds from rows 0 .. n-1, row-major. */
  function ScanRows(g: Grid, rows: nat, cols: nat, word: string, d: Direction, idx: nat, n: nat): seq<Candidate>
    requires Shaped(g, rows, cols) && idx < |word| && n <= rows
  {
    if n == 0 then [] else ScanRows(g, rows, cols, word, d, idx, n - 1) + ScanRow(g, rows, cols, word, d, idx, n - 1, cols)
  }

  /** Finds from letter positions 0 .. n-1 of the word, in direction d. */
  function ScanLetters(g: Grid, rows: nat, cols: nat, word: string, d: Direction, n: nat): seq<Candidate>
    requires Shaped(g, rows, cols) && n <= |word|
  {
    if n == 0 then [] else ScanLetters(g, rows, cols, word, d, n - 1) + ScanRows(g, rows, cols, word, d, n - 1, rows)
  }

  /** The directions in the order the finder tries them. */
  const Directions: seq<Direction> := [Across, Down]

  /** Finds from the first n directions. */
  function ScanDirections(g: Grid, rows: nat, cols: nat, word: string, n: nat): seq<Candidate>
    requires Shaped(g, rows, cols) && n <= |Directions|
  {
    if n == 0 then [] else ScanDirections(g, rows, cols, word, n - 1) + ScanLetters(g, rows, cols, word, Directions[n - 1], |word|)
  }

  /** Every find in discovery order: all across finds, then all down finds. */
  function RawCandidates(g: Grid, rows: nat, cols: nat, word: string): seq<Candidate>
    requires Shaped(g, rows, cols)
  {
    ScanDirections(g, rows, cols, word, |Directions|)
  }

  function Keys(s: seq<Candidate>): set<StartKey>
  {
    set i | 0 <= i < |s| :: CandidateKey(s[i])
  }

  /** Keeps the first candidate of every key, in order. */
  function Dedupe(s: seq<Candidate>): seq<Candidate>
  {
    if |s| == 0 then []
    else
      var p, x := s[..|s| - 1], s[|s| - 1];
      if CandidateKey(x) in Keys(p) then Dedupe(p) else Dedupe(p) + [x]
  }

  /** The positions in `s` of the candidates `Dedupe` keeps. */
  function DedupeIndices(s: seq<Candidate>): seq<nat>
  {
    if |s| == 0 then []
    else
      var p, x := s[..|s| - 1], s[|s| - 1];
      if CandidateKey(x) in Keys(p) then DedupeIndices(p) else DedupeIndices(p) + [|s| - 1]
  }

  /** The list `_find_candidates` returns. */
  function Candidates(g: Grid, rows: nat, cols: nat, word: string): seq<Candidate>
    requires Shaped(g, rows, cols)
  {
    Dedupe(RawCandidates(g, rows, cols, word))
  }

  /** `_find_candidates` */
  method FindCandidates(grid: array2<char>, word: string, rows: nat, cols: nat) returns (unique: seq<Candidate>)
    requires grid.Length0 == rows && grid.Length1 == cols
    ensures unique == Candidates(Snapshot(grid), rows, cols, word)
  {
    ghost var g := Snapshot(grid);
    var candidates: seq<Candidate> := [];
    for k := 0 to |Directions|
      invariant candidates == ScanDirections(g, rows, cols, word, k)
    {
      var found := AnchorWord(grid, word, Directions[k], rows, cols);
      candidates := candidates + found;
    }
    // Deduplicate
    unique := Deduplicate(candidates);
  }

  /** The finds of one direction: every letter position of the word in turn. */
  method AnchorWord(grid: array2<char>, word: string, d: Direction, rows: nat, cols: nat)
    returns (found: seq<Candidate>)
    requires grid.Length0 == rows && grid.Length1 == cols
    ensures found == ScanLetters(Snapshot(grid), rows, cols, word, d, |word|)
  {
    ghost var g := Snapshot(grid);
    found := [];
    for idx := 0 to |word|
      invariant found == ScanLetters(g, rows, cols, word, d, idx)
    {
      var atLetter := AnchorLetter(grid, word, d, idx, rows, cols);
      found := found + atLetter;
    }
  }

  /** The finds of one letter position: every grid cell holding word[idx], row-major. */
  method AnchorLetter(grid: array2<char>, word: string, d: Direction, idx: nat, rows: nat, cols: nat)
    returns (found: seq<Candidate>)
    requires grid.Length0 == rows && grid.Length1 == cols && idx < |word|
    ensures found == ScanRows(Snapshot(grid), rows, cols, word, d, idx, rows)
  {
    ghost var g := Snapshot(grid);
    found := [];
    for r := 0 to rows
      invariant found == ScanRows(g, rows, cols, word, d, idx, r)
    {
      var inRow := AnchorRow(grid, word, d, idx, r, rows, cols);
      found := found + inRow;
    }
  }

  /** The finds of one letter position in row r, left to right. */
  method AnchorRow(grid: array2<char>, word: string, d: Direction, idx: nat, r: nat, rows: nat, cols: nat)
    returns (found: seq<Candidate>)
    requires grid.Length0 == rows && grid.Length1 == cols && idx < |word| && r < rows
    ensures found == ScanRow(Snapshot(grid), rows, cols, word, d, idx, r, cols)
  {
    ghost var g := Snapshot(grid);
    found := [];
    for c := 0 to cols
      invariant found == ScanRow(g, rows, cols, word, d, idx, r, c)
    {
      var probe := ProbeCell(grid, word, d, idx, r, c, rows, cols);
      found := found + probe;
    }
  }

  /** One cell of the scan: if it holds word[idx], validate the start that puts word[idx] there. */
  method ProbeCell(grid: array2<char>, word: string, d: Direction, idx: nat, r: nat, c: nat, rows: nat, cols: nat)
    returns (probe: seq<Candidate>)
    requires grid.Length0 == rows && grid.Length1 == cols && idx < |word| && r < rows && c < cols
    ensures probe == Probe(Snapshot(grid), rows, cols, word, d, idx, r, c)
  {
    if grid[r, c] != word[idx] {
      return [];
    }
    // Starting position if word[idx] lands on (r, c)
    var sr, sc := SpanRow(r, d, -(idx as int)), SpanCol(c, d, -(idx as int));
    var result := ValidatePlacement(grid, word, sr, sc, d, rows, cols);
    probe := if result.Some? then [Candidate(sr, sc, d, result.value)] else [];
  }

  /** The de-duplication pass at the end of `_find_candidates`: first candidate per key wins. */
  method Deduplicate(candidates: seq<Candidate>) returns (unique: seq<Candidate>)
    ensures unique == Dedupe(candidates)
  {
    var seen: set<StartKey> := {};
    unique := [];
    for i := 0 to |candidates|
      invariant seen == Keys(candidates[..i])
      invariant unique == Dedupe(candidates[..i])
    {
      var cand := candidates[i];
      var key := CandidateKey(cand);
      assert candidates[..i + 1][..i] == candidates[..i];
      assert Keys(candidates[..i + 1]) == Keys(candidates[..i]) + {key} by {
        KeysSnoc(candidates[..i], cand);
        assert candidates[..i + 1] == candidates[..i] + [cand];
      }
      if key !in seen {
        seen := seen + {key};
        unique := unique + [cand];
      }
    }
    assert candidates[..|candidates|] == candidates;
  }

  lemma KeysSnoc(s: seq<Candidate>, x: Candidate)
    ensures Keys(s + [x]) == Keys(s) + {CandidateKey(x)}
  {
    var t := s + [x];
    forall k | k in Keys(t) ensures k in Keys(s) + {CandidateKey(x)} {
      var i :| 0 <= i < |t| && CandidateKey(t[i]) == k;
      if i < |s| { assert t[i] == s[i]; }
    }
    forall k | k in Keys(s) ensures k in Keys(t) {
      var i :| 0 <= i < |s| && CandidateKey(s[i]) == k;
      assert t[i] == s[i];
    }
    assert CandidateKey(t[|s|]) == CandidateKey(x);
  }

  /* ---- De-duplication ---- */

  /** De-duplication only drops candidates: everything it keeps was found. */
  lemma {:induction false} DedupeSubset(s: seq<Candidate>)
    ensures forall x :: x in Dedupe(s) ==> x in s
  {
    if |s| > 0 {
      var p := s[..|s| - 1];
      DedupeSubset(p);
      assert s == p + [s[|s| - 1]];
    }
  }

  /** De-duplication loses no start: the kept keys are exactly the found keys. */
  /**
   * De-duplication keeps discovery order: the kept list is a subsequence of
   * the found list, taken at strictly increasing positions. This order is
   * the one in which `max` breaks ties.
   */
  lemma {:induction false} DedupeInOrder(s: seq<Candidate>)
    ensures |DedupeIndices(s)| == |Dedupe(s)|
    ensures forall k :: 0 <= k < |Dedupe(s)| ==> DedupeIndices(s)[k] < |s| && Dedupe(s)[k] == s[DedupeIndices(s)[k]]
    ensures forall k, l :: 0 <= k < l < |Dedupe(s)| ==> DedupeIndices(s)[k] < DedupeIndices(s)[l]
  {
    if |s| > 0 {
      var p := s[..|s| - 1];
      DedupeInOrder(p);
      assert forall i :: 0 <= i < |p| ==> p[i] == s[i];
    }
  }

  lemma {:induction false} DedupeKeys(s: seq<Candidate>)
    ensures Keys(Dedupe(s)) == Keys(s)
  {
    if |s| > 0 {
      var p, x := s[..|s| - 1], s[|s| - 1];
      DedupeKeys(p);
      assert s == p + [x];
      KeysSnoc(p, x);
      if CandidateKey(x) !in Keys(p) {
        KeysSnoc(Dedupe(p), x);
      }
    }
  }

  /** No two kept candidates share a (row, col, direction). */
  lemma {:induction false} DedupeDistinct(s: seq<Candidate>)
    ensures forall i, j :: 0 <= i < j < |Dedupe(s)| ==> CandidateKey(Dedupe(s)[i]) != CandidateKey(Dedupe(s)[j])
  {
    if |s| > 0 {
      var p, x := s[..|s| - 1], s[|s| - 1];
      DedupeDistinct(p);
      if CandidateKey(x) !in Keys(p) {
        DedupeKeys(p);
        var u := Dedupe(p);
        forall i | 0 <= i < |u| ensures CandidateKey(u[i]) != CandidateKey(x) {
          assert CandidateKey(u[i]) in Keys(u);
        }
      }
    }
  }

  /** The first candidate found for each key is the one kept. */
  lemma {:induction false} DedupeKeepsFirst(s: seq<Candidate>)
    ensures forall i :: 0 <= i < |s| && CandidateKey(s[i]) !in Keys(s[..i]) ==> s[i] in Dedupe(s)
  {
    if |s| > 0 {
      var p, x := s[..|s| - 1], s[|s| - 1];
      DedupeKeepsFirst(p);
      forall i | 0 <= i < |s| && CandidateKey(s[i]) !in Keys(s[..i]) ensures s[i] in Dedupe(s) {
        if i < |p| {
          assert s[..i] == p[..i];
          assert s[i] == p[i];
          assert p[i] in Dedupe(p);
        } else {
          assert s[..i] == p;
        }
      }
    }
  }

  /* ---- Soundness: every candidate is a placement the validator accepts ---- */

  /**
   * A candidate the validator accepts with exactly its recorded intersection
   * count; for a word without '#' that count is at least one, since the
   * candidate was found through a grid letter equal to one of the word's.
   */
  predicate Accepted(g: Grid, rows: nat, cols: nat, word: string, x: Candidate)
    requires Shaped(g, rows, cols)
  {
    Validate(g, rows, cols, word, x.row, x.col, x.dir) == Some(x.intersections)
    && (NoBlocked(word) ==> x.intersections >= 1)
  }

  predicate AllAccepted(g: Grid, rows: nat, cols: nat, word: string, s: seq<Candidate>)
    requires Shaped(g, rows, cols)
  {
    forall x :: x in s ==> Accepted(g, rows, cols, word, x)
  }

  /** A span cell holding the word's letter makes the match count positive. */
  lemma {:induction false} MatchCountPositive(g: Grid, rows: nat, cols: nat, word: string, row: int, col: int, d: Direction, n: nat, i: nat)
    requires Shaped(g, rows, cols) && Fits(rows, cols, |word|, row, col, d) && i < n <= |word|
    requires SpanCell(g, rows, cols, word, row, col, d, i) != Blocked
    requires SpanCell(g, rows, cols, word, row, col, d, i) == word[i]
    ensures MatchCount(g, rows, cols, word, row, col, d, n) >= 1
  {
    if i < n - 1 {
      MatchCountPositive(g, rows, cols, word, row, col, d, n - 1, i);
    }
  }

  /** A positive match count has a witness: a span cell already holding its letter. */
  lemma {:induction false} MatchWitness(g: Grid, rows: nat, cols: nat, word: string, row: int, col: int, d: Direction, n: nat)
    returns (i: nat)
    requires Shaped(g, rows, cols) && Fits(rows, cols, |word|, row, col, d) && n <= |word|
    requires MatchCount(g, rows, cols, word, row, col, d, n) >= 1
    ensures i < n
    ensures SpanCell(g, rows, cols, word, row, col, d, i) != Blocked
    ensures SpanCell(g, rows, cols, word, row, col, d, i) == word[i]
  {
    var ch := SpanCell(g, rows, cols, word, row, col, d, n - 1);
    if ch != Blocked && ch == word[n - 1] {
      i := n - 1;
    } else {
      i := MatchWitness(g, rows, cols, word, row, col, d, n - 1);
    }
  }

  lemma ProbeAccepted(g: Grid, rows: nat, cols: nat, word: string, d: Direction, idx: nat, r: nat, c: nat)
    requires Shaped(g, rows, cols) && idx < |word| && r < rows && c < cols
    ensures AllAccepted(g, rows, cols, word, Probe(g, rows, cols, word, d, idx, r, c))
  {
    var sr, sc := SpanRow(r, d, -(idx as int)), SpanCol(c, d, -(idx as int));
    if g[r][c] == word[idx] && Validate(g, rows, cols, word, sr, sc, d).Some? && NoBlocked(word) {
      assert SpanRow(sr, d, idx) == r && SpanCol(sc, d, idx) == c;
      MatchCountPositive(g, rows, cols, word, sr, sc, d, |word|, idx);
    }
  }

  lemma AcceptedConcat(g: Grid, rows: nat, cols: nat, word: string, s: seq<Candidate>, t: seq<Candidate>)
    requires Shaped(g, rows, cols)
    requires AllAccepted(g, rows, cols, word, s) && AllAccepted(g, rows, cols, word, t)
    ensures AllAccepted(g, rows, cols, word, s + t)
  {
    forall x | x in s + t ensures Accepted(g, rows, cols, word, x) {
      assert x in s || x in t;
    }
  }

  lemma {:induction false} ScanRowAccepted(g: Grid, rows: nat, cols: nat, word: string, d: Direction, idx: nat, r: nat, n: nat)
    requires Shaped(g, rows, cols) && idx < |word| && r < rows && n <= cols
    ensures AllAccepted(g, rows, cols, word, ScanRow(g, rows, cols, word, d, idx, r, n))
  {
    if n > 0 {
      var s, t := ScanRow(g, rows, cols, word, d, idx, r, n - 1), Probe(g, rows, cols, word, d, idx, r, n - 1);
      assert ScanRow(g, rows, cols, word, d, idx, r, n) == s + t;
      ScanRowAccepted(g, rows, cols, word, d, idx, r, n - 1);
      ProbeAccepted(g, rows, cols, word, d, idx, r, n - 1);
      AcceptedConcat(g, rows, cols, word, s, t);
    }
  }

  lemma {:induction false} ScanRowsAccepted(g: Grid, rows: nat, cols: nat, word: string, d: Direction, idx: nat, n: nat)
    requires Shaped(g, rows, cols) && idx < |word| && n <= rows
    ensures AllAccepted(g, rows, cols, word, ScanRows(g, rows, cols, word, d, idx, n))
  {
    if n > 0 {
      var s, t := ScanRows(g, rows, cols, word, d, idx, n - 1), ScanRow(g, rows, cols, word, d, idx, n - 1, cols);
      assert ScanRows(g, rows, cols, word, d, idx, n) == s + t;
      ScanRowsAccepted(g, rows, cols, word, d, idx, n - 1);
      ScanRowAccepted(g, rows, cols, word, d, idx, n - 1, cols);
      AcceptedConcat(g, rows, cols, word, s, t);
    }
  }

  lemma {:induction false} ScanLettersAccepted(g: Grid, rows: nat, cols: nat, word: string, d: Direction, n: nat)
    requires Shaped(g, rows, cols) && n <= |word|
    ensures AllAccepted(g, rows, cols, word, ScanLetters(g, rows, cols, word, d, n))
  {
    if n > 0 {
      var s, t := ScanLetters(g, rows, cols, word, d, n - 1), ScanRows(g, rows, cols, word, d, n - 1, rows);
      assert ScanLetters(g, rows, cols, word, d, n) == s + t;
      ScanLettersAccepted(g, rows, cols, word, d, n - 1);
      ScanRowsAccepted(g, rows, cols, word, d, n - 1, rows);
      AcceptedConcat(g, rows, cols, word, s, t);
    }
  }

  lemma {:induction false} ScanDirectionsAccepted(g: Grid, rows: nat, cols: nat, word: string, n: nat)
    requires Shaped(g, rows, cols) && n <= |Directions|
    ensures AllAccepted(g, rows, cols, word, ScanDirections(g, rows, cols, word, n))
  {
    if n > 0 {
      var s, t := ScanDirections(g, rows, cols, word, n - 1), ScanLetters(g, rows, cols, word, Directions[n - 1], |word|);
      assert ScanDirections(g, rows, cols, word, n) == s + t;
      ScanDirectionsAccepted(g, rows, cols, word, n - 1);
      ScanLettersAccepted(g, rows, cols, word, Directions[n - 1], |word|);
      AcceptedConcat(g, rows, cols, word, s, t);
    }
  }

  /**
   * Soundness of `_find_candidates`: every returned candidate passes the
   * validator with exactly its recorded intersection count (at least one
   * for a proper word), and no two share a start and direction.
   */
  lemma CandidatesSound(g: Grid, rows: nat, cols: nat, word: string)
    requires Shaped(g, rows, cols)
    ensures AllAccepted(g, rows, cols, word, Candidates(g, rows, cols, word))
    ensures forall i, j :: 0 <= i < j < |Candidates(g, rows, cols, word)| ==>
      CandidateKey(Candidates(g, rows, cols, word)[i]) != CandidateKey(Candidates(g, rows, cols, word)[j])
  {
    ScanDirectionsAccepted(g, rows, cols, word, |Directions|);
    DedupeSubset(RawCandidates(g, rows, cols, word));
    DedupeDistinct(RawCandidates(g, rows, cols, word));
  }

  /* ---- Completeness: every accepted placement through a grid letter is found ---- */

  lemma {:induction false} ScanRowHas(g: Grid, rows: nat, cols: nat, word: string, d: Direction, idx: nat, r: nat, c: nat, n: nat, x: Candidate)
    requires Shaped(g, rows, cols) && idx < |word| && r < rows && c < n <= cols
    requires x in Probe(g, rows, cols, word, d, idx, r, c)
    ensures x in ScanRow(g, rows, cols, word, d, idx, r, n)
  {
    var s, t := ScanRow(g, rows, cols, word, d, idx, r, n - 1), Probe(g, rows, cols, word, d, idx, r, n - 1);
    assert ScanRow(g, rows, cols, word, d, idx, r, n) == s + t;
    if c < n - 1 {
      ScanRowHas(g, rows, cols, word, d, idx, r, c, n - 1, x);
    }
  }

  lemma {:induction false} ScanRowsHas(g: Grid, rows: nat, cols: nat, word: string, d: Direction, idx: nat, r: nat, n: nat, x: Candidate)
    requires Shaped(g, rows, cols) && idx < |word| && r < n <= rows
    requires x in ScanRow(g, rows, cols, word, d, idx, r, cols)
    ensures x in ScanRows(g, rows, cols, word, d, idx, n)
  {
    var s, t := ScanRows(g, rows, cols, word, d, idx, n - 1), ScanRow(g, rows, cols, word, d, idx, n - 1, cols);
    assert ScanRows(g, rows, cols, word, d, idx, n) == s + t;
    if r < n - 1 {
      ScanRowsHas(g, rows, cols, word, d, idx, r, n - 1, x);
    }
  }

  lemma {:induction false} ScanLettersHas(g: Grid, rows: nat, cols: nat, word: string, d: Direction, idx: nat, n: nat, x: Candidate)
    requires Shaped(g, rows, cols) && idx < n <= |word|
    requires x in ScanRows(g, rows, cols, word, d, idx, rows)
    ensures x in ScanLetters(g, rows, cols, word, d, n)
  {
    var s, t := ScanLetters(g, rows, cols, word, d, n - 1), ScanRows(g, rows, cols, word, d, n - 1, rows);
    assert ScanLetters(g, rows, cols, word, d, n) == s + t;
    if idx < n - 1 {
      ScanLettersHas(g, rows, cols, word, d, idx, n - 1, x);
    }
  }

  lemma {:induction false} ScanDirectionsHas(g: Grid, rows: nat, cols: nat, word: string, k: nat, n: nat, x: Candidate)
    requires Shaped(g, rows, cols) && k < n <= |Directions|
    requires x in ScanLetters(g, rows, cols, word, Directions[k], |word|)
    ensures x in ScanDirections(g, rows, cols, word, n)
  {
    var s, t := ScanDirections(g, rows, cols, word, n - 1), ScanLetters(g, rows, cols, word, Directions[n - 1], |word|);
    assert ScanDirections(g, rows, cols, word, n) == s + t;
    if k < n - 1 {
      ScanDirectionsHas(g, rows, cols, word, k, n - 1, x);
    }
  }

  /** An accepted placement anchored through its idx-th letter is among the raw finds. */
  lemma RawHas(g: Grid, rows: nat, cols: nat, word: string, row: int, col: int, d: Direction, n: nat, idx: nat)
    requires Shaped(g, rows, cols)
    requires Validate(g, rows, cols, word, row, col, d) == Some(n)
    requires Fits(rows, cols, |word|, row, col, d) && idx < |word|
    requires SpanCell(g, rows, cols, word, row, col, d, idx) == word[idx]
    ensures Candidate(row, col, d, n) in RawCandidates(g, rows, cols, word)
  {
    var x := Candidate(row, col, d, n);
    var r, c := SpanRow(row, d, idx), SpanCol(col, d, idx);
    FitsInBounds(rows, cols, |word|, row, col, d, idx);
    assert SpanRow(r, d, -(idx as int)) == row && SpanCol(c, d, -(idx as int)) == col;
    assert Probe(g, rows, cols, word, d, idx, r, c) == [x];
    ScanRowHas(g, rows, cols, word, d, idx, r, c, cols, x);
    ScanRowsHas(g, rows, cols, word, d, idx, r, rows, x);
    ScanLettersHas(g, rows, cols, word, d, idx, |word|, x);
    var k := if d == Across then 0 else 1;
    ScanDirectionsHas(g, rows, cols, word, k, |Directions|, x);
  }

  /**
   * Completeness of `_find_candidates`: every placement the validator
   * accepts with at least one intersection is among the candidates, with its
   * intersection count.
   */
  lemma CandidatesComplete(g: Grid, rows: nat, cols: nat, word: string, row: int, col: int, d: Direction, n: nat)
    requires Shaped(g, rows, cols)
    requires Validate(g, rows, cols, word, row, col, d) == Some(n) && n >= 1
    ensures Candidate(row, col, d, n) in Candidates(g, rows, cols, word)
  {
    var x := Candidate(row, col, d, n);
    var idx := MatchWitness(g, rows, cols, word, row, col, d, |word|);
    RawHas(g, rows, cols, word, row, col, d, n, idx);
    var raw := RawCandidates(g, rows, cols, word);
    assert CandidateKey(x) in Keys(raw) by {
      var j :| 0 <= j < |raw| && raw[j] == x;
    }
    DedupeKeys(raw);
    var u := Candidates(g, rows, cols, word);
    var j :| 0 <= j < |u| && CandidateKey(u[j]) == CandidateKey(x);
    CandidatesSound(g, rows, cols, word);
    assert Accepted(g, rows, cols, word, u[j]);
  }

  /** On a grid with no letters a proper word has no candidate. */
  lemma NoCandidatesOnEmptyGrid(rows: nat, cols: nat, word: string)
    requires NoBlocked(word)
    ensures Candidates(EmptyGrid(rows, cols), rows, cols, word) == []
  {
    var g := EmptyGrid(rows, cols);
    var u := Candidates(g, rows, cols, word);
    if |u| > 0 {
      CandidatesSound(g, rows, cols, word);
      var x := u[0];
      assert Accepted(g, rows, cols, word, x);
      ValidateCounts(g, rows, cols, word, x.row, x.col, x.dir);
      var i := MatchWitness(g, rows, cols, word, x.row, x.col, x.dir, |word|);
      FitsInBounds(rows, cols, |word|, x.row, x.col, x.dir, i);
      assert false;
    }
  }
}
