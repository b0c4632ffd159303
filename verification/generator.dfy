/**
 * The best-of-N driver `generate_crossword` (src/generator.py): run
 * `max_attempts` attempts, each over its own shuffle of the entries, keep the
 * first attempt whose puzzle score beats every earlier one, and report it
 * with its metadata.
 */
module Generator {
  import opened Wrappers
  import opened Grids
  import opened Puzzles
  import opened Scoring
  import opened Attempts

  /** The seed recorded in the puzzle: the caller's, or the one drawn when none was given. */
  function SeedUsed(seed: Option<int>, drawnSeed: int): int
  {
    if seed.Some? then seed.value else drawnSeed
  }

  /**
   * One shuffle per attempt, as the generator seeded with the run's seed
   * produces them in turn.
   */
  predicate AreShuffles(perms: seq<seq<nat>>, attempts: nat, n: nat)
  {
    |perms| == attempts && forall a :: 0 <= a < attempts ==> IsPermutation(perms[a], n)
  }

  /** The selection state of the attempt loop: `best`, `best_score`, `best_attempt`. */
  datatype Selection = Selection(best: Option<AttemptResult>, bestScore: real, bestAttempt: nat)

  /** The score of attempt a. */
  function AttemptScore(entries: seq<WordEntry>, rows: nat, cols: nat, perms: seq<seq<nat>>, a: nat): real
    requires a < |perms| && IsPermutation(perms[a], |entries|)
  {
    PuzzleScore(Attempt(entries, rows, cols, perms[a]), |entries|)
  }

  /** The selection after attempts 0 .. n-1; a later attempt replaces the best only with a strictly higher score. */
  function SelectUpTo(entries: seq<WordEntry>, rows: nat, cols: nat, perms: seq<seq<nat>>, n: nat): (s: Selection)
    requires n <= |perms| && AreShuffles(perms, |perms|, |entries|)
    ensures n >= 1 ==> s.best.Some? && s.bestScore >= 0.0
  {
    if n == 0 then Selection(None, -1.0, 0)
    else
      var s := SelectUpTo(entries, rows, cols, perms, n - 1);
      var score := AttemptScore(entries, rows, cols, perms, n - 1);
      PuzzleScoreNonNegative(Attempt(entries, rows, cols, perms[n - 1]), |entries|);
      if score > s.bestScore then Selection(Some(Attempt(entries, rows, cols, perms[n - 1])), score, n - 1) else s
  }

  /** The puzzle `generate_crossword` returns (before clue numbering). */
  function GenerateSpec(entries: seq<WordEntry>, rows: nat, cols: nat, seed: Option<int>, drawnSeed: int,
                        maxAttempts: nat, perms: seq<seq<nat>>): Puzzle
    requires maxAttempts >= 1 && AreShuffles(perms, maxAttempts, |entries|)
  {
    var s := SelectUpTo(entries, rows, cols, perms, maxAttempts);
    var best := s.best.value;
    Puzzle(SeedUsed(seed, drawnSeed), rows, cols, best.cells, Placed(best.placed),
           Metadata(|best.placed|, |entries|, s.bestAttempt, maxAttempts, SumIntersections(best.placed), s.bestScore),
           None)
  }

  /**
   * `generate_crossword`. The randomness is supplied: `drawnSeed` is the
   * seed drawn when none is given, `perms[a]` the shuffle of attempt a.
   * At least one attempt is needed; with none there is no best attempt to
   * report.
   */
  method GenerateCrossword(entries: seq<WordEntry>, rows: nat, cols: nat, seed: Option<int>, drawnSeed: int,
                           maxAttempts: nat, perms: seq<seq<nat>>) returns (puzzle: Puzzle)
    requires maxAttempts >= 1 && AreShuffles(perms, maxAttempts, |entries|)
    requires FirstWordLands(entries, rows, cols)
    ensures puzzle == GenerateSpec(entries, rows, cols, seed, drawnSeed, maxAttempts, perms)
  {
    var usedSeed := if seed.Some? then seed.value else drawnSeed;
    var best: Option<AttemptResult> := None;
    var bestScore: real := -1.0;
    var bestAttempt: nat := 0;
    for attempt := 0 to maxAttempts
      invariant Selection(best, bestScore, bestAttempt) == SelectUpTo(entries, rows, cols, perms, attempt)
    {
      var result := RunAttempt(entries, rows, cols, perms[attempt]);
      var score := PuzzleScore(result, |entries|);
      if score > bestScore {
        best := Some(result);
        bestScore := score;
        bestAttempt := attempt;
      }
    }
    var placed := best.value.placed;
    var totalIntersections := SumIntersections(placed);
    puzzle := Puzzle(usedSeed, rows, cols, best.value.cells, Placed(placed),
                     Metadata(|placed|, |entries|, bestAttempt, maxAttempts, totalIntersections, bestScore),
                     None);
  }

  /**
   * The kept attempt is the first one with the highest score: no attempt
   * scores more, and every earlier attempt scores strictly less.
   */
  lemma {:induction false} SelectFirstBest(entries: seq<WordEntry>, rows: nat, cols: nat, perms: seq<seq<nat>>, n: nat)
    requires 1 <= n <= |perms| && AreShuffles(perms, |perms|, |entries|)
    ensures var s := SelectUpTo(entries, rows, cols, perms, n);
      s.bestAttempt < n
      && s.best == Some(Attempt(entries, rows, cols, perms[s.bestAttempt]))
      && s.bestScore == AttemptScore(entries, rows, cols, perms, s.bestAttempt)
      && (forall a :: 0 <= a < n ==> AttemptScore(entries, rows, cols, perms, a) <= s.bestScore)
      && (forall a :: 0 <= a < s.bestAttempt ==> AttemptScore(entries, rows, cols, perms, a) < s.bestScore)
  {
    if n > 1 {
      SelectFirstBest(entries, rows, cols, perms, n - 1);
    }
    PuzzleScoreNonNegative(Attempt(entries, rows, cols, perms[n - 1]), |entries|);
  }

  /**
   * The returned puzzle is the kept attempt's grid and records, with
   * metadata counting its records, the entries, the attempts and the
   * records' intersections.
   */
  lemma GenerateMetadata(entries: seq<WordEntry>, rows: nat, cols: nat, seed: Option<int>, drawnSeed: int,
                         maxAttempts: nat, perms: seq<seq<nat>>)
    requires maxAttempts >= 1 && AreShuffles(perms, maxAttempts, |entries|)
    ensures var p := GenerateSpec(entries, rows, cols, seed, drawnSeed, maxAttempts, perms);
      var m := p.metadata;
      m.bestAttempt < maxAttempts
      && AttemptResult(p.cells, p.entries.placed) == Attempt(entries, rows, cols, perms[m.bestAttempt])
      && m.score == AttemptScore(entries, rows, cols, perms, m.bestAttempt)
      && m.placed == |p.entries.placed| && m.total == |entries| && m.attempts == maxAttempts
      && m.intersections == SumIntersections(p.entries.placed)
      && p.seed == SeedUsed(seed, drawnSeed) && p.rows == rows && p.cols == cols
  {
    SelectFirstBest(entries, rows, cols, perms, maxAttempts);
  }

  /**
   * For proper words the returned puzzle is well formed and places at most
   * every entry, and its score lies between 0 and 1.
   */
  lemma GenerateWellFormed(entries: seq<WordEntry>, rows: nat, cols: nat, seed: Option<int>, drawnSeed: int,
                           maxAttempts: nat, perms: seq<seq<nat>>)
    requires maxAttempts >= 1 && AreShuffles(perms, maxAttempts, |entries|)
    requires FirstWordLands(entries, rows, cols) && forall e :: e in entries ==> IsWord(e.word)
    ensures var p := GenerateSpec(entries, rows, cols, seed, drawnSeed, maxAttempts, perms);
      WellFormed(rows, cols, AttemptResult(p.cells, p.entries.placed))
      && p.metadata.placed <= p.metadata.total
      && 0.0 <= p.metadata.score <= 1.0
  {
    GenerateMetadata(entries, rows, cols, seed, drawnSeed, maxAttempts, perms);
    var p := GenerateSpec(entries, rows, cols, seed, drawnSeed, maxAttempts, perms);
    var perm := perms[p.metadata.bestAttempt];
    AttemptScoreInRange(entries, rows, cols, perm);
    AttemptIsWellFormed(entries, rows, cols, perm);
  }
}
