/**
 * The prototype selector `run_prototype` (src/prototype.py): every
 * combination of the slots' alternative words, in `itertools.product` order,
 * is either skipped (a word repeats) or handed to `generate_crossword` with
 * the slots' hints, the same seed and the same attempt budget; the first
 * combination whose puzzle score beats every earlier one wins and gets the
 * selection bookkeeping attached.
 */
module Prototype {
  import opened Wrappers
  import opened Puzzles
  import opened Attempts
  import opened Generator
  import opened Combinations

  /** A slot: interchangeable words sharing one hint. */
  datatype Slot = Slot(words: seq<string>, hint: string)

  /** Why no puzzle comes out: every combination repeats a word, so nothing was evaluated. */
  datatype PrototypeError = EmptySelection

  /** `alternatives`: each slot's word list, in slot order. */
  function Alternatives(slots: seq<Slot>): (alts: seq<seq<string>>)
    ensures |alts| == |slots| && forall j :: 0 <= j < |slots| ==> alts[j] == slots[j].words
  {
    seq(|slots|, j requires 0 <= j < |slots| => slots[j].words)
  }

  /** The combinations in the order they are visited. */
  function Combos(slots: seq<Slot>): seq<seq<string>>
  {
    Product(Alternatives(slots))
  }

  /** `zip(combo, hints)`: word j of the combination with the hint of slot j. */
  function ComboEntries(combo: seq<string>, slots: seq<Slot>): (entries: seq<WordEntry>)
    ensures |entries| == if |combo| < |slots| then |combo| else |slots|
    ensures forall j :: 0 <= j < |entries| ==> entries[j] == WordEntry(combo[j], slots[j].hint)
  {
    var n := if |combo| < |slots| then |combo| else |slots|;
    seq(n, j requires 0 <= j < n => WordEntry(combo[j], slots[j].hint))
  }

  /**
   * The randomness the selector consumes, supplied from outside: for
   * combination i, `drawnSeeds[i]` is the seed `generate_crossword` draws
   * when none is given and `perms[i]` its shuffles, one per attempt.
   */
  predicate Supplied(slots: seq<Slot>, maxAttempts: nat, drawnSeeds: seq<int>, perms: seq<seq<seq<nat>>>)
  {
    maxAttempts >= 1
    && |drawnSeeds| == |perms| == |Combos(slots)|
    && forall i :: 0 <= i < |perms| ==> AreShuffles(perms[i], maxAttempts, |slots|)
  }

  /** A combination picks one word per slot. */
  lemma ComboShape(slots: seq<Slot>, i: nat)
    requires i < |Combos(slots)|
    ensures |Combos(slots)[i]| == |slots|
    ensures |ComboEntries(Combos(slots)[i], slots)| == |slots|
    ensures forall j :: 0 <= j < |slots| ==> Combos(slots)[i][j] in slots[j].words
  {
    ProductMembers(Alternatives(slots), Combos(slots)[i]);
  }

  /** The puzzle `generate_crossword` returns for combination i. */
  function ComboPuzzle(slots: seq<Slot>, rows: nat, cols: nat, seed: Option<int>, drawnSeeds: seq<int>,
                       maxAttempts: nat, perms: seq<seq<seq<nat>>>, i: nat): Puzzle
    requires Supplied(slots, maxAttempts, drawnSeeds, perms) && i < |Combos(slots)|
  {
    ComboShape(slots, i);
    GenerateSpec(ComboEntries(Combos(slots)[i], slots), rows, cols, seed, drawnSeeds[i], maxAttempts, perms[i])
  }

  /** What visiting combination i yields: nothing when a word repeats, else its puzzle. */
  function Outcome(slots: seq<Slot>, rows: nat, cols: nat, seed: Option<int>, drawnSeeds: seq<int>,
                   maxAttempts: nat, perms: seq<seq<seq<nat>>>, i: nat): Option<Puzzle>
    requires Supplied(slots, maxAttempts, drawnSeeds, perms) && i < |Combos(slots)|
  {
    if HasDuplicate(Combos(slots)[i]) then None
    else Some(ComboPuzzle(slots, rows, cols, seed, drawnSeeds, maxAttempts, perms, i))
  }

  /** The outcomes of all combinations, in visiting order. */
  function Outcomes(slots: seq<Slot>, rows: nat, cols: nat, seed: Option<int>, drawnSeeds: seq<int>,
                    maxAttempts: nat, perms: seq<seq<seq<nat>>>): (outs: seq<Option<Puzzle>>)
    requires Supplied(slots, maxAttempts, drawnSeeds, perms)
    ensures |outs| == |Combos(slots)|
    ensures forall i :: 0 <= i < |outs| ==> outs[i] == Outcome(slots, rows, cols, seed, drawnSeeds, maxAttempts, perms, i)
  {
    seq(|Combos(slots)|, i requires 0 <= i < |Combos(slots)| =>
          Outcome(slots, rows, cols, seed, drawnSeeds, maxAttempts, perms, i))
  }

  /* ---- The selection loop ---- */

  /** The loop's state: the best puzzle so far with its score, index and combination, and the two counters. */
  datatype Search = Search(best: Option<Puzzle>, bestScore: real, bestIndex: nat, bestCombo: seq<string>,
                           evaluated: nat, skipped: nat)

  /** One combination: count a skip, or count an evaluation and keep the puzzle if it beats the best score. */
  function Visit(s: Search, i: nat, combo: seq<string>, outcome: Option<Puzzle>): Search
  {
    match outcome
    case None => s.(skipped := s.skipped + 1)
    case Some(p) =>
      if p.metadata.score > s.bestScore then Search(Some(p), p.metadata.score, i, combo, s.evaluated + 1, s.skipped)
      else s.(evaluated := s.evaluated + 1)
  }

  /** The state after the first n combinations. */
  function SearchOver(combos: seq<seq<string>>, outs: seq<Option<Puzzle>>, n: nat): Search
    requires n <= |combos| && n <= |outs|
  {
    if n == 0 then Search(None, -1.0, 0, [], 0, 0)
    else Visit(SearchOver(combos, outs, n - 1), n - 1, combos[n - 1], outs[n - 1])
  }

  /** The score of an evaluated combination. */
  function ScoreOf(out: Option<Puzzle>): real
  {
    if out.Some? then out.value.metadata.score else -1.0
  }

  /** Every reported score is at least 0. */
  predicate ScoresNonNegative(outs: seq<Option<Puzzle>>)
  {
    forall i :: 0 <= i < |outs| && outs[i].Some? ==> outs[i].value.metadata.score >= 0.0
  }

  /** After n combinations every one was either evaluated or skipped, and a puzzle is kept iff one was evaluated. */
  lemma {:induction false} SearchCounts(combos: seq<seq<string>>, outs: seq<Option<Puzzle>>, n: nat)
    requires n <= |combos| && n <= |outs| && ScoresNonNegative(outs)
    ensures var s := SearchOver(combos, outs, n);
            && s.evaluated + s.skipped == n
            && (s.best.Some? <==> s.evaluated > 0)
            && (s.evaluated > 0 <==> exists i :: 0 <= i < n && outs[i].Some?)
            && (s.best.None? ==> s.bestScore == -1.0)
  {
    if n > 0 {
      SearchCounts(combos, outs, n - 1);
    }
  }

  /**
   * The kept puzzle is that of the first evaluated combination whose score
   * beats all earlier ones and is not beaten by any later one.
   */
  lemma {:induction false} SearchFirstBest(combos: seq<seq<string>>, outs: seq<Option<Puzzle>>, n: nat)
    requires n <= |combos| && n <= |outs| && ScoresNonNegative(outs)
    ensures var s := SearchOver(combos, outs, n);
            s.best.Some? ==>
              && s.bestIndex < n
              && s.bestCombo == combos[s.bestIndex]
              && s.best == outs[s.bestIndex]
              && s.bestScore == ScoreOf(outs[s.bestIndex])
              && (forall i :: 0 <= i < n ==> ScoreOf(outs[i]) <= s.bestScore)
              && (forall i :: 0 <= i < s.bestIndex ==> ScoreOf(outs[i]) < s.bestScore)
  {
    if n > 0 {
      SearchFirstBest(combos, outs, n - 1);
      SearchCounts(combos, outs, n - 1);
    }
  }

  /* ---- The selector ---- */

  /** `selected_words`: per slot, the winning word, the slot's alternatives and its hint. */
  function SelectedWords(slots: seq<Slot>, combo: seq<string>): seq<SelectedWord>
    requires |combo| >= |slots|
  {
    seq(|slots|, j requires 0 <= j < |slots| => SelectedWord(combo[j], slots[j].words, slots[j].hint))
  }

  /** Reported scores are never negative, so the first evaluated combination always becomes the best so far. */
  lemma OutcomesNonNegative(slots: seq<Slot>, rows: nat, cols: nat, seed: Option<int>, drawnSeeds: seq<int>,
                            maxAttempts: nat, perms: seq<seq<seq<nat>>>)
    requires Supplied(slots, maxAttempts, drawnSeeds, perms)
    ensures ScoresNonNegative(Outcomes(slots, rows, cols, seed, drawnSeeds, maxAttempts, perms))
  {
    var outs := Outcomes(slots, rows, cols, seed, drawnSeeds, maxAttempts, perms);
    forall i | 0 <= i < |outs| && outs[i].Some? ensures outs[i].value.metadata.score >= 0.0 {
      ComboShape(slots, i);
    }
  }

  /** The final search state. */
  function FinalSearch(slots: seq<Slot>, rows: nat, cols: nat, seed: Option<int>, drawnSeeds: seq<int>,
                       maxAttempts: nat, perms: seq<seq<seq<nat>>>): Search
    requires Supplied(slots, maxAttempts, drawnSeeds, perms)
  {
    SearchOver(Combos(slots), Outcomes(slots, rows, cols, seed, drawnSeeds, maxAttempts, perms), |Combos(slots)|)
  }

  /** What `run_prototype` returns: the winning puzzle with its `prototype` block, or the failure when nothing was evaluated. */
  function PrototypeSpec(slots: seq<Slot>, rows: nat, cols: nat, seed: Option<int>, drawnSeeds: seq<int>,
                         maxAttempts: nat, perms: seq<seq<seq<nat>>>): Result<Puzzle, PrototypeError>
    requires Supplied(slots, maxAttempts, drawnSeeds, perms)
  {
    var s := FinalSearch(slots, rows, cols, seed, drawnSeeds, maxAttempts, perms);
    OutcomesNonNegative(slots, rows, cols, seed, drawnSeeds, maxAttempts, perms);
    SearchFirstBest(Combos(slots), Outcomes(slots, rows, cols, seed, drawnSeeds, maxAttempts, perms), |Combos(slots)|);
    if s.best.None? then Failure(EmptySelection)
    else
      ComboShape(slots, s.bestIndex);
      var info := PrototypeInfo(CombinationCount(Alternatives(slots)), s.evaluated, s.skipped, s.bestIndex,
                                SelectedWords(slots, s.bestCombo));
      Success(s.best.value.(prototype := Some(info)))
  }

  /**
   * `run_prototype`. The randomness of each `generate_crossword` call is
   * supplied (see `Supplied`); every call gets the same `seed` and
   * `maxAttempts`.
   */
  method RunPrototype(slots: seq<Slot>, rows: nat, cols: nat, maxAttempts: nat, seed: Option<int>,
                      drawnSeeds: seq<int>, perms: seq<seq<seq<nat>>>) returns (result: Result<Puzzle, PrototypeError>)
    requires Supplied(slots, maxAttempts, drawnSeeds, perms)
    requires rows >= 1 || forall j, w :: 0 <= j < |slots| && w in slots[j].words ==> |w| == 0 || |w| > cols
    ensures result == PrototypeSpec(slots, rows, cols, seed, drawnSeeds, maxAttempts, perms)
  {
    var alternatives := Alternatives(slots);
    var totalCombos := CountCombinations(alternatives);
    var combos := Product(alternatives);
    ghost var outs := Outcomes(slots, rows, cols, seed, drawnSeeds, maxAttempts, perms);
    var search := Search(None, -1.0, 0, [], 0, 0);
    for i := 0 to |combos|
      invariant search == SearchOver(combos, outs, i)
    {
      search := ConsiderCombo(slots, rows, cols, maxAttempts, seed, drawnSeeds, perms, i, search);
    }
    OutcomesNonNegative(slots, rows, cols, seed, drawnSeeds, maxAttempts, perms);
    SearchFirstBest(combos, outs, |combos|);
    if search.best.None? {
      // Every combination repeats a word: the source then fails on `best_combo[j]`
      return Failure(EmptySelection);
    }
    ComboShape(slots, search.bestIndex);
    var selectedWords := BuildSelectedWords(slots, search.bestCombo);
    var info := PrototypeInfo(totalCombos, search.evaluated, search.skipped, search.bestIndex, selectedWords);
    result := Success(search.best.value.(prototype := Some(info)));
  }

  /** One pass of the combination loop. */
  method ConsiderCombo(slots: seq<Slot>, rows: nat, cols: nat, maxAttempts: nat, seed: Option<int>,
                       drawnSeeds: seq<int>, perms: seq<seq<seq<nat>>>, i: nat, s: Search) returns (next: Search)
    requires Supplied(slots, maxAttempts, drawnSeeds, perms) && i < |Combos(slots)|
    requires rows >= 1 || forall j, w :: 0 <= j < |slots| && w in slots[j].words ==> |w| == 0 || |w| > cols
    ensures next == Visit(s, i, Combos(slots)[i], Outcome(slots, rows, cols, seed, drawnSeeds, maxAttempts, perms, i))
  {
    var combo := Combos(slots)[i];
    // Skip combinations with duplicate words
    if HasDuplicate(combo) {
      return s.(skipped := s.skipped + 1);
    }
    ComboShape(slots, i);
    var entries := ComboEntries(combo, slots);
    assert FirstWordLands(entries, rows, cols) by {
      forall e | e in entries && rows == 0 ensures |e.word| == 0 || |e.word| > cols {
        var j :| 0 <= j < |entries| && entries[j] == e;
      }
    }
    var puzzle := GenerateCrossword(entries, rows, cols, seed, drawnSeeds[i], maxAttempts, perms[i]);
    var score := puzzle.metadata.score;
    if score > s.bestScore {
      next := Search(Some(puzzle), score, i, combo, s.evaluated + 1, s.skipped);
    } else {
      next := s.(evaluated := s.evaluated + 1);
    }
  }

  /** The loop that builds `selected_words`. */
  method BuildSelectedWords(slots: seq<Slot>, combo: seq<string>) returns (selected: seq<SelectedWord>)
    requires |combo| >= |slots|
    ensures selected == SelectedWords(slots, combo)
  {
    selected := [];
    for j := 0 to |slots|
      invariant selected == SelectedWords(slots[..j], combo)
    {
      selected := selected + [SelectedWord(combo[j], slots[j].words, slots[j].hint)];
    }
    assert slots[..|slots|] == slots;
  }

  /* ---- What the selector guarantees ---- */

  /** The selector fails exactly when every combination repeats a word. */
  lemma PrototypeFailsIffAllDuplicates(slots: seq<Slot>, rows: nat, cols: nat, seed: Option<int>, drawnSeeds: seq<int>,
                                       maxAttempts: nat, perms: seq<seq<seq<nat>>>)
    requires Supplied(slots, maxAttempts, drawnSeeds, perms)
    ensures PrototypeSpec(slots, rows, cols, seed, drawnSeeds, maxAttempts, perms).Failure?
            <==> forall i :: 0 <= i < |Combos(slots)| ==> HasDuplicate(Combos(slots)[i])
  {
    var outs := Outcomes(slots, rows, cols, seed, drawnSeeds, maxAttempts, perms);
    OutcomesNonNegative(slots, rows, cols, seed, drawnSeeds, maxAttempts, perms);
    SearchCounts(Combos(slots), outs, |Combos(slots)|);
    assert forall i :: 0 <= i < |outs| ==> (outs[i].Some? <==> !HasDuplicate(Combos(slots)[i]));
  }

  /**
   * On success the puzzle is that of combination `best_combo_index` (which
   * repeats no word) with the `prototype` block attached; it is the first
   * evaluated combination whose score beats every earlier one, no later one
   * beats it, the counts add up to the number of combinations, and each
   * selected word is the winning combination's word for its slot.
   */
  lemma PrototypeWinner(slots: seq<Slot>, rows: nat, cols: nat, seed: Option<int>, drawnSeeds: seq<int>,
                        maxAttempts: nat, perms: seq<seq<seq<nat>>>)
    requires Supplied(slots, maxAttempts, drawnSeeds, perms)
    ensures var r := PrototypeSpec(slots, rows, cols, seed, drawnSeeds, maxAttempts, perms);
            r.Success? ==>
              && r.value.prototype.Some?
              && var info := r.value.prototype.value;
              && var k := info.bestComboIndex;
              && info.totalCombinations == |Combos(slots)|
              && info.evaluated + info.skippedDuplicates == info.totalCombinations
              && k < |Combos(slots)|
              && !HasDuplicate(Combos(slots)[k])
              && r.value == ComboPuzzle(slots, rows, cols, seed, drawnSeeds, maxAttempts, perms, k).(prototype := Some(info))
              && (forall i :: 0 <= i < |Combos(slots)| && !HasDuplicate(Combos(slots)[i]) ==>
                    ComboPuzzle(slots, rows, cols, seed, drawnSeeds, maxAttempts, perms, i).metadata.score <= r.value.metadata.score)
              && (forall i :: 0 <= i < k && !HasDuplicate(Combos(slots)[i]) ==>
                    ComboPuzzle(slots, rows, cols, seed, drawnSeeds, maxAttempts, perms, i).metadata.score < r.value.metadata.score)
              && |info.selectedWords| == |slots|
              && (forall j :: 0 <= j < |slots| ==>
                    && info.selectedWords[j].chosen == Combos(slots)[k][j]
                    && info.selectedWords[j].chosen in slots[j].words
                    && info.selectedWords[j].alternatives == slots[j].words
                    && info.selectedWords[j].hint == slots[j].hint)
  {
    var outs := Outcomes(slots, rows, cols, seed, drawnSeeds, maxAttempts, perms);
    var s := FinalSearch(slots, rows, cols, seed, drawnSeeds, maxAttempts, perms);
    OutcomesNonNegative(slots, rows, cols, seed, drawnSeeds, maxAttempts, perms);
    SearchCounts(Combos(slots), outs, |Combos(slots)|);
    SearchFirstBest(Combos(slots), outs, |Combos(slots)|);
    ProductSize(Alternatives(slots));
    if s.best.Some? {
      ComboShape(slots, s.bestIndex);
      forall i | 0 <= i < |Combos(slots)| && !HasDuplicate(Combos(slots)[i])
        ensures ComboPuzzle(slots, rows, cols, seed, drawnSeeds, maxAttempts, perms, i).metadata.score <= s.bestScore
      {
        assert ScoreOf(outs[i]) <= s.bestScore;
      }
      forall i | 0 <= i < s.bestIndex && !HasDuplicate(Combos(slots)[i])
        ensures ComboPuzzle(slots, rows, cols, seed, drawnSeeds, maxAttempts, perms, i).metadata.score < s.bestScore
      {
        assert ScoreOf(outs[i]) < s.bestScore;
      }
    }
  }
}
