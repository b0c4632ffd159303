# Crossword maker, modelled in Dafny

This project models the core of a crossword generator. It takes a word list of `word,hint` lines and builds a grid of letters and `#` blocks. Each attempt shuffles the entries and places them one at a time: the first word goes across, centred, and every later word goes at the best-scoring start the placement validator accepts. The generator runs many attempts and keeps the first one with the highest puzzle score. It then numbers the clues in row-major order.

On top of that sit three more parts:

- a prototype selector that tries every combination of alternative words, slot by slot, and keeps the best puzzle;
- the word-list loader;
- the state behind the viewer window: a back/forward history of puzzles, the rules that enable its buttons, and the map from cells to the clue numbers drawn in them.

Modules, one per file:

- `Wrappers`: `Option` and `Result`.
- `Grids`: the grid as `seq<seq<char>>` values and as an `array2<char>`, with snapshots between the two.
- `Puzzles`: entries, placement records, clues, metadata and the puzzle.
- `Placement`: `_validate_placement` and `_place_word`.
- `CandidateFinder`: `_find_candidates`.
- `Scoring`: `_score_candidate`, the `max` choice, and `_score_puzzle`.
- `Attempts`: `_run_attempt`.
- `Generator`: `generate_crossword`.
- `Clues`: `extract_clues`.
- `Combinations`: `itertools.product`, the combination count, and the duplicate test.
- `Prototype`: `run_prototype`.
- `WordList`: `load_wordlist`.
- `Viewer`: `CrosswordViewer` and its `number_map`.
- `Extensions`: two worked grids on which a placed word ends up without a clue.

Where the source changes state step by step, the model does the same. The grid is an `array2<char>` that the placement code writes in place, and the loops are `while`/`for` loops. Each such method's postcondition equates its result, or the new state, with a pure function of its inputs. The properties are proved as lemmas about those functions. The viewer is a class whose `history` and `historyIndex` fields its methods update.

Randomness is passed in:

- `drawnSeed` is the seed `random.randint` would draw when none is given.
- `perms[a]` is the permutation that the attempt-`a` shuffle applies to the entries.

Scores are exact `real` numbers.

Two behaviours of the code are easy to miss:

- Re-validating a word right after it is placed returns `None`, not the full length as an intersection count. Every span cell then already holds its letter, so no cell is new (`Placement.PlaceThenValidate`).
- The validator accepts a word that extends an existing word in its own direction, because the old word's cells count as intersections. The old word's record then gets no clue (module `Extensions`, on the grid that a 3 × 5 attempt builds from the first word `CAT`):
  - `SCAT` one cell to the left: `CAT`'s first cell now has a letter before it, so it no longer starts an across word (`Extensions.FrontExtensionHidesClue`).
  - `CATS` from `CAT`'s own start: the two records share a start and direction, and the clue lookup keeps only the later one (`Extensions.BackExtensionHidesClue`, `Clues.ClueFromRecord`).

## Model

| member | source | states |
|---|---|---|
| Grids.EmptyGrid | src/generator.py:54-55 | the fresh grid has `rows` rows of `cols` cells, every one `#` |
| Grids.MakeGrid | src/generator.py:54-55 | `_make_grid` returns a new `rows × cols` array whose contents are the all-`#` grid |
| Placement.FitsInBounds | src/generator.py:147-151 | once the bounds rule passes, every cell of the word's span is on the grid |
| Placement.ValidatePlacement | src/generator.py:142-189 | the validator only reads the grid, and returns what the validation function gives for the grid's current cells: `None` for a start off the grid, an occupied bookend, a letter conflict, an occupied perpendicular neighbour of a new cell, or no new cell; otherwise the intersection count |
| Placement.CheckSpan | src/generator.py:162-189 | the span loop returns the span verdict: a conflict or a crowded new cell gives `None`, as does a span with no new cell; otherwise the number of matching cells |
| Placement.NeighboursClear | src/generator.py:175-178 | true exactly when both perpendicular neighbours of the cell are `#` or off the grid |
| Placement.Written | src/generator.py:109-112 | after writing, the span cells hold the word's letters in order, and every cell off the span keeps its value |
| Placement.PlaceWord | src/generator.py:109-112 | `_place_word` turns the array into the written grid of its old contents |
| Placement.CountsAddUp | src/generator.py:167-183 | over a conflict-free span, matching cells plus new cells equal the number of cells scanned |
| Placement.ValidateCounts | src/generator.py:162-189 | an accepted placement fits the grid; its intersections plus its new cells equal the word's length; it has fewer intersections than letters |
| Placement.PlaceThenValidate | src/generator.py:167-187 | right after an accepted word is written, all of its cells match, so validating the same placement again gives `None` |
| Placement.PlaceKeepsLetters | src/generator.py:179-183 | writing an accepted placement never replaces a letter with a different one: each cell keeps its value or goes from `#` to a letter |
| CandidateFinder.FindCandidates | src/generator.py:115-139 | `_find_candidates` returns the candidate list computed from the grid's current cells |
| CandidateFinder.AnchorWord | src/generator.py:119-130 | the finds for one direction are the finds for each letter position in turn |
| CandidateFinder.AnchorLetter | src/generator.py:121-130 | the finds for one letter position come from every grid cell, in row-major order |
| CandidateFinder.AnchorRow | src/generator.py:122-130 | the finds in one row come from its cells, left to right |
| CandidateFinder.ProbeCell | src/generator.py:123-130 | a cell holding `word[idx]` gives the start that puts that letter there, when the validator accepts it; any other cell gives nothing |
| CandidateFinder.Deduplicate | src/generator.py:131-139 | the de-duplication loop keeps the first candidate for each (row, col, direction) |
| CandidateFinder.DedupeInOrder | src/generator.py:131-139 | the kept candidates appear in the order they were found: each is the found candidate at a recorded position, and those positions strictly increase |
| CandidateFinder.DedupeSubset | src/generator.py:131-139 | every kept candidate was found |
| CandidateFinder.DedupeKeys | src/generator.py:131-139 | the kept candidates cover exactly the (row, col, direction) keys that were found |
| CandidateFinder.DedupeDistinct | src/generator.py:131-139 | no two kept candidates share a key |
| CandidateFinder.DedupeKeepsFirst | src/generator.py:131-139 | the first candidate found for each key is kept |
| CandidateFinder.CandidatesSound | src/generator.py:115-139 | every candidate passes the validator with its recorded intersection count, and no two share a start and direction |
| CandidateFinder.CandidatesComplete | src/generator.py:115-139 | every placement the validator accepts with at least one intersection is a candidate, with that count |
| CandidateFinder.NoCandidatesOnEmptyGrid | src/generator.py:119-124 | on a grid without letters a word has no candidate |
| Scoring.CentralityRange | src/generator.py:194-197 | for a start on the grid, centrality lies between 0 and 1 |
| Scoring.CandidateScoreRange | src/generator.py:192-198 | for a start on the grid, a candidate scores at least twice its intersections and at most one more than that, so never below 0 |
| Scoring.IntersectionsDominate | src/generator.py:192-198 | among starts on the grid, a candidate with more intersections always scores higher |
| Scoring.BestIndex | src/generator.py:94 | `max(..., key=...)` picks the first candidate whose score no other candidate exceeds |
| Scoring.BestHasMostIntersections | src/generator.py:94-96 | the committed candidate has the most intersections of all candidates |
| Scoring.PuzzleScoreNonNegative | src/generator.py:201-220 | every puzzle score is at least 0, so the first attempt always beats the initial best of -1 |
| Scoring.PuzzleScoreAtMostOne | src/generator.py:201-220 | when the attempt has no more records than words, no record with more intersections than letters, and a rectangular grid, the puzzle score is at most 1 |
| Attempts.Shuffled | src/generator.py:59-60 | the shuffled order holds `entries[perm[i]]` at position i |
| Attempts.ShuffleKeepsEntries | src/generator.py:59-60 | the shuffle only reorders: the shuffled list holds the same entries as the input, each as often |
| Attempts.RunAttempt | src/generator.py:58-106 | `_run_attempt` returns the attempt function's grid and records for the shuffle it is given |
| Attempts.PlaceNext | src/generator.py:64-104 | one loop pass either skips the word or commits it and records it, as the attempt step says |
| Attempts.CentreFirst | src/generator.py:71-86 | the first word goes across at row `rows // 2`, column `(cols - len) // 2`, with no intersections; it is skipped when it is wider than the grid |
| Attempts.CommitBest | src/generator.py:88-104 | a later word is committed at its first best-scoring candidate, with that candidate's intersection count; it is skipped when it has no candidate |
| Attempts.AttemptRecordsFromOrder | src/generator.py:64-104 | there are at most as many records as words handled, and each record comes from a word already handled, and is no longer than the grid's larger side |
| Attempts.AttemptExtends | src/generator.py:64-104 | later words never remove or change earlier records |
| Attempts.FirstWordCentred | src/generator.py:71-86 | a first word that fits the width becomes the first record, centred across with no intersections |
| Attempts.FirstSkippedNothingPlaced | src/generator.py:71-91 | when the first word is too wide, the grid never gets a letter and the attempt places nothing |
| Attempts.AttemptIsWellFormed | src/generator.py:58-106 | every attempt over proper words is well formed: the grid is rectangular and holds only `#` and capitals; every record spells its word in the grid and has fewer intersections than letters; every record after the first has at least one intersection |
| Attempts.AttemptScoreInRange | src/generator.py:201-220 | every attempt over proper words scores between 0 and 1 |
| Generator.SelectUpTo | src/generator.py:16-26 | after at least one attempt a best attempt exists, with a score of at least 0 |
| Generator.SelectFirstBest | src/generator.py:20-26 | the kept attempt is the first one with the highest score: none scores more, and every earlier attempt scores strictly less |
| Generator.GenerateCrossword | src/generator.py:8-51 | `generate_crossword` returns the puzzle of the generation function for the supplied seed and shuffles |
| Generator.GenerateMetadata | src/generator.py:28-51 | the puzzle carries the kept attempt's grid and records, the seed used, and metadata counting the records, entries, attempts and intersections, with the kept attempt's index and score |
| Generator.GenerateWellFormed | src/generator.py:8-51 | for proper words the puzzle is well formed, places at most every entry, and scores between 0 and 1 |
| Clues.BuildLookup | src/clues.py:15-17 | the lookup loop builds the map from (row, col, direction) to placement record |
| Clues.LookupLastWins | src/clues.py:15-17 | a start is in the lookup exactly when some record has it, and it maps to the last record with that start |
| Clues.OrdinalIncreasing | src/clues.py:43-46 | a start cell earlier in row-major order gets a smaller number than any later cell |
| Clues.ExtractClues | src/clues.py:10-78 | `extract_clues` replaces the records with the across and down clue lists computed from the grid and the records |
| Clues.NumberRow | src/clues.py:24-70 | one row of the scan: each letter cell that starts a word takes the next number, and a clue is added for each direction that has a record there |
| Clues.ClueListsCorrect | src/clues.py:23-70 | each clue is at a start cell of its direction that has a record; its answer and hint come from that record; its number is the cell's ordinal among start cells; the lists are in row-major order; every start cell with a record gets a clue |
| Clues.FinalNumber | src/clues.py:43-46 | the counter ends at the number of start cells in the grid |
| Clues.ClueNumbersIncrease | src/clues.py:46-70 | clue numbers start at 1 and strictly increase along each list |
| Clues.SharedNumbers | src/clues.py:46-70 | an across clue and a down clue have the same number exactly when they start on the same cell |
| Clues.ClueFromRecord | src/clues.py:48-70 | each clue comes from a record at its start and direction, and from the last such record |
| Combinations.CountCombinations | src/prototype.py:16-18 | the counting loop returns the product of the alternative-list lengths |
| Combinations.ProductSize | src/prototype.py:16-18 | there are exactly `total_combos` combinations |
| Combinations.ProductOrder | src/prototype.py:32 | combinations come in `itertools.product` order: the first slot varies slowest |
| Combinations.ProductMembers | src/prototype.py:32 | the combinations are exactly the sequences that pick one alternative for every slot |
| Combinations.ElementsCount | src/prototype.py:34 | the set of a combination's words is never larger than the combination, and is the same size exactly when no word repeats |
| Combinations.DuplicateIff | src/prototype.py:34 | the set-size test flags exactly the combinations in which some word occurs twice |
| Prototype.ComboShape | src/prototype.py:32-38 | each combination picks one word from each slot's alternatives, and pairs it with that slot's hint, one entry per slot |
| Prototype.SearchCounts | src/prototype.py:32-43 | every combination is either evaluated or skipped; a puzzle is kept exactly when one was evaluated, which happens exactly when some combination produced a puzzle, i.e. one that repeats no word |
| Prototype.SearchFirstBest | src/prototype.py:49-57 | the kept puzzle belongs to the first evaluated combination whose score beats all earlier ones, and no later one beats it |
| Prototype.RunPrototype | src/prototype.py:8-79 | `run_prototype` returns the selector function's result for the supplied randomness |
| Prototype.ConsiderCombo | src/prototype.py:32-57 | one loop pass: a repeating combination counts as skipped; any other is generated, counted, and kept when it beats the best score |
| Prototype.BuildSelectedWords | src/prototype.py:62-68 | the loop builds one entry per slot: the winning word, the slot's alternatives and its hint |
| Prototype.PrototypeFailsIffAllDuplicates | src/prototype.py:24-70 | no puzzle comes out exactly when every combination repeats a word |
| Prototype.PrototypeWinner | src/prototype.py:61-77 | on success the puzzle is the winning combination's, with its `prototype` block. That combination repeats no word and beats every earlier one; none beats it. The counts add up to the number of combinations, and each selected word is the winner's word for its slot |
| WordList.StripStartFacts | src/io.py:16 | `lstrip` removes exactly the leading run of whitespace |
| WordList.StripEndFacts | src/io.py:16 | `rstrip` removes exactly the trailing run of whitespace |
| WordList.StripIsTrimmedInfix | src/io.py:16 | `strip` leaves the infix between the leading and trailing whitespace runs, and it neither starts nor ends with whitespace |
| WordList.StripIdempotent | src/io.py:24 | stripping an already-stripped part changes nothing |
| WordList.SplitFirstCommaRoundTrip | src/io.py:20-22 | a line splits exactly when it has a comma, and it is then the comma-free first part, a comma, and the rest |
| WordList.SplitAtFirstComma | src/io.py:20 | a comma-free part, a comma and any rest split back into those two parts |
| WordList.CapitalsAreCapitals | src/io.py:25 | upper-casing one character and removing everything outside A–Z leaves at most three capitals A–Z |
| WordList.NormalizeCapitals | src/io.py:25 | a normalised word holds only capitals A–Z |
| WordList.NormalizeConcat | src/io.py:25 | normalising works character by character: the result for a concatenation is the concatenation of the results |
| WordList.NormalizeKeepsCapitals | src/io.py:25 | a word made of capitals A–Z normalises to itself |
| WordList.NormalizeIdempotent | src/io.py:25 | normalising twice gives the same word as normalising once |
| WordList.ParseLineFields | src/io.py:16-28 | a line whose stripped text has no comma gives nothing, blank lines included. Otherwise the stripped text is `w,h` with no comma in `w`, and the line gives the normalised stripped `w` with the stripped `h`, unless that word has fewer than two letters |
| WordList.ParsedIsWord | src/io.py:25-28 | every word a line yields has two or more capitals A–Z |
| WordList.ParseLineSteps | src/io.py:16-28 | the steps of the loop body with their early `continue`s compute the line's parse |
| WordList.LoadLine | src/io.py:16-35 | one loop pass appends the line's entry unless its word is already in `seen`, and `seen` remains the set of loaded words |
| WordList.LoadWordlist | src/io.py:11-37 | `load_wordlist` returns the loader function's entries for the file's lines |
| WordList.LoadedWordsDistinct | src/io.py:27-35 | the loaded words are proper words and pairwise distinct |
| WordList.LoadKeepsFirstOccurrence | src/io.py:30-35 | every word some line yields is loaded; each entry is the parse of the first line that yields its word |
| WordList.LoadAppendOnly | src/io.py:34-35 | loading a prefix of the lines gives a prefix of the entries, so entries keep their input order |
| Viewer.PushShowsNewest | src/gui.py:98-104 | a push keeps the history up to the current puzzle, drops the rest, and shows the new puzzle as the newest; Forward is then disabled, and Back is enabled exactly when a puzzle was showing before |
| Viewer.PushThenBack | src/gui.py:98-104 | going back right after a push shows the puzzle that was current before it |
| Viewer.StepsMoveIffEnabled | src/gui.py:176-195 | Back and Forward move the index by one exactly when their buttons are enabled and otherwise change nothing; the history stays coherent and its puzzles never change |
| Viewer.BackForwardInverse | src/gui.py:185-195 | an enabled Back is undone by Forward, and an enabled Forward by Back |
| Viewer.SaveIffShowing | src/gui.py:183 | Save is enabled exactly when a puzzle is on display |
| Viewer.BuildNumberMap | src/gui.py:117-124 | the two loops build the number map of the puzzle's clues, which is empty for a puzzle without clues |
| Viewer.AcrossNumbersLastWins | src/gui.py:119-120 | a cell gets an across number exactly when an across clue starts there, and it is the last such clue's number |
| Viewer.DownNumbersFirstWins | src/gui.py:121-124 | a down clue never overwrites a number; a cell without one gets a number exactly when a down clue starts there, and it is the first such clue's number |
| Viewer.NumberMapOfExtracted | src/gui.py:117-124 | for clues numbered by `extract_clues`, the map holds exactly the cells where a clue starts, and each holds that start cell's ordinal |
| Viewer.CrosswordViewer.constructor | src/gui.py:16-37 | the window loads the word list when its lines are given. It then shows the given puzzle, or else a new one when a non-empty list was loaded; otherwise the history stays empty |
| Viewer.CrosswordViewer.PushPuzzle | src/gui.py:98-104 | the history becomes the push of the old history |
| Viewer.CrosswordViewer.GoBack | src/gui.py:185-189 | the history becomes one step back from the old one |
| Viewer.CrosswordViewer.GoForward | src/gui.py:191-195 | the history becomes one step forward from the old one |
| Viewer.CrosswordViewer.GenerateNew | src/gui.py:197-202 | without entries, or with an empty list, nothing changes; otherwise a puzzle is generated with a fresh seed and 200 attempts, numbered, and pushed |
| Extensions.CatIsFirstWord | src/generator.py:71-86 | centring `CAT` as the first word of a 3 × 5 attempt gives the grid `#####`, `#CAT#`, `#####` and one record at (1, 1) across |
| Extensions.FrontExtensionAccepted | src/generator.py:142-189 | on that grid `SCAT` across at (1, 0) is accepted with 3 intersections, so it is a candidate |
| Extensions.FrontExtensionHidesClue | src/clues.py:23-70 | once `SCAT` is written there, no across or down clue has the answer `CAT` |
| Extensions.BackExtensionAccepted | src/generator.py:142-189 | on that grid `CATS` across at (1, 1) is accepted with 3 intersections, so it is a candidate |
| Extensions.BackExtensionHidesClue | src/clues.py:15-70 | once `CATS` is recorded at `CAT`'s start, no across or down clue has the answer `CAT` |

## Left out

Interfaces and the environment:

- File reading: the model starts from the file's lines. Byte decoding and the UTF-8 byte-order mark are not modelled.
- The duplicate-word warning on standard error, the prototype's progress lines and `print_prototype_summary`, all console output.
- `time.perf_counter` and the `runtime_ms` and `total_runtime_ms` values, which are timing only.
- JSON saving and loading (src/serialize.py), `save_selected_csv`, the viewer's Save dialog, and the argparse scripts under scripts/.
- All Tk widgets, canvas drawing and text panels, and `run_viewer`. Only the history, the button-enablement rules and `number_map` are modelled.
- `load_prototype_wordlist` is not part of this model. It is imported by scripts/prototype.py, but it does not exist in src/io.py.

Randomness:

- The Mersenne Twister behind `random.randint` and `random.Random(seed).shuffle`. The drawn seed and each attempt's permutation are parameters, so the model does not tie a permutation to a seed.

Scores:

- Scores are exact reals, not IEEE doubles.
- `Generator.GenerateMetadata`: the metadata score is the exact best score, not `round(best_score, 4)`. The prototype therefore compares unrounded scores, where the source compares scores rounded to 4 places.

Narrowed preconditions:

- `Generator.GenerateCrossword`: it requires `maxAttempts >= 1`, because with no attempts the source fails on `best["grid"]`. It also requires that the first word lands on the grid: `rows >= 1`, or no entry has 1 to `cols` letters. The source's `_place_word` fails on a 0-row grid for such a word.
- `Clues.ExtractClues`: it requires a puzzle that still has its placement records and a rectangular grid of the stated size. This holds for every puzzle `generate_crossword` returns (`Generator.GenerateWellFormed`).
- `Prototype.RunPrototype`: when every combination repeats a word, it returns `Failure(EmptySelection)`. The source raises a `TypeError` there, on `best_combo[j]`.
- `Prototype.RunPrototype`: it requires `maxAttempts >= 1`, because each `generate_crossword` call needs at least one attempt. It also requires `rows >= 1`, or that no word of any slot has 1 to `cols` letters. This is stronger than the source needs: the source fails on a 0-row grid only when such a word comes first in the shuffle of a combination without repeated words.
- `Grids.MakeGrid`: `rows` and `cols` are natural numbers. The source also accepts negative dimensions, which give an empty grid or an `IndexError`; that behaviour is not modelled.

Not promised:

- That every placed record gets a clue: the code does not guarantee this. `Clues.ClueListsCorrect` proves that every start cell with a record gets a clue. A word that extends an earlier word in its own direction leaves that word without one, as `Extensions.FrontExtensionHidesClue` and `Extensions.BackExtensionHidesClue` show.
