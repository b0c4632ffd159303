/**
 * Two consequences of the placement rules of src/generator.py that reach
 * the clue numbering of src/clues.py. The validator accepts a word that
 * extends an already placed word in its own direction, since the cells of
 * the old word count as intersections. Once such an extension is written,
 * the old word's record gets no clue:
 *  - extended at the front (SCAT over CAT), the old start has a letter
 *    before it and no longer starts an across word;
 *  - extended at the back (CATS over CAT), both records share a start and
 *    direction, and the lookup keeps only the later one.
 * The grid is the one a 3 x 5 attempt builds when CAT is its first word.
 */
module Extensions {
  import opened Wrappers
  import opened Grids
  import opened Puzzles
  import opened Placement
  import opened CandidateFinder
  import opened Attempts
  import opened Clues

  const Rows: nat := 3
  const Cols: nat := 5

  /** CAT centred on the middle row of a 3 x 5 grid. */
  const CatGrid: Grid := ["#####", "#CAT#", "#####"]

  const CatRecord := PlacementRecord("CAT", "", 1, 1, Across, 0)

  /** CatGrid and CatRecord are what the first step of an attempt leaves when CAT is drawn first. */
  lemma CatIsFirstWord()
    ensures PlaceFirst(WordEntry("CAT", ""), Rows, Cols, AttemptResult(EmptyGrid(Rows, Cols), []))
            == AttemptResult(CatGrid, [CatRecord])
  {
    var h := Written(EmptyGrid(Rows, Cols), Rows, Cols, "CAT", 1, 1, Across);
    forall r, c | InBounds(Rows, Cols, r, c)
      ensures h[r][c] == CatGrid[r][c]
    {
      if r == 1 && 1 <= c <= 3 {
        assert h[SpanRow(1, Across, c - 1)][SpanCol(1, Across, c - 1)] == "CAT"[c - 1];
      } else {
        assert !OnSpan(1, 1, Across, 3, r, c);
      }
    }
    SameCells(h, CatGrid, Rows, Cols);
  }

  /** The lookup of a record list that starts with CAT's record and has one more. */
  lemma CatLookup(placed: seq<PlacementRecord>)
    requires |placed| == 2 && placed[0] == CatRecord
    ensures Lookup(placed) == map[(1, 1, Across) := CatRecord][RecordKey(placed[1]) := placed[1]]
  {
    assert placed[..1] == [CatRecord];
    assert placed[..1][..0] == [];
    assert Lookup(placed[..1]) == map[(1, 1, Across) := CatRecord];
  }

  /* ---- Extension at the front: SCAT starting one cell left of CAT ---- */

  const ScatRecord := PlacementRecord("SCAT", "", 1, 0, Across, 3)

  /** SCAT at (1, 0) across is accepted with CAT's three cells as intersections, so it is a candidate. */
  lemma FrontExtensionAccepted()
    ensures Validate(CatGrid, Rows, Cols, "SCAT", 1, 0, Across) == Some(3)
    ensures Candidate(1, 0, Across, 3) in Candidates(CatGrid, Rows, Cols, "SCAT")
  {
    assert Fits(Rows, Cols, 4, 1, 0, Across);
    assert SpanVerdict(CatGrid, Rows, Cols, "SCAT", 1, 0, Across) == Some(3) by {
      assert CellOk(CatGrid, Rows, Cols, "SCAT", 1, 0, Across, 0);
      assert MatchCount(CatGrid, Rows, Cols, "SCAT", 1, 0, Across, 4) == 3;
      assert NewCount(CatGrid, Rows, Cols, "SCAT", 1, 0, Across, 4) == 1;
    }
    CandidatesComplete(CatGrid, Rows, Cols, "SCAT", 1, 0, Across, 3);
  }

  /** After SCAT is written, no across or down clue has CAT as its answer. */
  lemma FrontExtensionHidesClue()
    ensures var h := Written(CatGrid, Rows, Cols, "SCAT", 1, 0, Across);
            var cl := ClueListsOf(h, Rows, Cols, [CatRecord, ScatRecord]);
            (forall i :: 0 <= i < |cl.across| ==> cl.across[i].answer != "CAT")
            && (forall i :: 0 <= i < |cl.down| ==> cl.down[i].answer != "CAT")
  {
    var placed := [CatRecord, ScatRecord];
    var h := Written(CatGrid, Rows, Cols, "SCAT", 1, 0, Across);
    assert Fits(Rows, Cols, 4, 1, 0, Across);
    assert h[1][0] == 'S' by {
      assert h[SpanRow(1, Across, 0)][SpanCol(0, Across, 0)] == "SCAT"[0];
    }
    assert !Starts(h, Rows, Cols, 1, 1, Across);
    assert Lookup(placed) == map[(1, 1, Across) := CatRecord, (1, 0, Across) := ScatRecord] by {
      CatLookup(placed);
    }
    ClueListsCorrect(h, Rows, Cols, placed);
  }

  /* ---- Extension at the back: CATS from CAT's own start ---- */

  const CatsRecord := PlacementRecord("CATS", "", 1, 1, Across, 3)

  /** CATS at (1, 1) across is accepted with CAT's three cells as intersections, so it is a candidate. */
  lemma BackExtensionAccepted()
    ensures Validate(CatGrid, Rows, Cols, "CATS", 1, 1, Across) == Some(3)
    ensures Candidate(1, 1, Across, 3) in Candidates(CatGrid, Rows, Cols, "CATS")
  {
    assert Fits(Rows, Cols, 4, 1, 1, Across);
    assert SpanVerdict(CatGrid, Rows, Cols, "CATS", 1, 1, Across) == Some(3) by {
      assert CellOk(CatGrid, Rows, Cols, "CATS", 1, 1, Across, 3);
      assert MatchCount(CatGrid, Rows, Cols, "CATS", 1, 1, Across, 4) == 3;
      assert NewCount(CatGrid, Rows, Cols, "CATS", 1, 1, Across, 4) == 1;
    }
    CandidatesComplete(CatGrid, Rows, Cols, "CATS", 1, 1, Across, 3);
  }

  /** After CATS is recorded at CAT's start, no across or down clue has CAT as its answer. */
  lemma BackExtensionHidesClue()
    ensures var h := Written(CatGrid, Rows, Cols, "CATS", 1, 1, Across);
            var cl := ClueListsOf(h, Rows, Cols, [CatRecord, CatsRecord]);
            (forall i :: 0 <= i < |cl.across| ==> cl.across[i].answer != "CAT")
            && (forall i :: 0 <= i < |cl.down| ==> cl.down[i].answer != "CAT")
  {
    var placed := [CatRecord, CatsRecord];
    var h := Written(CatGrid, Rows, Cols, "CATS", 1, 1, Across);
    assert Lookup(placed) == map[(1, 1, Across) := CatsRecord] by {
      CatLookup(placed);
    }
    ClueListsCorrect(h, Rows, Cols, placed);
  }
}
