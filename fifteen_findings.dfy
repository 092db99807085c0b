/** poc_fifteen.py, `solve_col0_tile`: when the search finds the blank in row i - 1 and not
    in column 0, the method moves it up with "u" but hands `move_zero_to_position` the row the
    blank had before that move. With a single blank that assertion then always fails. */
module FifteenFindings {
  import opened PyList
  import opened FifteenGrid
  import opened FifteenSolver
  import opened FifteenMoves

  /** One legal move "u" from a grid with a single blank at (row, col): the blank is then at
      (row - 1, col) and nowhere else. */
  lemma MoveUp(g: Grid, height: nat, width: nat, row: nat, col: nat)
    requires IsGrid(g, height, width) && UniqueBlank(g)
    requires InGrid(height, width, row, col) && g[row][col] == 0 && row > 0
    ensures var t := Apply(g, height, width, "u");
      t.ok && t.grid[row - 1][col] == 0 && t.grid[row][col] != 0
  {
    LocateBlank(g, row, col);
    var s := Slide(g, row, col, false);
    assert "u"[..0] == [];
    assert SlideAll(s, height, width, "u") == Step(s, height, width, 'u');
    StepPosition(s, height, width, 'u');
    UpdateUnique(g, height, width, "u");
  }

  /** As written: whenever the extra move up is taken, `solve_col0_tile` fails. */
  lemma Col0FinishAsWrittenFails(g: Grid, height: nat, width: nat, i: int, zeroRow: nat,
                                 zeroCol: nat)
    requires IsGrid(g, height, width) && UniqueBlank(g)
    requires InGrid(height, width, zeroRow, zeroCol) && g[zeroRow][zeroCol] == 0
    requires zeroRow == i - 1 && zeroCol != 0
    ensures !Col0Finish(g, height, width, i, zeroRow, zeroCol, false).ok
  {
    if zeroRow > 0 {
      MoveUp(g, height, width, zeroRow, zeroCol);
    }
  }

  /** Corrected: with the blank's row tracked after the move up, `move_zero_to_position`
      finds the blank where it is told and brings it to (i - 1, 0); only the replay of
      `Col0Moves` is left. */
  lemma Col0FinishTracked(g: Grid, height: nat, width: nat, i: int, zeroRow: nat,
                          zeroCol: nat)
    requires IsGrid(g, height, width) && UniqueBlank(g)
    requires InGrid(height, width, zeroRow, zeroCol) && g[zeroRow][zeroCol] == 0
    requires zeroRow == i - 1 && zeroCol != 0 && i > 1
    ensures var t := Apply(g, height, width, "u");
      t.ok && MoveZeroRun(t.grid, height, width, zeroRow - 1, zeroCol, i - 1, 0).ok &&
      Col0Finish(g, height, width, i, zeroRow, zeroCol, true) ==
        (var r5 := MoveZeroRun(t.grid, height, width, zeroRow - 1, zeroCol, i - 1, 0);
         var r6 := Apply(r5.grid, height, width, Col0Moves);
         if !r6.ok then r6 else Run(r6.grid, "u" + r5.moves + r6.moves, true))
  {
    MoveUp(g, height, width, zeroRow, zeroCol);
    var t := Apply(g, height, width, "u");
    UpdateUnique(g, height, width, "u");
    MoveZeroCorrect(t.grid, height, width, zeroRow - 1, zeroCol, i - 1, 0);
  }

  // a grid that reaches the move up

  /** A 3 x 3 grid where `lower_row_invariant(2, 0)` holds and the number 6, solved at
      (2, 0), is at (1, 2). */
  const Example: Grid := [[1, 2, 3], [4, 5, 6], [0, 7, 8]]

  /** The grid after the blank is moved up from (2, 0), then right to (1, 1), then right onto
      the number 6. */
  const AfterUp: Grid := [[1, 2, 3], [0, 5, 6], [4, 7, 8]]
  const AfterUpRight: Grid := [[1, 2, 3], [5, 0, 6], [4, 7, 8]]
  const AfterRight: Grid := [[1, 2, 3], [5, 6, 0], [4, 7, 8]]

  /** A legal move as one `SlideTile`. */
  lemma StepLegal(s: Slide, height: nat, width: nat, direction: char)
    requires SlideOk(s, height, width) && !s.failed
    requires Legal(height, width, s.zeroRow, s.zeroCol, direction)
    ensures Step(s, height, width, direction) ==
      Slide(SlideTile(s.grid, s.zeroRow, s.zeroCol, s.zeroRow + DeltaRow(direction),
                      s.zeroCol + DeltaCol(direction)),
            s.zeroRow + DeltaRow(direction), s.zeroCol + DeltaCol(direction), false)
  {
  }

  lemma ExampleBlanks()
    ensures IsGrid(Example, 3, 3) && UniqueBlank(Example)
    ensures IsGrid(AfterUpRight, 3, 3) && UniqueBlank(AfterUpRight)
    ensures IsGrid(AfterRight, 3, 3) && UniqueBlank(AfterRight)
  {
  }

  /** The three slides of the example, one `SlideTile` each. */
  lemma ExampleSlides()
    ensures SlideTile(Example, 2, 0, 1, 0) == AfterUp
    ensures SlideTile(AfterUp, 1, 0, 1, 1) == AfterUpRight
    ensures SlideTile(AfterUpRight, 1, 1, 1, 2) == AfterRight
  {
    var e1 := Example[2 := [4, 7, 8]];
    assert Example[2][0 := Example[1][0]] == [4, 7, 8];
    assert e1[1][0 := 0] == [0, 5, 6];
    assert e1[1 := [0, 5, 6]] == AfterUp;
    var u1 := AfterUp[1 := [5, 5, 6]];
    assert AfterUp[1][0 := AfterUp[1][1]] == [5, 5, 6];
    assert u1[1][1 := 0] == [5, 0, 6];
    assert u1[1 := [5, 0, 6]] == AfterUpRight;
    var r1 := AfterUpRight[1 := [5, 6, 6]];
    assert AfterUpRight[1][1 := AfterUpRight[1][2]] == [5, 6, 6];
    assert r1[1][2 := 0] == [5, 6, 0];
    assert r1[1 := [5, 6, 0]] == AfterRight;
  }

  /** The moves "ur" from the example's blank. */
  lemma ExampleUpRight(moves: string)
    requires moves == "ur"
    ensures IsGrid(Example, 3, 3)
    ensures Update(Example, 3, 3, moves) == Slide(AfterUpRight, 1, 1, false)
  {
    ExampleBlanks();
    ExampleSlides();
    LocateBlank(Example, 2, 0);
    var s0 := Slide(Example, 2, 0, false);
    StepLegal(s0, 3, 3, 'u');
    StepLegal(Slide(AfterUp, 1, 0, false), 3, 3, 'r');
    assert moves[..1] == "u" && "u"[..0] == [];
    assert SlideAll(s0, 3, 3, moves[..1]) == Slide(AfterUp, 1, 0, false);
  }

  /** `move_zero_to_position(2, 0, 1, 1)` on the example. */
  lemma ExampleFirstMove()
    ensures IsGrid(Example, 3, 3)
    ensures MoveZeroRun(Example, 3, 3, 2, 0, 1, 1) == Run(AfterUpRight, "ur", true)
  {
    assert ZeroMoves(2, 0, 1, 1) == "ur";
    ExampleUpRight(ZeroMoves(2, 0, 1, 1));
  }

  /** `move_zero_to_position(1, 1, 1, 2)` after it: the blank goes onto the number 6. */
  lemma ExampleSecondMove()
    ensures IsGrid(AfterUpRight, 3, 3)
    ensures MoveZeroRun(AfterUpRight, 3, 3, 1, 1, 1, 2) == Run(AfterRight, "r", true)
  {
    ExampleBlanks();
    ExampleSlides();
    LocateBlank(AfterUpRight, 1, 1);
    assert ZeroMoves(1, 1, 1, 2) == "r";
    StepLegal(Slide(AfterUpRight, 1, 1, false), 3, 3, 'r');
    assert "r"[..0] == [];
  }

  /** `position_tile` then has the tile at its target already, and the search finds the
      blank at (1, 2): the extra move up is taken. */
  lemma ExampleThird()
    ensures IsGrid(AfterRight, 3, 3)
    ensures Position(AfterUpRight, 3, 2, 0) == Some((1, 2))
    ensures PrevPosition("ur" + "r", 1, 2) == Some((1, 1))
    ensures PositionTileRun(AfterRight, 3, 3, 1, 2, 1, 1, 1, 1) == Run(AfterRight, "", true)
    ensures Locate(AfterRight, 0, 0) == Some((1, 2))
  {
    ExampleBlanks();
    LocateBlank(AfterRight, 1, 2);
    assert AfterUpRight[0][0] != 6 && AfterUpRight[0][1] != 6 && AfterUpRight[0][2] != 6;
    assert FindInRow(AfterUpRight[1], 6, 0) == Some(2);
    assert ("ur" + "r")[2] == 'r';
  }

  /** `lower_row_invariant(2, 0)` holds on the example. */
  lemma ExampleLowerRow()
    ensures IsGrid(Example, 3, 3) && LowerRow(Example, 3, 3, 2, 0)
  {
    ExampleBlanks();
  }

  /** From the grid after "ur", the as-written steps reach the extra move up and fail. */
  lemma ExampleBranch()
    ensures IsGrid(AfterUpRight, 3, 3)
    ensures !Col0Branch(AfterUpRight, 3, 3, 2, "ur", 1, 2, false).ok
  {
    ExampleBlanks();
    ExampleSecondMove();
    ExampleThird();
    Col0FinishAsWrittenFails(AfterRight, 3, 3, 2, 1, 2);
  }

  /** `solve_col0_tile(2)` as written fails on the example, although
      `lower_row_invariant(2, 0)` holds there. */
  lemma Col0AsWrittenExample()
    ensures IsGrid(Example, 3, 3) && UniqueBlank(Example)
    ensures LowerRow(Example, 3, 3, 2, 0)
    ensures !Col0AsWritten(Example, 3, 3, 2).ok
  {
    ExampleBlanks();
    ExampleLowerRow();
    ExampleFirstMove();
    ExampleThird();
    ExampleBranch();
    assert !Col0Place(AfterUpRight, 3, 3, 2, "ur", false).ok;
  }
}
