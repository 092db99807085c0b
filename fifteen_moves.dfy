/** poc_fifteen.py: what the move strings of the solver do to the blank. */
module FifteenMoves {
  import opened PyList
  import opened FifteenGrid
  import opened FifteenSolver

  /** `n` steps of `delta`, for a delta of -1, 0 or 1. */
  function Scaled(n: int, delta: int): int
  {
    if delta == 1 then n else if delta == -1 then -n else 0
  }

  lemma {:induction false} RepeatMove(d: char, n: nat)
    ensures |Repeat([d], n)| == n && forall i :: 0 <= i < n ==> Repeat([d], n)[i] == d
    decreases n
  {
    if n > 0 {
      RepeatMove(d, n - 1);
    }
  }

  /** Moves that all go in direction `d` take the blank straight on, one cell per move,
      when the cell it ends on is in the grid. */
  lemma {:induction false} SlideStraight(s: Slide, height: int, width: int, d: char, moves: string)
    requires SlideOk(s, height, width) && !s.failed && IsDirection(d)
    requires forall i :: 0 <= i < |moves| ==> moves[i] == d
    requires InGrid(height, width, s.zeroRow + Scaled(|moves|, DeltaRow(d)),
                    s.zeroCol + Scaled(|moves|, DeltaCol(d)))
    ensures !SlideAll(s, height, width, moves).failed
    ensures SlideAll(s, height, width, moves).zeroRow == s.zeroRow + Scaled(|moves|, DeltaRow(d))
    ensures SlideAll(s, height, width, moves).zeroCol == s.zeroCol + Scaled(|moves|, DeltaCol(d))
    decreases |moves|
  {
    if moves != [] {
      var n := |moves|;
      var front := moves[..n - 1];
      var dr, dc := DeltaRow(d), DeltaCol(d);
      assert Scaled(n - 1, dr) + dr == Scaled(n, dr) && Scaled(n - 1, dc) + dc == Scaled(n, dc);
      SlideStraight(s, height, width, d, front);
      var p := SlideAll(s, height, width, front);
      StepPosition(p, height, width, d);
    }
  }

  /** A repeated move goes straight. */
  lemma SlideRepeat(s: Slide, height: int, width: int, d: char, n: nat)
    requires SlideOk(s, height, width) && !s.failed && IsDirection(d)
    requires InGrid(height, width, s.zeroRow + Scaled(n, DeltaRow(d)),
                    s.zeroCol + Scaled(n, DeltaCol(d)))
    ensures !SlideAll(s, height, width, Repeat([d], n)).failed
    ensures SlideAll(s, height, width, Repeat([d], n)).zeroRow == s.zeroRow + Scaled(n, DeltaRow(d))
    ensures SlideAll(s, height, width, Repeat([d], n)).zeroCol == s.zeroCol + Scaled(n, DeltaCol(d))
  {
    RepeatMove(d, n);
    SlideStraight(s, height, width, d, Repeat([d], n));
  }

  /** The three parts of `move_zero_to_position`'s string. */
  function UpMoves(zeroRow: int, row: int): string
  {
    if row < zeroRow then Repeat("u", zeroRow - row) else ""
  }

  function AcrossMoves(zeroCol: int, col: int): string
  {
    if col < zeroCol then Repeat("l", zeroCol - col)
    else if zeroCol < col then Repeat("r", col - zeroCol) else ""
  }

  function DownMoves(zeroRow: int, row: int): string
  {
    if zeroRow < row then Repeat("d", row - zeroRow) else ""
  }

  lemma UpPart(s: Slide, height: int, width: int, row: int)
    requires SlideOk(s, height, width) && !s.failed && 0 <= row
    ensures var t := SlideAll(s, height, width, UpMoves(s.zeroRow, row));
      !t.failed && t.zeroRow == (if row < s.zeroRow then row else s.zeroRow) && t.zeroCol == s.zeroCol
  {
    if row < s.zeroRow {
      UpRows(s, height, width, row);
    } else {
      assert UpMoves(s.zeroRow, row) == [];
    }
  }

  lemma UpRows(s: Slide, height: int, width: int, row: int)
    requires SlideOk(s, height, width) && !s.failed && 0 <= row < s.zeroRow
    ensures var t := SlideAll(s, height, width, UpMoves(s.zeroRow, row));
      !t.failed && t.zeroRow == row && t.zeroCol == s.zeroCol
  {
    var n := s.zeroRow - row;
    assert UpMoves(s.zeroRow, row) == Repeat(['u'], n);
    assert Scaled(n, DeltaRow('u')) == 0 - n && Scaled(n, DeltaCol('u')) == 0;
    SlideRepeat(s, height, width, 'u', n);
  }

  lemma LeftPart(s: Slide, height: int, width: int, col: int)
    requires SlideOk(s, height, width) && !s.failed && 0 <= col < s.zeroCol
    ensures var t := SlideAll(s, height, width, AcrossMoves(s.zeroCol, col));
      !t.failed && t.zeroRow == s.zeroRow && t.zeroCol == col
  {
    var n := s.zeroCol - col;
    assert AcrossMoves(s.zeroCol, col) == Repeat(['l'], n);
    assert Scaled(n, DeltaCol('l')) == 0 - n && Scaled(n, DeltaRow('l')) == 0;
    SlideRepeat(s, height, width, 'l', n);
  }

  lemma RightPart(s: Slide, height: int, width: int, col: int)
    requires SlideOk(s, height, width) && !s.failed && s.zeroCol < col < width
    ensures var t := SlideAll(s, height, width, AcrossMoves(s.zeroCol, col));
      !t.failed && t.zeroRow == s.zeroRow && t.zeroCol == col
  {
    var n := col - s.zeroCol;
    assert AcrossMoves(s.zeroCol, col) == Repeat(['r'], n);
    assert Scaled(n, DeltaCol('r')) == n && Scaled(n, DeltaRow('r')) == 0;
    SlideRepeat(s, height, width, 'r', n);
  }

  lemma AcrossPart(s: Slide, height: int, width: int, col: int)
    requires SlideOk(s, height, width) && !s.failed && 0 <= col < width
    ensures var t := SlideAll(s, height, width, AcrossMoves(s.zeroCol, col));
      !t.failed && t.zeroRow == s.zeroRow && t.zeroCol == col
  {
    if col < s.zeroCol {
      LeftPart(s, height, width, col);
    } else if s.zeroCol < col {
      RightPart(s, height, width, col);
    } else {
      assert AcrossMoves(s.zeroCol, col) == [];
    }
  }

  lemma DownPart(s: Slide, height: int, width: int, row: int)
    requires SlideOk(s, height, width) && !s.failed && row < height
    ensures var t := SlideAll(s, height, width, DownMoves(s.zeroRow, row));
      !t.failed && t.zeroRow == (if s.zeroRow < row then row else s.zeroRow) && t.zeroCol == s.zeroCol
  {
    if s.zeroRow < row {
      DownRows(s, height, width, row);
    } else {
      assert DownMoves(s.zeroRow, row) == [];
    }
  }

  lemma DownRows(s: Slide, height: int, width: int, row: int)
    requires SlideOk(s, height, width) && !s.failed && s.zeroRow < row < height
    ensures var t := SlideAll(s, height, width, DownMoves(s.zeroRow, row));
      !t.failed && t.zeroRow == row && t.zeroCol == s.zeroCol
  {
    var n := row - s.zeroRow;
    assert DownMoves(s.zeroRow, row) == Repeat(['d'], n);
    assert Scaled(n, DeltaRow('d')) == n && Scaled(n, DeltaCol('d')) == 0;
    SlideRepeat(s, height, width, 'd', n);
  }

  /** The blank moves without a failure from any cell to any other along the moves of
      `move_zero_to_position`, and the loop tracks it to the target. */
  lemma MoveZeroReaches(s: Slide, height: int, width: int, row: int, col: int)
    requires SlideOk(s, height, width) && !s.failed && InGrid(height, width, row, col)
    ensures !SlideAll(s, height, width, ZeroMoves(s.zeroRow, s.zeroCol, row, col)).failed
    ensures SlideAll(s, height, width, ZeroMoves(s.zeroRow, s.zeroCol, row, col)).zeroRow == row
    ensures SlideAll(s, height, width, ZeroMoves(s.zeroRow, s.zeroCol, row, col)).zeroCol == col
  {
    var up := UpMoves(s.zeroRow, row);
    var across := AcrossMoves(s.zeroCol, col);
    var down := DownMoves(s.zeroRow, row);
    assert ZeroMoves(s.zeroRow, s.zeroCol, row, col) == up + across + down;
    SlideAllAppend(s, height, width, up + across, down);
    SlideAllAppend(s, height, width, up, across);
    UpPart(s, height, width, row);
    var s1 := SlideAll(s, height, width, up);
    AcrossPart(s1, height, width, col);
    var s2 := SlideAll(s1, height, width, across);
    assert down == DownMoves(s2.zeroRow, row);
    DownPart(s2, height, width, row);
  }

  /** `move_zero_to_position` succeeds whenever the blank is where the caller says and the
      target is in the grid: it leaves the blank at the target. */
  lemma MoveZeroCorrect(g: Grid, height: nat, width: nat, zeroRow: int, zeroCol: int,
                        row: int, col: int)
    requires IsGrid(g, height, width) && UniqueBlank(g)
    requires InGrid(height, width, zeroRow, zeroCol) && g[zeroRow][zeroCol] == 0
    requires InGrid(height, width, row, col)
    ensures MoveZeroRun(g, height, width, zeroRow, zeroCol, row, col).ok
    ensures MoveZeroRun(g, height, width, zeroRow, zeroCol, row, col).grid ==
      Update(g, height, width, ZeroMoves(zeroRow, zeroCol, row, col)).grid
  {
    LocateBlank(g, zeroRow, zeroCol);
    var s := Slide(g, zeroRow, zeroCol, false);
    MoveZeroReaches(s, height, width, row, col);
    SlideAllBlank(s, height, width, ZeroMoves(zeroRow, zeroCol, row, col));
  }

  /** One move that does not fail is undone by `prev_position` of that move. */
  lemma StepUndo(p: Slide, height: int, width: int, direction: char)
    requires SlideOk(p, height, width) && !p.failed
    requires !Step(p, height, width, direction).failed
    ensures var t := Step(p, height, width, direction);
      PrevPosition([direction], t.zeroRow, t.zeroCol) == Some((p.zeroRow, p.zeroCol))
  {
    StepPosition(p, height, width, direction);
  }

  /** `prev_position` undoes the last move: for the position the blank reaches, it gives the
      position the blank had before the last move. */
  lemma PrevPositionMeaning(s: Slide, height: int, width: int, moves: string)
    requires SlideOk(s, height, width) && moves != []
    requires !SlideAll(s, height, width, moves).failed
    ensures
      var before := SlideAll(s, height, width, moves[..|moves| - 1]);
      var after := SlideAll(s, height, width, moves);
      PrevPosition(moves, after.zeroRow, after.zeroCol) == Some((before.zeroRow, before.zeroCol))
  {
    var d := moves[|moves| - 1];
    var before := SlideAll(s, height, width, moves[..|moves| - 1]);
    var after := Step(before, height, width, d);
    assert SlideAll(s, height, width, moves) == after;
    assert !before.failed;
    StepUndo(before, height, width, d);
    assert PrevPosition(moves, after.zeroRow, after.zeroCol) ==
      PrevPosition([d], after.zeroRow, after.zeroCol);
  }

  /** The assertions of `position_tile`'s loop, once they hold at its entry, hold at every
      later iteration: the loop then never fails. */
  lemma {:induction false} TileMovesTotal(zeroRow: int, zeroCol: int, row: int, col: int,
                                          targetRow: int, targetCol: int)
    requires (row == targetRow && col == targetCol) ||
             TileLoopOk(zeroRow, zeroCol, row, col, targetRow)
    ensures TileMoves(zeroRow, zeroCol, row, col, targetRow, targetCol).Some?
    decreases TileMeasure(row, col, targetRow, targetCol)
  {
    if !(row == targetRow && col == targetCol) && col != targetCol {
      var diff := targetCol - col;
      TileMovesTotal(zeroRow, zeroCol + diff, row, col + diff, targetRow, targetCol);
    }
  }
}
