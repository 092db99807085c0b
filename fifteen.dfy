/** poc_fifteen.py: the `Puzzle` class. Its methods update the grid in place, as the source
    does; each one is proved to leave the grid, and to return the move string, that the
    corresponding function of `FifteenSolver` computes from the grid it started with. A
    failed assertion of the source (or a read outside the grid) is `ok == false`: the grid
    is then the one the source leaves when it raises, and the move string means nothing. */
module Fifteen {
  import opened PyList
  import opened FifteenGrid
  import opened FifteenSolver

  /** The outcome of a method agrees with the run `r` of its specification. */
  ghost predicate Agrees(grid: Grid, moves: string, ok: bool, r: Run)
  {
    grid == r.grid && ok == r.ok && (ok ==> moves == r.moves)
  }

  /** Moves in front of moves, as `move_string +=` builds them. */
  lemma ThenThen(a: string, b: string, r: Run)
    ensures Then(a, Then(b, r)) == Then(a + b, r)
  {
    if r.ok {
      assert a + (b + r.moves) == (a + b) + r.moves;
    }
  }

  /** No moves in front change nothing. */
  lemma ThenNothing(r: Run)
    ensures var t := Then("", r); Agrees(t.grid, t.moves, t.ok, r)
  {
    assert "" + r.moves == r.moves;
  }

  /** Moves in front of a result that may have failed. */
  lemma PrependPrepend(a: string, b: string, rest: Option<string>)
    ensures Prepend(a, Prepend(b, rest)) == Prepend(a + b, rest)
  {
    if rest.Some? {
      assert a + (b + rest.value) == (a + b) + rest.value;
    }
  }

  /** One iteration of `position_tile`'s loop: first the column of the tile is settled, with
      a cyclic move repeated once per column; then, after a turn that puts the blank above (or,
      in row 0, the tile below) the other one, its row, with a cyclic move repeated once per
      row. `piece` is the move string the iteration adds. */
  method TileIteration(zeroRow: int, zeroCol: int, row: int, col: int, targetRow: int,
                       targetCol: int)
    returns (piece: string, zeroRow1: int, zeroCol1: int, row1: int, col1: int)
    requires (row, col) != (targetRow, targetCol)
    requires TileLoopOk(zeroRow, zeroCol, row, col, targetRow)
    ensures TileMoves(zeroRow, zeroCol, row, col, targetRow, targetCol) ==
      Prepend(piece, TileMoves(zeroRow1, zeroCol1, row1, col1, targetRow, targetCol))
    ensures TileMeasure(row1, col1, targetRow, targetCol) < TileMeasure(row, col, targetRow, targetCol)
  {
    zeroRow1, zeroCol1, row1, col1 := zeroRow, zeroCol, row, col;
    if col != targetCol {
      var diff := targetCol - col;
      if col > targetCol {
        piece := Repeat(if row > 0 then "ulldr" else "dllur", Abs(diff));
      } else {
        piece := Repeat(if row > 0 then "urrdl" else "drrul", Abs(diff));
      }
      col1 := col + diff;
      zeroCol1 := zeroCol + diff;
    } else {
      piece := "";
      if col != zeroCol {
        if row > 0 {
          piece := if col > zeroCol then "ur" else "ul";
          zeroRow1 := zeroRow - 1;
        } else {
          piece := if col > zeroCol then "dru" else "dlu";
          row1 := row + 1;
        }
        if col > zeroCol {
          zeroCol1 := zeroCol + 1;
        } else {
          zeroCol1 := zeroCol - 1;
        }
      }
      var diff := targetRow - row1;
      piece := piece + Repeat(if col > 0 then "lddru" else "rddlu", diff);
      row1 := row1 + diff;
      zeroRow1 := zeroRow1 + diff;
    }
  }

  /** Moves in front of a step whose outcome agrees with its run. */
  lemma AgreesThen(grid: Grid, a: string, b: string, ok: bool, r: Run)
    requires Agrees(grid, b, ok, r)
    ensures Agrees(grid, a + b, ok, Then(a, r))
  {
  }

  /** The three ways `solve_puzzle` can go: no blank; the blank does not reach the bottom
      right corner; it does, and the remaining stages follow. */
  lemma SolveRunSteps(g: Grid, height: nat, width: nat, trackUp: bool)
    requires IsGrid(g, height, width)
    ensures Position(g, width, 0, 0).None? ==> SolveRun(g, height, width, trackUp) == Fail(g)
    ensures Position(g, width, 0, 0).Some? ==>
              var zero := Position(g, width, 0, 0).value;
              var r1 := MoveZeroRun(g, height, width, zero.0, zero.1, height - 1, width - 1);
              SolveRun(g, height, width, trackUp) ==
              if r1.ok then Then(r1.moves, SolveLower(r1.grid, height, width, trackUp)) else r1
  {
    assert SolvedValue(width, 0, 0) == 0;
  }

  /** One column of the loop over the top two rows, when both of its steps succeed. */
  lemma TopRowsStep(g: Grid, height: nat, width: nat, col: int)
    requires IsGrid(g, height, width) && col > 1
    requires Row1Run(g, height, width, col).ok
    requires Row0Run(Row1Run(g, height, width, col).grid, height, width, col).ok
    ensures var r1 := Row1Run(g, height, width, col);
      var r0 := Row0Run(r1.grid, height, width, col);
      TopRows(g, height, width, col) ==
        Then(r1.moves + r0.moves, TopRows(r0.grid, height, width, col - 1))
  {
    var r1 := Row1Run(g, height, width, col);
    var r0 := Row0Run(r1.grid, height, width, col);
    ThenThen(r1.moves, r0.moves, TopRows(r0.grid, height, width, col - 1));
  }

  class Puzzle {
    const height: nat
    const width: nat
    var grid: Grid

    ghost predicate Valid()
      reads this
    {
      IsGrid(grid, height, width)
    }

    /** `Puzzle(height, width, initial_grid)`: the solved grid, overwritten cell by cell with
        `initial_grid` when one is given (which must then cover the puzzle). */
    constructor(puzzleHeight: nat, puzzleWidth: nat, initial: Option<Grid>)
      requires initial.Some? ==>
        |initial.value| >= puzzleHeight &&
        forall r :: 0 <= r < puzzleHeight ==> |initial.value[r]| >= puzzleWidth
      ensures Valid() && height == puzzleHeight && width == puzzleWidth
      ensures forall r, c :: 0 <= r < height && 0 <= c < width ==>
        grid[r][c] == if initial.Some? then initial.value[r][c] else SolvedValue(width, r, c)
    {
      var cells := SolvedGrid(puzzleHeight, puzzleWidth);
      if initial.Some? {
        var source := initial.value;
        for row := 0 to puzzleHeight
          invariant IsGrid(cells, puzzleHeight, puzzleWidth)
          invariant forall r, c :: 0 <= r < puzzleHeight && 0 <= c < puzzleWidth ==>
            cells[r][c] == if r < row then source[r][c] else SolvedValue(puzzleWidth, r, c)
        {
          for col := 0 to puzzleWidth
            invariant IsGrid(cells, puzzleHeight, puzzleWidth)
            invariant forall r, c :: 0 <= r < puzzleHeight && 0 <= c < puzzleWidth ==>
              cells[r][c] ==
                if r < row || (r == row && c < col) then source[r][c]
                else SolvedValue(puzzleWidth, r, c)
          {
            cells := cells[row := cells[row][col := source[row][col]]];
          }
        }
      }
      height, width, grid := puzzleHeight, puzzleWidth, cells;
    }

    /** `get_number`: the number at (row, col), where a negative index counts from the end as
        Python's does; `None` where the read raises. */
    function GetNumber(row: int, col: int): (n: Option<int>)
      requires Valid()
      reads this
      ensures n.Some? <==> InWrappedGrid(height, width, row, col)
      ensures n.Some? ==> n.value == grid[row % height][col % width]
      ensures InGrid(height, width, row, col) ==> n == Some(grid[row][col])
    {
      match (PyIndex(row, height), PyIndex(col, width))
      case (Some(r), Some(c)) => Some(grid[r][c])
      case _ => None
    }

    /** `set_number`: (row, col), wrapped as in `get_number`, is set to `value`; where the
        write raises nothing changes. */
    method SetNumber(row: int, col: int, value: int) returns (ok: bool)
      requires Valid()
      modifies this
      ensures Valid()
      ensures ok <==> InWrappedGrid(height, width, row, col)
      ensures ok ==> grid == old(grid)[row % height := old(grid)[row % height][col % width := value]]
      ensures !ok ==> grid == old(grid)
      ensures ok ==> GetNumber(row, col) == Some(value)
    {
      var r, c := PyIndex(row, height), PyIndex(col, width);
      if r.None? || c.None? {
        return false;
      }
      assert r.value == row % height && c.value == col % width;
      grid := grid[r.value := grid[r.value][c.value := value]];
      return true;
    }

    /** `clone`: a new puzzle with the same grid. */
    method Clone() returns (p: Puzzle)
      requires Valid()
      ensures fresh(p) && p.Valid()
      ensures p.height == height && p.width == width && p.grid == grid
    {
      p := new Puzzle(height, width, Some(grid));
      forall r | 0 <= r < height
        ensures p.grid[r] == grid[r]
      {
      }
    }

    /** `current_position(row, col)`: the first cell, in row-major order, that holds the
        number solved at (row, col). */
    method CurrentPosition(solvedRow: int, solvedCol: int) returns (p: Option<(nat, nat)>)
      requires Valid()
      ensures p == Position(grid, width, solvedRow, solvedCol)
    {
      var value := solvedCol + width * solvedRow;
      for row := 0 to height
        invariant Locate(grid, value, 0) == Locate(grid, value, row)
      {
        for col := 0 to width
          invariant FindInRow(grid[row], value, 0) == FindInRow(grid[row], value, col)
        {
          if grid[row][col] == value {
            return Some((row, col));
          }
        }
      }
      return None;
    }

    /** `update_puzzle(moves)`: the blank is found, then each move slides a neighbour into
        it; the first move that leaves the grid, or is not a direction, stops the update. */
    method UpdatePuzzle(moves: string) returns (ok: bool)
      requires Valid()
      modifies this
      ensures Valid()
      ensures var t := Update(old(grid), height, width, moves); grid == t.grid && ok == !t.failed
    {
      var zero := CurrentPosition(0, 0);
      if zero.None? {
        return false;
      }
      var zeroRow, zeroCol := zero.value.0, zero.value.1;
      ghost var start := Slide(grid, zeroRow, zeroCol, false);
      for i := 0 to |moves|
        invariant Valid() && InGrid(height, width, zeroRow, zeroCol)
        invariant SlideAll(start, height, width, moves[..i]) == Slide(grid, zeroRow, zeroCol, false)
      {
        ghost var before := Slide(grid, zeroRow, zeroCol, false);
        var direction := moves[i];
        assert moves[..i + 1][..i] == moves[..i];
        // the neighbour that slides into the blank; each direction asserts it is in the grid
        var row2, col2 := zeroRow, zeroCol;
        if direction == 'l' && zeroCol > 0 {
          col2 := zeroCol - 1;
        } else if direction == 'r' && zeroCol < width - 1 {
          col2 := zeroCol + 1;
        } else if direction == 'u' && zeroRow > 0 {
          row2 := zeroRow - 1;
        } else if direction == 'd' && zeroRow < height - 1 {
          row2 := zeroRow + 1;
        } else {
          SlideAllStops(start, height, width, moves, i);
          return false;
        }
        grid := grid[zeroRow := grid[zeroRow][zeroCol := grid[row2][col2]]];
        grid := grid[row2 := grid[row2][col2 := 0]];
        zeroRow, zeroCol := row2, col2;
        assert Step(before, height, width, direction) == Slide(grid, zeroRow, zeroCol, false);
      }
      assert moves[..|moves|] == moves;
      return true;
    }

    /** `lower_row_invariant(i, j)` (bad arguments count as the invariant failing). */
    method LowerRowInvariant(targetRow: int, targetCol: int) returns (holds: bool)
      requires Valid()
      ensures holds == LowerRow(grid, height, width, targetRow, targetCol)
    {
      if !LowerRowArgs(width, targetRow, targetCol) {
        return false;
      }
      if Cell(grid, height, width, targetRow, targetCol) != Some(0) {
        return false;
      }
      for row := targetRow to height
        invariant forall r, c ::
          targetRow <= r < row && 0 <= c < width && (r > targetRow || c > targetCol) ==>
          grid[r][c] == SolvedValue(width, r, c)
      {
        for col := if row != targetRow then 0 else targetCol + 1 to width
          invariant forall c :: (if row != targetRow then 0 else targetCol + 1) <= c < col ==>
            grid[row][c] == SolvedValue(width, row, c)
        {
          if Cell(grid, height, width, row, col) != Some(col + width * row) {
            return false;
          }
        }
      }
      return true;
    }

    /** The loop both row invariants share: the cells of `UpperSolved`. */
    method UpperCells(targetCol: int) returns (holds: bool)
      requires Valid() && 0 <= targetCol < width
      ensures holds == UpperSolved(grid, height, width, targetCol)
    {
      for row := 0 to height
        invariant forall r, c :: 0 <= r < row && 0 <= c < width && (r > 1 || c > targetCol) ==>
          grid[r][c] == SolvedValue(width, r, c)
      {
        var start := if row > 1 then 0 else targetCol + 1;
        for col := start to width
          invariant forall c :: start <= c < col ==> grid[row][c] == SolvedValue(width, row, c)
        {
          if Cell(grid, height, width, row, col) != Some(col + width * row) {
            return false;
          }
        }
      }
      return true;
    }

    /** `row0_invariant(j)`. */
    method Row0Invariant(targetCol: int) returns (holds: bool)
      requires Valid()
      ensures holds == Row0(grid, height, width, targetCol)
    {
      if Cell(grid, height, width, 0, targetCol) != Some(0) ||
         Cell(grid, height, width, 1, targetCol) != Some(targetCol + width) {
        return false;
      }
      holds := UpperCells(targetCol);
    }

    /** `row1_invariant(j)`. */
    method Row1Invariant(targetCol: int) returns (holds: bool)
      requires Valid()
      ensures holds == Row1(grid, height, width, targetCol)
    {
      if Cell(grid, height, width, 1, targetCol) != Some(0) {
        return false;
      }
      holds := UpperCells(targetCol);
    }

    /** `move_zero_to_position(zero_row, zero_col, row, col)`. */
    method MoveZeroToPosition(zeroRow: int, zeroCol: int, row: int, col: int)
      returns (moves: string, ok: bool)
      requires Valid()
      modifies this
      ensures Valid()
      ensures Agrees(grid, moves, ok, MoveZeroRun(old(grid), height, width, zeroRow, zeroCol, row, col))
    {
      if Cell(grid, height, width, zeroRow, zeroCol) != Some(0) {
        return "", false;
      }
      moves := "";
      if row < zeroRow {
        moves := moves + Repeat("u", zeroRow - row);
      }
      if col < zeroCol {
        moves := moves + Repeat("l", zeroCol - col);
      } else if zeroCol < col {
        moves := moves + Repeat("r", col - zeroCol);
      }
      if zeroRow < row {
        moves := moves + Repeat("d", row - zeroRow);
      }
      assert moves == ZeroMoves(zeroRow, zeroCol, row, col);
      ok := UpdatePuzzle(moves);
      if ok && Cell(grid, height, width, row, col) != Some(0) {
        ok := false;
      }
    }

    /** `position_tile(zero_row, zero_col, position, target_row, target_col)`: the loop
        builds the move string while it tracks the tile and the blank, and the moves are
        applied at the end. */
    method PositionTile(zeroRow: int, zeroCol: int, position: (int, int), targetRow: int,
                        targetCol: int) returns (moves: string, ok: bool)
      requires Valid()
      modifies this
      ensures Valid()
      ensures Agrees(grid, moves, ok, PositionTileRun(old(grid), height, width, zeroRow, zeroCol,
                                                       position.0, position.1, targetRow, targetCol))
    {
      if Cell(grid, height, width, zeroRow, zeroCol) != Some(0) {
        return "", false;
      }
      ghost var total := TileMoves(zeroRow, zeroCol, position.0, position.1, targetRow, targetCol);
      moves := "";
      if total.Some? {
        assert moves + total.value == total.value;
      }
      var zr, zc := zeroRow, zeroCol;
      var row, col := position.0, position.1;
      while (row, col) != (targetRow, targetCol)
        invariant Valid() && grid == old(grid)
        invariant Prepend(moves, TileMoves(zr, zc, row, col, targetRow, targetCol)) == total
        decreases TileMeasure(row, col, targetRow, targetCol)
      {
        if !(zr <= row && row <= targetRow) || Abs(row - zr) + Abs(col - zc) != 1 {
          return "", false;
        }
        ghost var movesBefore := moves;
        var piece;
        piece, zr, zc, row, col := TileIteration(zr, zc, row, col, targetRow, targetCol);
        moves := moves + piece;
        PrependPrepend(movesBefore, piece, TileMoves(zr, zc, row, col, targetRow, targetCol));
      }
      assert total == Some(moves + "") && moves + "" == moves;
      ok := UpdatePuzzle(moves);
    }

    /** `solve_interior_tile(i, j)`. */
    method SolveInteriorTile(targetRow: int, targetCol: int) returns (moves: string, ok: bool)
      requires Valid()
      modifies this
      ensures Valid()
      ensures Agrees(grid, moves, ok, InteriorRun(old(grid), height, width, targetRow, targetCol))
    {
      moves, ok := "", false;
      if targetCol <= 0 {
        return;
      }
      var holds := LowerRowInvariant(targetRow, targetCol);
      if !holds {
        return;
      }
      var tile := CurrentPosition(targetRow, targetCol);
      if tile.None? {
        return;
      }
      var zeroRow, zeroCol := tile.value.0, tile.value.1;
      var m1, ok1 := MoveZeroToPosition(targetRow, targetCol, zeroRow, zeroCol);
      if !ok1 {
        return;
      }
      var prev := PrevPosition(m1, zeroRow, zeroCol);
      if prev.None? {
        return;
      }
      var m2, ok2 := PositionTile(zeroRow, zeroCol, prev.value, targetRow, targetCol);
      if !ok2 {
        return;
      }
      var m3, ok3 := SolveInteriorFinish(targetRow, targetCol);
      if !ok3 {
        return;
      }
      moves, ok := m1 + m2 + m3, true;
    }

    /** The end of `solve_interior_tile(i, j)`: the blank to (i, j - 1), then the invariant
        for (i, j - 1). */
    method SolveInteriorFinish(targetRow: int, targetCol: int) returns (moves: string, ok: bool)
      requires Valid()
      modifies this
      ensures Valid()
      ensures Agrees(grid, moves, ok, InteriorFinish(old(grid), height, width, targetRow, targetCol))
    {
      moves, ok := "", false;
      var zero := CurrentPosition(0, 0);
      if zero.None? {
        return;
      }
      var m3, ok3 := MoveZeroToPosition(zero.value.0, zero.value.1, targetRow, targetCol - 1);
      if !ok3 {
        return;
      }
      var holds := LowerRowInvariant(targetRow, targetCol - 1);
      if !holds {
        return;
      }
      moves, ok := m3, true;
    }

    /** `solve_col0_tile(i)` as written, with the blank's row left unchanged after the extra
        move up (`FifteenFindings` shows where this fails; `Col0Run` is the correction). */
    method SolveCol0Tile(targetRow: int) returns (moves: string, ok: bool)
      requires Valid()
      modifies this
      ensures Valid()
      ensures Agrees(grid, moves, ok, Col0AsWritten(old(grid), height, width, targetRow))
    {
      moves, ok := "", false;
      var holds := LowerRowInvariant(targetRow, 0);
      if !holds {
        return;
      }
      var zeroRow, zeroCol := targetRow - 1, 1;
      var m1, ok1 := MoveZeroToPosition(targetRow, 0, zeroRow, zeroCol);
      if !ok1 {
        return;
      }
      var tile := CurrentPosition(targetRow, 0);
      if tile.None? {
        return;
      }
      var row, col := tile.value.0, tile.value.1;
      var placed := "";
      if (row, col) != (targetRow, 0) {
        placed, ok := SolveCol0Branch(targetRow, m1, row, col);
        if !ok {
          return;
        }
      }
      var m6, ok6 := MoveZeroToPosition(targetRow - 1, 1, targetRow - 1, width - 1);
      if !ok6 {
        return "", false;
      }
      holds := LowerRowInvariant(targetRow - 1, width - 1);
      if !holds {
        return "", false;
      }
      moves, ok := m1 + placed + m6, true;
    }

    /** The branch of `solve_col0_tile(i)` taken when the tile is at (row, col), not at
        (i, 0), and the blank at (i - 1, 1) after the moves `movesBefore`. */
    method SolveCol0Branch(targetRow: int, movesBefore: string, row: int, col: int)
      returns (moves: string, ok: bool)
      requires Valid()
      modifies this
      ensures Valid()
      ensures Agrees(grid, moves, ok, Col0Branch(old(grid), height, width, targetRow, movesBefore,
                                                 row, col, false))
    {
      moves, ok := "", false;
      var m2, ok2 := MoveZeroToPosition(targetRow - 1, 1, row, col);
      if !ok2 {
        return;
      }
      var zeroRow, zeroCol := row, col;
      var prev := PrevPosition(movesBefore + m2, zeroRow, zeroCol);
      if prev.None? {
        return;
      }
      var m3, ok3 := PositionTile(zeroRow, zeroCol, prev.value, targetRow - 1, 1);
      if !ok3 {
        return;
      }
      var zero := CurrentPosition(0, 0);
      if zero.None? {
        return;
      }
      var m4, ok4 := SolveCol0Finish(targetRow, zero.value.0, zero.value.1);
      if !ok4 {
        return;
      }
      moves, ok := m2 + m3 + m4, true;
    }

    /** The end of that branch, with the blank found at (zeroRow, zeroCol): the move up when
        the blank is in row i - 1 but not in column 0, the blank taken from (zeroRow,
        zeroCol), where the source still places it, to (i - 1, 0), and the replay of
        `Col0Moves`. */
    method SolveCol0Finish(targetRow: int, zeroRow: int, zeroCol: int)
      returns (moves: string, ok: bool)
      requires Valid()
      modifies this
      ensures Valid()
      ensures Agrees(grid, moves, ok, Col0Finish(old(grid), height, width, targetRow, zeroRow,
                                                 zeroCol, false))
    {
      moves, ok := "", false;
      var up := "";
      if zeroRow == targetRow - 1 && zeroCol != 0 {
        up := "u";
        var okUp := UpdatePuzzle(up);
        if !okUp {
          return;
        }
      }
      var m5, ok5 := MoveZeroToPosition(zeroRow, zeroCol, targetRow - 1, 0);
      if !ok5 {
        return;
      }
      var okMoves := UpdatePuzzle(Col0Moves);
      if !okMoves {
        return;
      }
      moves, ok := up + m5 + Col0Moves, true;
    }

    /** `solve_row1_tile(j)`. */
    method SolveRow1Tile(targetCol: int) returns (moves: string, ok: bool)
      requires Valid()
      modifies this
      ensures Valid()
      ensures Agrees(grid, moves, ok, Row1Run(old(grid), height, width, targetCol))
    {
      moves, ok := "", false;
      if targetCol <= 1 {
        return;
      }
      var holds := Row1Invariant(targetCol);
      if !holds {
        return;
      }
      var tile := CurrentPosition(1, targetCol);
      if tile.None? {
        return;
      }
      var zeroRow, zeroCol := tile.value.0, tile.value.1;
      var m1, ok1 := MoveZeroToPosition(1, targetCol, zeroRow, zeroCol);
      if !ok1 {
        return;
      }
      var prev := PrevPosition(m1, zeroRow, zeroCol);
      if prev.None? {
        return;
      }
      var m2, ok2 := PositionTile(zeroRow, zeroCol, prev.value, 1, targetCol);
      if !ok2 {
        return;
      }
      var zero := CurrentPosition(0, 0);
      if zero.None? {
        return;
      }
      var m3, ok3 := MoveZeroToPosition(zero.value.0, zero.value.1, 0, targetCol);
      if !ok3 {
        return;
      }
      holds := Row0Invariant(targetCol);
      if !holds {
        return;
      }
      moves, ok := m1 + m2 + m3, true;
    }

    /** `solve_row0_tile(j)`. */
    method SolveRow0Tile(targetCol: int) returns (moves: string, ok: bool)
      requires Valid()
      modifies this
      ensures Valid()
      ensures Agrees(grid, moves, ok, Row0Run(old(grid), height, width, targetCol))
    {
      moves, ok := "", false;
      if targetCol <= 1 {
        return;
      }
      var holds := Row0Invariant(targetCol);
      if !holds {
        return;
      }
      moves, ok := SolveRow0Place(targetCol);
    }

    /** `solve_row0_tile(j)` once its invariant holds. */
    method SolveRow0Place(targetCol: int) returns (moves: string, ok: bool)
      requires Valid()
      modifies this
      ensures Valid()
      ensures Agrees(grid, moves, ok, Row0Place(old(grid), height, width, targetCol))
    {
      moves, ok := "", false;
      var m1, ok1 := MoveZeroToPosition(0, targetCol, 1, targetCol - 1);
      if !ok1 {
        return;
      }
      var rest, okRest := SolveRow0Rest(targetCol, m1);
      if !okRest {
        return;
      }
      moves, ok := m1 + rest, true;
    }

    /** `solve_row0_tile(j)` from the blank at (1, j - 1), reached with the moves
        `movesBefore`. */
    method SolveRow0Rest(targetCol: int, movesBefore: string) returns (moves: string, ok: bool)
      requires Valid()
      modifies this
      ensures Valid()
      ensures Agrees(grid, moves, ok, Row0Rest(old(grid), height, width, targetCol, movesBefore))
    {
      moves, ok := "", false;
      var tile := CurrentPosition(0, targetCol);
      if tile.None? {
        return;
      }
      var row, col := tile.value.0, tile.value.1;
      if row == 0 && col == targetCol {
        ok := Row1Invariant(targetCol - 1);
        return;
      }
      var placed, okBranch := SolveRow0Branch(targetCol, movesBefore, row, col);
      if !okBranch {
        return;
      }
      var holds := Row1Invariant(targetCol - 1);
      if !holds {
        return;
      }
      moves, ok := placed, true;
    }

    /** The branch of `solve_row0_tile(j)` taken when the tile is at (row, col), not at
        (0, j), and the blank at (1, j - 1) after the moves `movesBefore`. */
    method SolveRow0Branch(targetCol: int, movesBefore: string, row: int, col: int)
      returns (moves: string, ok: bool)
      requires Valid()
      modifies this
      ensures Valid()
      ensures Agrees(grid, moves, ok, Row0Branch(old(grid), height, width, targetCol, movesBefore,
                                                 row, col))
    {
      moves, ok := "", false;
      var m2, ok2 := MoveZeroToPosition(1, targetCol - 1, row, col);
      if !ok2 {
        return;
      }
      var prev := PrevPosition(movesBefore + m2, row, col);
      if prev.None? {
        return;
      }
      var m3, ok3 := PositionTile(row, col, prev.value, 1, targetCol - 1);
      if !ok3 {
        return;
      }
      var zero := CurrentPosition(0, 0);
      if zero.None? {
        return;
      }
      var m4, ok4 := SolveRow0Finish(targetCol, zero.value.0, zero.value.1);
      if !ok4 {
        return;
      }
      moves, ok := m2 + m3 + m4, true;
    }

    /** The end of that branch, with the blank found at (zeroRow, zeroCol): the blank to
        (1, j - 2) and the replay of `Row0Moves`. */
    method SolveRow0Finish(targetCol: int, zeroRow: int, zeroCol: int)
      returns (moves: string, ok: bool)
      requires Valid()
      modifies this
      ensures Valid()
      ensures Agrees(grid, moves, ok, Row0Finish(old(grid), height, width, targetCol, zeroRow,
                                                 zeroCol))
    {
      moves, ok := "", false;
      var m4, ok4 := MoveZeroToPosition(zeroRow, zeroCol, 1, targetCol - 2);
      if !ok4 {
        return;
      }
      var okMoves := UpdatePuzzle(Row0Moves);
      if !okMoves {
        return;
      }
      moves, ok := m4 + Row0Moves, true;
    }

    /** `solve_2x2`: the blank to (0, 0), then the block is checked and rotated, at most three
        times; a block still unsolved after that fails. */
    method Solve2x2() returns (moves: string, ok: bool)
      requires Valid()
      modifies this
      ensures Valid()
      ensures Agrees(grid, moves, ok, Solve2x2Run(old(grid), height, width))
    {
      moves, ok := "", false;
      var zero := CurrentPosition(0, 0);
      if zero.None? {
        return;
      }
      var m1, ok1 := MoveZeroToPosition(zero.value.0, zero.value.1, 0, 0);
      if !ok1 {
        return;
      }
      var m2, ok2 := Rotate(RotationMoves, 3);
      if !ok2 {
        return;
      }
      moves, ok := m1 + m2, true;
    }

    /** `solve_puzzle`: the blank to the bottom right corner; the lower rows from the bottom
        up; the top two rows; then the top left block. */
    method SolvePuzzle() returns (moves: string, ok: bool)
      requires Valid()
      modifies this
      ensures Valid()
      ensures Agrees(grid, moves, ok, SolveRun(old(grid), height, width, false))
    {
      ghost var start := grid;
      SolveRunSteps(start, height, width, false);
      var zero := CurrentPosition(0, 0);
      if zero.None? {
        return "", false;
      }
      var m1, ok1 := MoveZeroToPosition(zero.value.0, zero.value.1, height - 1, width - 1);
      if !ok1 {
        return "", false;
      }
      var m2;
      m2, ok := SolveLowerStages();
      AgreesThen(grid, m1, m2, ok, SolveLower(MoveZeroRun(start, height, width, zero.value.0,
                                                          zero.value.1, height - 1,
                                                          width - 1).grid, height, width,
                                                          false));
      moves := m1 + m2;
    }

    /** The stages of `solve_puzzle` after the blank reaches the bottom right corner. */
    method SolveLowerStages() returns (moves: string, ok: bool)
      requires Valid()
      modifies this
      ensures Valid()
      ensures Agrees(grid, moves, ok, SolveLower(old(grid), height, width, false))
    {
      moves, ok := "", false;
      var m2, ok2 := SolveLowerRows();
      if !ok2 {
        return;
      }
      var m3, ok3 := SolveUpperStages();
      if !ok3 {
        return;
      }
      moves, ok := m2 + m3, true;
    }

    /** The stages of `solve_puzzle` after the lower rows. */
    method SolveUpperStages() returns (moves: string, ok: bool)
      requires Valid()
      modifies this
      ensures Valid()
      ensures Agrees(grid, moves, ok, SolveUpper(old(grid), height, width))
    {
      moves, ok := "", false;
      var m3, ok3 := SolveTopRows();
      if !ok3 {
        return;
      }
      var m4, ok4 := Solve2x2();
      if !ok4 {
        return;
      }
      moves, ok := m3 + m4, true;
    }

    /** The outer loop of `solve_puzzle` over the rows from the bottom up to row 2. */
    method SolveLowerRows() returns (moves: string, ok: bool)
      requires Valid()
      modifies this
      ensures Valid()
      ensures Agrees(grid, moves, ok, LowerRows(old(grid), height, width, height - 1, false))
    {
      moves := "";
      ThenNothing(LowerRows(grid, height, width, height - 1, false));
      var row := height - 1;
      while row > 1
        invariant Valid()
        invariant var r := Then(moves, LowerRows(grid, height, width, row, false));
          Agrees(r.grid, r.moves, r.ok, LowerRows(old(grid), height, width, height - 1, false))
      {
        ghost var before := grid;
        var m, okRow := SolveRowTiles(row);
        if !okRow {
          return "", false;
        }
        ghost var rest := LowerRows(grid, height, width, row - 1, false);
        assert LowerRows(before, height, width, row, false) == Then(m, rest);
        ThenThen(moves, m, rest);
        moves := moves + m;
        row := row - 1;
      }
      assert moves + "" == moves;
      return moves, true;
    }

    /** The inner loop of `solve_puzzle` over row `row`, from its last column to column 0: the
        interior step for the columns after 0, the column 0 step for column 0. */
    method SolveRowTiles(row: int) returns (moves: string, ok: bool)
      requires Valid()
      modifies this
      ensures Valid()
      ensures Agrees(grid, moves, ok, RowTiles(old(grid), height, width, row, width - 1, false))
    {
      moves := "";
      ThenNothing(RowTiles(grid, height, width, row, width - 1, false));
      var col := width - 1;
      while col >= 0
        invariant Valid() && col >= -1
        invariant var r := Then(moves, RowTiles(grid, height, width, row, col, false));
          Agrees(r.grid, r.moves, r.ok, RowTiles(old(grid), height, width, row, width - 1, false))
      {
        ghost var before := grid;
        var m, okTile;
        if col != 0 {
          m, okTile := SolveInteriorTile(row, col);
        } else {
          m, okTile := SolveCol0Tile(row);
        }
        if !okTile {
          return "", false;
        }
        ghost var rest := RowTiles(grid, height, width, row, col - 1, false);
        assert RowTiles(before, height, width, row, col, false) == Then(m, rest);
        ThenThen(moves, m, rest);
        moves := moves + m;
        col := col - 1;
      }
      assert moves + "" == moves;
      return moves, true;
    }

    /** The loop of `solve_puzzle` over the columns of the top two rows, from the last column
        down to column 2: the row 1 step, then the row 0 step. */
    method SolveTopRows() returns (moves: string, ok: bool)
      requires Valid()
      modifies this
      ensures Valid()
      ensures Agrees(grid, moves, ok, TopRows(old(grid), height, width, width - 1))
    {
      moves := "";
      ThenNothing(TopRows(grid, height, width, width - 1));
      var col := width - 1;
      while col > 1
        invariant Valid()
        invariant var r := Then(moves, TopRows(grid, height, width, col));
          Agrees(r.grid, r.moves, r.ok, TopRows(old(grid), height, width, width - 1))
      {
        var m, okColumn := SolveTopColumn(col);
        if !okColumn {
          return "", false;
        }
        ThenThen(moves, m, TopRows(grid, height, width, col - 1));
        moves := moves + m;
        col := col - 1;
      }
      assert moves + "" == moves;
      return moves, true;
    }

    /** One pass of that loop: `solve_row1_tile(col)`, then `solve_row0_tile(col)`. */
    method SolveTopColumn(col: int) returns (moves: string, ok: bool)
      requires Valid() && col > 1
      modifies this
      ensures Valid()
      ensures ok ==>
                TopRows(old(grid), height, width, col) ==
                Then(moves, TopRows(grid, height, width, col - 1))
      ensures !ok ==>
                grid == TopRows(old(grid), height, width, col).grid &&
                !TopRows(old(grid), height, width, col).ok
    {
      ghost var before := grid;
      var m1, ok1 := SolveRow1Tile(col);
      if !ok1 {
        return "", false;
      }
      var m2, ok2 := SolveRow0Tile(col);
      if !ok2 {
        return "", false;
      }
      TopRowsStep(before, height, width, col);
      moves, ok := m1 + m2, true;
    }

    /** The loop of `solve_2x2`: up to `times` checks of the block, each unsolved one
        followed by the moves `rotation`. */
    method Rotate(rotation: string, times: nat) returns (moves: string, ok: bool)
      requires Valid()
      modifies this
      ensures Valid()
      ensures Agrees(grid, moves, ok, Rotations(old(grid), height, width, rotation, times))
    {
      moves := "";
      ThenNothing(Rotations(grid, height, width, rotation, times));
      for k := 0 to times
        invariant Valid()
        invariant var r := Then(moves, Rotations(grid, height, width, rotation, times - k));
          Agrees(r.grid, r.moves, r.ok, Rotations(old(grid), height, width, rotation, times))
      {
        var check := BlockCheck(grid, height, width);
        if check.None? {
          return "", false;
        }
        if check.value {
          assert moves + "" == moves;
          return moves, true;
        }
        var okRotate := UpdatePuzzle(rotation);
        if !okRotate {
          return "", false;
        }
        ThenThen(moves, rotation, Rotations(grid, height, width, rotation, times - (k + 1)));
        moves := moves + rotation;
      }
      return "", false;
    }
  }
}
