/** poc_fifteen.py: the solver of the Fifteen puzzle as functions of the grid. Every step of
    the solver either succeeds, with the grid it leaves and the move string it returns, or
    fails one of the source's assertions (or reads outside the grid), with the grid as it was
    at that point. */
module FifteenSolver {
  import opened PyList
  import opened FifteenGrid

  /** The outcome of a solver step. On failure the move string is empty: the source raises
      and returns nothing. */
  datatype Run = Run(grid: Grid, moves: string, ok: bool)

  function Fail(g: Grid): Run
  {
    Run(g, "", false)
  }

  /** A step that follows moves `acc`: its moves are appended, a failure stays a failure. */
  function Then(acc: string, r: Run): Run
  {
    if r.ok then Run(r.grid, acc + r.moves, true) else Fail(r.grid)
  }

  /** `update_puzzle(moves)` as a step. */
  function Apply(g: Grid, height: nat, width: nat, moves: string): (r: Run)
    requires IsGrid(g, height, width)
    ensures IsGrid(r.grid, height, width)
  {
    var t := Update(g, height, width, moves);
    if t.failed then Fail(t.grid) else Run(t.grid, moves, true)
  }

  function Abs(x: int): nat
  {
    if x < 0 then -x else x
  }

  /** Python's `piece * n`: empty when `n` is not positive. */
  function Repeat(piece: string, n: int): string
    decreases n
  {
    if n <= 0 then "" else Repeat(piece, n - 1) + piece
  }

  // move_zero_to_position

  /** The move string of `move_zero_to_position`: up, then left or right, then down. */
  function ZeroMoves(zeroRow: int, zeroCol: int, row: int, col: int): string
  {
    (if row < zeroRow then Repeat("u", zeroRow - row) else "") +
    (if col < zeroCol then Repeat("l", zeroCol - col)
     else if zeroCol < col then Repeat("r", col - zeroCol) else "") +
    (if zeroRow < row then Repeat("d", row - zeroRow) else "")
  }

  /** `move_zero_to_position`: the blank must be at (zeroRow, zeroCol) before, and at
      (row, col) after the moves. */
  function MoveZeroRun(g: Grid, height: nat, width: nat, zeroRow: int, zeroCol: int,
                       row: int, col: int): (r: Run)
    requires IsGrid(g, height, width)
    ensures IsGrid(r.grid, height, width)
    ensures r.ok ==> InGrid(height, width, row, col) && r.grid[row][col] == 0
    ensures r.ok ==> r.moves == ZeroMoves(zeroRow, zeroCol, row, col)
  {
    if !InGrid(height, width, zeroRow, zeroCol) || g[zeroRow][zeroCol] != 0 then Fail(g)
    else
      var moves := ZeroMoves(zeroRow, zeroCol, row, col);
      var t := Update(g, height, width, moves);
      if t.failed || !InGrid(height, width, row, col) || t.grid[row][col] != 0 then Fail(t.grid)
      else Run(t.grid, moves, true)
  }

  // prev_position

  /** `prev_position`: where the blank was before the last move of `moves`, if it now is at
      (zeroRow, zeroCol). An empty string (an index error in the source) or an unknown last
      character (the source returns nothing, and unpacking it fails) give `None`. */
  function PrevPosition(moves: string, zeroRow: int, zeroCol: int): Option<(int, int)>
  {
    if moves == [] then None
    else
      var d := moves[|moves| - 1];
      if d == 'l' then Some((zeroRow, zeroCol + 1))
      else if d == 'r' then Some((zeroRow, zeroCol - 1))
      else if d == 'u' then Some((zeroRow + 1, zeroCol))
      else if d == 'd' then Some((zeroRow - 1, zeroCol))
      else None
  }

  // position_tile

  /** `moves` in front of a result that may have failed. */
  function Prepend(moves: string, rest: Option<string>): Option<string>
  {
    match rest
    case None => None
    case Some(m) => Some(moves + m)
  }

  /** What is left of `position_tile`'s loop: one iteration settles the column, one the row. */
  function TileMeasure(row: int, col: int, targetRow: int, targetCol: int): nat
  {
    (if col != targetCol then 2 else 0) + (if row != targetRow then 1 else 0)
  }

  /** The assertions at the head of `position_tile`'s loop: the blank is not below the tile,
      the tile not below its target, and the blank is next to the tile. */
  predicate TileLoopOk(zeroRow: int, zeroCol: int, row: int, col: int, targetRow: int)
  {
    zeroRow <= row <= targetRow && Abs(row - zeroRow) + Abs(col - zeroCol) == 1
  }

  /** The move string `position_tile`'s loop builds while it tracks the tile at (row, col)
      and the blank at (zeroRow, zeroCol); `None` when an assertion of the loop fails. */
  function TileMoves(zeroRow: int, zeroCol: int, row: int, col: int,
                     targetRow: int, targetCol: int): Option<string>
    decreases TileMeasure(row, col, targetRow, targetCol)
  {
    if row == targetRow && col == targetCol then Some("")
    else if !TileLoopOk(zeroRow, zeroCol, row, col, targetRow) then None
    else if col != targetCol then
      var diff := targetCol - col;
      var piece := if col > targetCol then (if row > 0 then "ulldr" else "dllur")
                   else (if row > 0 then "urrdl" else "drrul");
      Prepend(Repeat(piece, Abs(diff)),
        TileMoves(zeroRow, zeroCol + diff, row, col + diff, targetRow, targetCol))
    else
      var zeroRow1 := if col != zeroCol && row > 0 then zeroRow - 1 else zeroRow;
      var row1 := if col != zeroCol && row <= 0 then row + 1 else row;
      var zeroCol1 := if col == zeroCol then zeroCol else if col > zeroCol then zeroCol + 1 else zeroCol - 1;
      var turn := if col == zeroCol then ""
                  else if row > 0 then (if col > zeroCol then "ur" else "ul")
                  else (if col > zeroCol then "dru" else "dlu");
      var diff := targetRow - row1;
      Prepend(turn + Repeat(if col > 0 then "lddru" else "rddlu", diff),
        TileMoves(zeroRow1 + diff, zeroCol1, row1 + diff, col, targetRow, targetCol))
  }

  /** `position_tile`: the blank must be at (zeroRow, zeroCol); the loop's moves are applied
      once it has finished. */
  function PositionTileRun(g: Grid, height: nat, width: nat, zeroRow: int, zeroCol: int,
                           row: int, col: int, targetRow: int, targetCol: int): (r: Run)
    requires IsGrid(g, height, width)
    ensures IsGrid(r.grid, height, width)
    ensures r.ok ==> Some(r.moves) == TileMoves(zeroRow, zeroCol, row, col, targetRow, targetCol)
  {
    if !InGrid(height, width, zeroRow, zeroCol) || g[zeroRow][zeroCol] != 0 then Fail(g)
    else
      match TileMoves(zeroRow, zeroCol, row, col, targetRow, targetCol)
      case None => Fail(g)
      case Some(moves) => Apply(g, height, width, moves)
  }

  // the invariants

  /** The argument check of `lower_row_invariant`. */
  predicate LowerRowArgs(width: int, targetRow: int, targetCol: int)
  {
    targetRow > 1 || (targetRow == 1 && targetCol == width - 1)
  }

  /** `lower_row_invariant(i, j)`: the blank is at (i, j), and every cell after it in
      row-major order, from row i down, holds its solved number. Bad arguments, which make the
      source raise, count as the invariant not holding. */
  predicate LowerRow(g: Grid, height: nat, width: nat, i: int, j: int)
    requires IsGrid(g, height, width)
  {
    LowerRowArgs(width, i, j) && InGrid(height, width, i, j) && g[i][j] == 0 &&
    forall r, c :: i <= r < height && 0 <= c < width && (r > i || c > j) ==>
      g[r][c] == SolvedValue(width, r, c)
  }

  /** The cells both row invariants ask to be solved: rows 2 and below, and the columns after
      `j` of rows 0 and 1. */
  predicate UpperSolved(g: Grid, height: nat, width: nat, j: int)
    requires IsGrid(g, height, width)
  {
    forall r, c :: 0 <= r < height && 0 <= c < width && (r > 1 || c > j) ==>
      g[r][c] == SolvedValue(width, r, c)
  }

  /** `row0_invariant(j)`: the blank at (0, j), (1, j) solved, and the cells of
      `UpperSolved`. */
  predicate Row0(g: Grid, height: nat, width: nat, j: int)
    requires IsGrid(g, height, width)
  {
    InGrid(height, width, 0, j) && g[0][j] == 0 &&
    InGrid(height, width, 1, j) && g[1][j] == SolvedValue(width, 1, j) &&
    UpperSolved(g, height, width, j)
  }

  /** `row1_invariant(j)`: the blank at (1, j) and the cells of `UpperSolved`. */
  predicate Row1(g: Grid, height: nat, width: nat, j: int)
    requires IsGrid(g, height, width)
  {
    InGrid(height, width, 1, j) && g[1][j] == 0 && UpperSolved(g, height, width, j)
  }

  // the phase steps

  /** `current_position(row, col)`: where the number solved at (row, col) is, `None` when no
      cell holds it. */
  function Position(g: Grid, width: nat, row: int, col: int): Option<(nat, nat)>
  {
    Locate(g, SolvedValue(width, row, col), 0)
  }

  /** `solve_interior_tile(i, j)`. */
  function InteriorRun(g: Grid, height: nat, width: nat, i: int, j: int): (r: Run)
    requires IsGrid(g, height, width)
    ensures IsGrid(r.grid, height, width)
    ensures r.ok ==> LowerRow(g, height, width, i, j) && LowerRow(r.grid, height, width, i, j - 1)
  {
    if j <= 0 || !LowerRow(g, height, width, i, j) then Fail(g)
    else
      match Position(g, width, i, j)
      case None => Fail(g)
      case Some(tile) =>
        var r1 := MoveZeroRun(g, height, width, i, j, tile.0, tile.1);
        if !r1.ok then r1 else
        match PrevPosition(r1.moves, tile.0, tile.1)
        case None => Fail(r1.grid)
        case Some(prev) =>
          var r2 := PositionTileRun(r1.grid, height, width, tile.0, tile.1, prev.0, prev.1, i, j);
          if !r2.ok then r2 else
          var r3 := InteriorFinish(r2.grid, height, width, i, j);
          if !r3.ok then r3 else Run(r3.grid, r1.moves + r2.moves + r3.moves, true)
  }

  /** The end of `solve_interior_tile(i, j)`, once the tile is in place: the blank found and
      moved to (i, j - 1), then `lower_row_invariant(i, j - 1)` checked. */
  function InteriorFinish(g: Grid, height: nat, width: nat, i: int, j: int): (r: Run)
    requires IsGrid(g, height, width)
    ensures IsGrid(r.grid, height, width)
    ensures r.ok ==> LowerRow(r.grid, height, width, i, j - 1)
  {
    match Locate(g, 0, 0)
    case None => Fail(g)
    case Some(zero) =>
      var r3 := MoveZeroRun(g, height, width, zero.0, zero.1, i, j - 1);
      if !r3.ok then r3
      else if !LowerRow(r3.grid, height, width, i, j - 1) then Fail(r3.grid)
      else r3
  }

  /** The move string `solve_col0_tile` replays once the tile is at (i - 1, 1) and the blank
      at (i - 1, 0). */
  const Col0Moves := "ruldrdlurdluurddlur"

  /** The move string `solve_row0_tile` replays once the tile is at (1, j - 1) and the blank
      at (1, j - 2). */
  const Row0Moves := "urdlurrdluldrruld"

  /** The end of `solve_col0_tile`'s branch, once the tile is at (i - 1, 1) and the search
      has found the blank at (zeroRow, zeroCol): when the blank is in row i - 1 but not in
      column 0 it first moves up; then the blank goes to (i - 1, 0), and `Col0Moves` is
      replayed. `trackUp` says whether the blank's row is decreased after the move up before
      it is handed to `move_zero_to_position`. */
  function Col0Finish(g: Grid, height: nat, width: nat, i: int, zeroRow: int, zeroCol: int,
                      trackUp: bool): (r: Run)
    requires IsGrid(g, height, width)
    ensures IsGrid(r.grid, height, width)
  {
    var up := zeroRow == i - 1 && zeroCol != 0;
    var r4 := if up then Apply(g, height, width, "u") else Run(g, "", true);
    if !r4.ok then r4 else
    var r5 := MoveZeroRun(r4.grid, height, width,
                if up && trackUp then zeroRow - 1 else zeroRow, zeroCol, i - 1, 0);
    if !r5.ok then r5 else
    var r6 := Apply(r5.grid, height, width, Col0Moves);
    if !r6.ok then r6 else Run(r6.grid, r4.moves + r5.moves + r6.moves, true)
  }

  /** The part of `solve_col0_tile` that runs when the tile is not yet at (i, 0): bring the
      blank to the tile at (row, col), the tile to (i - 1, 1), and finish with
      `Col0Finish`. */
  function Col0Branch(g: Grid, height: nat, width: nat, i: int, movesBefore: string,
                      row: int, col: int, trackUp: bool): (r: Run)
    requires IsGrid(g, height, width)
    ensures IsGrid(r.grid, height, width)
  {
    var r2 := MoveZeroRun(g, height, width, i - 1, 1, row, col);
    if !r2.ok then r2 else
    match PrevPosition(movesBefore + r2.moves, row, col)
    case None => Fail(r2.grid)
    case Some(prev) =>
      var r3 := PositionTileRun(r2.grid, height, width, row, col, prev.0, prev.1, i - 1, 1);
      if !r3.ok then r3 else
      match Locate(r3.grid, 0, 0)
      case None => Fail(r3.grid)
      case Some(zero) =>
        var r4 := Col0Finish(r3.grid, height, width, i, zero.0, zero.1, trackUp);
        if !r4.ok then r4 else Run(r4.grid, r2.moves + r3.moves + r4.moves, true)
  }

  /** The middle of `solve_col0_tile(i)`: look for the tile solved at (i, 0), and run
      `Col0Branch` unless it is already there. */
  function Col0Place(g: Grid, height: nat, width: nat, i: int, movesBefore: string,
                     trackUp: bool): (r: Run)
    requires IsGrid(g, height, width)
    ensures IsGrid(r.grid, height, width)
  {
    match Position(g, width, i, 0)
    case None => Fail(g)
    case Some(tile) =>
      if !(tile.0 == i && tile.1 == 0) then
        Col0Branch(g, height, width, i, movesBefore, tile.0, tile.1, trackUp)
      else Run(g, "", true)
  }

  /** `solve_col0_tile(i)`, with the blank's row after the extra move up tracked or not. */
  function Col0Steps(g: Grid, height: nat, width: nat, i: int, trackUp: bool): (r: Run)
    requires IsGrid(g, height, width)
    ensures IsGrid(r.grid, height, width)
    ensures r.ok ==>
      LowerRow(g, height, width, i, 0) && LowerRow(r.grid, height, width, i - 1, width - 1)
  {
    if !LowerRow(g, height, width, i, 0) then Fail(g)
    else
      var r1 := MoveZeroRun(g, height, width, i, 0, i - 1, 1);
      if !r1.ok then r1 else
      var r5 := Col0Place(r1.grid, height, width, i, r1.moves, trackUp);
      if !r5.ok then r5 else
      var r6 := MoveZeroRun(r5.grid, height, width, i - 1, 1, i - 1, width - 1);
      if !r6.ok then r6
      else if !LowerRow(r6.grid, height, width, i - 1, width - 1) then Fail(r6.grid)
      else Run(r6.grid, r1.moves + r5.moves + r6.moves, true)
  }

  /** `solve_col0_tile(i)` as the source writes it: after the extra move up, the blank is
      still taken to be in row i - 1. */
  function Col0AsWritten(g: Grid, height: nat, width: nat, i: int): (r: Run)
    requires IsGrid(g, height, width)
    ensures IsGrid(r.grid, height, width)
    ensures r.ok ==>
      LowerRow(g, height, width, i, 0) && LowerRow(r.grid, height, width, i - 1, width - 1)
  {
    Col0Steps(g, height, width, i, false)
  }

  /** `solve_col0_tile(i)` with the extra move up reflected in the blank's row. */
  function Col0Run(g: Grid, height: nat, width: nat, i: int): (r: Run)
    requires IsGrid(g, height, width)
    ensures IsGrid(r.grid, height, width)
    ensures r.ok ==>
      LowerRow(g, height, width, i, 0) && LowerRow(r.grid, height, width, i - 1, width - 1)
  {
    Col0Steps(g, height, width, i, true)
  }

  /** `solve_row1_tile(j)`. */
  function Row1Run(g: Grid, height: nat, width: nat, j: int): (r: Run)
    requires IsGrid(g, height, width)
    ensures IsGrid(r.grid, height, width)
    ensures r.ok ==> Row1(g, height, width, j) && Row0(r.grid, height, width, j)
  {
    if j <= 1 || !Row1(g, height, width, j) then Fail(g)
    else
      match Position(g, width, 1, j)
      case None => Fail(g)
      case Some(tile) =>
        var r1 := MoveZeroRun(g, height, width, 1, j, tile.0, tile.1);
        if !r1.ok then r1 else
        match PrevPosition(r1.moves, tile.0, tile.1)
        case None => Fail(r1.grid)
        case Some(prev) =>
          var r2 := PositionTileRun(r1.grid, height, width, tile.0, tile.1, prev.0, prev.1, 1, j);
          if !r2.ok then r2 else
          match Locate(r2.grid, 0, 0)
          case None => Fail(r2.grid)
          case Some(zero) =>
            var r3 := MoveZeroRun(r2.grid, height, width, zero.0, zero.1, 0, j);
            if !r3.ok then r3
            else if !Row0(r3.grid, height, width, j) then Fail(r3.grid)
            else Run(r3.grid, r1.moves + r2.moves + r3.moves, true)
  }

  /** The end of `solve_row0_tile`'s branch, once the tile is at (1, j - 1) and the search
      has found the blank at (zeroRow, zeroCol): the blank goes to (1, j - 2), and
      `Row0Moves` is replayed. */
  function Row0Finish(g: Grid, height: nat, width: nat, j: int, zeroRow: int, zeroCol: int): (r: Run)
    requires IsGrid(g, height, width)
    ensures IsGrid(r.grid, height, width)
  {
    var r4 := MoveZeroRun(g, height, width, zeroRow, zeroCol, 1, j - 2);
    if !r4.ok then r4 else
    var r5 := Apply(r4.grid, height, width, Row0Moves);
    if !r5.ok then r5 else Run(r5.grid, r4.moves + r5.moves, true)
  }

  /** The part of `solve_row0_tile` that runs when the tile is not yet at (0, j). */
  function Row0Branch(g: Grid, height: nat, width: nat, j: int, movesBefore: string,
                      row: int, col: int): (r: Run)
    requires IsGrid(g, height, width)
    ensures IsGrid(r.grid, height, width)
  {
    var r2 := MoveZeroRun(g, height, width, 1, j - 1, row, col);
    if !r2.ok then r2 else
    match PrevPosition(movesBefore + r2.moves, row, col)
    case None => Fail(r2.grid)
    case Some(prev) =>
      var r3 := PositionTileRun(r2.grid, height, width, row, col, prev.0, prev.1, 1, j - 1);
      if !r3.ok then r3 else
      match Locate(r3.grid, 0, 0)
      case None => Fail(r3.grid)
      case Some(zero) =>
        var r4 := Row0Finish(r3.grid, height, width, j, zero.0, zero.1);
        if !r4.ok then r4 else Run(r4.grid, r2.moves + r3.moves + r4.moves, true)
  }

  /** `solve_row0_tile(j)`: refused unless `row0_invariant(j)` holds. */
  function Row0Run(g: Grid, height: nat, width: nat, j: int): (r: Run)
    requires IsGrid(g, height, width)
    ensures IsGrid(r.grid, height, width)
    ensures r.ok ==> Row0(g, height, width, j) && Row1(r.grid, height, width, j - 1)
  {
    if j <= 1 || !Row0(g, height, width, j) then Fail(g) else Row0Place(g, height, width, j)
  }

  /** The rest of `solve_row0_tile(j)`: the blank to (1, j - 1), then `Row0Rest`. */
  function Row0Place(g: Grid, height: nat, width: nat, j: int): (r: Run)
    requires IsGrid(g, height, width)
    ensures IsGrid(r.grid, height, width)
    ensures r.ok ==> Row1(r.grid, height, width, j - 1)
  {
    var r1 := MoveZeroRun(g, height, width, 0, j, 1, j - 1);
    if !r1.ok then r1 else
    var r5 := Row0Rest(r1.grid, height, width, j, r1.moves);
    if !r5.ok then r5 else Run(r5.grid, r1.moves + r5.moves, true)
  }

  /** `solve_row0_tile(j)` after the blank reaches (1, j - 1) with the moves `movesBefore`:
      the tile found and, unless it is at (0, j) already, placed; then
      `row1_invariant(j - 1)` checked. */
  function Row0Rest(g: Grid, height: nat, width: nat, j: int, movesBefore: string): (r: Run)
    requires IsGrid(g, height, width)
    ensures IsGrid(r.grid, height, width)
    ensures r.ok ==> Row1(r.grid, height, width, j - 1)
  {
    match Position(g, width, 0, j)
    case None => Fail(g)
    case Some(tile) =>
      if tile.0 == 0 && tile.1 == j then
        (if Row1(g, height, width, j - 1) then Run(g, "", true) else Fail(g))
      else
        var r5 := Row0Branch(g, height, width, j, movesBefore, tile.0, tile.1);
        if !r5.ok then r5
        else if !Row1(r5.grid, height, width, j - 1) then Fail(r5.grid)
        else r5
  }

  // solve_2x2

  /** A cell read that fails outside the grid. */
  function Cell(g: Grid, height: nat, width: nat, row: int, col: int): Option<int>
    requires IsGrid(g, height, width)
  {
    if InGrid(height, width, row, col) then Some(g[row][col]) else None
  }

  /** The block is solved when (0, 0), (0, 1), (1, 0), (1, 1) hold 0, 1, width, width + 1. */
  predicate BlockSolved(g: Grid, height: nat, width: nat)
    requires IsGrid(g, height, width)
  {
    height >= 2 && width >= 2 &&
    g[0][0] == 0 && g[0][1] == 1 && g[1][0] == width && g[1][1] == width + 1
  }

  /** The test of `solve_2x2`'s loop, read left to right as Python's `and` does: `None` when
      a read leaves the grid before the outcome is known. */
  function BlockCheck(g: Grid, height: nat, width: nat): (r: Option<bool>)
    requires IsGrid(g, height, width)
    ensures r == Some(true) <==> BlockSolved(g, height, width)
  {
    var a := Cell(g, height, width, 0, 0);
    if a.None? then None else if a.value != 0 then Some(false) else
    var b := Cell(g, height, width, 0, 1);
    if b.None? then None else if b.value != 1 then Some(false) else
    var c := Cell(g, height, width, 1, 0);
    if c.None? then None else if c.value != width then Some(false) else
    var d := Cell(g, height, width, 1, 1);
    if d.None? then None else Some(d.value == width + 1)
  }

  /** The rotation of the top left block `solve_2x2` repeats. */
  const RotationMoves := "rdlu"

  /** The loop of `solve_2x2` with `left` iterations to go: check the block, and apply
      `rotation` (the solver passes `RotationMoves`) when it is not solved. The moves are
      those of the rotations. */
  function Rotations(g: Grid, height: nat, width: nat, rotation: string, left: nat): (r: Run)
    requires IsGrid(g, height, width)
    ensures IsGrid(r.grid, height, width)
    ensures r.ok ==> BlockSolved(r.grid, height, width)
    decreases left
  {
    if left == 0 then Fail(g)
    else
      match BlockCheck(g, height, width)
      case None => Fail(g)
      case Some(solved) =>
        if solved then Run(g, "", true)
        else
          var t := Apply(g, height, width, rotation);
          if !t.ok then t else Then(t.moves, Rotations(t.grid, height, width, rotation, left - 1))
  }

  /** `solve_2x2`: the blank to (0, 0), then at most three rotations. */
  function Solve2x2Run(g: Grid, height: nat, width: nat): (r: Run)
    requires IsGrid(g, height, width)
    ensures IsGrid(r.grid, height, width)
    ensures r.ok ==> BlockSolved(r.grid, height, width)
  {
    match Locate(g, 0, 0)
    case None => Fail(g)
    case Some(zero) =>
      var r1 := MoveZeroRun(g, height, width, zero.0, zero.1, 0, 0);
      if !r1.ok then r1 else Then(r1.moves, Rotations(r1.grid, height, width, RotationMoves, 3))
  }

  // solve_puzzle

  /** The inner loop of `solve_puzzle` over row `row`, from column `col` down to 0: the
      interior step for the columns after 0, the column step for column 0 (as written when
      `trackUp` is false, corrected when it is true). */
  function RowTiles(g: Grid, height: nat, width: nat, row: int, col: int, trackUp: bool): (r: Run)
    requires IsGrid(g, height, width)
    ensures IsGrid(r.grid, height, width)
    decreases col
  {
    if col < 0 then Run(g, "", true)
    else
      var r1 := if col != 0 then InteriorRun(g, height, width, row, col)
                else Col0Steps(g, height, width, row, trackUp);
      if !r1.ok then r1 else Then(r1.moves, RowTiles(r1.grid, height, width, row, col - 1, trackUp))
  }

  /** The outer loop of `solve_puzzle` over the lower rows, from `row` up to row 2. */
  function LowerRows(g: Grid, height: nat, width: nat, row: int, trackUp: bool): (r: Run)
    requires IsGrid(g, height, width)
    ensures IsGrid(r.grid, height, width)
    decreases row
  {
    if row <= 1 then Run(g, "", true)
    else
      var r1 := RowTiles(g, height, width, row, width - 1, trackUp);
      if !r1.ok then r1 else Then(r1.moves, LowerRows(r1.grid, height, width, row - 1, trackUp))
  }

  /** The loop of `solve_puzzle` over the columns of the top two rows, from `col` down to 2:
      the row 1 step of column `col`, then the rest. */
  function TopRows(g: Grid, height: nat, width: nat, col: int): (r: Run)
    requires IsGrid(g, height, width)
    ensures IsGrid(r.grid, height, width)
    decreases col, 1
  {
    if col <= 1 then Run(g, "", true)
    else
      var r1 := Row1Run(g, height, width, col);
      if !r1.ok then r1 else Then(r1.moves, TopRowsFrom0(r1.grid, height, width, col))
  }

  /** The rest of that loop from the row 0 step of column `col`. */
  function TopRowsFrom0(g: Grid, height: nat, width: nat, col: int): (r: Run)
    requires IsGrid(g, height, width)
    ensures IsGrid(r.grid, height, width)
    decreases col, 0
  {
    var r0 := Row0Run(g, height, width, col);
    if !r0.ok then r0 else Then(r0.moves, TopRows(r0.grid, height, width, col - 1))
  }

  /** `solve_puzzle`: the blank to the bottom right corner, then the remaining stages. With
      `trackUp` false this is the code as written; with it true, the column 0 steps are the
      corrected `Col0Run`. */
  function SolveRun(g: Grid, height: nat, width: nat, trackUp: bool): (r: Run)
    requires IsGrid(g, height, width)
    ensures IsGrid(r.grid, height, width)
  {
    match Locate(g, 0, 0)
    case None => Fail(g)
    case Some(zero) =>
      var r1 := MoveZeroRun(g, height, width, zero.0, zero.1, height - 1, width - 1);
      if !r1.ok then r1 else Then(r1.moves, SolveLower(r1.grid, height, width, trackUp))
  }

  /** The stages of `solve_puzzle` from the lower rows on. */
  function SolveLower(g: Grid, height: nat, width: nat, trackUp: bool): (r: Run)
    requires IsGrid(g, height, width)
    ensures IsGrid(r.grid, height, width)
  {
    var r2 := LowerRows(g, height, width, height - 1, trackUp);
    if !r2.ok then r2 else Then(r2.moves, SolveUpper(r2.grid, height, width))
  }

  /** The stages of `solve_puzzle` from the top rows on: the top rows, then the top left
      block. */
  function SolveUpper(g: Grid, height: nat, width: nat): (r: Run)
    requires IsGrid(g, height, width)
    ensures IsGrid(r.grid, height, width)
  {
    var r3 := TopRows(g, height, width, width - 1);
    if !r3.ok then r3 else Then(r3.moves, Solve2x2Run(r3.grid, height, width))
  }
}
