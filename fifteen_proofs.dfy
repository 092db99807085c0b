/** poc_fifteen.py: what the solver's steps promise. Every step's move string, replayed from
    the grid the step started on, gives the grid the step left; and a successful
    `solve_puzzle` leaves the solved grid. */
module FifteenProofs {
  import opened PyList
  import opened FifteenGrid
  import opened FifteenSolver
  import opened FifteenMoves

  /** A successful step's moves, given to `update_puzzle` on the grid `g` the step started
      on, succeed and give the grid the step left. */
  ghost predicate Applied(g: Grid, height: nat, width: nat, r: Run)
    requires IsGrid(g, height, width)
  {
    r.ok ==> !Update(g, height, width, r.moves).failed &&
             Update(g, height, width, r.moves).grid == r.grid
  }

  ghost predicate HasBlank(g: Grid, height: nat, width: nat)
    requires IsGrid(g, height, width)
  {
    exists row, col :: InGrid(height, width, row, col) && g[row][col] == 0
  }

  /** An update of a grid with a blank and no moves changes nothing. */
  lemma EmptyApplied(g: Grid, height: nat, width: nat)
    requires IsGrid(g, height, width) && HasBlank(g, height, width)
    ensures Applied(g, height, width, Run(g, "", true))
  {
    var row, col :| InGrid(height, width, row, col) && g[row][col] == 0;
    assert Locate(g, 0, 0).Some?;
  }

  lemma ApplyApplied(g: Grid, height: nat, width: nat, moves: string)
    requires IsGrid(g, height, width)
    ensures Applied(g, height, width, Apply(g, height, width, moves))
  {
  }

  lemma MoveZeroApplied(g: Grid, height: nat, width: nat, zeroRow: int, zeroCol: int,
                        row: int, col: int)
    requires IsGrid(g, height, width)
    ensures Applied(g, height, width, MoveZeroRun(g, height, width, zeroRow, zeroCol, row, col))
  {
  }

  lemma PositionTileApplied(g: Grid, height: nat, width: nat, zeroRow: int, zeroCol: int,
                            row: int, col: int, targetRow: int, targetCol: int)
    requires IsGrid(g, height, width)
    ensures Applied(g, height, width,
      PositionTileRun(g, height, width, zeroRow, zeroCol, row, col, targetRow, targetCol))
  {
  }

  /** A step that succeeds and a step after it: together they are one update with both move
      strings. */
  lemma Chain(g: Grid, height: nat, width: nat, a: Run, b: Run)
    requires IsGrid(g, height, width) && UniqueBlank(g)
    requires a.ok && IsGrid(a.grid, height, width) && Applied(g, height, width, a)
    requires Applied(a.grid, height, width, b)
    ensures UniqueBlank(a.grid)
    ensures Applied(g, height, width, Run(b.grid, a.moves + b.moves, b.ok))
  {
    UpdateUnique(g, height, width, a.moves);
    if b.ok {
      UpdateAppend(g, height, width, a.moves, b.moves);
    }
  }

  /** A step that succeeds followed by a step from the grid it left. */
  lemma ThenApplied(g: Grid, height: nat, width: nat, a: Run, b: Run)
    requires IsGrid(g, height, width) && UniqueBlank(g)
    requires a.ok && IsGrid(a.grid, height, width) && Applied(g, height, width, a)
    requires Applied(a.grid, height, width, b)
    ensures Applied(g, height, width, Then(a.moves, b))
  {
    Chain(g, height, width, a, b);
  }

  /** A successful step keeps a single blank and every number on the grid. */
  lemma AppliedKeeps(g: Grid, height: nat, width: nat, r: Run)
    requires IsGrid(g, height, width) && UniqueBlank(g)
    requires r.ok && IsGrid(r.grid, height, width) && Applied(g, height, width, r)
    ensures UniqueBlank(r.grid) && HasBlank(r.grid, height, width) && Tiles(r.grid) == Tiles(g)
  {
    UpdateUnique(g, height, width, r.moves);
    UpdateTiles(g, height, width, r.moves);
    var t := Update(g, height, width, r.moves);
    assert InGrid(height, width, t.zeroRow, t.zeroCol) && r.grid[t.zeroRow][t.zeroCol] == 0;
  }

  // the phase steps

  lemma InteriorApplied(g: Grid, height: nat, width: nat, i: int, j: int)
    requires IsGrid(g, height, width) && UniqueBlank(g)
    ensures Applied(g, height, width, InteriorRun(g, height, width, i, j))
  {
    if j > 0 && LowerRow(g, height, width, i, j) {
      match Position(g, width, i, j)
      case None =>
      case Some(tile) =>
        var r1 := MoveZeroRun(g, height, width, i, j, tile.0, tile.1);
        MoveZeroApplied(g, height, width, i, j, tile.0, tile.1);
        if r1.ok {
          match PrevPosition(r1.moves, tile.0, tile.1)
          case None =>
          case Some(prev) =>
            var r2 := PositionTileRun(r1.grid, height, width, tile.0, tile.1, prev.0, prev.1, i, j);
            PositionTileApplied(r1.grid, height, width, tile.0, tile.1, prev.0, prev.1, i, j);
            Chain(g, height, width, r1, r2);
            if r2.ok {
              var r12 := Run(r2.grid, r1.moves + r2.moves, true);
              var r3 := InteriorFinish(r2.grid, height, width, i, j);
              InteriorFinishApplied(r2.grid, height, width, i, j);
              Chain(g, height, width, r12, r3);
            }
        }
    }
  }

  lemma InteriorFinishApplied(g: Grid, height: nat, width: nat, i: int, j: int)
    requires IsGrid(g, height, width)
    ensures Applied(g, height, width, InteriorFinish(g, height, width, i, j))
  {
    match Locate(g, 0, 0)
    case None =>
    case Some(zero) =>
      MoveZeroApplied(g, height, width, zero.0, zero.1, i, j - 1);
  }

  lemma Row1Applied(g: Grid, height: nat, width: nat, j: int)
    requires IsGrid(g, height, width) && UniqueBlank(g)
    ensures Applied(g, height, width, Row1Run(g, height, width, j))
  {
    if j > 1 && Row1(g, height, width, j) {
      match Position(g, width, 1, j)
      case None =>
      case Some(tile) =>
        var r1 := MoveZeroRun(g, height, width, 1, j, tile.0, tile.1);
        MoveZeroApplied(g, height, width, 1, j, tile.0, tile.1);
        if r1.ok {
          match PrevPosition(r1.moves, tile.0, tile.1)
          case None =>
          case Some(prev) =>
            var r2 := PositionTileRun(r1.grid, height, width, tile.0, tile.1, prev.0, prev.1, 1, j);
            PositionTileApplied(r1.grid, height, width, tile.0, tile.1, prev.0, prev.1, 1, j);
            Chain(g, height, width, r1, r2);
            if r2.ok {
              var r12 := Run(r2.grid, r1.moves + r2.moves, true);
              match Locate(r2.grid, 0, 0)
              case None =>
              case Some(zero) =>
                var r3 := MoveZeroRun(r2.grid, height, width, zero.0, zero.1, 0, j);
                MoveZeroApplied(r2.grid, height, width, zero.0, zero.1, 0, j);
                Chain(g, height, width, r12, r3);
            }
        }
    }
  }

  lemma Col0FinishApplied(g: Grid, height: nat, width: nat, i: int, zeroRow: int,
                          zeroCol: int, trackUp: bool)
    requires IsGrid(g, height, width) && UniqueBlank(g)
    requires InGrid(height, width, zeroRow, zeroCol) && g[zeroRow][zeroCol] == 0
    ensures Applied(g, height, width, Col0Finish(g, height, width, i, zeroRow, zeroCol, trackUp))
  {
    var up := zeroRow == i - 1 && zeroCol != 0;
    var r4 := if up then Apply(g, height, width, "u") else Run(g, "", true);
    if up {
      ApplyApplied(g, height, width, "u");
    } else {
      EmptyApplied(g, height, width);
    }
    if r4.ok {
      var r5 := MoveZeroRun(r4.grid, height, width,
                  if up && trackUp then zeroRow - 1 else zeroRow, zeroCol, i - 1, 0);
      MoveZeroApplied(r4.grid, height, width,
        if up && trackUp then zeroRow - 1 else zeroRow, zeroCol, i - 1, 0);
      Chain(g, height, width, r4, r5);
      if r5.ok {
        var r45 := Run(r5.grid, r4.moves + r5.moves, true);
        var r6 := Apply(r5.grid, height, width, Col0Moves);
        ApplyApplied(r5.grid, height, width, Col0Moves);
        Chain(g, height, width, r45, r6);
      }
    }
  }

  lemma Col0BranchApplied(g: Grid, height: nat, width: nat, i: int, movesBefore: string,
                          row: int, col: int, trackUp: bool)
    requires IsGrid(g, height, width) && UniqueBlank(g)
    ensures Applied(g, height, width, Col0Branch(g, height, width, i, movesBefore, row, col, trackUp))
  {
    var r2 := MoveZeroRun(g, height, width, i - 1, 1, row, col);
    MoveZeroApplied(g, height, width, i - 1, 1, row, col);
    if r2.ok {
      match PrevPosition(movesBefore + r2.moves, row, col)
      case None =>
      case Some(prev) =>
        var r3 := PositionTileRun(r2.grid, height, width, row, col, prev.0, prev.1, i - 1, 1);
        PositionTileApplied(r2.grid, height, width, row, col, prev.0, prev.1, i - 1, 1);
        Chain(g, height, width, r2, r3);
        if r3.ok {
          var r23 := Run(r3.grid, r2.moves + r3.moves, true);
          AppliedKeeps(g, height, width, r23);
          match Locate(r3.grid, 0, 0)
          case None =>
          case Some(zero) =>
            var r4 := Col0Finish(r3.grid, height, width, i, zero.0, zero.1, trackUp);
            Col0FinishApplied(r3.grid, height, width, i, zero.0, zero.1, trackUp);
            Chain(g, height, width, r23, r4);
        }
    }
  }

  lemma Col0PlaceApplied(g: Grid, height: nat, width: nat, i: int, movesBefore: string,
                         trackUp: bool)
    requires IsGrid(g, height, width) && UniqueBlank(g) && HasBlank(g, height, width)
    ensures Applied(g, height, width, Col0Place(g, height, width, i, movesBefore, trackUp))
  {
    match Position(g, width, i, 0)
    case None =>
    case Some(tile) =>
      if !(tile.0 == i && tile.1 == 0) {
        Col0BranchApplied(g, height, width, i, movesBefore, tile.0, tile.1, trackUp);
      } else {
        EmptyApplied(g, height, width);
      }
  }

  lemma Col0Applied(g: Grid, height: nat, width: nat, i: int, trackUp: bool)
    requires IsGrid(g, height, width) && UniqueBlank(g)
    ensures Applied(g, height, width, Col0Steps(g, height, width, i, trackUp))
  {
    if LowerRow(g, height, width, i, 0) {
      var r1 := MoveZeroRun(g, height, width, i, 0, i - 1, 1);
      MoveZeroApplied(g, height, width, i, 0, i - 1, 1);
      if r1.ok {
        var r5 := Col0Place(r1.grid, height, width, i, r1.moves, trackUp);
        AppliedKeeps(g, height, width, r1);
        assert InGrid(height, width, i - 1, 1) && r1.grid[i - 1][1] == 0;
        Col0PlaceApplied(r1.grid, height, width, i, r1.moves, trackUp);
        Chain(g, height, width, r1, r5);
        if r5.ok {
          var r15 := Run(r5.grid, r1.moves + r5.moves, true);
          var r6 := MoveZeroRun(r5.grid, height, width, i - 1, 1, i - 1, width - 1);
          MoveZeroApplied(r5.grid, height, width, i - 1, 1, i - 1, width - 1);
          Chain(g, height, width, r15, r6);
        }
      }
    }
  }

  lemma Row0FinishApplied(g: Grid, height: nat, width: nat, j: int, zeroRow: int, zeroCol: int)
    requires IsGrid(g, height, width) && UniqueBlank(g)
    ensures Applied(g, height, width, Row0Finish(g, height, width, j, zeroRow, zeroCol))
  {
    var r4 := MoveZeroRun(g, height, width, zeroRow, zeroCol, 1, j - 2);
    MoveZeroApplied(g, height, width, zeroRow, zeroCol, 1, j - 2);
    if r4.ok {
      var r5 := Apply(r4.grid, height, width, Row0Moves);
      ApplyApplied(r4.grid, height, width, Row0Moves);
      Chain(g, height, width, r4, r5);
    }
  }

  lemma Row0BranchApplied(g: Grid, height: nat, width: nat, j: int, movesBefore: string,
                          row: int, col: int)
    requires IsGrid(g, height, width) && UniqueBlank(g)
    ensures Applied(g, height, width, Row0Branch(g, height, width, j, movesBefore, row, col))
  {
    var r2 := MoveZeroRun(g, height, width, 1, j - 1, row, col);
    MoveZeroApplied(g, height, width, 1, j - 1, row, col);
    if r2.ok {
      match PrevPosition(movesBefore + r2.moves, row, col)
      case None =>
      case Some(prev) =>
        var r3 := PositionTileRun(r2.grid, height, width, row, col, prev.0, prev.1, 1, j - 1);
        PositionTileApplied(r2.grid, height, width, row, col, prev.0, prev.1, 1, j - 1);
        Chain(g, height, width, r2, r3);
        if r3.ok {
          var r23 := Run(r3.grid, r2.moves + r3.moves, true);
          AppliedKeeps(g, height, width, r23);
          match Locate(r3.grid, 0, 0)
          case None =>
          case Some(zero) =>
            var r4 := Row0Finish(r3.grid, height, width, j, zero.0, zero.1);
            Row0FinishApplied(r3.grid, height, width, j, zero.0, zero.1);
            Chain(g, height, width, r23, r4);
        }
    }
  }

  lemma Row0Applied(g: Grid, height: nat, width: nat, j: int)
    requires IsGrid(g, height, width) && UniqueBlank(g)
    ensures Applied(g, height, width, Row0Run(g, height, width, j))
  {
    if j > 1 && Row0(g, height, width, j) {
      Row0PlaceApplied(g, height, width, j);
    }
  }

  lemma Row0PlaceApplied(g: Grid, height: nat, width: nat, j: int)
    requires IsGrid(g, height, width) && UniqueBlank(g)
    ensures Applied(g, height, width, Row0Place(g, height, width, j))
  {
    var r1 := MoveZeroRun(g, height, width, 0, j, 1, j - 1);
    MoveZeroApplied(g, height, width, 0, j, 1, j - 1);
    if r1.ok {
      AppliedKeeps(g, height, width, r1);
      Row0RestApplied(r1.grid, height, width, j, r1.moves);
      Chain(g, height, width, r1, Row0Rest(r1.grid, height, width, j, r1.moves));
    }
  }

  lemma Row0RestApplied(g: Grid, height: nat, width: nat, j: int, movesBefore: string)
    requires IsGrid(g, height, width) && UniqueBlank(g) && HasBlank(g, height, width)
    ensures Applied(g, height, width, Row0Rest(g, height, width, j, movesBefore))
  {
    match Position(g, width, 0, j)
    case None =>
    case Some(tile) =>
      if !(tile.0 == 0 && tile.1 == j) {
        Row0BranchApplied(g, height, width, j, movesBefore, tile.0, tile.1);
      } else {
        EmptyApplied(g, height, width);
      }
  }

  // solve_2x2

  /** The rotations keep the moves before them in front of their own. */
  lemma {:induction false} RotationsApplied(g: Grid, height: nat, width: nat, rotation: string,
                                            left: nat)
    requires IsGrid(g, height, width) && UniqueBlank(g)
    ensures Applied(g, height, width, Rotations(g, height, width, rotation, left))
    decreases left, 1
  {
    if left > 0 {
      match BlockCheck(g, height, width)
      case None =>
      case Some(solved) =>
        if solved {
          assert InGrid(height, width, 0, 0) && g[0][0] == 0;
          EmptyApplied(g, height, width);
        } else {
          RotateApplied(g, height, width, rotation, left);
        }
    }
  }

  /** One rotation of an unsolved block, and the iterations after it. */
  lemma {:induction false} RotateApplied(g: Grid, height: nat, width: nat, rotation: string,
                                         left: nat)
    requires IsGrid(g, height, width) && UniqueBlank(g)
    requires left > 0 && BlockCheck(g, height, width) == Some(false)
    ensures Applied(g, height, width, Rotations(g, height, width, rotation, left))
    decreases left, 0
  {
    var t := Apply(g, height, width, rotation);
    ApplyApplied(g, height, width, rotation);
    if t.ok {
      AppliedKeeps(g, height, width, t);
      RotationsApplied(t.grid, height, width, rotation, left - 1);
      ThenApplied(g, height, width, t, Rotations(t.grid, height, width, rotation, left - 1));
    }
  }

  lemma Solve2x2Applied(g: Grid, height: nat, width: nat)
    requires IsGrid(g, height, width) && UniqueBlank(g)
    ensures Applied(g, height, width, Solve2x2Run(g, height, width))
  {
    match Locate(g, 0, 0)
    case None =>
    case Some(zero) =>
      var r1 := MoveZeroRun(g, height, width, zero.0, zero.1, 0, 0);
      MoveZeroApplied(g, height, width, zero.0, zero.1, 0, 0);
      if r1.ok {
        AppliedKeeps(g, height, width, r1);
        RotationsApplied(r1.grid, height, width, RotationMoves, 3);
        ThenApplied(g, height, width, r1, Rotations(r1.grid, height, width, RotationMoves, 3));
      }
  }

  // solve_puzzle

  lemma {:induction false} RowTilesApplied(g: Grid, height: nat, width: nat, row: int, col: int,
                                             trackUp: bool)
    requires IsGrid(g, height, width) && UniqueBlank(g) && HasBlank(g, height, width)
    ensures Applied(g, height, width, RowTiles(g, height, width, row, col, trackUp))
    decreases col
  {
    if col < 0 {
      EmptyApplied(g, height, width);
    } else {
      var r1 := if col != 0 then InteriorRun(g, height, width, row, col)
                else Col0Steps(g, height, width, row, trackUp);
      if col != 0 {
        InteriorApplied(g, height, width, row, col);
      } else {
        Col0Applied(g, height, width, row, trackUp);
      }
      if r1.ok {
        AppliedKeeps(g, height, width, r1);
        RowTilesApplied(r1.grid, height, width, row, col - 1, trackUp);
        ThenApplied(g, height, width, r1, RowTiles(r1.grid, height, width, row, col - 1, trackUp));
      }
    }
  }

  lemma {:induction false} LowerRowsApplied(g: Grid, height: nat, width: nat, row: int,
                                              trackUp: bool)
    requires IsGrid(g, height, width) && UniqueBlank(g) && HasBlank(g, height, width)
    ensures Applied(g, height, width, LowerRows(g, height, width, row, trackUp))
    decreases row
  {
    if row <= 1 {
      EmptyApplied(g, height, width);
    } else {
      var r1 := RowTiles(g, height, width, row, width - 1, trackUp);
      RowTilesApplied(g, height, width, row, width - 1, trackUp);
      if r1.ok {
        AppliedKeeps(g, height, width, r1);
        LowerRowsApplied(r1.grid, height, width, row - 1, trackUp);
        ThenApplied(g, height, width, r1, LowerRows(r1.grid, height, width, row - 1, trackUp));
      }
    }
  }

  lemma {:induction false} TopRowsApplied(g: Grid, height: nat, width: nat, col: int)
    requires IsGrid(g, height, width) && UniqueBlank(g) && HasBlank(g, height, width)
    ensures Applied(g, height, width, TopRows(g, height, width, col))
    decreases col, 1
  {
    if col <= 1 {
      EmptyApplied(g, height, width);
    } else {
      var r1 := Row1Run(g, height, width, col);
      Row1Applied(g, height, width, col);
      if r1.ok {
        AppliedKeeps(g, height, width, r1);
        TopRowsFrom0Applied(r1.grid, height, width, col);
        ThenApplied(g, height, width, r1, TopRowsFrom0(r1.grid, height, width, col));
      }
    }
  }

  lemma {:induction false} TopRowsFrom0Applied(g: Grid, height: nat, width: nat, col: int)
    requires IsGrid(g, height, width) && UniqueBlank(g) && HasBlank(g, height, width)
    ensures Applied(g, height, width, TopRowsFrom0(g, height, width, col))
    decreases col, 0
  {
    var r0 := Row0Run(g, height, width, col);
    Row0Applied(g, height, width, col);
    if r0.ok {
      AppliedKeeps(g, height, width, r0);
      TopRowsApplied(r0.grid, height, width, col - 1);
      ThenApplied(g, height, width, r0, TopRows(r0.grid, height, width, col - 1));
    }
  }

  /** `solve_puzzle`'s move string, as written or corrected, replayed from the grid it
      started on, gives the grid it left. */
  lemma SolveApplied(g: Grid, height: nat, width: nat, trackUp: bool)
    requires IsGrid(g, height, width) && UniqueBlank(g)
    ensures Applied(g, height, width, SolveRun(g, height, width, trackUp))
  {
    match Locate(g, 0, 0)
    case None =>
    case Some(zero) =>
      var r1 := MoveZeroRun(g, height, width, zero.0, zero.1, height - 1, width - 1);
      MoveZeroApplied(g, height, width, zero.0, zero.1, height - 1, width - 1);
      if r1.ok {
        AppliedKeeps(g, height, width, r1);
        SolveLowerApplied(r1.grid, height, width, trackUp);
        ThenApplied(g, height, width, r1, SolveLower(r1.grid, height, width, trackUp));
      }
  }

  lemma SolveLowerApplied(g: Grid, height: nat, width: nat, trackUp: bool)
    requires IsGrid(g, height, width) && UniqueBlank(g) && HasBlank(g, height, width)
    ensures Applied(g, height, width, SolveLower(g, height, width, trackUp))
  {
    var r2 := LowerRows(g, height, width, height - 1, trackUp);
    LowerRowsApplied(g, height, width, height - 1, trackUp);
    if r2.ok {
      AppliedKeeps(g, height, width, r2);
      SolveUpperApplied(r2.grid, height, width);
      ThenApplied(g, height, width, r2, SolveUpper(r2.grid, height, width));
    }
  }

  lemma SolveUpperApplied(g: Grid, height: nat, width: nat)
    requires IsGrid(g, height, width) && UniqueBlank(g) && HasBlank(g, height, width)
    ensures Applied(g, height, width, SolveUpper(g, height, width))
  {
    var r3 := TopRows(g, height, width, width - 1);
    TopRowsApplied(g, height, width, width - 1);
    if r3.ok {
      AppliedKeeps(g, height, width, r3);
      Solve2x2Applied(r3.grid, height, width);
      ThenApplied(g, height, width, r3, Solve2x2Run(r3.grid, height, width));
    }
  }
}
