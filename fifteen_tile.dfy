/** poc_fifteen.py: what `position_tile` promises, "moves tile from (row, col) to target
    position". A move string is followed on positions alone (the blank and one tile), and a
    successful `update_puzzle` is shown to carry the tile's number along that track. */
module FifteenTile {
  import opened PyList
  import opened FifteenGrid
  import opened FifteenSolver
  import opened FifteenMoves

  /** The blank at (zeroRow, zeroCol) and the tracked tile at (row, col). */
  datatype Spot = Spot(zeroRow: int, zeroCol: int, row: int, col: int)

  /** One move: the blank goes one cell in its direction, and the tile moves into the
      blank's old cell when it is the neighbour the blank swaps with. */
  function TrackStep(p: Spot, direction: char): Spot
  {
    var zr, zc := p.zeroRow + DeltaRow(direction), p.zeroCol + DeltaCol(direction);
    if zr == p.row && zc == p.col then Spot(zr, zc, p.zeroRow, p.zeroCol)
    else Spot(zr, zc, p.row, p.col)
  }

  /** The moves followed one after another on positions. */
  function Track(p: Spot, moves: string): Spot
    decreases |moves|
  {
    if moves == [] then p else Track(TrackStep(p, moves[0]), moves[1..])
  }

  /** The tile at (row, col) with the blank at offset (dr, dc) from it. */
  function At(row: int, col: int, dr: int, dc: int): Spot
  {
    Spot(row + dr, col + dc, row, col)
  }

  /** `piece` moves the tile by (mr, mc) wherever it is, when the blank starts at offset
      (dr, dc) from it, and leaves the blank at that offset again. */
  ghost predicate Shifts(piece: string, dr: int, dc: int, mr: int, mc: int)
  {
    forall row, col :: Track(At(row, col, dr, dc), piece) == At(row + mr, col + mc, dr, dc)
  }

  /** Following `a + b` is following `a`, then `b`. */
  lemma {:induction false} TrackAppend(p: Spot, a: string, b: string)
    ensures Track(p, a + b) == Track(Track(p, a), b)
    decreases |a|
  {
    if a == [] {
      assert a + b == b;
    } else {
      assert (a + b)[0] == a[0] && (a + b)[1..] == a[1..] + b;
      TrackAppend(TrackStep(p, a[0]), a[1..], b);
    }
  }

  /** A five-move piece is five steps. */
  lemma TrackFive(p: Spot, piece: string)
    requires |piece| == 5
    ensures Track(p, piece) ==
      TrackStep(TrackStep(TrackStep(TrackStep(TrackStep(p, piece[0]), piece[1]), piece[2]),
                          piece[3]), piece[4])
  {
    var p1 := TrackStep(p, piece[0]);
    var p2 := TrackStep(p1, piece[1]);
    var p3 := TrackStep(p2, piece[2]);
    var p4 := TrackStep(p3, piece[3]);
    var s1 := piece[1..];
    var s2 := s1[1..];
    var s3 := s2[1..];
    var s4 := s3[1..];
    assert s1[0] == piece[1] && s2[0] == piece[2] && s3[0] == piece[3] && s4[0] == piece[4];
    assert s4[1..] == [];
    assert Track(p4, s4) == TrackStep(p4, piece[4]);
    assert Track(p3, s3) == Track(p4, s4);
    assert Track(p2, s2) == Track(p3, s3);
    assert Track(p1, s1) == Track(p2, s2);
  }

  /** `ulldr` and `dllur` move the tile one column left with the blank on its right. */
  lemma LeftCycles()
    ensures Shifts("ulldr", 0, 1, 0, -1) && Shifts("dllur", 0, 1, 0, -1)
  {
    forall row, col ensures Track(At(row, col, 0, 1), "ulldr") == At(row, col - 1, 0, 1) {
      TrackFive(At(row, col, 0, 1), "ulldr");
    }
    forall row, col ensures Track(At(row, col, 0, 1), "dllur") == At(row, col - 1, 0, 1) {
      TrackFive(At(row, col, 0, 1), "dllur");
    }
  }

  /** `urrdl` and `drrul` move the tile one column right with the blank on its left. */
  lemma RightCycles()
    ensures Shifts("urrdl", 0, -1, 0, 1) && Shifts("drrul", 0, -1, 0, 1)
  {
    forall row, col ensures Track(At(row, col, 0, -1), "urrdl") == At(row, col + 1, 0, -1) {
      TrackFive(At(row, col, 0, -1), "urrdl");
    }
    forall row, col ensures Track(At(row, col, 0, -1), "drrul") == At(row, col + 1, 0, -1) {
      TrackFive(At(row, col, 0, -1), "drrul");
    }
  }

  /** `lddru` and `rddlu` move the tile one row down with the blank above it. */
  lemma DownCycles()
    ensures Shifts("lddru", -1, 0, 1, 0) && Shifts("rddlu", -1, 0, 1, 0)
  {
    forall row, col ensures Track(At(row, col, -1, 0), "lddru") == At(row + 1, col, -1, 0) {
      TrackFive(At(row, col, -1, 0), "lddru");
    }
    forall row, col ensures Track(At(row, col, -1, 0), "rddlu") == At(row + 1, col, -1, 0) {
      TrackFive(At(row, col, -1, 0), "rddlu");
    }
  }

  /** `piece * n` shifts the tile n times as far as `piece` does. */
  lemma {:induction false} RepeatShifts(piece: string, n: nat, dr: int, dc: int, mr: int, mc: int)
    requires Shifts(piece, dr, dc, mr, mc)
    ensures Shifts(Repeat(piece, n), dr, dc, n * mr, n * mc)
  {
    if n > 0 {
      RepeatShifts(piece, n - 1, dr, dc, mr, mc);
      forall row, col
        ensures Track(At(row, col, dr, dc), Repeat(piece, n)) ==
                At(row + n * mr, col + n * mc, dr, dc)
      {
        TrackAppend(At(row, col, dr, dc), Repeat(piece, n - 1), piece);
        assert Track(At(row, col, dr, dc), Repeat(piece, n - 1)) ==
               At(row + (n - 1) * mr, col + (n - 1) * mc, dr, dc);
      }
    }
  }

  /** The turn of the row branch of `position_tile` takes the blank from beside the tile to
      above it (`ur`, `ul`), or takes the tile down a row with the blank above it (`dru`,
      `dlu`). */
  lemma TurnTracks(row: int, col: int)
    ensures Track(At(row, col, 0, -1), "ur") == At(row, col, -1, 0)
    ensures Track(At(row, col, 0, 1), "ul") == At(row, col, -1, 0)
    ensures Track(At(row, col, 0, -1), "dru") == At(row + 1, col, -1, 0)
    ensures Track(At(row, col, 0, 1), "dlu") == At(row + 1, col, -1, 0)
  {
  }

  /** Where `position_tile` needs the blank when the tile still has to change column: on
      the tile's right to move it left, on its left to move it right. The callers' moves
      of the blank onto the tile leave it there. */
  predicate TileEntry(zeroRow: int, zeroCol: int, row: int, col: int, targetCol: int)
  {
    (col > targetCol ==> zeroRow == row && zeroCol == col + 1) &&
    (col < targetCol ==> zeroRow == row && zeroCol == col - 1)
  }

  /** The callers establish `TileEntry`: the blank is taken from the target (targetRow,
      targetCol) up and across onto the tile at (zeroRow, zeroCol), which is not below the
      target, and `prev_position` of the moves so far names the tile's new cell, where the
      last move leaves the blank on the side `TileEntry` asks for. */
  lemma CallerEntry(before: string, targetRow: int, targetCol: int, zeroRow: int, zeroCol: int)
    requires zeroRow <= targetRow && (zeroRow, zeroCol) != (targetRow, targetCol)
    ensures var pos := PrevPosition(before + ZeroMoves(targetRow, targetCol, zeroRow, zeroCol),
                                    zeroRow, zeroCol);
            pos.Some? && TileEntry(zeroRow, zeroCol, pos.value.0, pos.value.1, targetCol)
  {
    var up := if zeroRow < targetRow then Repeat("u", targetRow - zeroRow) else "";
    var across := if zeroCol < targetCol then Repeat("l", targetCol - zeroCol)
                  else if targetCol < zeroCol then Repeat("r", zeroCol - targetCol) else "";
    var moves := before + ZeroMoves(targetRow, targetCol, zeroRow, zeroCol);
    assert moves == before + up + across + "";
    if across != "" {
      var d := if zeroCol < targetCol then 'l' else 'r';
      var n := Abs(targetCol - zeroCol);
      RepeatMove(d, n);
      assert across == Repeat([d], n);
      assert moves[|moves| - 1] == across[|across| - 1] == d;
    } else {
      RepeatMove('u', targetRow - zeroRow);
      assert up == Repeat(['u'], targetRow - zeroRow) && |up| > 0;
      assert moves[|moves| - 1] == up[|up| - 1] == 'u';
    }
  }

  /** The moves `position_tile`'s loop builds take the tile to the target. */
  lemma {:induction false} TileMovesReach(zeroRow: int, zeroCol: int, row: int, col: int,
                                          targetRow: int, targetCol: int)
    requires TileEntry(zeroRow, zeroCol, row, col, targetCol)
    requires TileMoves(zeroRow, zeroCol, row, col, targetRow, targetCol).Some?
    ensures var q := Track(Spot(zeroRow, zeroCol, row, col),
                           TileMoves(zeroRow, zeroCol, row, col, targetRow, targetCol).value);
            q.row == targetRow && q.col == targetCol
    decreases TileMeasure(row, col, targetRow, targetCol)
  {
    var p := Spot(zeroRow, zeroCol, row, col);
    var moves := TileMoves(zeroRow, zeroCol, row, col, targetRow, targetCol).value;
    if row == targetRow && col == targetCol {
    } else if col != targetCol {
      var diff := targetCol - col;
      var piece := if col > targetCol then (if row > 0 then "ulldr" else "dllur")
                   else (if row > 0 then "urrdl" else "drrul");
      var rest := TileMoves(zeroRow, zeroCol + diff, row, col + diff, targetRow, targetCol);
      assert moves == Repeat(piece, Abs(diff)) + rest.value;
      var mid := Spot(zeroRow, zeroCol + diff, row, col + diff);
      if col > targetCol {
        LeftCycles();
        RepeatShifts(piece, Abs(diff), 0, 1, 0, -1);
        assert Abs(diff) * -1 == diff;
        assert p == At(row, col, 0, 1) && mid == At(row, col + diff, 0, 1);
      } else {
        RightCycles();
        RepeatShifts(piece, Abs(diff), 0, -1, 0, 1);
        assert Abs(diff) * 1 == diff;
        assert p == At(row, col, 0, -1) && mid == At(row, col + diff, 0, -1);
      }
      assert Track(p, Repeat(piece, Abs(diff))) == mid;
      TrackAppend(p, Repeat(piece, Abs(diff)), rest.value);
      TileMovesReach(zeroRow, zeroCol + diff, row, col + diff, targetRow, targetCol);
    } else {
      var zeroRow1 := if col != zeroCol && row > 0 then zeroRow - 1 else zeroRow;
      var row1 := if col != zeroCol && row <= 0 then row + 1 else row;
      var zeroCol1 := if col == zeroCol then zeroCol else if col > zeroCol then zeroCol + 1 else zeroCol - 1;
      var turn := if col == zeroCol then ""
                  else if row > 0 then (if col > zeroCol then "ur" else "ul")
                  else (if col > zeroCol then "dru" else "dlu");
      var diff := targetRow - row1;
      var piece := if col > 0 then "lddru" else "rddlu";
      var rest := TileMoves(zeroRow1 + diff, zeroCol1, row1 + diff, col, targetRow, targetCol);
      assert rest == Some("");
      assert moves == turn + Repeat(piece, diff) + "";
      assert TileLoopOk(zeroRow, zeroCol, row, col, targetRow);
      TurnTracks(row, col);
      if col == zeroCol {
        assert p == At(row, col, -1, 0);
      } else if col > zeroCol {
        assert p == At(row, col, 0, -1);
      } else {
        assert p == At(row, col, 0, 1);
      }
      assert Track(p, turn) == At(row1, col, -1, 0);
      DownCycles();
      assert diff >= 0;
      RepeatShifts(piece, diff, -1, 0, 1, 0);
      assert diff * 1 == diff && diff * 0 == 0;
      assert Track(At(row1, col, -1, 0), Repeat(piece, diff)) == At(targetRow, col, -1, 0);
      TrackAppend(p, turn, Repeat(piece, diff));
      assert moves == turn + Repeat(piece, diff);
    }
  }

  /** One successful move carries the tracked tile's number to where `TrackStep` puts it. */
  lemma StepTracks(s: Slide, height: int, width: int, direction: char, p: Spot)
    requires SlideOk(s, height, width) && BlankAt(s) && !s.failed
    requires p.zeroRow == s.zeroRow && p.zeroCol == s.zeroCol
    requires InGrid(height, width, p.row, p.col) && (p.row, p.col) != (p.zeroRow, p.zeroCol)
    ensures var t := Step(s, height, width, direction); var q := TrackStep(p, direction);
            !t.failed ==>
              t.zeroRow == q.zeroRow && t.zeroCol == q.zeroCol &&
              InGrid(height, width, q.row, q.col) && (q.row, q.col) != (q.zeroRow, q.zeroCol) &&
              t.grid[q.row][q.col] == s.grid[p.row][p.col]
  {
    var t := Step(s, height, width, direction);
    if !t.failed {
      var zr, zc := s.zeroRow + DeltaRow(direction), s.zeroCol + DeltaCol(direction);
      var q := TrackStep(p, direction);
      assert t.grid == SlideTile(s.grid, s.zeroRow, s.zeroCol, zr, zc);
      SlideTileCell(s.grid, s.zeroRow, s.zeroCol, zr, zc, q.row, q.col);
    }
  }

  /** A successful run of moves carries the tile's number along its track, and the blank
      is where the track puts it. */
  lemma {:induction false} SlideAllTracks(s: Slide, height: int, width: int, moves: string,
                                          p: Spot)
    requires SlideOk(s, height, width) && BlankAt(s) && !s.failed
    requires p.zeroRow == s.zeroRow && p.zeroCol == s.zeroCol
    requires InGrid(height, width, p.row, p.col) && (p.row, p.col) != (p.zeroRow, p.zeroCol)
    ensures var t := SlideAll(s, height, width, moves); var q := Track(p, moves);
            !t.failed ==>
              t.zeroRow == q.zeroRow && t.zeroCol == q.zeroCol &&
              InGrid(height, width, q.row, q.col) && (q.row, q.col) != (q.zeroRow, q.zeroCol) &&
              t.grid[q.row][q.col] == s.grid[p.row][p.col]
    decreases |moves|
  {
    if moves != [] {
      var d := moves[0];
      assert moves == [d] + moves[1..];
      SlideAllAppend(s, height, width, [d], moves[1..]);
      SlideAllOne(s, height, width, d);
      var s1 := Step(s, height, width, d);
      if s1.failed {
        SlideAllFailed(s1, height, width, moves[1..]);
      } else {
        StepTracks(s, height, width, d, p);
        StepBlank(s, height, width, d);
        SlideAllTracks(s1, height, width, moves[1..], TrackStep(p, d));
      }
    }
  }

  /** `position_tile` moves the tile from (row, col) to (targetRow, targetCol): when it
      succeeds, the number that was at (row, col) is at the target. */
  lemma PositionTilePlaces(g: Grid, height: nat, width: nat, zeroRow: int, zeroCol: int,
                           row: int, col: int, targetRow: int, targetCol: int)
    requires IsGrid(g, height, width) && UniqueBlank(g)
    requires InGrid(height, width, row, col)
    requires TileEntry(zeroRow, zeroCol, row, col, targetCol)
    ensures var r := PositionTileRun(g, height, width, zeroRow, zeroCol, row, col,
                                     targetRow, targetCol);
            r.ok ==> InGrid(height, width, targetRow, targetCol) &&
                     r.grid[targetRow][targetCol] == g[row][col]
  {
    var r := PositionTileRun(g, height, width, zeroRow, zeroCol, row, col, targetRow, targetCol);
    if r.ok {
      var moves := TileMoves(zeroRow, zeroCol, row, col, targetRow, targetCol).value;
      LocateBlank(g, zeroRow, zeroCol);
      var s := Slide(g, zeroRow, zeroCol, false);
      assert Update(g, height, width, moves) == SlideAll(s, height, width, moves);
      if row == targetRow && col == targetCol {
        assert moves == "";
      } else {
        TileMovesReach(zeroRow, zeroCol, row, col, targetRow, targetCol);
        SlideAllTracks(s, height, width, moves, Spot(zeroRow, zeroCol, row, col));
      }
    }
  }
}
