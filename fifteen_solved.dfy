/** poc_fifteen.py: a `solve_puzzle` that succeeds leaves the solved puzzle. Each loop of the
    solver ends in the invariant the next one starts from, and `solve_2x2` only moves the
    blank inside the top left block, so the cells already solved stay solved. */
module FifteenSolved {
  import opened PyList
  import opened FifteenGrid
  import opened FifteenSolver
  import opened FifteenProofs

  // the ends of the loops

  /** Row `row` from column `col` down to 0 ends with the blank at the end of the row above,
      and everything after it solved. */
  lemma {:induction false} RowTilesEnds(g: Grid, height: nat, width: nat, row: int, col: int,
                                          trackUp: bool)
    requires IsGrid(g, height, width)
    ensures var r := RowTiles(g, height, width, row, col, trackUp);
      r.ok && col >= 0 ==> LowerRow(r.grid, height, width, row - 1, width - 1)
    decreases col
  {
    if col > 0 {
      var r1 := InteriorRun(g, height, width, row, col);
      if r1.ok {
        RowTilesEnds(r1.grid, height, width, row, col - 1, trackUp);
      }
    }
  }

  /** The lower rows end with the blank at the end of row 1 and rows 2 and below solved. */
  lemma {:induction false} LowerRowsEnds(g: Grid, height: nat, width: nat, row: int, trackUp: bool)
    requires IsGrid(g, height, width)
    ensures var r := LowerRows(g, height, width, row, trackUp);
      r.ok && row > 1 && width > 0 ==> LowerRow(r.grid, height, width, 1, width - 1)
    decreases row
  {
    if row > 1 && width > 0 {
      var r1 := RowTiles(g, height, width, row, width - 1, trackUp);
      RowTilesEnds(g, height, width, row, width - 1, trackUp);
      if r1.ok && row > 2 {
        LowerRowsEnds(r1.grid, height, width, row - 1, trackUp);
      }
    }
  }

  /** The top rows from column `col` end with the blank at (1, 1) and everything outside the
      top left block solved. */
  lemma {:induction false} TopRowsEnds(g: Grid, height: nat, width: nat, col: int)
    requires IsGrid(g, height, width)
    ensures var r := TopRows(g, height, width, col);
      r.ok && col > 1 ==> Row1(r.grid, height, width, 1)
    decreases col, 1
  {
    if col > 1 {
      var r1 := Row1Run(g, height, width, col);
      if r1.ok {
        TopRowsFrom0Ends(r1.grid, height, width, col);
      }
    }
  }

  lemma {:induction false} TopRowsFrom0Ends(g: Grid, height: nat, width: nat, col: int)
    requires IsGrid(g, height, width)
    ensures var r := TopRowsFrom0(g, height, width, col);
      r.ok && col > 1 ==> Row1(r.grid, height, width, 1)
    decreases col, 0
  {
    var r0 := Row0Run(g, height, width, col);
    if r0.ok && col > 2 {
      TopRowsEnds(r0.grid, height, width, col - 1);
    }
  }

  /** The invariant the lower rows end in is the one the top rows start from. */
  lemma LowerRowRow1(g: Grid, height: nat, width: nat)
    requires IsGrid(g, height, width) && LowerRow(g, height, width, 1, width - 1)
    ensures Row1(g, height, width, width - 1)
  {
  }

  // the top left block

  /** The cells outside the top left block are the same in both grids. */
  ghost predicate SameOutside(a: Grid, b: Grid, height: nat, width: nat)
    requires IsGrid(a, height, width) && IsGrid(b, height, width)
  {
    forall r, c :: InGrid(height, width, r, c) && (r > 1 || c > 1) ==> a[r][c] == b[r][c]
  }

  lemma SameOutsideTrans(a: Grid, b: Grid, c: Grid, height: nat, width: nat)
    requires IsGrid(a, height, width) && IsGrid(b, height, width) && IsGrid(c, height, width)
    requires SameOutside(a, b, height, width) && SameOutside(b, c, height, width)
    ensures SameOutside(a, c, height, width)
  {
  }

  predicate InBlock(row: int, col: int)
  {
    0 <= row <= 1 && 0 <= col <= 1
  }

  /** Where the moves take the blank from (row, col) when it stays in the top left block all
      along; `None` when it leaves the block or a move is not a direction. */
  function BlockPath(row: int, col: int, moves: string): (p: Option<(int, int)>)
    ensures p.Some? ==> InBlock(p.value.0, p.value.1)
    decreases |moves|
  {
    if moves == [] then (if InBlock(row, col) then Some((row, col)) else None)
    else
      match BlockPath(row, col, moves[..|moves| - 1])
      case None => None
      case Some(p) =>
        var d := moves[|moves| - 1];
        if IsDirection(d) && InBlock(p.0 + DeltaRow(d), p.1 + DeltaCol(d))
        then Some((p.0 + DeltaRow(d), p.1 + DeltaCol(d))) else None
  }

  /** One move between two cells of the block changes no cell outside it. */
  lemma StepInBlock(p: Slide, height: nat, width: nat, direction: char)
    requires SlideOk(p, height, width) && !p.failed && InBlock(p.zeroRow, p.zeroCol)
    requires InBlock(p.zeroRow + DeltaRow(direction), p.zeroCol + DeltaCol(direction))
    ensures var t := Step(p, height, width, direction);
      !t.failed ==> SameOutside(p.grid, t.grid, height, width) &&
                    t.zeroRow == p.zeroRow + DeltaRow(direction) &&
                    t.zeroCol == p.zeroCol + DeltaCol(direction)
  {
    var t := Step(p, height, width, direction);
    if !t.failed {
      forall x, y | InGrid(height, width, x, y) && (x > 1 || y > 1)
        ensures p.grid[x][y] == t.grid[x][y]
      {
        SlideTileCell(p.grid, p.zeroRow, p.zeroCol, t.zeroRow, t.zeroCol, x, y);
      }
    }
  }

  /** Moves that keep the blank in the top left block change no cell outside it, and take
      the blank where `BlockPath` says. */
  lemma {:induction false} SlideAllInBlock(s: Slide, height: nat, width: nat, moves: string)
    requires SlideOk(s, height, width) && !s.failed
    requires BlockPath(s.zeroRow, s.zeroCol, moves).Some?
    ensures var t := SlideAll(s, height, width, moves);
      !t.failed ==> SameOutside(s.grid, t.grid, height, width) &&
                    (t.zeroRow, t.zeroCol) == BlockPath(s.zeroRow, s.zeroCol, moves).value
    decreases |moves|
  {
    if moves != [] {
      var front, d := moves[..|moves| - 1], moves[|moves| - 1];
      SlideAllInBlock(s, height, width, front);
      var p := SlideAll(s, height, width, front);
      var t := Step(p, height, width, d);
      assert SlideAll(s, height, width, moves) == t;
      if !t.failed {
        assert !p.failed;
        StepInBlock(p, height, width, d);
        SameOutsideTrans(s.grid, p.grid, t.grid, height, width);
      }
    }
  }

  /** The two move strings of `solve_2x2` keep the blank in the block: "ul" from (1, 1), and
      the rotation from (0, 0) back to (0, 0). */
  lemma BlockPaths()
    ensures BlockPath(1, 1, "ul") == Some((0, 0))
    ensures BlockPath(0, 0, RotationMoves) == Some((0, 0))
  {
    assert "ul"[..1] == "u" && "u"[..0] == "";
    assert RotationMoves[..3] == "rdl" && "rdl"[..2] == "rd" && "rd"[..1] == "r";
    assert "r"[..0] == "";
  }

  /** `update_puzzle` with moves that keep a single blank in the top left block. */
  lemma UpdateInBlock(g: Grid, height: nat, width: nat, moves: string, row: nat, col: nat)
    requires IsGrid(g, height, width) && UniqueBlank(g)
    requires InGrid(height, width, row, col) && g[row][col] == 0
    requires BlockPath(row, col, moves).Some?
    ensures var t := Update(g, height, width, moves);
      !t.failed ==> SameOutside(g, t.grid, height, width) &&
                    (t.zeroRow, t.zeroCol) == BlockPath(row, col, moves).value &&
                    t.grid[t.zeroRow][t.zeroCol] == 0 && UniqueBlank(t.grid)
  {
    LocateBlank(g, row, col);
    SlideAllInBlock(Slide(g, row, col, false), height, width, moves);
    UpdateUnique(g, height, width, moves);
  }

  /** `solve_2x2`'s rotations from the blank at (0, 0), for a rotation that brings it back
      there inside the block, leave every cell outside the block as it was. */
  lemma {:induction false} RotationsOutside(g: Grid, height: nat, width: nat, rotation: string,
                                            left: nat)
    requires IsGrid(g, height, width) && UniqueBlank(g)
    requires InGrid(height, width, 0, 0) && g[0][0] == 0
    requires BlockPath(0, 0, rotation) == Some((0, 0))
    ensures var r := Rotations(g, height, width, rotation, left);
      r.ok ==> SameOutside(g, r.grid, height, width)
    decreases left, 1
  {
    if left > 0 && BlockCheck(g, height, width) == Some(false) {
      RotateOutside(g, height, width, rotation, left);
    }
  }

  lemma {:induction false} RotateOutside(g: Grid, height: nat, width: nat, rotation: string,
                                         left: nat)
    requires IsGrid(g, height, width) && UniqueBlank(g)
    requires InGrid(height, width, 0, 0) && g[0][0] == 0
    requires BlockPath(0, 0, rotation) == Some((0, 0))
    requires left > 0 && BlockCheck(g, height, width) == Some(false)
    ensures var r := Rotations(g, height, width, rotation, left);
      r.ok ==> SameOutside(g, r.grid, height, width)
    decreases left, 0
  {
    var t := Apply(g, height, width, rotation);
    UpdateInBlock(g, height, width, rotation, 0, 0);
    if t.ok {
      var rest := Rotations(t.grid, height, width, rotation, left - 1);
      RotationsOutside(t.grid, height, width, rotation, left - 1);
      if rest.ok {
        SameOutsideTrans(g, t.grid, rest.grid, height, width);
      }
    }
  }

  /** `solve_2x2` from the blank at (1, 1) leaves the cells outside the block as they were,
      and the block solved. */
  lemma Solve2x2Outside(g: Grid, height: nat, width: nat)
    requires IsGrid(g, height, width) && UniqueBlank(g)
    requires InGrid(height, width, 1, 1) && g[1][1] == 0
    ensures var r := Solve2x2Run(g, height, width);
      r.ok ==> SameOutside(g, r.grid, height, width) && BlockSolved(r.grid, height, width)
  {
    LocateBlank(g, 1, 1);
    assert ZeroMoves(1, 1, 0, 0) == "ul";
    BlockPaths();
    var r1 := MoveZeroRun(g, height, width, 1, 1, 0, 0);
    UpdateInBlock(g, height, width, "ul", 1, 1);
    if r1.ok {
      RotationsOutside(r1.grid, height, width, RotationMoves, 3);
      var r2 := Rotations(r1.grid, height, width, RotationMoves, 3);
      if r2.ok {
        SameOutsideTrans(g, r1.grid, r2.grid, height, width);
      }
    }
  }

  /** A rotation in front of `n` rotations is `n + 1` rotations. */
  lemma {:induction false} RepeatFront(piece: string, n: nat)
    ensures piece + Repeat(piece, n) == Repeat(piece, n + 1)
  {
    if n > 0 {
      RepeatFront(piece, n - 1);
      assert piece + Repeat(piece, n) == (piece + Repeat(piece, n - 1)) + piece;
    }
  }

  /** The loop of `solve_2x2` with `left` iterations to go succeeds only after fewer than
      `left` rotations, and its moves are exactly those rotations. */
  lemma {:induction false} RotationsCount(g: Grid, height: nat, width: nat, rotation: string,
                                          left: nat)
    requires IsGrid(g, height, width)
    ensures var r := Rotations(g, height, width, rotation, left);
      r.ok ==> exists k :: 0 <= k < left && r.moves == Repeat(rotation, k)
    decreases left
  {
    var r := Rotations(g, height, width, rotation, left);
    if left > 0 && BlockCheck(g, height, width) == Some(false) {
      var t := Apply(g, height, width, rotation);
      if t.ok {
        RotationsCount(t.grid, height, width, rotation, left - 1);
        var rest := Rotations(t.grid, height, width, rotation, left - 1);
        if rest.ok {
          var k :| 0 <= k < left - 1 && rest.moves == Repeat(rotation, k);
          RepeatFront(rotation, k);
          assert r.moves == rotation + rest.moves;
        }
      }
    } else if r.ok {
      assert r.moves == Repeat(rotation, 0);
    }
  }

  // the solved grid

  /** A grid whose top left block is solved and whose other cells hold their solved numbers
      is the solved grid. */
  lemma GridSolved(g: Grid, height: nat, width: nat)
    requires IsGrid(g, height, width) && BlockSolved(g, height, width)
    requires UpperSolved(g, height, width, 1)
    ensures g == SolvedGrid(height, width)
  {
    var s := SolvedGrid(height, width);
    forall r | 0 <= r < height ensures g[r] == s[r] {
      forall c | 0 <= c < width ensures g[r][c] == s[r][c] {
        if r > 1 || c > 1 {
          assert g[r][c] == SolvedValue(width, r, c);
        }
      }
    }
  }

  // solve_puzzle

  /** The stages from the top rows on: when the lower rows are done by then (or there are
      none, in a puzzle two rows high), a success leaves the solved grid. */
  lemma SolveUpperSolved(g: Grid, height: nat, width: nat)
    requires IsGrid(g, height, width) && UniqueBlank(g) && HasBlank(g, height, width)
    requires width == 2 && height >= 2 ==> Row1(g, height, width, 1)
    ensures var r := SolveUpper(g, height, width);
      r.ok ==> r.grid == SolvedGrid(height, width)
  {
    var r3 := TopRows(g, height, width, width - 1);
    TopRowsEnds(g, height, width, width - 1);
    TopRowsApplied(g, height, width, width - 1);
    if r3.ok {
      AppliedKeeps(g, height, width, r3);
      var r4 := Solve2x2Run(r3.grid, height, width);
      if r4.ok {
        assert Row1(r3.grid, height, width, 1);
        Solve2x2Outside(r3.grid, height, width);
        forall r, c | 0 <= r < height && 0 <= c < width && (r > 1 || c > 1)
          ensures r4.grid[r][c] == SolvedValue(width, r, c)
        {
          assert r3.grid[r][c] == SolvedValue(width, r, c);
        }
        GridSolved(r4.grid, height, width);
      }
    }
  }

  /** The stages from the lower rows on. */
  lemma SolveLowerSolved(g: Grid, height: nat, width: nat, trackUp: bool)
    requires IsGrid(g, height, width) && UniqueBlank(g) && HasBlank(g, height, width)
    requires height == 2 && width == 2 ==> Row1(g, height, width, 1)
    ensures var r := SolveLower(g, height, width, trackUp);
      r.ok ==> r.grid == SolvedGrid(height, width)
  {
    var r2 := LowerRows(g, height, width, height - 1, trackUp);
    LowerRowsEnds(g, height, width, height - 1, trackUp);
    LowerRowsApplied(g, height, width, height - 1, trackUp);
    if r2.ok {
      AppliedKeeps(g, height, width, r2);
      if height > 2 && width > 0 {
        LowerRowRow1(r2.grid, height, width);
      }
      SolveUpperSolved(r2.grid, height, width);
    }
  }

  /** `solve_puzzle` on a grid with a single blank, as written (`trackUp` false) or with the
      corrected column 0 step: when it succeeds, the grid it leaves is the solved grid, its
      move string replayed by `update_puzzle` from the grid it started on gives that solved
      grid, and the numbers on the grid are those of the solved grid. */
  lemma SolveRunSolved(g: Grid, height: nat, width: nat, trackUp: bool)
    requires IsGrid(g, height, width) && UniqueBlank(g)
    ensures var r := SolveRun(g, height, width, trackUp);
      r.ok ==> r.grid == SolvedGrid(height, width) &&
               !Update(g, height, width, r.moves).failed &&
               Update(g, height, width, r.moves).grid == SolvedGrid(height, width) &&
               Tiles(g) == Tiles(SolvedGrid(height, width))
  {
    SolveApplied(g, height, width, trackUp);
    match Locate(g, 0, 0)
    case None =>
    case Some(zero) =>
      var r1 := MoveZeroRun(g, height, width, zero.0, zero.1, height - 1, width - 1);
      MoveZeroApplied(g, height, width, zero.0, zero.1, height - 1, width - 1);
      if r1.ok {
        AppliedKeeps(g, height, width, r1);
        SolveLowerSolved(r1.grid, height, width, trackUp);
        var r := SolveRun(g, height, width, trackUp);
        if r.ok {
          AppliedKeeps(g, height, width, r);
        }
      }
  }
}
