# Principles of Computing mini-projects, modelled in Dafny

This project models the deterministic logic of four of the course's mini-projects and proves
what that logic promises:

- **Loyd's Fifteen puzzle** (`poc_fifteen.py`). A `Puzzle` holds a height x width grid of
  numbers, and 0 is the blank. The move interpreter `update_puzzle` slides the blank one cell
  for each character `l`, `r`, `u` or `d`. The solver places the tiles in three phases:
  - the lower rows, bottom up and right to left, under the invariant `lower_row_invariant`;
  - the top two rows, column by column, under `row1_invariant` and `row0_invariant`;
  - the top left 2 x 2 block, by at most three `rdlu` rotations.

  The grid and the blank are modelled as values in `FifteenGrid`. Each solver step is a
  function of the grid in `FifteenSolver`. The class `Fifteen.Puzzle` updates its grid in
  place as the source does, and each of its methods is proved to agree with the function for
  its step. `FifteenProofs` proves that every step's move string, replayed by
  `update_puzzle` on the grid the step started from, gives the grid the step left.
  `FifteenSolved` proves that a `solve_puzzle` that succeeds leaves the solved grid. The
  solver functions take a flag `trackUp`. With the flag false they follow the code as
  written, which is what the class runs. With it true they use the corrected column 0 step
  of the Findings below. Both proofs hold for either value of the flag.
  `FifteenTile` proves what `position_tile` promises: it moves the tile to its target.
- **2048** (`poc_2048.py`, `merge.py`, `poc_2048_merge.py`). `LineMerge` states what merging
  a line means: compact the nonzero tiles, then combine equal neighbours pairwise from the
  front. It proves that the single-pass `merge` loops compute exactly that. `MergeScript`
  holds merge.py's own index loop and its module assertions. `Game2048` models the board:
  - the direction offsets and the table of line starts;
  - `move`, which merges every line and adds a tile only after a change;
  - `new_tile`, with its two random draws passed in as a `Draw`;
  - `reset`, `get_tile` and `set_tile`.
- **Word Wrangler** (`poc_wrangler.py`). `WordWrangler` models `remove_duplicates`,
  `intersect`, `merge`, `merge_sort` and `gen_all_strings`, over Python's ordering of strings.
- **Yahtzee** (`yahtzee.py`). `Yahtzee` models `gen_all_sequences`, `score` and
  `gen_all_holds`.

Where a solver step of the source raises an `AssertionError`, reads outside the grid or
unpacks `None`, the Fifteen model records a failed step (`ok == false`). The grid is then left
as the source leaves it when it raises. The accessors return no value (`None`) where Python
raises an `IndexError`. The three invariant queries differ: they answer `false` instead of
raising (see "## Left out").

## Model

| member | source | states |
|---|---|---|
| PyList.PyIndex | poc_fifteen.py:61 | Python's index into a list of n items: defined exactly for -n <= i < n, and then the Euclidean remainder of i by n |
| FifteenGrid.FindInRow | poc_fifteen.py:89-91 | the first column from `from` on holding the value, or none |
| FifteenGrid.Locate | poc_fifteen.py:86-92 | the first cell in row-major order holding the value; `None` exactly when no cell holds it |
| FifteenGrid.LocateBlank | poc_fifteen.py:98 | with a single blank, the search for 0 finds that blank |
| FifteenGrid.SlideTileCell | poc_fifteen.py:102-103 | a slide writes the neighbour's number into the blank's cell and 0 into the neighbour; no other cell changes |
| FifteenGrid.StepMeaning | poc_fifteen.py:99-121 | one move fails iff it is not l/r/u/d or leaves the grid; otherwise the blank moves one cell that way, it and the neighbour swap, and nothing else changes |
| FifteenGrid.StepPosition | poc_fifteen.py:100-119 | one move fails iff it is illegal; otherwise the tracked blank position moves one cell in its direction |
| FifteenGrid.StepBlank | poc_fifteen.py:102-119 | after a move the blank is where the loop's `zero_row`/`zero_col` say |
| FifteenGrid.SlideAllBlank | poc_fifteen.py:99-119 | after any move string the blank is where the loop tracks it |
| FifteenGrid.SlideAllFailed | poc_fifteen.py:101-121 | once a move has failed, the remaining moves change nothing |
| FifteenGrid.SlideAllAppend | poc_fifteen.py:99 | applying `a` then `b` is applying `a + b` |
| FifteenGrid.SlideAllOne | poc_fifteen.py:99 | a one-character move string is one step |
| FifteenGrid.SlideAllStops | poc_fifteen.py:101-121 | the first illegal move fails the update, and the moves before it are not undone |
| FifteenGrid.SlideTileTiles | poc_fifteen.py:102-118 | a slide into the blank keeps the multiset of numbers on the grid |
| FifteenGrid.StepTiles | poc_fifteen.py:100-121 | one move keeps the multiset of numbers on the grid |
| FifteenGrid.SlideAllTiles | poc_fifteen.py:99-121 | a move string keeps the multiset of numbers on the grid |
| FifteenGrid.UpdateTiles | poc_fifteen.py:94-121 | `update_puzzle` keeps the multiset of numbers on the grid, including when it fails |
| FifteenGrid.StepUnique | poc_fifteen.py:100-119 | a move keeps a single blank |
| FifteenGrid.SlideAllUnique | poc_fifteen.py:99-119 | a move string keeps a single blank |
| FifteenGrid.UpdateUnique | poc_fifteen.py:94-121 | `update_puzzle` keeps a single blank and leaves it where it tracked it |
| FifteenGrid.UpdateAppend | poc_fifteen.py:94-121 | two updates in a row are one update with both move strings |
| FifteenSolver.MoveZeroRun | poc_fifteen.py:207-226 | on success the blank is at (row, col) and the moves are the up, across and down moves of `ZeroMoves` |
| FifteenSolver.PositionTileRun | poc_fifteen.py:228-271 | on success the moves are exactly those the loop builds (`TileMoves`); `FifteenTile.PositionTilePlaces` proves that the tile then sits at the target |
| FifteenSolver.InteriorRun | poc_fifteen.py:146-168 | on success `lower_row_invariant(i, j)` held before and `lower_row_invariant(i, j - 1)` holds after |
| FifteenSolver.InteriorFinish | poc_fifteen.py:162-167 | on success `lower_row_invariant(i, j - 1)` holds |
| FifteenSolver.Col0Steps | poc_fifteen.py:170-205 | on success `lower_row_invariant(i, 0)` held before and `lower_row_invariant(i - 1, width - 1)` holds after |
| FifteenSolver.Col0AsWritten | poc_fifteen.py:170-205 | `solve_col0_tile` as written: the same pre- and post-invariants on success |
| FifteenSolver.Col0Run | poc_fifteen.py:170-205 | `solve_col0_tile` with the blank's row tracked after the extra `u`: the same pre- and post-invariants on success |
| FifteenSolver.Row1Run | poc_fifteen.py:353-373 | on success `row1_invariant(j)` held before and `row0_invariant(j)` holds after |
| FifteenSolver.Row0Run | poc_fifteen.py:322-351 | on success `row0_invariant(j)` held before and `row1_invariant(j - 1)` holds after |
| FifteenSolver.Row0Place | poc_fifteen.py:330-351 | on success `row1_invariant(j - 1)` holds |
| FifteenSolver.Row0Rest | poc_fifteen.py:333-351 | on success `row1_invariant(j - 1)` holds, whether or not the tile was already in place |
| FifteenSolver.BlockCheck | poc_fifteen.py:387-389 | the loop test of `solve_2x2` is true iff the block holds 0, 1, width, width + 1 |
| FifteenSolver.Rotations | poc_fifteen.py:386-394 | the rotation loop succeeds only with the block solved; when the iterations run out it fails ("permutation is odd") |
| FifteenSolver.Solve2x2Run | poc_fifteen.py:378-394 | on success the top left block is solved |
| FifteenMoves.RepeatMove | poc_fifteen.py:216-222 | `c * n` is n copies of the character c |
| FifteenMoves.SlideStraight | poc_fifteen.py:216-223 | moves all in one direction shift the blank that many cells while they stay in the grid |
| FifteenMoves.SlideRepeat | poc_fifteen.py:216-223 | n moves in one direction shift the blank n cells |
| FifteenMoves.UpPart | poc_fifteen.py:215-216 | the `u` part brings the blank up to row `row` when that row is above it |
| FifteenMoves.UpRows | poc_fifteen.py:215-216 | the `u` part reaches row `row` without failing |
| FifteenMoves.LeftPart | poc_fifteen.py:217-218 | the `l` part brings the blank to column `col` |
| FifteenMoves.RightPart | poc_fifteen.py:219-220 | the `r` part brings the blank to column `col` |
| FifteenMoves.AcrossPart | poc_fifteen.py:217-220 | the across part brings the blank to column `col`, whichever side it is on |
| FifteenMoves.DownPart | poc_fifteen.py:221-222 | the `d` part brings the blank down to row `row` when that row is below it |
| FifteenMoves.DownRows | poc_fifteen.py:221-222 | the `d` part reaches row `row` without failing |
| FifteenMoves.MoveZeroReaches | poc_fifteen.py:214-223 | the moves of `move_zero_to_position` take the blank to any (row, col) in the grid, without failing |
| FifteenMoves.MoveZeroCorrect | poc_fifteen.py:207-226 | with a single blank at (zero_row, zero_col) and a target in the grid, `move_zero_to_position` succeeds, and its grid is the update by its moves |
| FifteenMoves.StepUndo | poc_fifteen.py:277-284 | `prev_position` (`FifteenSolver.PrevPosition`) of a one-move string gives back where the blank was before that move |
| FifteenMoves.PrevPositionMeaning | poc_fifteen.py:273-284 | for a non-empty applied move string, `prev_position` (`FifteenSolver.PrevPosition`) returns the blank's position before the last move |
| FifteenMoves.TileMovesTotal | poc_fifteen.py:239-268 | while the loop's assertions hold, the loop of `position_tile` terminates with a move string |
| FifteenTile.TrackAppend | poc_fifteen.py:99 | following moves `a + b` on positions is following `a`, then `b` |
| FifteenTile.TrackFive | poc_fifteen.py:248-266 | a five-move cycle of `position_tile` is five single moves |
| FifteenTile.LeftCycles | poc_fifteen.py:247-248 | `ulldr` and `dllur`, with the blank right of the tile, move the tile one column left and leave the blank on its right |
| FifteenTile.RightCycles | poc_fifteen.py:249-250 | `urrdl` and `drrul`, with the blank left of the tile, move the tile one column right and leave the blank on its left |
| FifteenTile.DownCycles | poc_fifteen.py:266 | `lddru` and `rddlu`, with the blank above the tile, move the tile one row down and leave the blank above it |
| FifteenTile.RepeatShifts | poc_fifteen.py:248-266 | a cycle repeated n times moves the tile n times as far |
| FifteenTile.TurnTracks | poc_fifteen.py:255-262 | the turns `ur`/`ul` bring the blank from beside the tile to above it; `dru`/`dlu` move the tile down a row with the blank above it |
| FifteenTile.CallerEntry | poc_fifteen.py:157-159 | the blank moved from the target onto a tile not below it, then `prev_position`, leaves the blank on the tile's right when the tile must go left and on its left when it must go right |
| FifteenTile.TileMovesReach | poc_fifteen.py:238-268 | from such an entry, the moves the loop builds take the tracked tile to (target_row, target_col) |
| FifteenTile.StepTracks | poc_fifteen.py:99-119 | a successful move carries the tracked tile's number to where the blank was, or leaves it in place |
| FifteenTile.SlideAllTracks | poc_fifteen.py:99-119 | a successful move string carries the tile's number along its track, with the blank where the track says |
| FifteenTile.PositionTilePlaces | poc_fifteen.py:228-271 | "moves tile from (row, col) to target position": on success the number that was at (row, col) is at the target |
| FifteenProofs.EmptyApplied | poc_fifteen.py:94-99 | the empty move string changes nothing |
| FifteenProofs.ApplyApplied | poc_fifteen.py:94-121 | a successful `update_puzzle` step returns exactly the moves it applied |
| FifteenProofs.MoveZeroApplied | poc_fifteen.py:207-226 | `move_zero_to_position`'s returned moves, replayed, give its grid |
| FifteenProofs.PositionTileApplied | poc_fifteen.py:228-271 | `position_tile`'s returned moves, replayed, give its grid |
| FifteenProofs.Chain | poc_fifteen.py:155-168 | two successful steps in a row return the concatenation of the moves they applied |
| FifteenProofs.ThenApplied | poc_fifteen.py:155-168 | moves accumulated with `move_string +=` are the moves applied |
| FifteenProofs.AppliedKeeps | poc_fifteen.py:94-121 | a successful step keeps a single blank and the multiset of numbers |
| FifteenProofs.InteriorApplied | poc_fifteen.py:146-168 | `solve_interior_tile` returns exactly the moves it applied |
| FifteenProofs.InteriorFinishApplied | poc_fifteen.py:162-164 | the last move of the blank in `solve_interior_tile` returns the moves it applied |
| FifteenProofs.Row1Applied | poc_fifteen.py:353-373 | `solve_row1_tile` returns exactly the moves it applied |
| FifteenProofs.Col0FinishApplied | poc_fifteen.py:191-198 | the end of `solve_col0_tile`'s branch (the extra `u`, the blank's move and the canned string) returns the moves it applied |
| FifteenProofs.Col0BranchApplied | poc_fifteen.py:183-198 | the branch of `solve_col0_tile` returns the moves it applied |
| FifteenProofs.Col0PlaceApplied | poc_fifteen.py:181-198 | the middle of `solve_col0_tile` returns the moves it applied |
| FifteenProofs.Col0Applied | poc_fifteen.py:170-205 | `solve_col0_tile`, as written or corrected, returns exactly the moves it applied |
| FifteenProofs.Row0FinishApplied | poc_fifteen.py:343-347 | the end of `solve_row0_tile`'s branch returns the moves it applied |
| FifteenProofs.Row0BranchApplied | poc_fifteen.py:335-347 | the branch of `solve_row0_tile` returns the moves it applied |
| FifteenProofs.Row0Applied | poc_fifteen.py:322-351 | `solve_row0_tile` returns exactly the moves it applied |
| FifteenProofs.Row0PlaceApplied | poc_fifteen.py:330-351 | `solve_row0_tile` after its check returns the moves it applied |
| FifteenProofs.Row0RestApplied | poc_fifteen.py:333-351 | `solve_row0_tile` from the tile search on returns the moves it applied |
| FifteenProofs.RotationsApplied | poc_fifteen.py:386-392 | the rotation loop returns exactly the rotations it applied |
| FifteenProofs.RotateApplied | poc_fifteen.py:391-392 | one rotation of an unsolved block and the iterations after it return the moves applied |
| FifteenProofs.Solve2x2Applied | poc_fifteen.py:378-394 | `solve_2x2` returns exactly the moves it applied |
| FifteenProofs.RowTilesApplied | poc_fifteen.py:405-409 | the loop over one lower row returns exactly the moves it applied, with the column 0 step as written or corrected |
| FifteenProofs.LowerRowsApplied | poc_fifteen.py:404-409 | the loop over the lower rows returns exactly the moves it applied, as written or corrected |
| FifteenProofs.TopRowsApplied | poc_fifteen.py:410-412 | the loop over the top two rows returns exactly the moves it applied |
| FifteenProofs.TopRowsFrom0Applied | poc_fifteen.py:412 | that loop from a row 0 step on returns the moves it applied |
| FifteenProofs.SolveApplied | poc_fifteen.py:396-415 | `solve_puzzle`'s move string, replayed by `update_puzzle` on the starting grid, succeeds and gives the grid it left, as written or corrected |
| FifteenProofs.SolveLowerApplied | poc_fifteen.py:404-415 | the stages from the lower rows on return the moves they applied, as written or corrected |
| FifteenProofs.SolveUpperApplied | poc_fifteen.py:410-415 | the stages from the top rows on return the moves they applied |
| FifteenSolved.RowTilesEnds | poc_fifteen.py:405-409 | a lower row solved from its last column ends in `lower_row_invariant(row - 1, width - 1)`, as written or corrected |
| FifteenSolved.LowerRowsEnds | poc_fifteen.py:404-409 | the lower rows end in `lower_row_invariant(1, width - 1)`, as written or corrected |
| FifteenSolved.TopRowsEnds | poc_fifteen.py:410-412 | the top rows end in `row1_invariant(1)` |
| FifteenSolved.TopRowsFrom0Ends | poc_fifteen.py:412 | the same from a row 0 step on |
| FifteenSolved.LowerRowRow1 | poc_fifteen.py:132-144 | `lower_row_invariant(1, width - 1)` implies `row1_invariant(width - 1)`, so the phases join |
| FifteenSolved.SameOutsideTrans | poc_fifteen.py:386-392 | "cells outside the top left block unchanged" is transitive |
| FifteenSolved.StepInBlock | poc_fifteen.py:100-119 | a move inside the top left block changes no cell outside it |
| FifteenSolved.SlideAllInBlock | poc_fifteen.py:99-119 | moves that keep the blank in the block change no cell outside it |
| FifteenSolved.BlockPaths | poc_fifteen.py:391 | `ul` from (1, 1) and `rdlu` from (0, 0) keep the blank in the block and end at (0, 0) |
| FifteenSolved.UpdateInBlock | poc_fifteen.py:384-392 | `update_puzzle` with such moves changes no cell outside the block |
| FifteenSolved.RotationsOutside | poc_fifteen.py:386-392 | the rotation loop changes no cell outside the block |
| FifteenSolved.RotateOutside | poc_fifteen.py:391-392 | one rotation and the rest of the loop change no cell outside the block |
| FifteenSolved.Solve2x2Outside | poc_fifteen.py:378-394 | `solve_2x2` from the blank at (1, 1) changes no cell outside the block and, on success, leaves it solved |
| FifteenSolved.RepeatFront | poc_fifteen.py:391 | one rotation string in front of n copies is n + 1 copies |
| FifteenSolved.RotationsCount | poc_fifteen.py:386-394 | on success the loop applied fewer than the given number of rotations (at most three in `solve_2x2`), and its moves are exactly those rotations |
| FifteenSolved.GridSolved | poc_fifteen.py:19-21 | a grid with a solved block and every other cell solved is the solved grid `col + width*row` |
| FifteenSolved.SolveUpperSolved | poc_fifteen.py:410-415 | the top rows and the block, from the end of the lower rows, leave the solved grid on success |
| FifteenSolved.SolveLowerSolved | poc_fifteen.py:404-415 | the stages from the lower rows on leave the solved grid on success, as written or corrected |
| FifteenSolved.SolveRunSolved | poc_fifteen.py:396-415 | a successful `solve_puzzle`, as written or corrected, leaves the solved grid; its move string replayed on the starting grid gives the solved grid; the numbers on the grid were those of the solved grid |
| FifteenFindings.MoveUp | poc_fifteen.py:192-194 | the extra `u` moves the single blank up one row, away from the cell the source still names |
| FifteenFindings.Col0FinishAsWrittenFails | poc_fifteen.py:191-196 | as written, whenever the extra `u` is taken, `move_zero_to_position`'s check fails |
| FifteenFindings.Col0FinishTracked | poc_fifteen.py:191-198 | with the row tracked, the blank reaches (i - 1, 0) and only the canned string is left |
| FifteenFindings.ExampleBlanks | poc_fifteen.py:175 | the example grids each have a single blank |
| FifteenFindings.ExampleFirstMove | poc_fifteen.py:178-180 | on the example, the blank's first move to (1, 1) is `ur` |
| FifteenFindings.ExampleSecondMove | poc_fifteen.py:184-185 | on the example, the blank's move onto the tile's cell (1, 2) is `r` |
| FifteenFindings.ExampleThird | poc_fifteen.py:181-191 | on the example, the tile is at (1, 2), `prev_position` gives (1, 1), `position_tile` has nothing to do, and the blank is found at (1, 2) |
| FifteenFindings.ExampleLowerRow | poc_fifteen.py:126-144 | `lower_row_invariant(2, 0)` holds on the 3 x 3 example |
| FifteenFindings.ExampleBranch | poc_fifteen.py:183-196 | on the example the as-written branch fails |
| FifteenFindings.Col0AsWrittenExample | poc_fifteen.py:170-205 | `solve_col0_tile(2)` as written fails on a grid where its precondition `lower_row_invariant(2, 0)` holds |
| Fifteen.TileIteration | poc_fifteen.py:245-268 | one iteration of `position_tile`'s loop adds its piece in front of the rest of the loop's moves, and the loop measure decreases |
| Fifteen.Puzzle.constructor | poc_fifteen.py:12-26 | every cell holds `col + width*row`, or the initial grid's value when one is given |
| Fifteen.Puzzle.GetNumber | poc_fifteen.py:56-61 | the number at (row, col), a negative index counting from the end; none exactly where Python's read raises |
| Fifteen.Puzzle.SetNumber | poc_fifteen.py:63-67 | exactly cell (row, col), wrapped as Python wraps a negative index, is set, and reading it back gives the value; a write that would raise changes nothing |
| Fifteen.Puzzle.Clone | poc_fifteen.py:69-75 | a fresh puzzle with the same dimensions and cells |
| Fifteen.Puzzle.CurrentPosition | poc_fifteen.py:80-92 | the nested loop returns the first cell in row-major order holding `col + width*row`, none if absent |
| Fifteen.Puzzle.UpdatePuzzle | poc_fifteen.py:94-121 | the grid becomes the update of the old grid by the moves; fails iff a move is illegal |
| Fifteen.Puzzle.LowerRowInvariant | poc_fifteen.py:126-144 | true iff the blank is at (i, j) and every later cell from row i down is solved |
| Fifteen.Puzzle.UpperCells | poc_fifteen.py:299-303 | true iff rows 2 and below, and columns after j of rows 0 and 1, are solved |
| Fifteen.Puzzle.Row0Invariant | poc_fifteen.py:289-304 | true iff the blank is at (0, j), (1, j) is solved, and the cells of `UpperCells` are solved |
| Fifteen.Puzzle.Row1Invariant | poc_fifteen.py:306-320 | true iff the blank is at (1, j) and the cells of `UpperCells` are solved |
| Fifteen.Puzzle.MoveZeroToPosition | poc_fifteen.py:207-226 | the new grid and moves are those of `MoveZeroRun` on the old grid |
| Fifteen.Puzzle.PositionTile | poc_fifteen.py:228-271 | the loop builds the move string of `TileMoves`; the new grid is the old one updated by it, which `PositionTilePlaces` shows has the tile at the target |
| Fifteen.Puzzle.SolveInteriorTile | poc_fifteen.py:146-168 | the new grid and moves are those of `InteriorRun` on the old grid |
| Fifteen.Puzzle.SolveInteriorFinish | poc_fifteen.py:162-167 | the new grid and moves are those of `InteriorFinish` |
| Fifteen.Puzzle.SolveCol0Tile | poc_fifteen.py:170-205 | the new grid and moves are those of `Col0AsWritten`, the code as written |
| Fifteen.Puzzle.SolveCol0Branch | poc_fifteen.py:183-198 | the new grid and moves are those of `Col0Branch` as written |
| Fifteen.Puzzle.SolveCol0Finish | poc_fifteen.py:191-198 | the new grid and moves are those of `Col0Finish` as written, with the blank's row left unchanged after the extra `u` |
| Fifteen.Puzzle.SolveRow1Tile | poc_fifteen.py:353-373 | the new grid and moves are those of `Row1Run` |
| Fifteen.Puzzle.SolveRow0Tile | poc_fifteen.py:322-351 | the new grid and moves are those of `Row0Run` |
| Fifteen.Puzzle.SolveRow0Place | poc_fifteen.py:330-351 | the new grid and moves are those of `Row0Place` |
| Fifteen.Puzzle.SolveRow0Rest | poc_fifteen.py:333-351 | the new grid and moves are those of `Row0Rest` |
| Fifteen.Puzzle.SolveRow0Branch | poc_fifteen.py:335-347 | the new grid and moves are those of `Row0Branch` |
| Fifteen.Puzzle.SolveRow0Finish | poc_fifteen.py:343-347 | the new grid and moves are those of `Row0Finish` |
| Fifteen.Puzzle.Solve2x2 | poc_fifteen.py:378-394 | the new grid and moves are those of `Solve2x2Run` |
| Fifteen.Puzzle.Rotate | poc_fifteen.py:386-394 | the new grid and moves are those of `Rotations` |
| Fifteen.Puzzle.SolvePuzzle | poc_fifteen.py:396-415 | the new grid and moves are those of `SolveRun` as written, which `SolveRunSolved` and `SolveApplied` describe |
| Fifteen.Puzzle.SolveLowerStages | poc_fifteen.py:404-414 | the new grid and moves are those of `SolveLower` as written |
| Fifteen.Puzzle.SolveUpperStages | poc_fifteen.py:410-414 | the new grid and moves are those of `SolveUpper` |
| Fifteen.Puzzle.SolveLowerRows | poc_fifteen.py:404-409 | the new grid and moves are those of `LowerRows` as written |
| Fifteen.Puzzle.SolveRowTiles | poc_fifteen.py:405-409 | the new grid and moves are those of `RowTiles` as written |
| Fifteen.Puzzle.SolveTopRows | poc_fifteen.py:410-412 | the new grid and moves are those of `TopRows` |
| Fifteen.Puzzle.SolveTopColumn | poc_fifteen.py:411-412 | one column of the top rows: the row 1 step and then the row 0 step |
| LineMerge.Compact | poc_2048.py:22-24 | the kept values are nonzero and no more than the line's |
| LineMerge.CombineShorter | poc_2048.py:26-31 | combining never lengthens the values |
| LineMerge.CombineSnoc | poc_2048.py:25-31 | a new value combines with the last output iff that one is uncombined and equal |
| LineMerge.CombineNonzero | poc_2048.py:26-28 | combining nonzero values gives nonzero values |
| LineMerge.SumCompact | poc_2048.py:23-24 | skipping zeros keeps the sum |
| LineMerge.SumCombine | poc_2048.py:26-28 | doubling one of two equal values keeps the sum |
| LineMerge.CombineIsCombinedFrom | poc_2048.py:26-29 | the combined values arise by doubling disjoint equal pairs, so no value is merged twice |
| LineMerge.PassStep | poc_2048.py:25-31 | one nonzero value processed keeps the loop's state in step with `Combine` |
| LineMerge.PassEnd | poc_2048.py:32 | the finished result is the combined values followed by zeros |
| LineMerge.Merge | poc_2048.py:16-32 | the value-iterating loop returns a line of the input's length equal to `Merged(line)` |
| LineMerge.MergedLength | poc_2048.py:20 | the merged line has the line's length |
| LineMerge.NonzeroPrefix | poc_2048_merge.py:12-20 | the merged line is nonzero values followed by zeros |
| LineMerge.MergedSum | merge.py:8-10 | merging preserves the sum of the line |
| LineMerge.MergedOnce | poc_2048_merge.py:15-18 | the nonzero part arises from the nonzero inputs in order by combining disjoint equal pairs, each value at most once |
| LineMerge.MergedNotIdempotent | poc_2048.py:26-29 | [2, 2, 4] merges to [4, 4, 0], and merging that again gives [8, 0, 0]: a made tile is not merged again in the same call |
| MergeScript.MergeByIndex | merge.py:1-14 | the index loop returns `Merged(line)`, the same function as poc_2048.py's value loop |
| MergeScript.ModuleAssertions | merge.py:16-23 | all eight module assertions hold |
| MergeScript.Assertion16 | merge.py:16 | [0, 0, 0, 0] merges to [0, 0, 0, 0] |
| MergeScript.Assertion17 | merge.py:17 | [2, 0, 2, 2] merges to [4, 2, 0, 0] |
| MergeScript.Assertion18 | merge.py:18 | [2, 0, 2, 4] merges to [4, 4, 0, 0] |
| MergeScript.Assertion19 | merge.py:19 | [0, 0, 2, 2] merges to [4, 0, 0, 0] |
| MergeScript.Assertion20 | merge.py:20 | [2, 2, 0, 0] merges to [4, 0, 0, 0] |
| MergeScript.Assertion21 | merge.py:21 | [2, 2, 2, 2, 2] merges to [4, 4, 2, 0, 0] |
| MergeScript.Assertion22 | merge.py:22 | [8, 16, 16, 8] merges to [8, 32, 8, 0] |
| MergeScript.Assertion23 | merge.py:23 | [4, 4, 8, 0] merges to [8, 8, 0, 0] |
| Game2048.CellOfLine | poc_2048.py:41-46 | `pos + delta*idx` for `idx < length` is in the grid, and line s at index idx is the only line position naming it |
| Game2048.LineOfCell | poc_2048.py:82-88 | every cell lies on a line of each direction, so the lines cover the grid exactly once |
| Game2048.LineValues | poc_2048.py:86-88 | a line read has the direction's length |
| Game2048.SomeLineChangedStep | poc_2048.py:92 | `changed` after one more line is the old flag or that line's change |
| Game2048.MovedGridChanged | poc_2048.py:90-95 | a move changes the grid iff merging changes one of its lines |
| Game2048.ChangedCellOnChangedLine | poc_2048.py:90-92 | a changed cell lies on a changed line |
| Game2048.ChangedLineChangesGrid | poc_2048.py:90-94 | a changed line changes the grid |
| Game2048.MovedGridCell | poc_2048.py:85-94 | each cell after a move holds its merged line's value at its index |
| Game2048.DiffersStep | poc_2048.py:92 | the running `changed` flag of one line, one index further |
| Game2048.DiffersAll | poc_2048.py:90-92 | the flag at the end of a line is whether the line changed |
| Game2048.NoEmptySquare | poc_2048.py:104-108 | on a full grid `new_tile` changes nothing |
| Game2048.DrawBeyondEmpties | poc_2048.py:110-117 | a countdown that passes every square changes nothing |
| Game2048.NewTileAt | poc_2048.py:110-116 | the square the countdown reaches is the drawn empty square, and the only one changed |
| Game2048.CountBelow | poc_2048.py:104-106 | empty squares before a cell never exceed the total |
| Game2048.EmptiesBeforeGrows | poc_2048.py:110-117 | an empty square earlier in row-major order has fewer empty squares before it |
| Game2048.TwentyFortyEight.constructor | poc_2048.py:38-47 | the `_initial` table is the line starts of each direction, then the grid is `reset`'s |
| Game2048.TwentyFortyEight.Reset | poc_2048.py:49-56 | the grid is a height x width grid of zeros with two new tiles, from the two draws |
| Game2048.TwentyFortyEight.GetTile | poc_2048.py:125-129 | the tile at (row, col), a negative index counting from the end; none exactly where Python's read raises |
| Game2048.TwentyFortyEight.SetTile | poc_2048.py:119-123 | exactly cell (row, col), wrapped as Python wraps a negative index, is set, and `get_tile` reads the value back; a write that would raise changes nothing |
| Game2048.TwentyFortyEight.NewTile | poc_2048.py:98-117 | the square_index-th empty square in row-major order becomes 2, or 4 when the tenths draw is 9; no other cell changes; nothing changes on a full grid |
| Game2048.TwentyFortyEight.Move | poc_2048.py:76-96 | every line of the direction is replaced by its merge, and a new tile is added iff a cell changed |
| Game2048.TwentyFortyEight.MergeLines | poc_2048.py:81-94 | the grid becomes the moved grid, and `changed` is whether it differs from the old one |
| Game2048.TwentyFortyEight.ReadLine | poc_2048.py:86-88 | `temporary` holds the values along the line |
| Game2048.TwentyFortyEight.WriteLine | poc_2048.py:90-94 | the merged line is written back, and the flag says whether the line changed |
| WordWrangler.LessIrreflexive | poc_wrangler.py:40-43 | no word is less than itself |
| WordWrangler.LessTransitive | poc_wrangler.py:40-43 | the string order is transitive |
| WordWrangler.LessTotal | poc_wrangler.py:40-44 | of two different words, one is less |
| WordWrangler.NotLessTransitive | poc_wrangler.py:64 | "not less" is transitive |
| WordWrangler.LessNotLess | poc_wrangler.py:64 | mixed transitivity of "less" and "not less" |
| WordWrangler.HeadsLast | poc_wrangler.py:24-25 | the last element of the list is the last one kept |
| WordWrangler.HeadsElements | poc_wrangler.py:22-26 | the kept elements are the same set as the list's |
| WordWrangler.HeadsNoAdjacent | poc_wrangler.py:24-25 | no two adjacent kept elements are equal |
| WordWrangler.HeadsSubseq | poc_wrangler.py:22-26 | the kept elements are a subsequence of the list |
| WordWrangler.HeadsStrictlySorted | poc_wrangler.py:13-26 | on a sorted list the kept elements are strictly increasing |
| WordWrangler.RemoveDuplicates | poc_wrangler.py:13-26 | keeps the first of each run of equal elements: same set, no adjacent duplicates, a subsequence, strictly increasing on sorted input |
| WordWrangler.Intersect | poc_wrangler.py:28-48 | every element returned is in both lists; on sorted inputs the result is sorted and holds every common element |
| WordWrangler.SkipSmaller | poc_wrangler.py:40-43 | skipping the smaller head loses no common element |
| WordWrangler.BelowHeadNotIn | poc_wrangler.py:40-43 | a word below the head of a sorted list is not in the rest of it |
| WordWrangler.KeepCommon | poc_wrangler.py:44-47 | keeping an equal pair keeps the result sorted and loses no common element |
| WordWrangler.MergeOfPermutation | poc_wrangler.py:61-70 | the merge has length `len(list1) + len(list2)` and is a permutation of their concatenation |
| WordWrangler.ConsMultiset | poc_wrangler.py:65-68 | a list's multiset is its head plus its tail's |
| WordWrangler.MergeOfSorted | poc_wrangler.py:64-69 | the merge of two sorted lists is sorted |
| WordWrangler.LessAsymmetric | poc_wrangler.py:64 | less is asymmetric |
| WordWrangler.SortedTailAtLeast | poc_wrangler.py:64-69 | every element of a sorted list's tail is at least its head |
| WordWrangler.MergeAtLeast | poc_wrangler.py:64-69 | merging lists bounded below by x gives a list bounded below by x |
| WordWrangler.ConsSorted | poc_wrangler.py:65-69 | a bound in front of a sorted list keeps it sorted |
| WordWrangler.MergeOfTakesFirst | poc_wrangler.py:64-66 | list1's head is taken when list2 is done or list1's head is smaller |
| WordWrangler.MergeOfTakesSecond | poc_wrangler.py:67-69 | otherwise, including equal heads, list2's head is taken first |
| WordWrangler.MergeTakeFirst | poc_wrangler.py:64-66 | taking from list1 keeps the loop in step with the merge |
| WordWrangler.MergeTakeSecond | poc_wrangler.py:67-69 | taking from list2 keeps the loop in step with the merge |
| WordWrangler.MergeDone | poc_wrangler.py:63-70 | when both lists are used up the result is the merge |
| WordWrangler.Merge | poc_wrangler.py:52-70 | the loop returns the merge that takes list2's element first on ties: length and permutation of both lists, sorted when both are |
| WordWrangler.MergeSort | poc_wrangler.py:72-84 | lists shorter than 2 come back unchanged; otherwise a sorted permutation of the input |
| WordWrangler.GenAllStrings | poc_wrangler.py:88-107 | `['']` for the empty word; starts with the strings of `word[1:]`; exactly the strings whose letters are a sub-multiset of the word's |
| WordWrangler.InsertLetter | poc_wrangler.py:102-105 | every string with `first` inserted at every index, one per index |
| WordWrangler.InsertionsLength | poc_wrangler.py:103-105 | the insertions number the sum of `len(string) + 1` |
| WordWrangler.InsertEachLetters | poc_wrangler.py:104-105 | an insertion's letters are the string's plus the inserted letter |
| WordWrangler.InsertionsLetters | poc_wrangler.py:103-105 | every insertion comes from a string of the list plus the letter |
| WordWrangler.AllStringsLetters | poc_wrangler.py:100-106 | every generated string's letters are a sub-multiset of the word's |
| WordWrangler.InsertionsContain | poc_wrangler.py:103-105 | every insertion position of every string is produced |
| WordWrangler.AllStringsComplete | poc_wrangler.py:98-107 | every string whose letters are a sub-multiset of the word's is generated |
| WordWrangler.Complete | poc_wrangler.py:98-107 | the same, for one string |
| WordWrangler.RemoveAt | poc_wrangler.py:105 | removing one letter and inserting it back at the same index restores the string |
| WordWrangler.OutsideRestIsFirst | poc_wrangler.py:100-105 | a letter beyond the rest's letters must be the first letter |
| WordWrangler.MultisetCancel | poc_wrangler.py:100-105 | cancelling the same letter on both sides of an inclusion |
| Yahtzee.GenAllSequences | yahtzee.py:8-22 | `{()}` for length 0; exactly the tuples of the given length whose elements all come from `outcomes` |
| Yahtzee.NextRound | yahtzee.py:15-21 | one round extends every partial sequence by every outcome |
| Yahtzee.AppendedStep | yahtzee.py:17-20 | one more outcome appended adds one more sequence |
| Yahtzee.ExtendOne | yahtzee.py:16-20 | taking one more partial sequence adds its extensions |
| Yahtzee.SequencesMembership | yahtzee.py:13-22 | the rounds give exactly the tuples of that length over `outcomes`, both directions |
| Yahtzee.Score | yahtzee.py:24-33 | the maximum of `item * hand.count(item)` over the hand's items: attained by one and at least every one; needs a non-empty hand |
| Yahtzee.BestOf | yahtzee.py:33 | the maximum over the first n items |
| Yahtzee.ScoreAtLeastDie | yahtzee.py:33 | the score is at least every non-negative die in the hand |
| Yahtzee.GenAllHolds | yahtzee.py:53-65 | the set of the list built; exactly the order-preserving subsequences of the hand, including `()` and the hand itself; each hold is no longer than the hand and holds only dice from it |
| Yahtzee.HoldListSubseq | yahtzee.py:61-65 | the list built holds exactly the subsequences of the hand |
| Yahtzee.HoldListLength | yahtzee.py:61-64 | the list built before `set` has 2^len(hand) entries |
| SeqUtil.IsSubseqSelf | yahtzee.py:65 | every hand is a subsequence of itself |
| SeqUtil.EmptyIsSubseq | yahtzee.py:61 | `()` is a subsequence of every hand |
| SeqUtil.IsSubseqSnoc | yahtzee.py:62-64 | the subsequences of `hand + (item,)` are those of `hand`, with or without `item` |
| SeqUtil.IsSubseqElements | yahtzee.py:61-65 | a subsequence's elements are elements of the sequence |
| SeqUtil.IsSubseqLength | yahtzee.py:61-65 | a subsequence is no longer than the sequence |

## Left out

- Output and interaction: the GUIs (`poc_fifteen_gui`, `poc_2048_gui`), the `__str__`
  methods, the game launches, and the height and width getters, which only read a constant.
- `random` in `new_tile`: the two draws are the `Draw` parameter. A `square` at or beyond
  the number of empty squares, which `random.randint` never produces, leaves the grid
  unchanged.
- `poc_wrangler.py`'s `load_words` and `run`: file and network input and the external game.
- `yahtzee.py`'s `expected_value` and `strategy`, which work in floating point, and
  `codeskulptor.set_timeout`.
- The cookie clicker, zombie, Monte Carlo and minimax tic-tac-toe files: they are not part
  of this model.
- Fifteen.Puzzle.LowerRowInvariant: the source's argument check raises an `AssertionError`;
  the model returns `false` instead. Every caller of the check in the solver fails either
  way.
- Fifteen.Puzzle.constructor: an initial grid smaller than the puzzle is excluded, because
  the source raises on it. A bigger one is accepted, and only its top left part is read.
- Fifteen.Puzzle.LowerRowInvariant: an index outside the grid, negative or too large, gives
  `false` where Python wraps it or raises `IndexError`. For example, `lower_row_invariant(height, 0)`
  passes the argument check and then raises when it reads row `height`. The solver never passes
  such an index.
- Fifteen.Puzzle.Row0Invariant: an index outside the grid, negative or too large, gives `false`
  where Python wraps it or raises `IndexError`. For example, `row0_invariant(width)` reads
  `get_number(0, width)` and raises. The solver never passes such an index.
- Fifteen.Puzzle.Row1Invariant: an index outside the grid, negative or too large, gives `false`
  where Python wraps it or raises `IndexError`. For example, `row1_invariant(width)` reads
  `get_number(1, width)` and raises. The solver never passes such an index.
- Fifteen.Puzzle.MoveZeroToPosition: negative coordinates count as outside the grid, where
  Python's `get_number` counts them from the end. The solver never passes one. Coordinates that
  are too large give a failed step, as Python raises there.
- Fifteen.Puzzle.PositionTile: the same as for MoveZeroToPosition.
- Yahtzee.Score: the hand must not be empty. On an empty hand Python's `max` raises a
  `ValueError`, and the model leaves that error path out.
- Python integers are unbounded, as Dafny's are, so no overflow is modelled; tile and die
  values are `int`.
- `solve_puzzle` is proved correct when it succeeds, both as written and with the corrected
  column 0 step. It fails when three rotations do not solve the block, as the source's
  `assert False` does, and, as written, whenever `solve_col0_tile` takes its extra `u` (see
  Findings). The model does not prove that it succeeds on every solvable grid.
- Aliasing of the row lists: `clone` passes its own grid to the new puzzle's constructor,
  which copies cell by cell. In the model the grid is a value, so the copy is independent by
  construction.

## Findings

| source | as written | input that shows it | evidently intended | confidence | as-written member | corrected member |
|---|---|---|---|---|---|---|
| poc_fifteen.py:191-196 | after the extra move `'u'` the blank is one row up, but `zero_row` is not decreased, so `move_zero_to_position` asserts the blank at the cell it has just left, and the assertion fails | 3 x 3 grid `[[1,2,3],[4,5,6],[0,7,8]]`, `solve_col0_tile(2)`: `lower_row_invariant(2, 0)` holds; the tile 6 is at (1, 2); after `position_tile` the blank is at (1, 2); the extra `'u'` takes it to (0, 2); `move_zero_to_position(1, 2, 1, 0)` then finds 3, not 0, at (1, 2) | decrease `zero_row` after the `'u'`, so the blank goes from where it is to (i - 1, 0) | high (proved; not executed) | FifteenFindings.Col0AsWrittenExample | FifteenSolver.Col0Run |
