/** poc_fifteen.py: the grid of Loyd's Fifteen puzzle, the search of `current_position` and
    the moves of `update_puzzle`, as values. The blank is the tile 0; a move names the
    neighbour of the blank that slides into it. */
module FifteenGrid {
  import opened PyList

  type Grid = seq<seq<int>>

  /** `height` rows of `width` cells each. */
  ghost predicate IsGrid(g: Grid, height: int, width: int)
  {
    |g| == height && forall r :: 0 <= r < |g| ==> |g[r]| == width
  }

  predicate InGrid(height: int, width: int, row: int, col: int)
  {
    0 <= row < height && 0 <= col < width
  }

  /** The number the solved puzzle holds at (row, col). */
  function SolvedValue(width: int, row: int, col: int): int
  {
    col + width * row
  }

  /** The grid of a fresh puzzle: every cell holds its solved number. */
  function SolvedGrid(height: nat, width: nat): (g: Grid)
    ensures IsGrid(g, height, width)
  {
    seq(height, row => seq(width, col => SolvedValue(width, row, col)))
  }

  // current_position

  /** The first column, from `from` on, where `row` holds `value`. */
  function FindInRow(row: seq<int>, value: int, from: nat): (r: Option<nat>)
    ensures r.Some? ==> from <= r.value < |row| && row[r.value] == value
    ensures r.Some? ==> forall c :: from <= c < r.value ==> row[c] != value
    ensures r.None? ==> forall c :: from <= c < |row| ==> row[c] != value
    decreases |row| - from
  {
    if from >= |row| then None
    else if row[from] == value then Some(from)
    else FindInRow(row, value, from + 1)
  }

  /** The search of `current_position`: the first cell in row-major order, from row `from`
      on, that holds `value`; `None` when no cell does (the source then fails its
      assertion). */
  function Locate(g: Grid, value: int, from: nat): (p: Option<(nat, nat)>)
    ensures p.Some? ==> from <= p.value.0 < |g| && p.value.1 < |g[p.value.0]|
    ensures p.Some? ==> g[p.value.0][p.value.1] == value
    ensures p.Some? ==> forall r, c :: from <= r < p.value.0 && 0 <= c < |g[r]| ==> g[r][c] != value
    ensures p.Some? ==> forall c :: 0 <= c < p.value.1 ==> g[p.value.0][c] != value
    ensures p.None? ==> forall r, c :: from <= r < |g| && 0 <= c < |g[r]| ==> g[r][c] != value
    decreases |g| - from
  {
    if from >= |g| then None
    else
      match FindInRow(g[from], value, 0)
      case Some(c) => Some((from, c))
      case None => Locate(g, value, from + 1)
  }

  /** At most one cell holds the blank. */
  ghost predicate UniqueBlank(g: Grid)
  {
    forall r1, c1, r2, c2 ::
      (0 <= r1 < |g| && 0 <= c1 < |g[r1]| && 0 <= r2 < |g| && 0 <= c2 < |g[r2]| &&
       g[r1][c1] == 0 && g[r2][c2] == 0) ==> r1 == r2 && c1 == c2
  }

  /** With a single blank, the search for 0 finds exactly that blank. */
  lemma LocateBlank(g: Grid, row: nat, col: nat)
    requires row < |g| && col < |g[row]| && g[row][col] == 0 && UniqueBlank(g)
    ensures Locate(g, 0, 0) == Some((row, col))
  {
  }

  // update_puzzle

  /** The state of `update_puzzle`'s loop: the grid, the blank's position as the loop tracks
      it, and whether an assertion has failed (then the remaining moves are not applied). */
  datatype Slide = Slide(grid: Grid, zeroRow: int, zeroCol: int, failed: bool)

  ghost predicate SlideOk(s: Slide, height: int, width: int)
  {
    IsGrid(s.grid, height, width) && (!s.failed ==> InGrid(height, width, s.zeroRow, s.zeroCol))
  }

  /** The blank really is where the loop tracks it. */
  ghost predicate BlankAt(s: Slide)
  {
    !s.failed ==>
      (0 <= s.zeroRow < |s.grid| && 0 <= s.zeroCol < |s.grid[s.zeroRow]| &&
       s.grid[s.zeroRow][s.zeroCol] == 0)
  }

  /** The tile at (row2, col2) is copied into (row, col), and (row2, col2) is set to 0. */
  function SlideTile(g: Grid, row: int, col: int, row2: int, col2: int): (r: Grid)
    requires 0 <= row < |g| && 0 <= col < |g[row]| && 0 <= row2 < |g| && 0 <= col2 < |g[row2]|
    ensures |r| == |g| && forall x :: 0 <= x < |g| ==> |r[x]| == |g[x]|
  {
    var g1 := g[row := g[row][col := g[row2][col2]]];
    g1[row2 := g1[row2][col2 := 0]]
  }

  function DeltaRow(direction: char): int
  {
    if direction == 'u' then -1 else if direction == 'd' then 1 else 0
  }

  function DeltaCol(direction: char): int
  {
    if direction == 'l' then -1 else if direction == 'r' then 1 else 0
  }

  predicate IsDirection(direction: char)
  {
    direction == 'l' || direction == 'r' || direction == 'u' || direction == 'd'
  }

  /** A move is legal when it names a direction and the neighbour there is in the grid. */
  predicate Legal(height: int, width: int, row: int, col: int, direction: char)
  {
    IsDirection(direction) &&
    InGrid(height, width, row + DeltaRow(direction), col + DeltaCol(direction))
  }

  /** One character of `update_puzzle`. Each of the four directions asserts that its
      neighbour is in the grid, copies the neighbour into the blank's cell, zeroes the
      neighbour and moves the tracked position there; any other character fails. */
  function Step(s: Slide, height: int, width: int, direction: char): (t: Slide)
    requires SlideOk(s, height, width)
    ensures SlideOk(t, height, width)
  {
    if s.failed then s
    else if !Legal(height, width, s.zeroRow, s.zeroCol, direction) then s.(failed := true)
    else
      var row, col := s.zeroRow + DeltaRow(direction), s.zeroCol + DeltaCol(direction);
      Slide(SlideTile(s.grid, s.zeroRow, s.zeroCol, row, col), row, col, false)
  }

  /** The moves applied one after another from `s`. */
  function SlideAll(s: Slide, height: int, width: int, moves: string): (t: Slide)
    requires SlideOk(s, height, width)
    ensures SlideOk(t, height, width)
    decreases |moves|
  {
    if moves == [] then s
    else Step(SlideAll(s, height, width, moves[..|moves| - 1]), height, width, moves[|moves| - 1])
  }

  /** `update_puzzle`: the blank is found by `current_position(0, 0)`, then the moves are
      applied in turn, and the first one that fails stops the update. */
  function Update(g: Grid, height: int, width: int, moves: string): (t: Slide)
    requires IsGrid(g, height, width)
    ensures SlideOk(t, height, width)
  {
    match Locate(g, 0, 0)
    case None => Slide(g, 0, 0, true)
    case Some(p) => SlideAll(Slide(g, p.0, p.1, false), height, width, moves)
  }

  /** The cells of a `SlideTile` grid. */
  lemma SlideTileCell(g: Grid, row: int, col: int, row2: int, col2: int, x: int, y: int)
    requires 0 <= row < |g| && 0 <= col < |g[row]| && 0 <= row2 < |g| && 0 <= col2 < |g[row2]|
    requires 0 <= x < |g| && 0 <= y < |g[x]|
    ensures SlideTile(g, row, col, row2, col2)[x][y] ==
      if x == row2 && y == col2 then 0
      else if x == row && y == col then g[row2][col2]
      else g[x][y]
  {
  }

  /** One move: it fails exactly when it is not a direction or leads off the grid; otherwise
      the blank and the neighbour change places and no other cell changes. */
  lemma StepMeaning(s: Slide, height: int, width: int, direction: char)
    requires SlideOk(s, height, width) && !s.failed && BlankAt(s)
    ensures Step(s, height, width, direction).failed <==>
      !Legal(height, width, s.zeroRow, s.zeroCol, direction)
    ensures !Step(s, height, width, direction).failed ==>
      Step(s, height, width, direction).zeroRow == s.zeroRow + DeltaRow(direction) &&
      Step(s, height, width, direction).zeroCol == s.zeroCol + DeltaCol(direction)
    ensures !Step(s, height, width, direction).failed ==> forall x, y ::
      InGrid(height, width, x, y) ==>
      Step(s, height, width, direction).grid[x][y] ==
        if x == s.zeroRow + DeltaRow(direction) && y == s.zeroCol + DeltaCol(direction) then 0
        else if x == s.zeroRow && y == s.zeroCol then
          s.grid[s.zeroRow + DeltaRow(direction)][s.zeroCol + DeltaCol(direction)]
        else s.grid[x][y]
    ensures Step(s, height, width, direction).failed ==>
      Step(s, height, width, direction).grid == s.grid
  {
    var t := Step(s, height, width, direction);
    if !t.failed {
      forall x, y | InGrid(height, width, x, y)
        ensures t.grid[x][y] ==
          if x == s.zeroRow + DeltaRow(direction) && y == s.zeroCol + DeltaCol(direction) then 0
          else if x == s.zeroRow && y == s.zeroCol then
            s.grid[s.zeroRow + DeltaRow(direction)][s.zeroCol + DeltaCol(direction)]
          else s.grid[x][y]
      {
        SlideTileCell(s.grid, s.zeroRow, s.zeroCol, s.zeroRow + DeltaRow(direction),
          s.zeroCol + DeltaCol(direction), x, y);
      }
    }
  }

  /** Where one move takes the blank: it fails exactly when it is not a direction or leads
      off the grid, and otherwise goes one cell in its direction. */
  lemma StepPosition(s: Slide, height: int, width: int, direction: char)
    requires SlideOk(s, height, width) && !s.failed
    ensures Step(s, height, width, direction).failed <==>
      !Legal(height, width, s.zeroRow, s.zeroCol, direction)
    ensures !Step(s, height, width, direction).failed ==>
      Step(s, height, width, direction).zeroRow == s.zeroRow + DeltaRow(direction) &&
      Step(s, height, width, direction).zeroCol == s.zeroCol + DeltaCol(direction)
  {
  }

  /** After a move the blank is where the loop tracks it. */
  lemma StepBlank(s: Slide, height: int, width: int, direction: char)
    requires SlideOk(s, height, width) && BlankAt(s)
    ensures BlankAt(Step(s, height, width, direction))
  {
  }

  lemma {:induction false} SlideAllBlank(s: Slide, height: int, width: int, moves: string)
    requires SlideOk(s, height, width) && BlankAt(s)
    ensures BlankAt(SlideAll(s, height, width, moves))
    decreases |moves|
  {
    if moves != [] {
      SlideAllBlank(s, height, width, moves[..|moves| - 1]);
      StepBlank(SlideAll(s, height, width, moves[..|moves| - 1]), height, width, moves[|moves| - 1]);
    }
  }

  /** Once failed, the state does not change. */
  lemma {:induction false} SlideAllFailed(s: Slide, height: int, width: int, moves: string)
    requires SlideOk(s, height, width) && s.failed
    ensures SlideAll(s, height, width, moves) == s
    decreases |moves|
  {
    if moves != [] {
      SlideAllFailed(s, height, width, moves[..|moves| - 1]);
    }
  }

  /** Applying `a` and then `b` is applying `a + b`. */
  lemma {:induction false} SlideAllAppend(s: Slide, height: int, width: int, a: string, b: string)
    requires SlideOk(s, height, width)
    ensures SlideAll(s, height, width, a + b) ==
      SlideAll(SlideAll(s, height, width, a), height, width, b)
    decreases |b|
  {
    if b == [] {
      assert a + b == a;
    } else {
      assert (a + b)[..|a + b| - 1] == a + b[..|b| - 1];
      assert (a + b)[|a + b| - 1] == b[|b| - 1];
      SlideAllAppend(s, height, width, a, b[..|b| - 1]);
    }
  }

  /** The first `i + 1` moves are the first `i` and then move `i`; the rest follow. */
  lemma SplitAt(moves: string, i: nat)
    requires i < |moves|
    ensures moves[..i + 1] == moves[..i] + [moves[i]]
    ensures moves == moves[..i + 1] + moves[i + 1..]
  {
  }

  /** A single move is one `Step`. */
  lemma SlideAllOne(s: Slide, height: int, width: int, direction: char)
    requires SlideOk(s, height, width)
    ensures SlideAll(s, height, width, [direction]) == Step(s, height, width, direction)
  {
    assert [direction][..0] == [];
  }

  /** A failing move stops `update_puzzle`: the rest of the moves change nothing. */
  lemma SlideAllStops(start: Slide, height: int, width: int, moves: string, i: nat)
    requires SlideOk(start, height, width) && i < |moves|
    requires !SlideAll(start, height, width, moves[..i]).failed
    requires !Legal(height, width, SlideAll(start, height, width, moves[..i]).zeroRow,
                    SlideAll(start, height, width, moves[..i]).zeroCol, moves[i])
    ensures SlideAll(start, height, width, moves).failed
    ensures SlideAll(start, height, width, moves).grid == SlideAll(start, height, width, moves[..i]).grid
  {
    var prefix, suffix := moves[..i + 1], moves[i + 1..];
    var before := SlideAll(start, height, width, moves[..i]);
    SplitAt(moves, i);
    SlideAllAppend(start, height, width, moves[..i], [moves[i]]);
    SlideAllOne(before, height, width, moves[i]);
    var stopped := SlideAll(start, height, width, prefix);
    SlideAllAppend(start, height, width, prefix, suffix);
    SlideAllFailed(stopped, height, width, suffix);
  }

  // the numbers on the grid

  /** The numbers on the grid, with their multiplicities. */
  function Tiles(g: Grid): multiset<int>
  {
    if g == [] then multiset{} else Tiles(g[..|g| - 1]) + multiset(g[|g| - 1])
  }

  lemma {:induction false} TilesUpdate(g: Grid, r: nat, row: seq<int>)
    requires r < |g|
    ensures Tiles(g[r := row]) + multiset(g[r]) == Tiles(g) + multiset(row)
    decreases |g|
  {
    var last := |g| - 1;
    var h := g[r := row];
    if r == last {
      assert h[..last] == g[..last];
    } else {
      assert h[..last] == g[..last][r := row];
      TilesUpdate(g[..last], r, row);
      calc {
        Tiles(h) + multiset(g[r]);
        Tiles(h[..last]) + multiset(g[last]) + multiset(g[r]);
        (Tiles(g[..last][r := row]) + multiset(g[r])) + multiset(g[last]);
        Tiles(g[..last]) + multiset(row) + multiset(g[last]);
        Tiles(g) + multiset(row);
      }
    }
  }

  /** Writing `v` over `s[i]` trades one `s[i]` for one `v`. */
  lemma MultisetUpdate(s: seq<int>, i: nat, v: int)
    requires i < |s|
    ensures multiset(s[i := v]) + multiset{s[i]} == multiset(s) + multiset{v}
  {
    assert s == s[..i] + [s[i]] + s[i + 1..];
    assert s[i := v] == s[..i] + [v] + s[i + 1..];
  }

  /** Sliding a tile into the blank keeps the numbers on the grid. */
  lemma SlideTileTiles(g: Grid, row: int, col: int, row2: int, col2: int)
    requires 0 <= row < |g| && 0 <= col < |g[row]| && 0 <= row2 < |g| && 0 <= col2 < |g[row2]|
    requires g[row][col] == 0 && (row, col) != (row2, col2)
    ensures Tiles(SlideTile(g, row, col, row2, col2)) == Tiles(g)
  {
    var v := g[row2][col2];
    var row1 := g[row][col := v];
    var g1 := g[row := row1];
    var row3 := g1[row2][col2 := 0];
    var g2 := g1[row2 := row3];
    assert SlideTile(g, row, col, row2, col2) == g2;
    TilesUpdate(g, row, row1);
    TilesUpdate(g1, row2, row3);
    MultisetUpdate(g[row], col, v);
    MultisetUpdate(g1[row2], col2, 0);
    forall x ensures Tiles(g2)[x] == Tiles(g)[x] {
      assert (Tiles(g1) + multiset(g[row]))[x] == (Tiles(g) + multiset(row1))[x];
      assert (Tiles(g2) + multiset(g1[row2]))[x] == (Tiles(g1) + multiset(row3))[x];
      assert (multiset(row1) + multiset{0})[x] == (multiset(g[row]) + multiset{v})[x];
      assert (multiset(row3) + multiset{g1[row2][col2]})[x] == (multiset(g1[row2]) + multiset{0})[x];
      if row == row2 {
        assert g1[row2] == row1 && g1[row2][col2] == v;
      } else {
        assert g1[row2] == g[row2];
      }
    }
  }

  lemma {:induction false} SlideAllTiles(s: Slide, height: int, width: int, moves: string)
    requires SlideOk(s, height, width) && BlankAt(s)
    ensures Tiles(SlideAll(s, height, width, moves).grid) == Tiles(s.grid)
    decreases |moves|
  {
    if moves != [] {
      var front := moves[..|moves| - 1];
      var p := SlideAll(s, height, width, front);
      SlideAllTiles(s, height, width, front);
      SlideAllBlank(s, height, width, front);
      StepTiles(p, height, width, moves[|moves| - 1]);
    }
  }

  lemma StepTiles(s: Slide, height: int, width: int, direction: char)
    requires SlideOk(s, height, width) && BlankAt(s)
    ensures Tiles(Step(s, height, width, direction).grid) == Tiles(s.grid)
  {
    if !s.failed && Legal(height, width, s.zeroRow, s.zeroCol, direction) {
      var row, col := s.zeroRow + DeltaRow(direction), s.zeroCol + DeltaCol(direction);
      var g := SlideTile(s.grid, s.zeroRow, s.zeroCol, row, col);
      assert Step(s, height, width, direction).grid == g;
      SlideTileTiles(s.grid, s.zeroRow, s.zeroCol, row, col);
      assert Tiles(g) == Tiles(s.grid);
    } else {
      assert Step(s, height, width, direction).grid == s.grid;
    }
  }

  /** `update_puzzle` only moves numbers around: every number stays on the grid. */
  lemma UpdateTiles(g: Grid, height: int, width: int, moves: string)
    requires IsGrid(g, height, width)
    ensures Tiles(Update(g, height, width, moves).grid) == Tiles(g)
  {
    match Locate(g, 0, 0)
    case None =>
    case Some(p) => SlideAllTiles(Slide(g, p.0, p.1, false), height, width, moves);
  }

  // a single blank

  lemma StepUnique(s: Slide, height: int, width: int, direction: char)
    requires SlideOk(s, height, width) && BlankAt(s) && UniqueBlank(s.grid)
    ensures UniqueBlank(Step(s, height, width, direction).grid)
  {
    if !s.failed {
      StepMeaning(s, height, width, direction);
    }
  }

  lemma {:induction false} SlideAllUnique(s: Slide, height: int, width: int, moves: string)
    requires SlideOk(s, height, width) && BlankAt(s) && UniqueBlank(s.grid)
    ensures UniqueBlank(SlideAll(s, height, width, moves).grid)
    decreases |moves|
  {
    if moves != [] {
      var front := moves[..|moves| - 1];
      SlideAllUnique(s, height, width, front);
      SlideAllBlank(s, height, width, front);
      StepUnique(SlideAll(s, height, width, front), height, width, moves[|moves| - 1]);
    }
  }

  /** An update keeps a single blank, and leaves the blank where it tracked it. */
  lemma UpdateUnique(g: Grid, height: int, width: int, moves: string)
    requires IsGrid(g, height, width) && UniqueBlank(g)
    ensures UniqueBlank(Update(g, height, width, moves).grid)
    ensures BlankAt(Update(g, height, width, moves))
  {
    match Locate(g, 0, 0)
    case None =>
    case Some(p) =>
      SlideAllUnique(Slide(g, p.0, p.1, false), height, width, moves);
      SlideAllBlank(Slide(g, p.0, p.1, false), height, width, moves);
  }

  /** With a single blank, two updates one after the other are one update with both move
      strings: the second search finds the blank where the first update left it. */
  lemma UpdateAppend(g: Grid, height: int, width: int, a: string, b: string)
    requires IsGrid(g, height, width) && UniqueBlank(g)
    requires !Update(g, height, width, a).failed
    ensures Update(Update(g, height, width, a).grid, height, width, b) ==
      Update(g, height, width, a + b)
  {
    var p := Locate(g, 0, 0).value;
    var s := Slide(g, p.0, p.1, false);
    var t := SlideAll(s, height, width, a);
    UpdateUnique(g, height, width, a);
    LocateBlank(t.grid, t.zeroRow, t.zeroCol);
    assert Slide(t.grid, t.zeroRow, t.zeroCol, false) == t;
    SlideAllAppend(s, height, width, a, b);
  }
}
