/** poc_2048.py: the 2048 game logic. A height x width grid of tile values (0 is an empty
    square) is moved in one of four directions by merging every row or column; a move that
    changes the grid adds a new 2 or 4 tile in an empty square chosen at random. The two
    random draws of a new tile are parameters here (see `Draw`). */
module Game2048 {
  import opened PyList
  import opened LineMerge

  type Grid = seq<seq<int>>

  datatype Direction = Up | Down | Left | Right

  /** The two random results a new tile needs: `square` stands for
      `random.randint(0, empty_count - 1)` and `tenths` for `random.randint(0, 9)`. */
  datatype Draw = Draw(square: nat, tenths: nat)

  /** OFFSETS: the step from one cell of a line to the next. */
  function Offset(d: Direction): (int, int)
  {
    match d
    case Up => (1, 0)
    case Down => (-1, 0)
    case Left => (0, 1)
    case Right => (0, -1)
  }

  /** The `_initial` table: the first cell of every line moved in direction `d`. */
  function InitialCells(h: nat, w: nat, d: Direction): seq<(int, int)>
  {
    match d
    case Up => seq(w, idx => (0, idx))
    case Down => seq(w, idx => (h - 1, idx))
    case Left => seq(h, idx => (idx, 0))
    case Right => seq(h, idx => (idx, w - 1))
  }

  /** The number of cells in a line moved in direction `d`. */
  function LineLength(h: nat, w: nat, d: Direction): nat
  {
    if d == Up || d == Down then h else w
  }

  /** The cell at index `idx` of line `s` in direction `d`. */
  function Cell(h: nat, w: nat, d: Direction, s: int, idx: int): (int, int)
  {
    match d
    case Up => (idx, s)
    case Down => (h - 1 - idx, s)
    case Left => (s, idx)
    case Right => (s, w - 1 - idx)
  }

  /** The line through cell (r, c) in direction `d`, and the cell's index along it. */
  function LineOf(d: Direction, r: int, c: int): int
  {
    if d == Up || d == Down then c else r
  }

  function IndexOf(h: nat, w: nat, d: Direction, r: int, c: int): int
  {
    match d
    case Up => r
    case Down => h - 1 - r
    case Left => c
    case Right => w - 1 - c
  }

  predicate InGrid(h: nat, w: nat, p: (int, int))
  {
    0 <= p.0 < h && 0 <= p.1 < w
  }

  /** `move` reaches index `idx` of line `s` as `pos + delta * idx`, where `pos` is the
      line's entry in the `_initial` table and `delta` the direction's offset; that cell is
      inside the grid, and line `s` at index `idx` is the only line position naming it. */
  lemma CellOfLine(h: nat, w: nat, d: Direction, s: nat, idx: nat)
    requires s < |InitialCells(h, w, d)| && idx < LineLength(h, w, d)
    ensures InitialCells(h, w, d)[s].0 + Offset(d).0 * idx == Cell(h, w, d, s, idx).0
    ensures InitialCells(h, w, d)[s].1 + Offset(d).1 * idx == Cell(h, w, d, s, idx).1
    ensures InGrid(h, w, Cell(h, w, d, s, idx))
    ensures LineOf(d, Cell(h, w, d, s, idx).0, Cell(h, w, d, s, idx).1) == s
    ensures IndexOf(h, w, d, Cell(h, w, d, s, idx).0, Cell(h, w, d, s, idx).1) == idx
  {
  }

  /** Every cell of the grid lies on a line of every direction, at an index inside it: with
      `CellOfLine`, the lines of a direction cover the grid exactly once. */
  lemma LineOfCell(h: nat, w: nat, d: Direction, r: int, c: int)
    requires InGrid(h, w, (r, c))
    ensures 0 <= LineOf(d, r, c) < |InitialCells(h, w, d)|
    ensures 0 <= IndexOf(h, w, d, r, c) < LineLength(h, w, d)
    ensures Cell(h, w, d, LineOf(d, r, c), IndexOf(h, w, d, r, c)) == (r, c)
  {
  }

  predicate IsGrid(g: Grid, h: nat, w: nat)
  {
    |g| == h && forall r :: 0 <= r < h ==> |g[r]| == w
  }

  /** The values along line `s` of direction `d`, in the order `move` copies them. */
  function LineValues(g: Grid, h: nat, w: nat, d: Direction, s: int): (line: seq<int>)
    requires IsGrid(g, h, w) && 0 <= s < |InitialCells(h, w, d)|
    ensures |line| == LineLength(h, w, d)
  {
    seq(LineLength(h, w, d), idx requires 0 <= idx < LineLength(h, w, d) =>
      CellOfLine(h, w, d, s, idx);
      g[Cell(h, w, d, s, idx).0][Cell(h, w, d, s, idx).1])
  }

  /** Whether `ls` holds one line of values per line of direction `d`. */
  predicate LinesShaped(ls: seq<seq<int>>, h: nat, w: nat, d: Direction)
  {
    |ls| == |InitialCells(h, w, d)| && forall s :: 0 <= s < |ls| ==> |ls[s]| == LineLength(h, w, d)
  }

  /** Every line of direction `d`, merged. */
  function MovedLines(g: Grid, h: nat, w: nat, d: Direction): (ls: seq<seq<int>>)
    requires IsGrid(g, h, w)
    ensures LinesShaped(ls, h, w, d)
  {
    seq(|InitialCells(h, w, d)|, s requires 0 <= s < |InitialCells(h, w, d)| =>
      MergedLength(LineValues(g, h, w, d, s));
      Merged(LineValues(g, h, w, d, s)))
  }

  /** The grid after every line of direction `d` has been replaced by its merge: the cell
      at index `i` of line `s` holds the value at index `i` of the merged line `s`. */
  function MovedGrid(g: Grid, h: nat, w: nat, d: Direction): (m: Grid)
    requires IsGrid(g, h, w)
    ensures IsGrid(m, h, w)
  {
    var ls := MovedLines(g, h, w, d);
    seq(h, r requires 0 <= r < h => seq(w, c requires 0 <= c < w =>
      LineOfCell(h, w, d, r, c);
      ls[LineOf(d, r, c)][IndexOf(h, w, d, r, c)]))
  }

  /** The values `ls` written over `g` part way through `move`: the lines before `s`, and
      line `s` below index `idx`, come from `ls`; every other cell is as in `g`. */
  function Rebuilt(g: Grid, ls: seq<seq<int>>, h: nat, w: nat, d: Direction, s: int, idx: int): (m: Grid)
    requires IsGrid(g, h, w) && LinesShaped(ls, h, w, d)
    ensures IsGrid(m, h, w)
  {
    seq(h, r requires 0 <= r < h => seq(w, c requires 0 <= c < w =>
      if LineOf(d, r, c) < s || (LineOf(d, r, c) == s && IndexOf(h, w, d, r, c) < idx)
      then LineOfCell(h, w, d, r, c); ls[LineOf(d, r, c)][IndexOf(h, w, d, r, c)]
      else g[r][c]))
  }

  /** Writing index `idx` of line `s` extends the written part by one cell. */
  lemma RebuiltStep(g: Grid, ls: seq<seq<int>>, h: nat, w: nat, d: Direction, s: nat, idx: nat)
    requires IsGrid(g, h, w) && LinesShaped(ls, h, w, d)
    requires s < |InitialCells(h, w, d)| && idx < LineLength(h, w, d)
    ensures InGrid(h, w, Cell(h, w, d, s, idx))
    ensures
      var r, c, m := Cell(h, w, d, s, idx).0, Cell(h, w, d, s, idx).1, Rebuilt(g, ls, h, w, d, s, idx);
      m[r := m[r][c := ls[s][idx]]] == Rebuilt(g, ls, h, w, d, s, idx + 1)
  {
    CellOfLine(h, w, d, s, idx);
    var p, m := Cell(h, w, d, s, idx), Rebuilt(g, ls, h, w, d, s, idx);
    var m' := Rebuilt(g, ls, h, w, d, s, idx + 1);
    var n := m[p.0 := m[p.0][p.1 := ls[s][idx]]];
    forall r | 0 <= r < h ensures n[r] == m'[r] {
      forall c | 0 <= c < w ensures n[r][c] == m'[r][c] {
        LineOfCell(h, w, d, r, c);
      }
    }
  }

  lemma RebuiltStart(g: Grid, ls: seq<seq<int>>, h: nat, w: nat, d: Direction)
    requires IsGrid(g, h, w) && LinesShaped(ls, h, w, d)
    ensures Rebuilt(g, ls, h, w, d, 0, 0) == g
  {
    var m := Rebuilt(g, ls, h, w, d, 0, 0);
    forall r | 0 <= r < h ensures m[r] == g[r] {
      forall c | 0 <= c < w ensures m[r][c] == g[r][c] {
        LineOfCell(h, w, d, r, c);
      }
    }
  }

  lemma RebuiltEnd(g: Grid, h: nat, w: nat, d: Direction)
    requires IsGrid(g, h, w)
    ensures Rebuilt(g, MovedLines(g, h, w, d), h, w, d, |InitialCells(h, w, d)|, 0) == MovedGrid(g, h, w, d)
  {
    var m := Rebuilt(g, MovedLines(g, h, w, d), h, w, d, |InitialCells(h, w, d)|, 0);
    forall r | 0 <= r < h ensures m[r] == MovedGrid(g, h, w, d)[r] {
      forall c | 0 <= c < w ensures m[r][c] == MovedGrid(g, h, w, d)[r][c] {
        LineOfCell(h, w, d, r, c);
      }
    }
  }

  lemma RebuiltNextLine(g: Grid, ls: seq<seq<int>>, h: nat, w: nat, d: Direction, s: int)
    requires IsGrid(g, h, w) && LinesShaped(ls, h, w, d)
    ensures Rebuilt(g, ls, h, w, d, s, LineLength(h, w, d)) == Rebuilt(g, ls, h, w, d, s + 1, 0)
  {
    var a, b := Rebuilt(g, ls, h, w, d, s, LineLength(h, w, d)), Rebuilt(g, ls, h, w, d, s + 1, 0);
    forall r | 0 <= r < h ensures a[r] == b[r] {
      forall c | 0 <= c < w ensures a[r][c] == b[r][c] {
        LineOfCell(h, w, d, r, c);
      }
    }
  }

  /** Part way through line `s`, its cells from `idx` on still hold their values of `g`. */
  lemma RebuiltLine(g: Grid, ls: seq<seq<int>>, h: nat, w: nat, d: Direction, s: nat, idx: nat, i: nat)
    requires IsGrid(g, h, w) && LinesShaped(ls, h, w, d)
    requires s < |InitialCells(h, w, d)| && idx <= i < LineLength(h, w, d)
    ensures InGrid(h, w, Cell(h, w, d, s, i))
    ensures Rebuilt(g, ls, h, w, d, s, idx)[Cell(h, w, d, s, i).0][Cell(h, w, d, s, i).1] ==
      LineValues(g, h, w, d, s)[i]
  {
    CellOfLine(h, w, d, s, i);
  }

  /** The cell `move` addresses as `pos + delta * i` is index `i` of line `s`, and part way
      through that line it still holds its value of `g` when `i >= idx`. */
  lemma CellAccess(g: Grid, ls: seq<seq<int>>, h: nat, w: nat, d: Direction, s: nat, idx: nat, i: nat,
                   pos: (int, int), delta: (int, int), row: int, col: int)
    requires IsGrid(g, h, w) && LinesShaped(ls, h, w, d)
    requires s < |InitialCells(h, w, d)| && idx <= i < LineLength(h, w, d)
    requires pos == InitialCells(h, w, d)[s] && delta == Offset(d)
    requires row == pos.0 + delta.0 * i && col == pos.1 + delta.1 * i
    ensures (row, col) == Cell(h, w, d, s, i) && 0 <= row < h && 0 <= col < w
    ensures Rebuilt(g, ls, h, w, d, s, idx)[row][col] == LineValues(g, h, w, d, s)[i]
  {
    CellOfLine(h, w, d, s, i);
    RebuiltLine(g, ls, h, w, d, s, idx, i);
  }

  /** Writing the merged value into cell (row, col), index `idx` of line `s`. */
  lemma CellWrite(g: Grid, ls: seq<seq<int>>, h: nat, w: nat, d: Direction, s: nat, idx: nat,
                  row: int, col: int)
    requires IsGrid(g, h, w) && LinesShaped(ls, h, w, d)
    requires s < |InitialCells(h, w, d)| && idx < LineLength(h, w, d)
    requires (row, col) == Cell(h, w, d, s, idx)
    ensures 0 <= row < h && 0 <= col < w
    ensures
      var m := Rebuilt(g, ls, h, w, d, s, idx);
      m[row := m[row][col := ls[s][idx]]] == Rebuilt(g, ls, h, w, d, s, idx + 1)
  {
    RebuiltStep(g, ls, h, w, d, s, idx);
  }

  /** Whether line `s` of `ls` differs from line `s` of the grid. */
  predicate LineChanged(g: Grid, ls: seq<seq<int>>, h: nat, w: nat, d: Direction, s: int)
    requires IsGrid(g, h, w) && LinesShaped(ls, h, w, d) && 0 <= s < |InitialCells(h, w, d)|
  {
    ls[s] != LineValues(g, h, w, d, s)
  }

  /** Whether one of the lines before `n` differs. */
  predicate SomeLineChanged(g: Grid, ls: seq<seq<int>>, h: nat, w: nat, d: Direction, n: nat)
    requires IsGrid(g, h, w) && LinesShaped(ls, h, w, d) && n <= |InitialCells(h, w, d)|
  {
    exists s :: 0 <= s < n && LineChanged(g, ls, h, w, d, s)
  }

  lemma SomeLineChangedStep(g: Grid, ls: seq<seq<int>>, h: nat, w: nat, d: Direction, n: nat)
    requires IsGrid(g, h, w) && LinesShaped(ls, h, w, d) && n < |InitialCells(h, w, d)|
    ensures SomeLineChanged(g, ls, h, w, d, n + 1) <==>
      SomeLineChanged(g, ls, h, w, d, n) || LineChanged(g, ls, h, w, d, n)
  {
    if SomeLineChanged(g, ls, h, w, d, n + 1) && !LineChanged(g, ls, h, w, d, n) {
      var s :| 0 <= s < n + 1 && LineChanged(g, ls, h, w, d, s);
      assert s < n;
    }
  }

  /** A move changes the grid exactly when the merge changes one of its lines. */
  lemma MovedGridChanged(g: Grid, h: nat, w: nat, d: Direction)
    requires IsGrid(g, h, w)
    ensures MovedGrid(g, h, w, d) != g <==>
      SomeLineChanged(g, MovedLines(g, h, w, d), h, w, d, |InitialCells(h, w, d)|)
  {
    if MovedGrid(g, h, w, d) != g {
      ChangedCellOnChangedLine(g, h, w, d);
    }
    var ls := MovedLines(g, h, w, d);
    if s :| 0 <= s < |InitialCells(h, w, d)| && LineChanged(g, ls, h, w, d, s) {
      ChangedLineChangesGrid(g, h, w, d, s);
    }
  }

  lemma ChangedCellOnChangedLine(g: Grid, h: nat, w: nat, d: Direction)
    requires IsGrid(g, h, w) && MovedGrid(g, h, w, d) != g
    ensures SomeLineChanged(g, MovedLines(g, h, w, d), h, w, d, |InitialCells(h, w, d)|)
  {
    var m, ls := MovedGrid(g, h, w, d), MovedLines(g, h, w, d);
    var r :| 0 <= r < h && m[r] != g[r];
    var c :| 0 <= c < w && m[r][c] != g[r][c];
    LineOfCell(h, w, d, r, c);
    var s, idx := LineOf(d, r, c), IndexOf(h, w, d, r, c);
    assert LineValues(g, h, w, d, s)[idx] == g[r][c];
    assert ls[s][idx] != LineValues(g, h, w, d, s)[idx];
    assert LineChanged(g, ls, h, w, d, s);
  }

  lemma ChangedLineChangesGrid(g: Grid, h: nat, w: nat, d: Direction, s: nat)
    requires IsGrid(g, h, w) && s < |InitialCells(h, w, d)|
    requires LineChanged(g, MovedLines(g, h, w, d), h, w, d, s)
    ensures MovedGrid(g, h, w, d) != g
  {
    var m, ls := MovedGrid(g, h, w, d), MovedLines(g, h, w, d);
    var line := LineValues(g, h, w, d, s);
    var idx :| 0 <= idx < |line| && ls[s][idx] != line[idx];
    CellOfLine(h, w, d, s, idx);
    var p := Cell(h, w, d, s, idx);
    assert m[p.0][p.1] == ls[s][idx];
    assert m[p.0][p.1] != g[p.0][p.1];
  }

  /** The meaning of `MovedGrid`: each cell holds its merged line's value at its index. */
  lemma MovedGridCell(g: Grid, h: nat, w: nat, d: Direction, r: nat, c: nat)
    requires IsGrid(g, h, w) && r < h && c < w
    ensures 0 <= LineOf(d, r, c) < |InitialCells(h, w, d)|
    ensures
      var line := LineValues(g, h, w, d, LineOf(d, r, c));
      |Merged(line)| == |line| && 0 <= IndexOf(h, w, d, r, c) < |line| &&
      MovedGrid(g, h, w, d)[r][c] == Merged(line)[IndexOf(h, w, d, r, c)]
  {
    LineOfCell(h, w, d, r, c);
    MergedLength(LineValues(g, h, w, d, LineOf(d, r, c)));
  }

  /** Whether two lines differ at an index below `n`. */
  predicate DiffersBefore(a: seq<int>, b: seq<int>, n: nat)
    requires n <= |a| && n <= |b|
  {
    exists i :: 0 <= i < n && a[i] != b[i]
  }

  lemma DiffersStep(a: seq<int>, b: seq<int>, n: nat)
    requires n < |a| && n < |b|
    ensures DiffersBefore(a, b, n + 1) <==> DiffersBefore(a, b, n) || a[n] != b[n]
  {
    if DiffersBefore(a, b, n + 1) && a[n] == b[n] {
      var i :| 0 <= i < n + 1 && a[i] != b[i];
      assert i < n;
    }
  }

  lemma DiffersAll(a: seq<int>, b: seq<int>)
    requires |a| == |b|
    ensures DiffersBefore(a, b, |a|) <==> a != b
  {
    if a != b {
      assert exists i :: 0 <= i < |a| && a[i] != b[i];
    }
  }

  /** Python's `list.count(0)`. */
  function ZerosIn(s: seq<int>): nat
  {
    if s == [] then 0 else ZerosIn(s[..|s| - 1]) + (if s[|s| - 1] == 0 then 1 else 0)
  }

  /** Empty squares in the rows above row `r`. */
  function ZerosAbove(g: Grid, r: nat): nat
    requires r <= |g|
  {
    if r == 0 then 0 else ZerosAbove(g, r - 1) + ZerosIn(g[r - 1])
  }

  function EmptyCount(g: Grid): nat
  {
    ZerosAbove(g, |g|)
  }

  /** Empty squares before (r, c) in row-major order. */
  function EmptiesBefore(g: Grid, r: nat, c: nat): nat
    requires r < |g| && c <= |g[r]|
  {
    ZerosAbove(g, r) + ZerosIn(g[r][..c])
  }

  /** The value of a new tile: 2, or 4 when the tenths draw is 9. */
  function TileValue(tenths: nat): int
  {
    if tenths != 9 then 2 else 4
  }

  /** The grid with the `k`-th empty square (row-major, from 0) set to `v`; unchanged when
      there are not more than `k` empty squares. */
  function WithNewTile(g: Grid, h: nat, w: nat, k: nat, v: int): (n: Grid)
    requires IsGrid(g, h, w)
    ensures IsGrid(n, h, w)
  {
    seq(h, r requires 0 <= r < h => seq(w, c requires 0 <= c < w =>
      if g[r][c] == 0 && EmptiesBefore(g, r, c) == k then v else g[r][c]))
  }

  function EmptyGrid(h: nat, w: nat): (g: Grid)
    ensures IsGrid(g, h, w)
  {
    seq(h, _ => Zeros(w))
  }

  class TwentyFortyEight {
    const height: nat
    const width: nat
    /** The `_initial` table of the constructor. */
    const initial: map<Direction, seq<(int, int)>>
    var grid: Grid

    ghost predicate Valid()
      reads this
    {
      IsGrid(grid, height, width) &&
      forall d: Direction :: d in initial && initial[d] == InitialCells(height, width, d)
    }

    /** A new game: the table of line starts, then `reset` with the draws for its two
        tiles. */
    constructor (gridHeight: nat, gridWidth: nat, first: Draw, second: Draw)
      ensures Valid()
      ensures height == gridHeight && width == gridWidth
      ensures grid == ResetGrid(gridHeight, gridWidth, first, second)
    {
      height, width := gridHeight, gridWidth;
      initial := map[
        Up := seq(gridWidth, idx => (0, idx)),
        Down := seq(gridWidth, idx => (gridHeight - 1, idx)),
        Left := seq(gridHeight, idx => (idx, 0)),
        Right := seq(gridHeight, idx => (idx, gridWidth - 1))];
      grid := EmptyGrid(gridHeight, gridWidth);
      new;
      assert forall d: Direction :: d in initial && initial[d] == InitialCells(height, width, d) by {
        forall d: Direction ensures d in initial && initial[d] == InitialCells(height, width, d) {
          match d
          case Up =>
          case Down =>
          case Left =>
          case Right =>
        }
      }
      Reset(first, second);
    }

    /** `reset`: an empty grid with two new tiles. */
    method Reset(first: Draw, second: Draw)
      requires Valid()
      modifies this
      ensures Valid()
      ensures grid == ResetGrid(height, width, first, second)
    {
      grid := seq(height, _ => Zeros(width));
      NewTile(first);
      NewTile(second);
    }

    static ghost function ResetGrid(h: nat, w: nat, first: Draw, second: Draw): (g: Grid)
      ensures IsGrid(g, h, w)
    {
      var one := WithNewTile(EmptyGrid(h, w), h, w, first.square, TileValue(first.tenths));
      WithNewTile(one, h, w, second.square, TileValue(second.tenths))
    }

    /** `get_tile`: the tile at (row, col), where a negative index counts from the end as
        Python's does; `None` where the read raises. */
    function GetTile(row: int, col: int): (v: Option<int>)
      requires Valid()
      reads this
      ensures v.Some? <==> InWrappedGrid(height, width, row, col)
      ensures v.Some? ==> v.value == grid[row % height][col % width]
      ensures 0 <= row < height && 0 <= col < width ==> v == Some(grid[row][col])
    {
      match (PyIndex(row, height), PyIndex(col, width))
      case (Some(r), Some(c)) => Some(grid[r][c])
      case _ => None
    }

    /** `set_tile`: (row, col), wrapped as in `get_tile`, gets `value`; where the write
        raises nothing changes. */
    method SetTile(row: int, col: int, value: int) returns (ok: bool)
      requires Valid()
      modifies this
      ensures Valid()
      ensures ok <==> InWrappedGrid(height, width, row, col)
      ensures ok ==> grid == old(grid)[row % height := old(grid)[row % height][col % width := value]]
      ensures !ok ==> grid == old(grid)
      ensures ok ==> GetTile(row, col) == Some(value)
    {
      var r, c := PyIndex(row, height), PyIndex(col, width);
      if r.None? || c.None? {
        return false;
      }
      assert r.value == row % height && c.value == col % width;
      grid := grid[r.value := grid[r.value][c.value := value]];
      return true;
    }

    /** `new_tile`: counts the empty squares, and when there is one counts down the drawn
        index over the empty squares in row-major order and fills the square it reaches. */
    method NewTile(draw: Draw)
      requires Valid()
      modifies this
      ensures Valid()
      ensures grid == WithNewTile(old(grid), height, width, draw.square, TileValue(draw.tenths))
    {
      var emptyCount := 0;
      for row := 0 to height
        invariant emptyCount == ZerosAbove(grid, row)
      {
        emptyCount := emptyCount + ZerosIn(grid[row]);
      }
      if emptyCount == 0 {
        NoEmptySquare(grid, height, width, draw.square, TileValue(draw.tenths));
        return;
      }
      ghost var g := grid;
      var squareIndex: nat := draw.square;
      for row := 0 to height
        invariant grid == g
        invariant squareIndex + ZerosAbove(g, row) == draw.square
      {
        for col := 0 to width
          invariant grid == g
          invariant squareIndex + EmptiesBefore(g, row, col) == draw.square
        {
          assert g[row][..col + 1][..col] == g[row][..col];
          if grid[row][col] != 0 {
            continue;
          }
          if squareIndex == 0 {
            grid := grid[row := grid[row][col := TileValue(draw.tenths)]];
            NewTileAt(g, height, width, row, col, TileValue(draw.tenths));
            return;
          }
          squareIndex := squareIndex - 1;
        }
        assert g[row][..width] == g[row];
      }
      assert |g| == height;
      DrawBeyondEmpties(g, height, width, draw.square, TileValue(draw.tenths));
    }

    /** `move`: copies every line of the direction into `temporary`, merges it and writes it
        back, noting whether any cell changed; a change adds a new tile. */
    method Move(direction: Direction, draw: Draw)
      requires Valid()
      modifies this
      ensures Valid()
      ensures
        var moved := MovedGrid(old(grid), height, width, direction);
        grid == if moved != old(grid)
                then WithNewTile(moved, height, width, draw.square, TileValue(draw.tenths))
                else moved
    {
      var changed := MergeLines(direction);
      if changed {
        NewTile(draw);
      }
    }

    /** The loop of `move` over the lines of the direction: merges every line in place and
        reports whether any cell changed. */
    method MergeLines(direction: Direction) returns (changed: bool)
      requires Valid()
      modifies this
      ensures Valid()
      ensures grid == MovedGrid(old(grid), height, width, direction)
      ensures changed <==> grid != old(grid)
    {
      ghost var g := grid;
      ghost var ls := MovedLines(g, height, width, direction);
      var length := if direction == Up || direction == Down then height else width;
      var temporary := Zeros(length);
      changed := false;
      var starts := initial[direction];
      assert starts == InitialCells(height, width, direction);
      RebuiltStart(g, ls, height, width, direction);
      for s := 0 to |starts|
        invariant Valid()
        invariant grid == Rebuilt(g, ls, height, width, direction, s, 0)
        invariant changed <==> SomeLineChanged(g, ls, height, width, direction, s)
      {
        temporary := ReadLine(direction, s, g, ls);
        temporary := Merge(temporary);
        assert temporary == ls[s];
        var lineChanged := WriteLine(direction, s, temporary, g, ls);
        SomeLineChangedStep(g, ls, height, width, direction, s);
        changed := changed || lineChanged;
      }
      RebuiltEnd(g, height, width, direction);
      MovedGridChanged(g, height, width, direction);
    }

    /** The first inner loop of `move`: copies line `s` of the grid into `temporary`. */
    method ReadLine(direction: Direction, s: nat, ghost g: Grid, ghost ls: seq<seq<int>>)
      returns (temporary: seq<int>)
      requires Valid() && IsGrid(g, height, width) && LinesShaped(ls, height, width, direction)
      requires s < |InitialCells(height, width, direction)|
      requires grid == Rebuilt(g, ls, height, width, direction, s, 0)
      ensures temporary == LineValues(g, height, width, direction, s)
    {
      var delta := Offset(direction);
      var length := if direction == Up || direction == Down then height else width;
      var pos := initial[direction][s];
      assert pos == InitialCells(height, width, direction)[s];
      ghost var line := LineValues(g, height, width, direction, s);
      temporary := Zeros(length);
      for idx := 0 to length
        invariant |temporary| == length
        invariant forall i :: 0 <= i < idx ==> temporary[i] == line[i]
      {
        var row, col := pos.0 + delta.0 * idx, pos.1 + delta.1 * idx;
        CellAccess(g, ls, height, width, direction, s, 0, idx, pos, delta, row, col);
        temporary := temporary[idx := grid[row][col]];
      }
    }

    /** The second inner loop of `move`: writes the merged line `temporary` back into line
        `s`, reporting whether any cell changed. */
    method WriteLine(direction: Direction, s: nat, temporary: seq<int>, ghost g: Grid,
                     ghost ls: seq<seq<int>>)
      returns (lineChanged: bool)
      requires Valid() && IsGrid(g, height, width) && LinesShaped(ls, height, width, direction)
      requires s < |InitialCells(height, width, direction)|
      requires grid == Rebuilt(g, ls, height, width, direction, s, 0) && temporary == ls[s]
      modifies this
      ensures Valid()
      ensures grid == Rebuilt(g, ls, height, width, direction, s + 1, 0)
      ensures lineChanged <==> LineChanged(g, ls, height, width, direction, s)
    {
      var delta := Offset(direction);
      var length := if direction == Up || direction == Down then height else width;
      var pos := initial[direction][s];
      assert pos == InitialCells(height, width, direction)[s];
      ghost var line := LineValues(g, height, width, direction, s);
      lineChanged := false;
      for idx := 0 to length
        invariant grid == Rebuilt(g, ls, height, width, direction, s, idx)
        invariant lineChanged <==> DiffersBefore(temporary, line, idx)
      {
        var row, col := pos.0 + delta.0 * idx, pos.1 + delta.1 * idx;
        CellAccess(g, ls, height, width, direction, s, idx, idx, pos, delta, row, col);
        CellWrite(g, ls, height, width, direction, s, idx, row, col);
        var prev := grid[row][col];
        DiffersStep(temporary, line, idx);
        lineChanged := lineChanged || prev != temporary[idx];
        grid := grid[row := grid[row][col := temporary[idx]]];
      }
      RebuiltNextLine(g, ls, height, width, direction, s);
      DiffersAll(temporary, line);
    }
  }

  lemma NoEmptySquare(g: Grid, h: nat, w: nat, k: nat, v: int)
    requires IsGrid(g, h, w) && EmptyCount(g) == 0
    ensures WithNewTile(g, h, w, k, v) == g
  {
    var n := WithNewTile(g, h, w, k, v);
    forall r | 0 <= r < h ensures n[r] == g[r] {
      forall c | 0 <= c < w ensures n[r][c] == g[r][c] {
        CountBelow(g, r, c);
      }
    }
  }

  /** Zeros in a prefix never exceed zeros in the whole; a zero at (r, c) is one more. */
  lemma CountBelow(g: Grid, r: nat, c: nat)
    requires r < |g| && c < |g[r]|
    ensures EmptiesBefore(g, r, c) + (if g[r][c] == 0 then 1 else 0) <= EmptyCount(g)
  {
    PrefixZeros(g[r], c + 1);
    assert g[r][..c + 1][..c] == g[r][..c];
    ZerosAboveMonotone(g, r + 1, |g|);
  }

  lemma {:induction false} PrefixZeros(s: seq<int>, n: nat)
    requires n <= |s|
    ensures ZerosIn(s[..n]) <= ZerosIn(s)
    decreases |s|
  {
    if n < |s| {
      assert s[..|s| - 1][..n] == s[..n];
      PrefixZeros(s[..|s| - 1], n);
    } else {
      assert s[..n] == s;
    }
  }

  lemma {:induction false} ZerosAboveMonotone(g: Grid, r: nat, q: nat)
    requires r <= q <= |g|
    ensures ZerosAbove(g, r) <= ZerosAbove(g, q)
    decreases q
  {
    if r < q {
      ZerosAboveMonotone(g, r, q - 1);
    }
  }

  /** The square the countdown reaches is the `k`-th empty one and the only one that
      `WithNewTile` changes. */
  lemma NewTileAt(g: Grid, h: nat, w: nat, r: nat, c: nat, v: int)
    requires IsGrid(g, h, w) && r < h && c < w && g[r][c] == 0
    ensures g[r := g[r][c := v]] == WithNewTile(g, h, w, EmptiesBefore(g, r, c), v)
  {
    var k := EmptiesBefore(g, r, c);
    var n, m := g[r := g[r][c := v]], WithNewTile(g, h, w, k, v);
    forall r' | 0 <= r' < h ensures n[r'] == m[r'] {
      forall c' | 0 <= c' < w ensures n[r'][c'] == m[r'][c'] {
        if (r', c') != (r, c) && g[r'][c'] == 0 {
          if r' < r || (r' == r && c' < c) {
            EmptiesBeforeGrows(g, r', c', r, c);
          } else {
            EmptiesBeforeGrows(g, r, c, r', c');
          }
        }
      }
    }
  }

  /** An empty square before (r2, c2) in row-major order has fewer empty squares before it. */
  lemma EmptiesBeforeGrows(g: Grid, r1: nat, c1: nat, r2: nat, c2: nat)
    requires r1 < |g| && c1 < |g[r1]| && r2 < |g| && c2 < |g[r2]| && g[r1][c1] == 0
    requires r1 < r2 || (r1 == r2 && c1 < c2)
    ensures EmptiesBefore(g, r1, c1) < EmptiesBefore(g, r2, c2)
  {
    assert g[r1][..c1 + 1][..c1] == g[r1][..c1];
    if r1 == r2 {
      assert g[r1][..c2][..c1 + 1] == g[r1][..c1 + 1];
      PrefixZeros(g[r1][..c2], c1 + 1);
    } else {
      PrefixZeros(g[r1], c1 + 1);
      ZerosAboveMonotone(g, r1 + 1, r2);
    }
  }

  /** A countdown that passes every square changes nothing: the draw is not below the
      number of empty squares. */
  lemma DrawBeyondEmpties(g: Grid, h: nat, w: nat, k: nat, v: int)
    requires IsGrid(g, h, w) && k >= EmptyCount(g)
    ensures WithNewTile(g, h, w, k, v) == g
  {
    var n := WithNewTile(g, h, w, k, v);
    forall r | 0 <= r < h ensures n[r] == g[r] {
      forall c | 0 <= c < w ensures n[r][c] == g[r][c] {
        CountBelow(g, r, c);
      }
    }
  }
}
