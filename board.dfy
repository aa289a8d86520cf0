// The playing field: a width x height grid of cells, row 0 at the top, with
// collision checks, locking a piece into the grid, line clearing and queries.

class Board {
  const width: nat
  const height: nat
  var grid: Grid

  /** The grid has exactly height rows of width cells, and the board is not degenerate. */
  ghost predicate Valid()
    reads this
  {
    width >= 1 && height >= 1 && WellFormed(grid, width, height)
  }

  /** A new, empty board. */
  constructor (width: nat, height: nat)
    requires width >= 1 && height >= 1
    ensures Valid()
    ensures this.width == width && this.height == height
    ensures grid == EmptyRows(height, width)
  {
    this.width := width;
    this.height := height;
    new;
    Reset();
  }

  /** Empties the board: height rows of width empty cells. */
  method Reset()
    modifies this
    ensures WellFormed(grid, width, height)
    ensures grid == EmptyRows(height, width)
  {
    grid := EmptyRows(height, width);
  }

  /** t is a piece and every one of its cells is on the board and empty. */
  predicate Admits(t: Tetromino?)
    reads this, t
    requires Valid()
  {
    t != null && FitsAt(grid, width, height, Offsets(t.kind, t.rotation), t.x, t.y)
  }

  /** Checks the piece's cells one by one against the walls, the floor, the top and the blocks. */
  method IsValidPosition(t: Tetromino?) returns (ok: bool)
    requires Valid()
    ensures ok == Admits(t)
  {
    if t == null {
      return false;
    }
    FitsAtCells(grid, width, height, Offsets(t.kind, t.rotation), t.x, t.y);
    var cs := t.Coords();
    var i := 0;
    while i < |cs|
      invariant 0 <= i <= |cs|
      invariant forall j :: 0 <= j < i ==> IsFree(grid, width, height, cs[j])
    {
      var x, y := cs[i].0, cs[i].1;
      if x < 0 || x >= width || y < 0 || y >= height {
        return false;
      }
      if y >= 0 && grid[y][x] != Empty {
        return false;
      }
      i := i + 1;
    }
    return true;
  }

  /**
   * Locks the piece into the grid when its position is valid: each of its
   * cells becomes a block of its kind. Otherwise nothing changes.
   */
  method PlaceTetromino(t: Tetromino?) returns (ok: bool)
    requires Valid()
    modifies this
    ensures Valid()
    ensures ok == old(Admits(t))
    ensures !ok ==> grid == old(grid)
    ensures ok ==> t != null && grid == Placed(old(grid), width, height, t.Coords(), t.kind)
  {
    ok := IsValidPosition(t);
    if !ok {
      return;
    }
    var cs := t.Coords();
    var i := 0;
    assert cs[..0] == [];
    while i < |cs|
      invariant 0 <= i <= |cs|
      invariant grid == Placed(old(grid), width, height, cs[..i], t.kind)
    {
      var x, y := cs[i].0, cs[i].1;
      assert cs[..i + 1][..i] == cs[..i];
      if 0 <= y < height && 0 <= x < width {
        grid := grid[y := grid[y][x := Block(t.kind)]];
      }
      i := i + 1;
    }
    assert cs[..i] == cs;
  }

  /**
   * Removes every full row, scanning from the bottom; after a removal an
   * empty row goes on top and the same index is examined again.
   * Returns how many rows were removed.
   */
  method ClearLines() returns (linesCleared: nat)
    requires Valid()
    modifies this
    ensures Valid()
    ensures linesCleared == CountFull(old(grid))
    ensures grid == Cleared(old(grid), width)
  {
    ghost var g0 := grid;
    ghost var done: nat := 0;  // rows of the old grid examined so far, counted from the bottom
    linesCleared := 0;
    var y: int := height - 1;
    ClearStateStart(g0, width, height);
    while y >= 0
      invariant ClearState(g0, width, height, linesCleared, done, grid, y)
      invariant WellFormed(grid, width, height)
      decreases y + 1 + height - linesCleared
    {
      if RowFull(grid[y]) {
        ClearStepFull(g0, width, height, linesCleared, done, grid, y);
        grid := [EmptyRow(width)] + grid[..y] + grid[y + 1..];
        linesCleared := linesCleared + 1;
        done := done + 1;
      } else {
        ClearStepKeep(g0, width, height, linesCleared, done, grid, y);
        done := if done < height then done + 1 else done;
        y := y - 1;
      }
    }
    ClearStateDone(g0, width, height, linesCleared, done, grid);
  }

  /** True iff some cell of the top row is occupied. */
  function IsGameOver(): (over: bool)
    reads this
    requires Valid()
    ensures over <==> exists x :: 0 <= x < width && grid[0][x] != Empty
  {
    !RowEmpty(grid[0])
  }

  /** The cell at (x, y); Empty for a position off the board. */
  function GetCell(x: int, y: int): (c: Cell)
    reads this
    requires Valid()
    ensures !(0 <= x < width && 0 <= y < height) ==> c == Empty
    ensures 0 <= x < width && 0 <= y < height ==> c == grid[y][x]
  {
    if !(0 <= x < width && 0 <= y < height) then Empty else grid[y][x]
  }

  /** The colour to draw the cell at (x, y) in: the empty colour off the board or on an empty cell, else its kind's colour. */
  function GetCellColor(x: int, y: int): (c: string)
    reads this
    requires Valid()
    ensures c == ColourEmpty <==> !(0 <= x < width && 0 <= y < height) || grid[y][x] == Empty
    ensures c != ColourEmpty ==> c == Colour(grid[y][x].kind)
  {
    if !(0 <= x < width && 0 <= y < height) then ColourEmpty
    else
      var cell := grid[y][x];
      ColoursDistinct(if cell.Block? then cell.kind else I, I);
      if cell.Block? then Colour(cell.kind) else ColourEmpty
  }

  /** The indices of the full rows, top to bottom. */
  method GetFilledRows() returns (rows: seq<int>)
    requires Valid()
    ensures forall v :: v in rows <==> 0 <= v < height && RowFull(grid[v])
    ensures forall i, j :: 0 <= i < j < |rows| ==> rows[i] < rows[j]
    ensures |rows| == CountFull(grid)
  {
    rows := [];
    var y := 0;
    while y < height
      invariant 0 <= y <= height
      invariant forall v :: v in rows <==> 0 <= v < y && RowFull(grid[v])
      invariant forall i :: 0 <= i < |rows| ==> rows[i] < y
      invariant forall i, j :: 0 <= i < j < |rows| ==> rows[i] < rows[j]
      invariant |rows| == CountFull(grid[..y])
    {
      CountFullAppend(grid[..y], [grid[y]]);
      assert grid[..y + 1] == grid[..y] + [grid[y]];
      if RowFull(grid[y]) {
        rows := rows + [y];
      }
      y := y + 1;
    }
    assert grid[..height] == grid;
  }

  /** True iff rowIndex is a row of the board and all its cells are empty. */
  function RowIsEmpty(rowIndex: int): (empty: bool)
    reads this
    requires Valid()
    ensures empty <==> 0 <= rowIndex < height && forall x :: 0 <= x < width ==> grid[rowIndex][x] == Empty
  {
    if !(0 <= rowIndex < height) then false else RowEmpty(grid[rowIndex])
  }

  /** The number of occupied cells, counted row by row. */
  method CountFilledCells() returns (count: nat)
    requires Valid()
    ensures count == FilledCount(grid)
  {
    count := 0;
    var y := 0;
    while y < |grid|
      invariant 0 <= y <= |grid|
      invariant count == FilledCount(grid[..y])
    {
      var row := grid[y];
      var x := 0;
      while x < |row|
        invariant 0 <= x <= |row|
        invariant count == FilledCount(grid[..y]) + RowFilled(row[..x])
      {
        RowFilledAppend(row[..x], [row[x]]);
        assert row[..x + 1] == row[..x] + [row[x]];
        if row[x] != Empty {
          count := count + 1;
        }
        x := x + 1;
      }
      assert row[..x] == row;
      FilledCountAppend(grid[..y], [row]);
      assert grid[..y + 1] == grid[..y] + [row];
      y := y + 1;
    }
    assert grid[..y] == grid;
  }

  /** The topmost row holding a block, or -1 exactly when the board is empty. */
  method GetHighestFilledRow() returns (top: int)
    requires Valid()
    ensures -1 <= top < height
    ensures top == -1 <==> FilledCount(grid) == 0
    ensures top >= 0 ==> !RowEmpty(grid[top]) && forall y :: 0 <= y < top ==> RowEmpty(grid[y])
  {
    var y := 0;
    while y < height
      invariant 0 <= y <= height
      invariant forall v :: 0 <= v < y ==> RowEmpty(grid[v])
    {
      if !RowEmpty(grid[y]) {
        FilledCountZero(grid);
        return y;
      }
      y := y + 1;
    }
    FilledCountZero(grid);
    return -1;
  }
}
