// The board's contents as values: rows of cells, and the functions that
// specify what the Board class's methods and queries compute.

/** A board cell: empty, or holding a block of a locked piece of some kind. */
datatype Cell = Empty | Block(kind: Kind)

type Row = seq<Cell>

/** Row 0 is the top of the board. */
type Grid = seq<Row>

/** The grid has h rows of w cells each. */
predicate WellFormed(g: Grid, w: nat, h: nat)
{
  |g| == h && forall y :: 0 <= y < h ==> |g[y]| == w
}

/** Cell c lies inside the board and is empty. */
predicate IsFree(g: Grid, w: nat, h: nat, c: (int, int))
  requires WellFormed(g, w, h)
{
  0 <= c.0 < w && 0 <= c.1 < h && g[c.1][c.0] == Empty
}

/** Every one of the cells cs lies inside the board on an empty cell. */
predicate Fits(g: Grid, w: nat, h: nat, cs: seq<(int, int)>)
  requires WellFormed(g, w, h)
{
  forall i :: 0 <= i < |cs| ==> IsFree(g, w, h, cs[i])
}

/** No cell of the row is empty (an empty row counts as full). */
predicate RowFull(r: Row)
{
  forall x :: 0 <= x < |r| ==> r[x] != Empty
}

/** Every cell of the row is empty. */
predicate RowEmpty(r: Row)
{
  forall x :: 0 <= x < |r| ==> r[x] == Empty
}

function EmptyRow(w: nat): (r: Row)
  ensures |r| == w && RowEmpty(r)
{
  seq(w, _ => Empty)
}

/** n empty rows of width w: a fresh board when n is its height. */
function EmptyRows(n: nat, w: nat): (g: Grid)
  ensures WellFormed(g, w, n)
  ensures forall y :: 0 <= y < n ==> RowEmpty(g[y])
{
  seq(n, _ => EmptyRow(w))
}

/** The grid g with cell c set to a block of kind k when c lies on the board. */
function SetCell(g: Grid, w: nat, h: nat, c: (int, int), k: Kind): (p: Grid)
  requires WellFormed(g, w, h)
  ensures WellFormed(p, w, h)
{
  if 0 <= c.1 < h && 0 <= c.0 < w then g[c.1 := g[c.1][c.0 := Block(k)]] else g
}

/** The grid g with the cells cs set, one after another, to blocks of kind k (cells off the board are skipped). */
function Placed(g: Grid, w: nat, h: nat, cs: seq<(int, int)>, k: Kind): (p: Grid)
  requires WellFormed(g, w, h)
  ensures WellFormed(p, w, h)
  decreases |cs|
{
  if cs == [] then g else SetCell(Placed(g, w, h, cs[..|cs| - 1], k), w, h, cs[|cs| - 1], k)
}

/** The number of non-empty cells of a row. */
function RowFilled(r: Row): (n: nat)
  ensures n <= |r|
  ensures n == |r| <==> RowFull(r)
  ensures n == 0 <==> RowEmpty(r)
{
  if r == [] then 0 else (if r[0] != Empty then 1 else 0) + RowFilled(r[1..])
}

/** The number of non-empty cells of a grid. */
function FilledCount(g: Grid): nat
{
  if g == [] then 0 else RowFilled(g[0]) + FilledCount(g[1..])
}

/** The number of full rows of g. */
function CountFull(g: Grid): (n: nat)
  ensures n <= |g|
{
  if g == [] then 0 else (if RowFull(g[0]) then 1 else 0) + CountFull(g[1..])
}

/** The rows of g that are not full, top to bottom. */
function KeepRows(g: Grid): (k: Grid)
  ensures |k| == |g| - CountFull(g)
{
  if g == [] then [] else (if RowFull(g[0]) then [] else [g[0]]) + KeepRows(g[1..])
}

/**
 * The grid after clearing lines: the full rows of g are gone, as many empty
 * rows of width w stand on top, and the other rows follow in their old order.
 */
function Cleared(g: Grid, w: nat): Grid
{
  EmptyRows(CountFull(g), w) + KeepRows(g)
}

/**
 * Placing sets exactly the listed cells that lie on the board to blocks of
 * kind k and leaves every other cell as it was.
 */
lemma {:induction false} PlacedCells(g: Grid, w: nat, h: nat, cs: seq<(int, int)>, k: Kind)
  requires WellFormed(g, w, h)
  ensures forall y, x :: 0 <= y < h && 0 <= x < w ==>
    Placed(g, w, h, cs, k)[y][x] == if (x, y) in cs then Block(k) else g[y][x]
{
  if cs != [] {
    var init, last := cs[..|cs| - 1], cs[|cs| - 1];
    PlacedCells(g, w, h, init, k);
    assert cs == init + [last];
    var p := Placed(g, w, h, init, k);
    forall y, x | 0 <= y < h && 0 <= x < w
      ensures Placed(g, w, h, cs, k)[y][x] == if (x, y) in cs then Block(k) else g[y][x]
    {
      assert (x, y) in cs <==> (x, y) in init || (x, y) == last;
    }
  }
}
