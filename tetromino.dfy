// A falling piece: a kind, an anchor (x, y) and a rotation state, moved and
// rotated in place; its cells, its bounding box, copies and its landing row.

/** The absolute cells of a piece of kind k anchored at (x, y) in rotation state r. */
function PieceCells(k: Kind, x: int, y: int, r: Rotation): (cs: seq<(int, int)>)
  ensures |cs| == 4
  ensures forall i :: 0 <= i < 4 ==> cs[i] == AnchoredCell(Offsets(k, r), x, y, i)
{
  Shifted(Offsets(k, r), x, y)
}

/** Four offsets moved by (x, y). */
function Shifted(o: seq<Offset>, x: int, y: int): (cs: seq<(int, int)>)
  requires |o| == 4
  ensures |cs| == 4
  ensures forall i :: 0 <= i < 4 ==> cs[i] == AnchoredCell(o, x, y, i)
{
  [(x + o[0].0, y + o[0].1), (x + o[1].0, y + o[1].1),
   (x + o[2].0, y + o[2].1), (x + o[3].0, y + o[3].1)]
}

/** The cell offset i of o covers when the anchor is at (x, y). */
function AnchoredCell(o: seq<Offset>, x: int, y: int, i: nat): (int, int)
  requires i < |o|
{
  (x + o[i].0, y + o[i].1)
}

/** A piece's cells are four distinct cells in the 4 x 4 box whose top-left corner is its anchor. */
lemma PieceCellsShape(k: Kind, x: int, y: int, r: Rotation)
  ensures InBoxAt(PieceCells(k, x, y, r), x, y) && Distinct4(PieceCells(k, x, y, r))
{
  OffsetsShape(k, r);
  ShiftedShape(Offsets(k, r), x, y);
}

/** Moving a four-cell shape by (x, y) keeps its cells distinct and puts them in the box at (x, y). */
lemma ShiftedShape(o: seq<Offset>, x: int, y: int)
  requires IsFourCellShape(o)
  ensures InBoxAt(Shifted(o, x, y), x, y) && Distinct4(Shifted(o, x, y))
{
}

/** Each of the four cells lies in the 4 x 4 box whose top-left corner is (x, y). */
predicate InBoxAt(cs: seq<(int, int)>, x: int, y: int)
  requires |cs| == 4
{
  forall i :: 0 <= i < 4 ==> x <= cs[i].0 <= x + 3 && y <= cs[i].1 <= y + 3
}

/** The four cells are pairwise distinct. */
predicate Distinct4(cs: seq<(int, int)>)
  requires |cs| == 4
{
  cs[0] != cs[1] && cs[0] != cs[2] && cs[0] != cs[3] && cs[1] != cs[2] && cs[1] != cs[3] && cs[2] != cs[3]
}

/** The rotation state after a clockwise quarter turn: the next state, 3 wrapping round to 0. */
function Clockwise(r: Rotation): (c: Rotation)
  ensures c != r
{
  if r == 3 then 0 else r + 1
}

/** The rotation state after a counter-clockwise quarter turn: the previous state, 0 wrapping round to 3. */
function Counterclockwise(r: Rotation): Rotation
{
  if r == 0 then 3 else r - 1
}

/** The two turns undo each other, and four clockwise turns are no turn at all. */
lemma TurnsInverse(r: Rotation)
  ensures Counterclockwise(Clockwise(r)) == r
  ensures Clockwise(Counterclockwise(r)) == r
  ensures Clockwise(Clockwise(Clockwise(Clockwise(r)))) == r
{
}

/** A piece with offsets o anchored at (x, y) fits on the board: each of its four cells is free. */
predicate FitsAt(g: Grid, w: nat, h: nat, o: seq<Offset>, x: int, y: int)
  requires WellFormed(g, w, h) && |o| == 4
{
  forall i :: 0 <= i < 4 ==> IsFree(g, w, h, AnchoredCell(o, x, y, i))
}

/** A piece fits exactly when every one of its absolute cells is on the board and empty. */
lemma FitsAtCells(g: Grid, w: nat, h: nat, o: seq<Offset>, x: int, y: int)
  requires WellFormed(g, w, h) && |o| == 4
  ensures FitsAt(g, w, h, o, x, y) <==> Fits(g, w, h, Shifted(o, x, y))
{
}

/**
 * The row a piece with offsets o at column x comes to rest on when it falls
 * from row y: the last row of the unbroken run of fitting rows that starts
 * at y, or y - 1 when the piece does not fit at y at all.
 */
function LandingRow(g: Grid, w: nat, h: nat, o: seq<Offset>, x: int, y: int): (land: int)
  requires WellFormed(g, w, h) && |o| == 4
  decreases h - y - o[0].1
{
  if !FitsAt(g, w, h, o, x, y) then y - 1
  else
    FitsAtAboveFloor(g, w, h, o, x, y);
    LandingRow(g, w, h, o, x, y + 1)
}

/** A fitting piece's first cell is above the floor. */
lemma FitsAtAboveFloor(g: Grid, w: nat, h: nat, o: seq<Offset>, x: int, y: int)
  requires WellFormed(g, w, h) && |o| == 4 && FitsAt(g, w, h, o, x, y)
  ensures y + o[0].1 < h
{
  assert IsFree(g, w, h, AnchoredCell(o, x, y, 0));
}

/** A piece that fits lands where it would land from one row lower. */
lemma LandingRowFalls(g: Grid, w: nat, h: nat, o: seq<Offset>, x: int, y: int)
  requires WellFormed(g, w, h) && |o| == 4 && FitsAt(g, w, h, o, x, y)
  ensures LandingRow(g, w, h, o, x, y) == LandingRow(g, w, h, o, x, y + 1)
{
}

/**
 * The landing row is where the fall stops: the piece fits on every row from
 * y down to it and not on the row below it; a piece that does not fit at y
 * lands one row above.
 */
lemma {:induction false} LandingRowSpec(g: Grid, w: nat, h: nat, o: seq<Offset>, x: int, y: int)
  requires WellFormed(g, w, h) && |o| == 4
  ensures var land := LandingRow(g, w, h, o, x, y);
    && (FitsAt(g, w, h, o, x, y) ==> y <= land && !FitsAt(g, w, h, o, x, land + 1))
    && (!FitsAt(g, w, h, o, x, y) ==> land == y - 1)
    && (forall y' :: y <= y' <= land ==> FitsAt(g, w, h, o, x, y'))
  decreases h - y - o[0].1
{
  if FitsAt(g, w, h, o, x, y) {
    FitsAtAboveFloor(g, w, h, o, x, y);
    LandingRowSpec(g, w, h, o, x, y + 1);
  }
}

class Tetromino {
  const kind: Kind
  var x: int
  var y: int
  var rotation: Rotation

  constructor (kind: Kind, x: int, y: int, rotation: Rotation)
    ensures this.kind == kind && this.x == x && this.y == y && this.rotation == rotation
  {
    this.kind := kind;
    this.x := x;
    this.y := y;
    this.rotation := rotation;
  }

  /** The piece's four absolute cells, in the order of its shape's offsets. */
  function Coords(): (cs: seq<(int, int)>)
    reads this
    ensures cs == PieceCells(kind, x, y, rotation)
  {
    PieceCells(kind, x, y, rotation)
  }

  method RotateClockwise()
    modifies this
    ensures rotation == Clockwise(old(rotation))
    ensures x == old(x) && y == old(y)
  {
    rotation := (rotation + 1) % 4;
  }

  method RotateCounterclockwise()
    modifies this
    ensures rotation == Counterclockwise(old(rotation))
    ensures x == old(x) && y == old(y)
  {
    rotation := (rotation - 1) % 4;
  }

  method Move(dx: int, dy: int)
    modifies this
    ensures x == old(x) + dx && y == old(y) + dy && rotation == old(rotation)
  {
    x := x + dx;
    y := y + dy;
  }

  method MoveLeft()
    modifies this
    ensures x == old(x) - 1 && y == old(y) && rotation == old(rotation)
  {
    Move(-1, 0);
  }

  method MoveRight()
    modifies this
    ensures x == old(x) + 1 && y == old(y) && rotation == old(rotation)
  {
    Move(1, 0);
  }

  method MoveDown()
    modifies this
    ensures x == old(x) && y == old(y) + 1 && rotation == old(rotation)
  {
    Move(0, 1);
  }

  /** A new piece equal to this one; being fresh, changing it leaves this one alone. */
  method Clone() returns (c: Tetromino)
    ensures fresh(c)
    ensures c.kind == kind && c.x == x && c.y == y && c.rotation == rotation
  {
    c := new Tetromino(kind, x, y, rotation);
  }

  /**
   * Where the piece would land if dropped: a copy moved down while it fits
   * and then back up one row. This piece is not changed.
   */
  method GetGhostPosition(board: Board) returns (landing: Tetromino)
    requires board.Valid()
    ensures fresh(landing)
    ensures landing.kind == kind && landing.x == x && landing.rotation == rotation
    ensures landing.y == LandingRow(board.grid, board.width, board.height, Offsets(kind, rotation), x, y)
  {
    landing := Clone();
    var ok := board.IsValidPosition(landing);
    while ok
      invariant fresh(landing)
      invariant landing.kind == kind && landing.x == x && landing.rotation == rotation
      invariant ok == board.Admits(landing)
      invariant LandingRow(board.grid, board.width, board.height, Offsets(kind, rotation), x, landing.y)
             == LandingRow(board.grid, board.width, board.height, Offsets(kind, rotation), x, y)
      decreases board.height - landing.y - Offsets(kind, rotation)[0].1
    {
      FitsAtAboveFloor(board.grid, board.width, board.height, Offsets(kind, rotation), x, landing.y);
      landing.MoveDown();
      ok := board.IsValidPosition(landing);
    }
    landing.Move(0, -1);
  }

  /** The number of columns the piece spans: one more than its largest x difference. */
  function Width(): (w: int)
    reads this
    ensures 1 <= w <= 4
    ensures var cs := Coords();
      && (exists i, j :: 0 <= i < 4 && 0 <= j < 4 && w == cs[i].0 - cs[j].0 + 1)
      && (forall i, j :: 0 <= i < 4 && 0 <= j < 4 ==> cs[i].0 - cs[j].0 + 1 <= w)
  {
    PieceCellsShape(kind, x, y, rotation);
    var xs := CellColumns(Coords());
    xs[ArgMax(xs)] - xs[ArgMin(xs)] + 1
  }

  /** The number of rows the piece spans: one more than its largest y difference. */
  function Height(): (h: int)
    reads this
    ensures 1 <= h <= 4
    ensures var cs := Coords();
      && (exists i, j :: 0 <= i < 4 && 0 <= j < 4 && h == cs[i].1 - cs[j].1 + 1)
      && (forall i, j :: 0 <= i < 4 && 0 <= j < 4 ==> cs[i].1 - cs[j].1 + 1 <= h)
  {
    PieceCellsShape(kind, x, y, rotation);
    var ys := CellRows(Coords());
    ys[ArgMax(ys)] - ys[ArgMin(ys)] + 1
  }
}

/** The x coordinates of the cells, in order. */
function CellColumns(cs: seq<(int, int)>): (xs: seq<int>)
  ensures |xs| == |cs| && forall i :: 0 <= i < |cs| ==> xs[i] == cs[i].0
{
  seq(|cs|, i requires 0 <= i < |cs| => cs[i].0)
}

/** The y coordinates of the cells, in order. */
function CellRows(cs: seq<(int, int)>): (ys: seq<int>)
  ensures |ys| == |cs| && forall i :: 0 <= i < |cs| ==> ys[i] == cs[i].1
{
  seq(|cs|, i requires 0 <= i < |cs| => cs[i].1)
}

/** The index of a largest element of a non-empty sequence. */
function ArgMax(vs: seq<int>): (k: nat)
  requires |vs| > 0
  ensures k < |vs| && forall i :: 0 <= i < |vs| ==> vs[i] <= vs[k]
{
  if |vs| == 1 then 0
  else
    var rest := 1 + ArgMax(vs[1..]);
    if vs[0] >= vs[rest] then 0 else rest
}

/** The index of a smallest element of a non-empty sequence. */
function ArgMin(vs: seq<int>): (k: nat)
  requires |vs| > 0
  ensures k < |vs| && forall i :: 0 <= i < |vs| ==> vs[k] <= vs[i]
{
  if |vs| == 1 then 0
  else
    var rest := 1 + ArgMin(vs[1..]);
    if vs[0] <= vs[rest] then 0 else rest
}
