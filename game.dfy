// The game engine: the falling piece, the preview piece and the landing
// shadow over a 10 x 20 board; moves that are undone when they collide,
// rotation with wall kicks, locking, scoring, levels, pause and restart.
// Every random piece kind is a parameter supplied by the caller.

datatype Option<T> = None | Some(value: T)

/** The kick offsets, relative to the anchor the piece had before the rotation. */
const KickOffsets: seq<Offset> := [(-1, 0), (1, 0), (0, -1), (-1, -1), (1, -1)]

/** The kick offsets a failed rotation tries, in order: the first WallKickAttempts of the list (left, right, up). */
function TriedKicks(): seq<Offset>
{
  KickOffsets[..WallKickAttempts]
}

/** The three kicks tried are one column left, one column right and one row up, and the slice stays within the list. */
lemma TriedKicksAre()
  ensures WallKickAttempts <= |KickOffsets|
  ensures TriedKicks() == [(-1, 0), (1, 0), (0, -1)]
{
}

/** A piece with offsets o fits when its anchor (x, y) is moved by d. */
predicate FitsKicked(g: Grid, w: nat, h: nat, o: seq<Offset>, x: int, y: int, d: Offset)
  requires WellFormed(g, w, h) && |o| == 4
{
  FitsAt(g, w, h, o, x + d.0, y + d.1)
}

/**
 * The index of the first candidate offset, from index i on, by which the
 * anchor (x, y) of a piece with offsets o can be moved so that the piece fits.
 */
function FirstFit(g: Grid, w: nat, h: nat, o: seq<Offset>, x: int, y: int, cands: seq<Offset>, i: nat): (r: Option<nat>)
  requires WellFormed(g, w, h) && |o| == 4 && i <= |cands|
  ensures r.Some? ==> i <= r.value < |cands|
  decreases |cands| - i
{
  if i == |cands| then None
  else if FitsKicked(g, w, h, o, x, y, cands[i]) then Some(i)
  else FirstFit(g, w, h, o, x, y, cands, i + 1)
}

/** FirstFit finds a fitting candidate, and every candidate before it, from i on, fails; None means all fail. */
lemma {:induction false} FirstFitSpec(g: Grid, w: nat, h: nat, o: seq<Offset>, x: int, y: int, cands: seq<Offset>, i: nat)
  requires WellFormed(g, w, h) && |o| == 4 && i <= |cands|
  ensures var r := FirstFit(g, w, h, o, x, y, cands, i);
    && (r.Some? ==> i <= r.value < |cands| && FitsKicked(g, w, h, o, x, y, cands[r.value]))
    && (r.Some? ==> forall j :: i <= j < r.value ==> !FitsKicked(g, w, h, o, x, y, cands[j]))
    && (r.None? ==> forall j :: i <= j < |cands| ==> !FitsKicked(g, w, h, o, x, y, cands[j]))
  decreases |cands| - i
{
  if i < |cands| && !FitsKicked(g, w, h, o, x, y, cands[i]) {
    FirstFitSpec(g, w, h, o, x, y, cands, i + 1);
  }
}

/**
 * Where a clockwise rotation puts the anchor (x, y) of a piece whose turned
 * shape has offsets o: the anchor itself when the turned piece fits there,
 * otherwise the anchor moved by the first of the kick offsets at which it
 * fits, or None when it fits at none of them and the turn is undone.
 */
function RotationOutcome(g: Grid, w: nat, h: nat, o: seq<Offset>, x: int, y: int, kicks: seq<Offset>): Option<(int, int)>
  requires WellFormed(g, w, h) && |o| == 4
{
  if FitsAt(g, w, h, o, x, y) then Some((x, y))
  else
    match FirstFit(g, w, h, o, x, y, kicks, 0)
    case Some(i) => Some((x + kicks[i].0, y + kicks[i].1))
    case None => None
}

/**
 * A rotation keeps the anchor when the turned piece fits there; otherwise it
 * moves the anchor by the first kick offset at which the piece fits, every
 * earlier one failing; and it is undone exactly when the piece fits neither
 * at the anchor nor at any kick offset.
 */
lemma RotationOutcomeSpec(g: Grid, w: nat, h: nat, o: seq<Offset>, x: int, y: int, kicks: seq<Offset>)
  requires WellFormed(g, w, h) && |o| == 4
  ensures var a := RotationOutcome(g, w, h, o, x, y, kicks);
    && (FitsAt(g, w, h, o, x, y) ==> a == Some((x, y)))
    && (a.Some? ==> FitsAt(g, w, h, o, a.value.0, a.value.1))
    && (a.Some? && !FitsAt(g, w, h, o, x, y) ==>
          exists i :: 0 <= i < |kicks| && a.value == (x + kicks[i].0, y + kicks[i].1)
                      && forall j :: 0 <= j < i ==> !FitsKicked(g, w, h, o, x, y, kicks[j]))
    && (a.None? <==> !FitsAt(g, w, h, o, x, y) && forall d :: d in kicks ==> !FitsKicked(g, w, h, o, x, y, d))
{
  FirstFitSpec(g, w, h, o, x, y, kicks, 0);
  var r := FirstFit(g, w, h, o, x, y, kicks, 0);
  if !FitsAt(g, w, h, o, x, y) && r.None? {
    forall d | d in kicks
      ensures !FitsKicked(g, w, h, o, x, y, d)
    {
      var j :| 0 <= j < |kicks| && kicks[j] == d;
    }
  }
}

/**
 * The column a sideways move by dx leaves a piece in: x + dx when the
 * piece fits there, x otherwise.
 */
function ShiftedColumn(g: Grid, w: nat, h: nat, o: seq<Offset>, x: int, y: int, dx: int): (nx: int)
  requires WellFormed(g, w, h) && |o| == 4
  ensures nx == x + dx || nx == x
  ensures FitsAt(g, w, h, o, nx, y) || nx == x
  ensures dx != 0 ==> (nx == x + dx <==> FitsAt(g, w, h, o, x + dx, y))
{
  if FitsAt(g, w, h, o, x + dx, y) then x + dx else x
}

/** Score, level and cleared-line count. */
datatype Tally = Tally(score: nat, level: nat, lines: nat)

/**
 * The tally after a lock that cleared n lines: the lines are added, the
 * points for n lines times the current level are added, and the level goes
 * up by one when the total reaches level * LinesPerLevel.
 */
function Scored(t: Tally, n: nat): (u: Tally)
  ensures u.lines == t.lines + n
  ensures t.score <= u.score && t.level <= u.level <= t.level + 1
  ensures n == 0 ==> u.score == t.score
{
  var lines := t.lines + n;
  Tally(t.score + PointsFor(n) * t.level, if lines >= t.level * LinesPerLevel then t.level + 1 else t.level, lines)
}

/**
 * When no lock clears more than LinesPerLevel lines, the level is always one
 * more than the number of completed groups of LinesPerLevel lines.
 */
lemma LevelFollowsLines(t: Tally, n: nat)
  requires t.level == t.lines / LinesPerLevel + 1
  requires n <= LinesPerLevel
  ensures Scored(t, n).level == Scored(t, n).lines / LinesPerLevel + 1
{
  var lines := t.lines + n;
  var q := t.lines / LinesPerLevel;
  assert q * LinesPerLevel <= t.lines < q * LinesPerLevel + LinesPerLevel;
  if lines >= t.level * LinesPerLevel {
    assert (q + 1) * LinesPerLevel <= lines < (q + 2) * LinesPerLevel;
  } else {
    assert q * LinesPerLevel <= lines < (q + 1) * LinesPerLevel;
  }
}

/** The first piece of a game, at the spawn point in rotation 0, fits on the empty board. */
lemma SpawnFits(k: Kind)
  ensures FitsAt(EmptyRows(BoardHeight, BoardWidth), BoardWidth, BoardHeight, Offsets(k, 0), StartX, StartY)
{
  var g := EmptyRows(BoardHeight, BoardWidth);
  var cs := Shifted(Offsets(k, 0), StartX, StartY);
  forall i | 0 <= i < 4
    ensures IsFree(g, BoardWidth, BoardHeight, cs[i])
  {
    assert RowEmpty(g[cs[i].1]);
  }
}

/** A board of empty rows at least one cell wide has no full row. */
lemma NoFullEmptyRows(n: nat, w: nat)
  requires w >= 1
  ensures CountFull(EmptyRows(n, w)) == 0
{
  var g := EmptyRows(n, w);
  forall y | 0 <= y < n
    ensures !RowFull(g[y])
  {
    assert g[y][0] == Empty;
  }
  CountFullZero(g);
}

/** Puts the piece at (x0, y0) moved by d and reports whether it fits there. */
method TryKick(t: Tetromino, b: Board, ghost o: seq<Offset>, x0: int, y0: int, d: Offset) returns (ok: bool)
  requires b.Valid() && o == Offsets(t.kind, t.rotation)
  modifies t
  ensures t.x == x0 + d.0 && t.y == y0 + d.1 && t.rotation == old(t.rotation)
  ensures ok == FitsKicked(b.grid, b.width, b.height, o, x0, y0, d)
{
  t.x := x0 + d.0;
  t.y := y0 + d.1;
  ok := b.IsValidPosition(t);
}

/**
 * Turns piece t clockwise on board b. When the turned piece does not fit,
 * its anchor is moved by each of the first attempts kick offsets in turn,
 * always from the original anchor; when none of these fits either, the
 * piece is restored. Returns whether the turn took.
 */
method KickRotate(t: Tetromino, b: Board, kicks: seq<Offset>, attempts: nat) returns (turned: bool)
  requires b.Valid() && attempts <= |kicks|
  modifies t
  ensures var a := RotationOutcome(b.grid, b.width, b.height, Offsets(t.kind, Clockwise(old(t.rotation))),
                                   old(t.x), old(t.y), kicks[..attempts]);
    && turned == a.Some?
    && (a.Some? ==> t.x == a.value.0 && t.y == a.value.1 && t.rotation == Clockwise(old(t.rotation)))
    && (a.None? ==> t.x == old(t.x) && t.y == old(t.y) && t.rotation == old(t.rotation))
  ensures turned ==> b.Admits(t)
{
  var originalRotation := t.rotation;
  var originalX := t.x;
  var originalY := t.y;
  ghost var o := Offsets(t.kind, Clockwise(originalRotation));
  ghost var cands := kicks[..attempts];

  t.RotateClockwise();
  turned := b.IsValidPosition(t);
  if turned {
    return;
  }
  var i := 0;
  while i < attempts
    invariant 0 <= i <= attempts
    invariant t.rotation == Clockwise(originalRotation)
    invariant FirstFit(b.grid, b.width, b.height, o, originalX, originalY, cands, 0)
           == FirstFit(b.grid, b.width, b.height, o, originalX, originalY, cands, i)
  {
    var d := kicks[i];
    assert d == cands[i];
    turned := TryKick(t, b, o, originalX, originalY, d);
    if turned {
      return;
    }
    i := i + 1;
  }
  t.x := originalX;
  t.y := originalY;
  t.rotation := originalRotation;
}

/** Putting the current piece back where it was keeps the game valid. */
twostate lemma PieceRestored(game: TetrisGame)
  requires old(game.Valid()) && !old(game.gameOver)
  requires unchanged(game) && unchanged(old(game.board)) && unchanged(old(game.next)) && unchanged(old(game.ghostPiece))
  requires game.current.x == old(game.current.x) && game.current.y == old(game.current.y)
  requires game.current.rotation == old(game.current.rotation)
  ensures game.Valid()
{
}

/** The shadow s is the piece p dropped as far as it goes on board b. */
ghost predicate Shadows(b: Board, p: Tetromino, s: Tetromino?)
  reads b, p, s
  requires b.Valid()
{
  && s != null
  && s.kind == p.kind && s.x == p.x && s.rotation == p.rotation
  && s.y == LandingRow(b.grid, b.width, b.height, Offsets(p.kind, p.rotation), p.x, p.y)
}

class TetrisGame {
  var board: Board
  var current: Tetromino?
  var next: Tetromino?
  /** The landing shadow of the current piece (ghost_tetromino). */
  var ghostPiece: Tetromino?
  var score: nat
  var level: nat
  var linesCleared: nat
  var gameOver: bool
  var paused: bool

  function Stats(): Tally
    reads this
  {
    Tally(score, level, linesCleared)
  }

  /**
   * What holds in every state, over or not: a 10 x 20 board with no full
   * row, a current and a next piece that are different objects, the next
   * piece waiting at (0, 0) in rotation 0, and a level that is one more than
   * the completed groups of LinesPerLevel lines.
   */
  ghost predicate Consistent()
    reads this, board, next
  {
    && board.Valid() && board.width == BoardWidth && board.height == BoardHeight
    && CountFull(board.grid) == 0
    && current != null && next != null
    && current != next && ghostPiece != current && ghostPiece != next
    && next.x == 0 && next.y == 0 && next.rotation == 0
    && level == linesCleared / LinesPerLevel + 1
  }

  /** While the game is not over, the current piece fits and its shadow is up to date. */
  ghost predicate Valid()
    reads this, board, current, next, ghostPiece
  {
    && Consistent()
    && (!gameOver ==> board.Admits(current) && Shadows(board, current, ghostPiece))
  }

  /** A new game whose first piece has kind first and whose next piece has kind second. */
  constructor (first: Kind, second: Kind)
    ensures Valid()
    ensures board.grid == EmptyRows(BoardHeight, BoardWidth)
    ensures current.kind == first && current.x == StartX && current.y == StartY && current.rotation == 0
    ensures next.kind == second
    ensures Stats() == Tally(0, 1, 0) && !gameOver && !paused
  {
    board := new Board(BoardWidth, BoardHeight);
    current := null;
    next := null;
    score := 0;
    level := 1;
    linesCleared := 0;
    gameOver := false;
    paused := false;
    ghostPiece := null;
    new;
    StartPieces(first, second);
  }

  /** Sets up a fresh game: an empty board, zero score, level 1, and the two first pieces. */
  method Init(first: Kind, second: Kind)
    modifies this
    ensures Valid()
    ensures fresh(board) && board.grid == EmptyRows(BoardHeight, BoardWidth)
    ensures fresh(current) && current.kind == first
    ensures current.x == StartX && current.y == StartY && current.rotation == 0
    ensures fresh(next) && next.kind == second
    ensures score == 0 && level == 1 && linesCleared == 0 && !gameOver && !paused
  {
    board := new Board(BoardWidth, BoardHeight);
    current := null;
    next := null;
    score := 0;
    level := 1;
    linesCleared := 0;
    gameOver := false;
    paused := false;
    ghostPiece := null;
    StartPieces(first, second);
  }

  /** The first two pieces of a new game on an empty board: the first one always fits. */
  method StartPieces(first: Kind, second: Kind)
    requires board.Valid() && board.width == BoardWidth && board.height == BoardHeight
    requires board.grid == EmptyRows(BoardHeight, BoardWidth)
    requires next == null && !gameOver && level == linesCleared / LinesPerLevel + 1
    modifies this`current, this`gameOver, this`ghostPiece, this`next
    ensures Valid() && !gameOver
    ensures fresh(current) && current.kind == first
    ensures current.x == StartX && current.y == StartY && current.rotation == 0
    ensures fresh(next) && next.kind == second
  {
    SpawnFits(first);
    NoFullEmptyRows(BoardHeight, BoardWidth);
    GenerateTetromino(first);
    assert !gameOver;
    GenerateNextTetromino(second);
  }

  /**
   * Makes the waiting next piece current (a new piece of kind k at the spawn
   * point when none waits); the game is over once the new piece collides.
   * The next piece is left in place for GenerateNextTetromino to replace.
   */
  method GenerateTetromino(k: Kind)
    requires board.Valid()
    modifies this`current, this`gameOver, this`ghostPiece
    ensures old(next) != null ==> current == old(next)
    ensures old(next) == null ==> fresh(current) && current.kind == k
    ensures old(next) == null ==> current.x == StartX && current.y == StartY && current.rotation == 0
    ensures gameOver == (old(gameOver) || !board.Admits(current))
    ensures !gameOver ==> fresh(ghostPiece) && ghostPiece != current && Shadows(board, current, ghostPiece)
    ensures gameOver ==> ghostPiece == old(ghostPiece)
  {
    if next != null {
      current := next;
    } else {
      current := new Tetromino(k, StartX, StartY, 0);
    }
    var ok := board.IsValidPosition(current);
    if !ok {
      gameOver := true;
    }
    UpdateGhostPosition();
  }

  /** A new next piece of kind k, waiting at (0, 0) in rotation 0. */
  method GenerateNextTetromino(k: Kind)
    modifies this`next
    ensures fresh(next) && next.kind == k && next.x == 0 && next.y == 0 && next.rotation == 0
  {
    next := new Tetromino(k, 0, 0, 0);
  }

  /** Recomputes the shadow of the current piece, unless there is none or the game is over. */
  method UpdateGhostPosition()
    requires board.Valid()
    modifies this`ghostPiece
    ensures current != null && !gameOver ==> fresh(ghostPiece) && ghostPiece != current && Shadows(board, current, ghostPiece)
    ensures !(current != null && !gameOver) ==> ghostPiece == old(ghostPiece)
  {
    if current != null && !gameOver {
      ghostPiece := current.GetGhostPosition(board);
    }
  }

  /** Moves the piece one column left, or leaves it where it was when it would collide. */
  method MoveLeft()
    requires Valid()
    modifies this`ghostPiece, current
    ensures Valid()
    ensures gameOver || paused ==> unchanged(current) && ghostPiece == old(ghostPiece)
    ensures !gameOver && !paused ==> current.y == old(current.y) && current.rotation == old(current.rotation)
    ensures !gameOver && !paused ==>
      current.x == ShiftedColumn(old(board.grid), BoardWidth, BoardHeight,
                                 Offsets(current.kind, old(current.rotation)), old(current.x), old(current.y), -1)
  {
    if gameOver || paused {
      return;
    }
    ghost var o := Offsets(current.kind, current.rotation);
    ghost var x0, y0 := current.x, current.y;
    ghost var nx := ShiftedColumn(board.grid, BoardWidth, BoardHeight, o, x0, y0, -1);
    current.MoveLeft();
    var ok := board.IsValidPosition(current);
    assert ok == FitsAt(board.grid, BoardWidth, BoardHeight, o, x0 - 1, y0);
    if !ok {
      current.MoveRight();
      assert current.x == x0 == nx;
    } else {
      assert current.x == nx;
      UpdateGhostPosition();
    }
  }

  /** Moves the piece one column right, or leaves it where it was when it would collide. */
  method MoveRight()
    requires Valid()
    modifies this`ghostPiece, current
    ensures Valid()
    ensures gameOver || paused ==> unchanged(current) && ghostPiece == old(ghostPiece)
    ensures !gameOver && !paused ==> current.y == old(current.y) && current.rotation == old(current.rotation)
    ensures !gameOver && !paused ==>
      current.x == ShiftedColumn(old(board.grid), BoardWidth, BoardHeight,
                                 Offsets(current.kind, old(current.rotation)), old(current.x), old(current.y), 1)
  {
    if gameOver || paused {
      return;
    }
    ghost var o := Offsets(current.kind, current.rotation);
    ghost var x0, y0 := current.x, current.y;
    ghost var nx := ShiftedColumn(board.grid, BoardWidth, BoardHeight, o, x0, y0, 1);
    current.MoveRight();
    var ok := board.IsValidPosition(current);
    assert ok == FitsAt(board.grid, BoardWidth, BoardHeight, o, x0 + 1, y0);
    if !ok {
      current.MoveLeft();
      assert current.x == x0 == nx;
    } else {
      assert current.x == nx;
      UpdateGhostPosition();
    }
  }

  /**
   * Moves the piece down one row. When it would collide it stays where it
   * was and is locked, with nextKind as the kind of the new next piece;
   * locked tells which happened.
   */
  method MoveDown(nextKind: Kind) returns (locked: bool)
    requires Valid()
    modifies this, board, current
    ensures Valid()
    ensures old(gameOver) || old(paused) ==> !locked && unchanged(this) && unchanged(board, current)
    ensures !old(gameOver) && !old(paused) ==>
      locked == !FitsAt(old(board.grid), BoardWidth, BoardHeight,
                        Offsets(old(current.kind), old(current.rotation)), old(current.x), old(current.y) + 1)
    ensures !old(gameOver) && !old(paused) && !locked ==>
      && current == old(current) && current.x == old(current.x) && current.y == old(current.y) + 1
      && current.rotation == old(current.rotation)
      && board.grid == old(board.grid) && Stats() == old(Stats()) && !gameOver && next == old(next)
    ensures !old(gameOver) && !old(paused) && locked ==>
      && board.grid == Cleared(Placed(old(board.grid), BoardWidth, BoardHeight,
                                      old(current.Coords()), old(current.kind)), BoardWidth)
      && Stats() == Scored(old(Stats()), CountFull(Placed(old(board.grid), BoardWidth, BoardHeight,
                                                          old(current.Coords()), old(current.kind))))
      && current == old(next) && next.kind == nextKind
      && gameOver == !board.Admits(current)
    ensures paused == old(paused)
  {
    if gameOver || paused {
      return false;
    }
    var ok := Descend();
    if !ok {
      LockAbove(nextKind);
      return true;
    }
    return false;
  }

  /**
   * The first half of MoveDown: moves the piece down one row and tells
   * whether it fits there; if it does, the game is still valid.
   */
  method Descend() returns (ok: bool)
    requires Valid() && !gameOver
    modifies current
    ensures current.x == old(current.x) && current.y == old(current.y) + 1 && current.rotation == old(current.rotation)
    ensures ok == FitsAt(board.grid, BoardWidth, BoardHeight, Offsets(current.kind, current.rotation), current.x, current.y)
    ensures ok ==> Valid()
    ensures Consistent()
    ensures FitsAt(board.grid, BoardWidth, BoardHeight, Offsets(current.kind, current.rotation), current.x, current.y - 1)
  {
    ghost var o, x0, y0 := Offsets(current.kind, current.rotation), current.x, current.y;
    current.MoveDown();
    ok := board.IsValidPosition(current);
    if ok {
      LandingRowFalls(board.grid, BoardWidth, BoardHeight, o, x0, y0);
    }
  }

  /** Moves the piece, which fits one row up, back up one row and locks it there. */
  method LockAbove(nextKind: Kind)
    requires Consistent()
    requires FitsAt(board.grid, BoardWidth, BoardHeight, Offsets(current.kind, current.rotation), current.x, current.y - 1)
    modifies this, board, current
    ensures Valid()
    ensures board.grid == Cleared(Placed(old(board.grid), BoardWidth, BoardHeight,
                                         PieceCells(old(current.kind), old(current.x), old(current.y) - 1, old(current.rotation)),
                                         old(current.kind)), BoardWidth)
    ensures Stats() == Scored(old(Stats()), CountFull(Placed(old(board.grid), BoardWidth, BoardHeight,
                                                             PieceCells(old(current.kind), old(current.x), old(current.y) - 1, old(current.rotation)),
                                                             old(current.kind))))
    ensures current == old(next) && next.kind == nextKind
    ensures gameOver == (old(gameOver) || !board.Admits(current))
    ensures paused == old(paused)
  {
    ghost var cs := PieceCells(current.kind, current.x, current.y - 1, current.rotation);
    current.Move(0, -1);
    assert current.Coords() == cs;
    Lock(nextKind);
  }

  /** Drops the piece to its shadow's row and locks it there. */
  method HardDrop(nextKind: Kind)
    requires Valid()
    modifies this, board, current
    ensures Valid()
    ensures old(gameOver) || old(paused) ==> unchanged(this) && unchanged(board) && unchanged(current)
    ensures !old(gameOver) && !old(paused) ==>
      && board.grid == Cleared(Placed(old(board.grid), BoardWidth, BoardHeight,
                                      PieceCells(old(current.kind), old(current.x), old(ghostPiece.y), old(current.rotation)),
                                      old(current.kind)), BoardWidth)
      && Stats() == Scored(old(Stats()), CountFull(Placed(old(board.grid), BoardWidth, BoardHeight,
                                                          PieceCells(old(current.kind), old(current.x), old(ghostPiece.y), old(current.rotation)),
                                                          old(current.kind))))
      && Stats().score >= old(Stats().score)
      && current == old(next) && next.kind == nextKind
      && gameOver == !board.Admits(current)
    ensures paused == old(paused)
  {
    if gameOver || paused {
      return;
    }
    ghost var o := Offsets(current.kind, current.rotation);
    LandingRowSpec(board.grid, board.width, board.height, o, current.x, current.y);
    if ghostPiece != null {
      ghost var cs := PieceCells(current.kind, current.x, ghostPiece.y, current.rotation);
      current.x := ghostPiece.x;
      current.y := ghostPiece.y;
      assert board.Admits(current);
      assert current.Coords() == cs;
      Lock(nextKind);
    }
  }

  /**
   * Turns the piece clockwise with wall kicks (see KickRotate) and, when the
   * turn succeeds, recomputes the shadow.
   */
  method Rotate()
    requires Valid()
    modifies this`ghostPiece, current
    ensures Valid()
    ensures gameOver || paused ==> unchanged(current) && ghostPiece == old(ghostPiece)
    ensures !gameOver && !paused ==>
      var a := RotationOutcome(board.grid, BoardWidth, BoardHeight,
                               Offsets(current.kind, Clockwise(old(current.rotation))), old(current.x), old(current.y),
                               TriedKicks());
      && (a.Some? ==> current.x == a.value.0 && current.y == a.value.1 && current.rotation == Clockwise(old(current.rotation)))
      && (a.None? ==> current.x == old(current.x) && current.y == old(current.y)
                      && current.rotation == old(current.rotation) && ghostPiece == old(ghostPiece))
  {
    if gameOver || paused {
      return;
    }
    var turned := KickRotate(current, board, KickOffsets, WallKickAttempts);
    if turned {
      UpdateGhostPosition();
    } else {
      PieceRestored(this);
    }
  }

  method TogglePause()
    modifies this`paused
    ensures paused == !old(paused)
  {
    paused := !paused;
  }

  /**
   * Locks the current piece into the board (it always fits here, so the
   * placement always succeeds), clears full rows, scores them, and brings
   * in the next piece, with nextKind as the kind of the one after it.
   */
  method Lock(nextKind: Kind)
    requires Consistent() && board.Admits(current)
    modifies this, board
    ensures Valid()
    ensures board == old(board)
    ensures board.grid == Cleared(Placed(old(board.grid), BoardWidth, BoardHeight,
                                         old(current.Coords()), old(current.kind)), BoardWidth)
    ensures Stats() == Scored(old(Stats()), CountFull(Placed(old(board.grid), BoardWidth, BoardHeight,
                                                             old(current.Coords()), old(current.kind))))
    ensures current == old(next) && fresh(next) && next.kind == nextKind
    ensures gameOver == (old(gameOver) || !board.Admits(current))
    ensures paused == old(paused)
  {
    Settle();
    Spawn(nextKind);
  }

  /** The first half of locking: place the piece, clear full rows and score them. */
  method Settle()
    requires Consistent() && board.Admits(current)
    modifies board, this`score, this`level, this`linesCleared
    ensures Consistent()
    ensures board.grid == Cleared(Placed(old(board.grid), BoardWidth, BoardHeight,
                                         current.Coords(), current.kind), BoardWidth)
    ensures Stats() == Scored(old(Stats()), CountFull(Placed(old(board.grid), BoardWidth, BoardHeight,
                                                             current.Coords(), current.kind)))
  {
    ghost var placed := Placed(board.grid, BoardWidth, BoardHeight, current.Coords(), current.kind);
    AtMostFourLines(board.grid, BoardWidth, BoardHeight, current.kind, current.x, current.y, current.rotation);
    var _ := board.PlaceTetromino(current);
    var n := board.ClearLines();
    ClearedIdempotent(placed, BoardWidth, BoardHeight);
    LevelFollowsLines(Stats(), n);
    UpdateScore(n);
  }

  /** The second half of locking: the next piece becomes current and a new next piece of kind k waits. */
  method Spawn(k: Kind)
    requires Consistent()
    modifies this`current, this`gameOver, this`ghostPiece, this`next
    ensures Valid()
    ensures current == old(next) && fresh(next) && next.kind == k
    ensures gameOver == (old(gameOver) || !board.Admits(current))
  {
    GenerateTetromino(k);
    GenerateNextTetromino(k);
  }

  /** Adds a clear of n lines to the tally. */
  method UpdateScore(n: nat)
    modifies this`score, this`level, this`linesCleared
    ensures Stats() == Scored(old(Stats()), n)
  {
    linesCleared := linesCleared + n;
    var points: nat;
    if n == 1 {
      points := PointsSingle;
    } else if n == 2 {
      points := PointsDouble;
    } else if n == 3 {
      points := PointsTriple;
    } else if n == 4 {
      points := PointsTetris;
    } else {
      points := 0;
    }
    score := score + points * level;
    if linesCleared >= level * LinesPerLevel {
      level := level + 1;
    }
  }

  /**
   * Handles one key: quit returns false; pause toggles pausing; the movement
   * keys act only while the game is neither paused nor over; restart starts
   * a new game (with pieces of kinds k1 and k2) only once the game is over.
   * A drop or a lock takes k1 as the kind of the new next piece.
   */
  method HandleInput(key: Key, k1: Kind, k2: Kind) returns (cont: bool)
    requires Valid()
    modifies this, board, current
    ensures Valid()
    ensures cont <==> key != KeyQuit
    ensures key == KeyQuit ==> unchanged(this) && unchanged(board) && unchanged(current)
    ensures key == KeyPause ==>
      paused == !old(paused) && board == old(board) && current == old(current)
      && unchanged(board) && unchanged(current) && Stats() == old(Stats()) && gameOver == old(gameOver)
      && next == old(next) && ghostPiece == old(ghostPiece)
    ensures key == KeyRestart && old(gameOver) ==>
      && fresh(board) && board.grid == EmptyRows(BoardHeight, BoardWidth)
      && Stats() == Tally(0, 1, 0) && !gameOver && !paused
      && current.kind == k1 && next.kind == k2
      && current.x == StartX && current.y == StartY && current.rotation == 0
    ensures key !in {KeyQuit, KeyPause} && (old(paused) || old(gameOver)) && !(key == KeyRestart && old(gameOver)) ==>
      unchanged(this) && unchanged(board) && unchanged(current)
    ensures key in {KeyLeft, KeyRight, KeyRotate} ==>
      board == old(board) && current == old(current) && unchanged(board) && Stats() == old(Stats())
    ensures key !in {KeyQuit, KeyPause, KeyLeft, KeyRight, KeyDown, KeyDrop, KeyRotate} && !(key == KeyRestart && old(gameOver)) ==>
      unchanged(this) && unchanged(board) && unchanged(current)
    ensures key in {KeyLeft, KeyRight, KeyRotate} ==> gameOver == old(gameOver) && next == old(next)
    ensures key != KeyPause && !(key == KeyRestart && old(gameOver)) ==> paused == old(paused)
    ensures key in {KeyLeft, KeyRight} && !old(paused) && !old(gameOver) ==>
      current.y == old(current.y) && current.rotation == old(current.rotation)
    ensures key == KeyLeft && !old(paused) && !old(gameOver) ==>
      current.x == ShiftedColumn(old(board.grid), BoardWidth, BoardHeight,
                                 Offsets(current.kind, old(current.rotation)), old(current.x), old(current.y), -1)
    ensures key == KeyRight && !old(paused) && !old(gameOver) ==>
      current.x == ShiftedColumn(old(board.grid), BoardWidth, BoardHeight,
                                 Offsets(current.kind, old(current.rotation)), old(current.x), old(current.y), 1)
    ensures key == KeyRotate && !old(paused) && !old(gameOver) ==>
      var a := RotationOutcome(old(board.grid), BoardWidth, BoardHeight,
                               Offsets(current.kind, Clockwise(old(current.rotation))), old(current.x), old(current.y),
                               TriedKicks());
      && (a.Some? ==> current.x == a.value.0 && current.y == a.value.1 && current.rotation == Clockwise(old(current.rotation)))
      && (a.None? ==> current.x == old(current.x) && current.y == old(current.y) && current.rotation == old(current.rotation))
    ensures Stats().score >= old(Stats()).score || (key == KeyRestart && old(gameOver))
  {
    if key == KeyQuit {
      return false;
    } else if key == KeyPause {
      TogglePause();
    } else if !paused && !gameOver {
      Play(key, k1);
    } else if gameOver && key == KeyRestart {
      Init(k1, k2);
    }
    return true;
  }

  /** The movement keys, while the game is neither paused nor over; other keys do nothing. */
  method Play(key: Key, nextKind: Kind)
    requires Valid() && !paused && !gameOver
    modifies this, board, current
    ensures Valid()
    ensures key in {KeyLeft, KeyRight, KeyRotate} ==>
      board == old(board) && current == old(current) && unchanged(board) && Stats() == old(Stats())
    ensures key !in {KeyLeft, KeyRight, KeyDown, KeyDrop, KeyRotate} ==>
      unchanged(this) && unchanged(board) && unchanged(current)
    ensures key in {KeyLeft, KeyRight, KeyRotate} ==> gameOver == old(gameOver) && next == old(next)
    ensures key in {KeyLeft, KeyRight} ==> current.y == old(current.y) && current.rotation == old(current.rotation)
    ensures key == KeyLeft ==>
      current.x == ShiftedColumn(old(board.grid), BoardWidth, BoardHeight,
                                 Offsets(current.kind, old(current.rotation)), old(current.x), old(current.y), -1)
    ensures key == KeyRight ==>
      current.x == ShiftedColumn(old(board.grid), BoardWidth, BoardHeight,
                                 Offsets(current.kind, old(current.rotation)), old(current.x), old(current.y), 1)
    ensures key == KeyRotate ==>
      var a := RotationOutcome(old(board.grid), BoardWidth, BoardHeight,
                               Offsets(current.kind, Clockwise(old(current.rotation))), old(current.x), old(current.y),
                               TriedKicks());
      && (a.Some? ==> current.x == a.value.0 && current.y == a.value.1 && current.rotation == Clockwise(old(current.rotation)))
      && (a.None? ==> current.x == old(current.x) && current.y == old(current.y) && current.rotation == old(current.rotation))
    ensures Stats().score >= old(Stats()).score
    ensures paused == old(paused)
  {
    if key == KeyLeft {
      MoveLeft();
    } else if key == KeyRight {
      MoveRight();
    } else if key == KeyDown {
      var _ := MoveDown(nextKind);
    } else if key == KeyDrop {
      HardDrop(nextKind);
    } else if key == KeyRotate {
      Rotate();
    }
  }
}
