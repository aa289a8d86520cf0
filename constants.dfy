// The game's constant data: board size, spawn point, scoring table, the
// wall-kick attempt count, the key names and the table of the seven shapes.

/** The seven piece kinds, in the order the shape table lists them. */
datatype Kind = I | J | L | O | S | T | Z

/** A rotation state; the shape table has four per kind. */
type Rotation = r: int | 0 <= r < 4

/** A cell offset (dx, dy) from a piece's anchor; dy grows downwards. */
type Offset = (int, int)

const BoardWidth: nat := 10
const BoardHeight: nat := 20

/** The first piece of a game spawns here (the middle column, the top row). */
const StartX: int := BoardWidth / 2 - 1
const StartY: int := 0

const PointsSingle: nat := 100
const PointsDouble: nat := 300
const PointsTriple: nat := 500
const PointsTetris: nat := 800
const LinesPerLevel: nat := 10

/** The colour of an empty cell, and of a block of each kind. */
const ColourEmpty: string := "#000000"

function Colour(k: Kind): string
{
  match k
  case I => "#00FFFF"
  case J => "#0000FF"
  case L => "#FF7F00"
  case O => "#FFFF00"
  case S => "#00FF00"
  case T => "#800080"
  case Z => "#FF0000"
}

/** Each kind has its own colour, and none is the empty cell's colour. */
lemma ColoursDistinct(a: Kind, b: Kind)
  ensures Colour(a) != ColourEmpty
  ensures a != b ==> Colour(a) != Colour(b)
{
}

/** How many entries of the kick list a failed rotation tries. */
const WallKickAttempts: nat := 3

/** The logical keys the engine distinguishes; any other key is OtherKey. */
datatype Key = KeyQuit | KeyPause | KeyRestart | KeyLeft | KeyRight | KeyDown | KeyDrop | KeyRotate | OtherKey

/** Four offsets, pairwise distinct, each coordinate in 0..3. */
predicate IsFourCellShape(s: seq<Offset>)
{
  && |s| == 4
  && InBox(s[0]) && InBox(s[1]) && InBox(s[2]) && InBox(s[3])
  && s[0] != s[1] && s[0] != s[2] && s[0] != s[3]
  && s[1] != s[2] && s[1] != s[3] && s[2] != s[3]
}

/** Both coordinates of the offset lie in 0..3. */
predicate InBox(o: Offset)
{
  0 <= o.0 <= 3 && 0 <= o.1 <= 3
}

/** The four rotation states of kind k, as the shape table lists them. */
function Shape(k: Kind): (rs: seq<seq<Offset>>)
  ensures |rs| == 4
  ensures forall r :: 0 <= r < 4 ==> IsFourCellShape(rs[r])
  ensures k == O ==> rs[1] == rs[0] && rs[2] == rs[0] && rs[3] == rs[0]
  ensures k == I || k == S || k == Z ==> rs[2] == rs[0] && rs[3] == rs[1]
{
  match k
  case I => [[(0, 0), (0, 1), (0, 2), (0, 3)],
             [(0, 0), (1, 0), (2, 0), (3, 0)],
             [(0, 0), (0, 1), (0, 2), (0, 3)],
             [(0, 0), (1, 0), (2, 0), (3, 0)]]
  case J => [[(0, 0), (1, 0), (1, 1), (1, 2)],
             [(0, 0), (0, 1), (1, 0), (2, 0)],
             [(0, 0), (0, 1), (0, 2), (1, 2)],
             [(0, 1), (1, 1), (2, 0), (2, 1)]]
  case L => [[(0, 0), (0, 1), (0, 2), (1, 0)],
             [(0, 0), (1, 0), (2, 0), (2, 1)],
             [(0, 2), (1, 0), (1, 1), (1, 2)],
             [(0, 0), (0, 1), (1, 1), (2, 1)]]
  case O => [[(0, 0), (0, 1), (1, 0), (1, 1)],
             [(0, 0), (0, 1), (1, 0), (1, 1)],
             [(0, 0), (0, 1), (1, 0), (1, 1)],
             [(0, 0), (0, 1), (1, 0), (1, 1)]]
  case S => [[(0, 1), (0, 2), (1, 0), (1, 1)],
             [(0, 0), (1, 0), (1, 1), (2, 1)],
             [(0, 1), (0, 2), (1, 0), (1, 1)],
             [(0, 0), (1, 0), (1, 1), (2, 1)]]
  case T => [[(0, 1), (1, 0), (1, 1), (1, 2)],
             [(0, 0), (1, 0), (1, 1), (2, 0)],
             [(0, 0), (0, 1), (0, 2), (1, 1)],
             [(0, 1), (1, 0), (1, 1), (2, 1)]]
  case Z => [[(0, 0), (0, 1), (1, 1), (1, 2)],
             [(0, 1), (1, 0), (1, 1), (2, 0)],
             [(0, 0), (0, 1), (1, 1), (1, 2)],
             [(0, 1), (1, 0), (1, 1), (2, 0)]]
}

/** The offsets of kind k in rotation state r. */
function Offsets(k: Kind, r: Rotation): (s: seq<Offset>)
  ensures |s| == 4
{
  Shape(k)[r]
}

/** Every entry of the shape table is four distinct offsets inside the 4 x 4 box. */
lemma OffsetsShape(k: Kind, r: Rotation)
  ensures IsFourCellShape(Offsets(k, r))
{
}

/** I, S and Z look the same after a half turn; O looks the same after any turn. */
lemma HalfTurnSymmetry(k: Kind, r: Rotation)
  ensures k == I || k == S || k == Z ==> Offsets(k, (r + 2) % 4) == Offsets(k, r)
  ensures k == O ==> Offsets(k, (r + 1) % 4) == Offsets(k, r)
{
}

/** The spawn column is the left of the two middle columns of the 10-wide board. */
lemma SpawnPoint()
  ensures StartX == 4 && StartY == 0
  ensures 0 <= StartX && StartX + 3 < BoardWidth && StartY + 3 < BoardHeight
{
}

/** Points for clearing n lines at level 1: 100, 300, 500, 800 for one to four, otherwise 0. */
function PointsFor(n: int): (p: nat)
  ensures (n < 1 || n > 4) <==> p == 0
{
  if n == 1 then PointsSingle
  else if n == 2 then PointsDouble
  else if n == 3 then PointsTriple
  else if n == 4 then PointsTetris
  else 0
}

/** Clearing more lines at once is worth strictly more. */
lemma PointsIncrease(a: int, b: int)
  requires 0 <= a < b <= 4
  ensures PointsFor(a) < PointsFor(b)
{
}
