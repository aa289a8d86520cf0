# Falling-block game engine, modelled in Dafny

This project models the game-state engine of a terminal falling-block
(Tetris-style) game and proves properties of it. The model covers:

- the shape table and the game constants (`constants.py`);
- the falling piece (`tetromino.py`): its kind, anchor and rotation, its
  cells, moves and turns in place, its copies and its landing shadow;
- the board (`board.py`): a 10 x 20 (width x height) grid of empty cells and blocks, with
  collision checks, locking a piece in, line clearing and read-only queries;
- the engine (`game.py`): sideways and downward moves that are undone on
  collision, hard drop to the shadow, rotation with a truncated wall-kick
  list, lock, clear, score and spawn, pause, game over, and restart through
  key handling.

Files:

- `constants.dfy`: piece kinds, rotation states, the shape table, the
  colours, the scoring table and the other constants.
- `grid.dfy`: the grid as a value (`seq<seq<Cell>>`) and the functions that
  specify placing, counting and clearing.
- `grid_lemmas.dfy`: the lemmas about clearing and counting, including the
  loop state of the line-clearing method.
- `tetromino.dfy`: the class `Tetromino`, piece cells, fitting and the
  landing row.
- `board.dfy`: the class `Board`.
- `game.dfy`: the class `TetrisGame`, the rotation outcome and the score
  tally.

The source's classes become Dafny classes whose methods update their fields
in place:

- `Tetromino` updates `x`, `y` and `rotation`.
- `Board` reassigns `grid`.
- `TetrisGame` updates the current, next and shadow pieces, and the score,
  level, lines, pause and game-over fields.

Each method is proved against pure specification functions:

- `FitsAt` says whether a piece fits.
- `Placed` and `Cleared` give the grid after locking and after clearing.
- `LandingRow` gives the shadow's row.
- `RotationOutcome` gives where a rotation with kicks ends.
- `Scored` gives score, level and lines after a lock.

The lemmas state what those functions mean. `TetrisGame.Valid()` is the
engine invariant, and every operation preserves it. It requires:

- a 10 x 20 board with no full row;
- while the game is not over, a current piece that fits, and a shadow that
  is that piece dropped as far as it goes;
- a level equal to one more than the completed groups of ten lines.

Random piece kinds are parameters supplied by the caller:

- the constructor and `Init` take the first two kinds;
- moves that can lock take the kind of the next piece;
- `HandleInput` takes both.

Behaviour of the program that the model keeps as it is:

- There is no hold operation; the engine never defines one.
- Only the very first piece spawns at the start point (column 4, row 0).
  Every later piece is the waiting next piece, created at (0, 0) in rotation 0.
- A position is invalid when any cell lies above the top row (y < 0), as well
  as below the floor, beside the walls or on a block (board.py:36). The
  second check for y >= 0 at board.py:40 is therefore always true.
- The shadow of a piece that does not fit where it stands is that piece one
  row up (`LandingRow`, tetromino.py:136-140). In the engine this case is
  unreachable, because the current piece always fits while the game is not
  over.
- The level threshold uses the constant `LINES_PER_LEVEL`, and the level
  rises at most once per lock.
- Only the first 3 of the 5 kick offsets are tried.
- The result of `place_tetromino` is ignored when locking. In the model the
  placement provably always succeeds there.

## Model

| member | source | states |
|---|---|---|
| Shape | constants.py:37-79 | seven kinds with four rotation states each; every state is four pairwise distinct offsets in 0..3; O is the same in all four states; I, S and Z repeat with period two |
| OffsetsShape | constants.py:39-78 | every table entry is four distinct offsets inside the 4 x 4 box |
| HalfTurnSymmetry | constants.py:39-78 | I, S and Z look the same after a half turn; O looks the same after any quarter turn |
| SpawnPoint | constants.py:82-83 | the start point is column 4, row 0, and a 4 x 4 box there lies on the 10 x 20 board |
| PointsFor | constants.py:13-16 | a clear is worth points exactly when it clears 1 to 4 lines |
| PointsIncrease | constants.py:13-16 | clearing more lines at once is worth strictly more (100 < 300 < 500 < 800) |
| ColoursDistinct | constants.py:20-28 | every kind has its own colour, and none is the empty cell's colour |
| TriedKicksAre | game.py:135-136 | only the first three kicks are tried: left, right, up; the slice stays within the five-entry list |
| PieceCells | tetromino.py:44-45 | a piece's cells are its four offsets moved by the anchor, in table order |
| PieceCellsShape | tetromino.py:44-45 | a piece's four cells are distinct and lie in the 4 x 4 box whose corner is the anchor |
| Clockwise | tetromino.py:54 | a quarter turn always changes the rotation state |
| TurnsInverse | tetromino.py:54-64 | clockwise and counter-clockwise turns undo each other; four clockwise turns restore the state |
| FitsAtCells | board.py:34-43 | a piece fits exactly when each of its absolute cells is on the board and empty |
| FitsAtAboveFloor | board.py:36 | a fitting piece is above the floor, so the shadow's fall terminates |
| LandingRowFalls | tetromino.py:136-137 | a piece that fits lands where it would land from one row lower |
| LandingRowSpec | tetromino.py:133-142 | a fitting piece lands at or below its row, fits on every row down to the landing row and not one row lower; a piece that does not fit lands one row up |
| Tetromino.constructor | tetromino.py:6-20 | the piece has the given kind, anchor and rotation |
| Tetromino.Coords | tetromino.py:37-45 | the absolute cells of the piece's current kind, anchor and rotation |
| Tetromino.RotateClockwise | tetromino.py:47-55 | the rotation becomes the next state modulo 4; the anchor is unchanged |
| Tetromino.RotateCounterclockwise | tetromino.py:57-65 | the rotation becomes the previous state modulo 4; the anchor is unchanged |
| Tetromino.Move | tetromino.py:67-80 | the anchor moves by (dx, dy); the rotation is unchanged |
| Tetromino.MoveLeft | tetromino.py:82-89 | one column left, nothing else changes |
| Tetromino.MoveRight | tetromino.py:91-98 | one column right, nothing else changes |
| Tetromino.MoveDown | tetromino.py:100-107 | one row down, nothing else changes |
| Tetromino.Clone | tetromino.py:109-121 | a fresh piece with equal kind, anchor and rotation, so changing it leaves the original alone |
| Tetromino.GetGhostPosition | tetromino.py:123-142 | a fresh piece with the same kind, column and rotation at the landing row; the piece itself is not changed |
| Tetromino.Width | tetromino.py:144-155 | the largest column difference of the cells plus one, which is between 1 and 4 |
| Tetromino.Height | tetromino.py:157-168 | the largest row difference of the cells plus one, which is between 1 and 4 |
| Board.constructor | board.py:4-14 | a board of the given size with every cell empty |
| Board.Reset | board.py:16-19 | height rows of width empty cells |
| Board.IsValidPosition | board.py:21-43 | false for a missing piece; otherwise true exactly when every cell of the piece is on the board and empty |
| Board.PlaceTetromino | board.py:45-62 | an invalid piece changes nothing and returns false; a valid one returns true and its cells become blocks of its kind |
| PlacedCells | board.py:58-60 | placing sets exactly the piece's on-board cells to its kind and leaves every other cell as it was |
| Board.ClearLines | board.py:64-86 | returns the number of rows full on entry; the grid becomes the cleared grid |
| KeepRowsAppend | board.py:76-84 | the rows a clear keeps from two stacked parts of a grid are the kept rows of the upper part above those of the lower part, so kept rows never change order |
| ClearedRows | board.py:71-86 | clearing keeps the board's shape, puts as many empty rows on top as rows were full, keeps the other rows in order, and leaves no full row |
| ClearedIdempotent | board.py:76-84 | clearing a cleared grid finds no full row and changes nothing |
| ClearedFilledCount | board.py:76-84 | clearing k lines removes exactly width * k blocks |
| Board.IsGameOver | board.py:88-96 | true exactly when some cell of the top row is occupied |
| Board.GetCellColor | board.py:98-113 | the empty colour exactly for off-board or empty cells, otherwise the colour of the block's kind |
| Board.GetCell | board.py:115-129 | the cell's content, or empty for a position off the board |
| Board.GetFilledRows | board.py:131-143 | exactly the indices of the full rows, in increasing order, as many as CountFull counts |
| Board.RowIsEmpty | board.py:145-158 | true exactly when the index is a row of the board and all its cells are empty |
| Board.CountFilledCells | board.py:160-173 | the number of occupied cells of the grid |
| Board.GetHighestFilledRow | board.py:175-186 | the topmost row with a block, every row above it empty; -1 exactly when the board is empty |
| AtMostFourLines | game.py:154-157 | locking a piece into a grid with no full row leaves at most four full rows |
| FirstFitSpec | game.py:136-141 | the first kick found fits, every earlier kick fails, and none means all fail |
| RotationOutcomeSpec | game.py:123-146 | a turn keeps the anchor when the turned piece fits there; otherwise it takes the first fitting kick, every earlier one failing; it is undone exactly when the piece fits neither at the anchor nor at any tried kick |
| ShiftedColumn | game.py:67-73 | a sideways move lands at x + dx exactly when the piece fits there, otherwise stays at x |
| Scored | game.py:171-192 | lines grow by n; score never decreases and does not change when nothing is cleared; the level rises by at most one |
| LevelFollowsLines | game.py:188-190 | with at most ten lines per lock, the level stays one more than the completed groups of ten lines |
| SpawnFits | game.py:44-48 | the first piece, at the start point in rotation 0, fits on the empty board, so a new game is never over at once |
| NoFullEmptyRows | game.py:23 | an empty board has no full row |
| TryKick | game.py:137-139 | the piece is put at the original anchor moved by the kick; reports whether it fits there |
| KickRotate | game.py:123-146 | the piece ends where RotationOutcome says, turned if the turn took, otherwise with rotation and anchor restored exactly |
| PieceRestored | game.py:143-146 | putting the piece back where it was keeps the engine invariant |
| TetrisGame.constructor | game.py:15-37 | an empty board, score 0, level 1, 0 lines, neither over nor paused, the first piece at the start point, the next piece of the second kind; one board is built |
| TetrisGame.Init | game.py:15-37 | the same fresh game, re-established on an existing engine |
| TetrisGame.StartPieces | game.py:35-37 | the first piece spawns at the start point and fits, so the game is not over; the next piece waits |
| TetrisGame.GenerateTetromino | game.py:39-51 | the waiting next piece becomes current (a new one at the start point when none waits); the game is over exactly when it was already or the new piece collides; the shadow is recomputed while not over |
| TetrisGame.GenerateNextTetromino | game.py:53-55 | a fresh next piece of the given kind at (0, 0), rotation 0 |
| TetrisGame.UpdateGhostPosition | game.py:57-60 | while not over, the shadow becomes the current piece dropped as far as it goes; otherwise it is kept |
| TetrisGame.MoveLeft | game.py:62-73 | no change when paused or over; otherwise the piece moves one column left exactly when it fits there, else stays |
| TetrisGame.MoveRight | game.py:75-86 | no change when paused or over; otherwise the piece moves one column right exactly when it fits there, else stays |
| TetrisGame.MoveDown | game.py:88-105 | no change and false when paused or over; otherwise returns true exactly when the piece does not fit one row lower; if so it is locked in its old position, scored and replaced by the next piece, and the game is over exactly when that piece collides; else it moves down one row and nothing else changes; pausing is never changed |
| TetrisGame.Descend | game.py:98-99 | the piece moves down one row; reports whether it fits there, and the invariant holds if it does |
| TetrisGame.LockAbove | game.py:100-103 | the piece moves back up one row and is locked there; the next piece becomes current and the game is over exactly when it collides; pausing is unchanged |
| TetrisGame.HardDrop | game.py:107-116 | no change when paused or over; otherwise the piece is locked at its shadow's row, the grid becomes placed-then-cleared, the tally is Scored for the rows that were full (so score, lines and level never decrease), the next piece becomes current and the game is over exactly when it collides; pausing is unchanged |
| TetrisGame.Rotate | game.py:118-146 | no change when paused or over; otherwise the piece ends where RotationOutcome says for the three tried kicks, and the invariant is kept |
| TetrisGame.TogglePause | game.py:148-150 | the paused flag flips |
| TetrisGame.Lock | game.py:152-162 | the grid becomes the placed-then-cleared grid; the tally is scored for the rows that were full; the next piece becomes current; the game is over exactly when it collides |
| TetrisGame.Settle | game.py:154-158 | placing, clearing and scoring: the grid is the cleared grid and the tally is scored |
| TetrisGame.Spawn | game.py:160-162 | the next piece becomes current, a fresh next piece waits, and the game is over exactly when the new current piece collides |
| TetrisGame.UpdateScore | game.py:164-192 | the tally after a clear of n lines is Scored of the old tally |
| TetrisGame.HandleInput | game.py:194-223 | returns false exactly for quit, which changes nothing; pause flips pausing and keeps everything else; restart while over starts a fresh game with the first piece at the start point; restart while playing, any unbound key, and every key but quit and pause while paused or over change nothing; left and right move the piece one column exactly when it fits there; rotate turns it as RotationOutcome says; these three keep board, tally, game over, pausing and the next piece; the score never decreases except on restart |
| TetrisGame.Play | game.py:207-217 | the movement keys keep the invariant and pausing; left and right move the piece one column exactly when it fits there, rotate turns it as RotationOutcome says, all three keeping board, tally, game over and the next piece; other keys change nothing; the score never decreases |

## Left out

- The random choice of a piece kind (tetromino.py:34) is not modelled. The
  kind is a parameter supplied by the caller, and `Tetromino.random` is not
  modelled separately.
- `TetrisGame.update`, `speed`, `last_drop_time` and every speed constant are
  not modelled. They are wall-clock time and floating-point seconds.
- `TetrisGame.draw` and `Board.print_board` are not modelled. They are output
  only.
- The `ui` field of the engine is not modelled.
- Colours are modelled only as the hex strings a cell maps to. The border,
  ghost, background and text colours are not modelled, because they are
  rendering.
- `GetHighestFilledRow` is specified by the row it finds, not by the early
  return inside its loop.
- TetrisGame.HandleInput: for the down and drop keys it states only that the
  invariant holds and the score does not decrease. The exact new state is
  stated by `MoveDown`, `HardDrop` and `Lock`. For the left, right and rotate
  keys it states the new position and that board, tally, game over, pausing
  and the next piece are kept; the new shadow is stated by `MoveLeft`, `MoveRight`
  and `Rotate`.
- TetrisGame.Play: weaker than the source in the same way as
  `HandleInput`.
- The `Board` constructor requires a width and a height of at least 1. The
  engine only builds a 10 x 20 board.
- With width 0, `clear_lines` would loop forever, because an empty row
  counts as full.
- With height 0, `is_game_over` would index a missing row.
- Some members exist only to keep proofs small. `Descend`, `LockAbove`,
  `Settle`, `Spawn`, `StartPieces`, `TryKick`, `KickRotate` and `Play` split
  single source methods (`move_down`, `_lock_tetromino`, `__init__`,
  `rotate`, `handle_input`) into steps. The order of state changes is the
  source's.
