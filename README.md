# rusty-tetris game core in Dafny

A Dafny model of the deterministic core of rusty-tetris, a falling-block
puzzle game written in Rust, with proofs about it:

- `block.dfy` (module `Blocks`, from `src/block.rs`): the five shapes
  (Square, L, I, Z, T), their fixed 4x4 masks (`New`), and the quarter turn.
  `Rotated` states the turn as an index formula. The `Rotate` method fills the
  new mask with the source's two nested loops and is proved equal to it.
- `board.dfy` (module `Boards`, from `src/board.rs`): the playfield. The pure
  functions come first. `Collides` is the collision test. `Locked` is the grid
  with a piece locked in. `ShiftDown` is `clear`. `ClearFrom` and `LinesFrom`
  are `try_clear`'s in-place top-to-bottom scan. `FullLines` lists the rows that
  are full before the scan. `GetScore` and `TotalScore` do the scoring. The class
  `Board` has the source's fields `size`, `block`, `block_pos` (as `blockPos`),
  `cells` (a `seq<seq<bool>>` for the `Vec<Vec<bool>>`) and `score`. Its methods
  run the source's loops in place and are proved against those functions.
  `Valid()` says the field is at least 5 wide and 4 high, the grid is
  `size.y` rows of `size.x` cells, and the falling block lies inside the
  field.
- `game.dfy` (module `Games`, from `src/game.rs`): the three-phase lifecycle
  `Start | Play(board) | Over`, held by the class `Game`, with its `input`
  and `step` transitions.
- `grids.dfy` (module `Grids`): counting the occupied cells of a row or a grid,
  used by both masks and playfield.

Facts the model keeps just as the code has them:

- The L mask has five cells.
- `clear(row)` copies rows `row-1 .. 0` one row down but leaves row 0 as it
  was, so `clear(0)` changes nothing. Emptying row 0 is not done. Hence a
  full row 0 stays full through every later `try_clear` and is recorded and
  scored again each time (`ClearFromRowZero`, `FullRowZeroStays`).
- `check_collision` also rejects cells above the top (`abs_y < 0`).
- The wall kick measures its third try from the original position.
- Because clears only rewrite rows the scan has already passed, the line
  values `try_clear` records are exactly those of the rows full before it
  starts (`LinesFromFull`). A full row 0 is recorded as well, even though it
  stays.
- `Board::input` throws away the result of `mv(Down)`. So a Down key that
  locks a piece and spawns one that collides leaves the game in `Play` with a
  colliding piece; only `step` ends the game. That is why non-collision is
  not part of `Board.Valid()`. Instead, every move except Down keeps a
  non-colliding piece non-colliding, and Down returns exactly whether the
  piece now collides.

Inputs from outside the core are parameters:

- Keys arrive as the abstract `Key` (Up, Down, Left, Right, Space, Other).
- The random shape (`BlockType::rand`) is the `next: BlockType` argument of
  every operation that may spawn a block.

Where the versions of the source files disagree:

- `board.rs` calls `rotate` as if it returned a new block, so the model's
  `Blocks.Rotate` returns one.
- `BLOCK_SIZE` is taken as 4.
- `game.rs` calls `Board::new()` without a size, and no file gives one.
  The model chooses a 10 x 20 field for a new game: the constants `Width`
  and `Height` in `game.dfy`.

Two preconditions stand for panics in the source:

- `Board.constructor` requires `w >= 5` and `h >= 4`. A smaller field lets a
  freshly spawned block stick out of the grid, and locking it then indexes
  out of range.
- `get_score` has `unreachable!()` for more than four lines. `TryClear`
  therefore requires at most four full rows, and moving down requires
  `DownSafe()`: a lock must leave at most four full rows. `NoFullRowDownSafe`
  and `LockedFullLines` show this holds whenever no row is full before the
  lock. `TryClear` re-establishes that whenever row 0 is not full. Once row 0
  is full it does not: `FullRowZeroNotDownSafe` gives a field with a full
  row 0 on which the next lock leaves five full rows.

## Model

| member | source | states |
|---|---|---|
| Blocks.Rotate | src/block.rs:56-73 | clockwise gives `r[x][y] == cells[3-y][x]`, counter-clockwise `r[x][y] == cells[y][3-x]`, for all x, y in 0..4; the result is `Rotated(b, dir)` |
| Blocks.RotateInverse | src/block.rs:62-67 | a clockwise turn followed by a counter-clockwise one gives back the mask, and so does the reverse order |
| Blocks.FourClockwise | src/block.rs:59-72 | four clockwise turns give back the mask |
| Blocks.RotatedCellCount | src/block.rs:57-72 | a turn keeps the number of occupied cells (it permutes the 16 cells) |
| Blocks.NewCellCount | src/block.rs:19-54 | the masks `New` (`Block::new`) gives Square, I, Z and T have 4 occupied cells, the one it gives L has 5 |
| Blocks.NewShape | src/block.rs:19-54 | every mask `New` gives keeps to columns 0..2 and has an occupied cell in row 1 |
| Blocks.RotateLClockwise | src/block.rs:89-102 | the L mask turned clockwise is `[[F,F,F,F],[T,T,T,T],[T,F,F,F],[F,F,F,F]]` |
| Blocks.SquareClockwise | src/block.rs:22-27 | the Square mask is unchanged by a clockwise turn |
| Boards.Board.CheckCollision | src/board.rs:144-163 | true iff some occupied mask cell at pos + (x, y) is outside [0,W) x [0,H), negative y included, or on a locked cell |
| Boards.NoCollisionPlacement | src/board.rs:144-163 | a piece that does not collide lies inside the field and on no locked cell |
| Boards.CollidesMonotone | src/board.rs:144-163 | locking more cells never turns a collision into a non-collision |
| Boards.Board.DropBlock | src/board.rs:165-176 | the new grid is `Locked(cells, block, pos)` (see LockedCells); block, position and score stay; a non-colliding piece adds exactly its cell count to the locked count |
| Boards.LockedCells | src/board.rs:165-176 | the locked grid has the piece's occupied cells set, every other cell as before, and the same size |
| Boards.LockedCount | src/board.rs:165-176 | locking a piece with no overlap and inside the field adds the mask's cell count to the number of locked cells |
| Boards.Board.ShouldClear | src/board.rs:193-200 | true iff all W cells of the row are locked, equivalently iff the row's locked count is W |
| Boards.Board.Clear | src/board.rs:202-208 | the new grid is `ShiftDown(cells, row)` and keeps its size; block, position and score stay |
| Boards.Board.CopyRowDown | src/board.rs:204-206 | row y + 1 becomes a copy of row y and no other row changes |
| Boards.ShiftDownRows | src/board.rs:202-208 | in `ShiftDown(g, row)`, for 1 <= r <= row row r is the old row r-1; row 0 and every row below `row` keep their contents |
| Boards.ShiftDownZero | src/board.rs:202-208 | `clear(0)` leaves the grid unchanged |
| Boards.Board.TryClear | src/board.rs:178-191 | scans y = 0..H, clearing full rows in place; adds the sum of `get_score(line, n)` over the lines that were full before the scan; the score never decreases; with row 0 not full, no full row remains |
| Boards.Board.ClearRows | src/board.rs:181-186 | the scan's grid is `ClearFrom(cells, 0)` and the recorded lines are `LinesFrom(cells, 0)`; block, position and score stay |
| Boards.Board.ScanRow | src/board.rs:182-185 | one row of the scan: a full row y is cleared (`ShiftDown(cells, y)`) and `H - y` appended to the lines, any other row leaves grid and lines as they were; the rest of the scan from y + 1 then gives what the scan from y gave before |
| Boards.Board.AddScores | src/board.rs:188-190 | the score grows by the score of every recorded line, with the number of lines as multiplier; the grid, block and position stay |
| Boards.LinesFromFull | src/board.rs:178-186 | the line values the in-place scan records are `H - y` for exactly the rows y that were full before it, top to bottom |
| Boards.FullLinesMembers | src/board.rs:180-186 | a value v is recorded iff 1 <= v <= H and row H - v is full |
| Boards.ClearFromWellFormed | src/board.rs:178-186 | clearing keeps the grid at H rows of W cells |
| Boards.ClearFromNoFullRow | src/board.rs:178-186 | when row 0 is not full, no row is full after the scan |
| Boards.LockedFullLines | src/board.rs:165-186 | locking one piece into a grid with no full row leaves at most four full rows, so `unreachable!()` is not reached |
| Boards.GetScoreTable | src/board.rs:211-223 | `GetScore(y, n)`, the model of `get_score`, is 0, 40y, 100y, 300y, 1200y for n = 0..4 (n > 4 is excluded, the source panics) |
| Boards.TotalScoreUniform | src/board.rs:188-190 | every line of one clear uses the multiplier of the total count n: the added score is that multiplier times the sum of the line values |
| Boards.BottomLineScore | src/board.rs:178-190 | on a grid whose bottom row is its only full row, the scan records just line 1, the cleared grid is `ShiftDown(g, H - 1)`, and the added score is 40 |
| Boards.ClearFromNoFull | src/board.rs:178-186 | on a grid with no full row from y on, the scan changes nothing and records no line |
| Boards.LockWithoutClear | src/board.rs:115-128 | a lock that fills no row leaves the locked grid as it is, scores nothing, and adds exactly the piece's cell count to the locked cells |
| Boards.ClearFromRowZero | src/board.rs:178-186 | the scan keeps the grid's height and never changes row 0 |
| Boards.FullRowZeroStays | src/board.rs:178-186 | a full row 0 is recorded (as line H) and is still full after the scan |
| Boards.SpawnInBounds | src/board.rs:120-121 | a fresh block at (W/2, 0) lies inside a field of at least 5 x 4 |
| Boards.SpawnOnFullRowOneCollides | src/board.rs:119-124 | on a field whose row 1 is full, every freshly spawned block collides (game over) |
| Boards.Board.NoFullRowDownSafe | src/board.rs:115-128 | with no full row, a Down never reaches the four-line limit of `get_score` |
| Boards.Board.FullRowZeroNotDownSafe | src/board.rs:115-128 | a valid 5 x 5 board with a full row 0 and a non-colliding upright I whose lock leaves five full rows, so that Down would reach `unreachable!()` |
| Boards.Board.constructor | src/board.rs:14-22 | an empty W x H grid, the given shape at (W/2, 0), score 0 |
| Boards.Board.Rotate | src/board.rs:88-106 | commits the clockwise-turned block at the first of pos, pos + (1, 0), pos + (-1, 0) where it does not collide, else changes nothing; grid and score never change; non-collision is kept |
| Boards.Board.Mv | src/board.rs:112-142 | Up is a no-op returning false; Left/Right move x by exactly -1/+1 iff the shifted block does not collide, otherwise change nothing, return false and keep non-collision; Down moves y by 1 when free, otherwise locks, clears, scores and spawns at (W/2, 0), and returns whether the new block collides |
| Boards.Board.Fall | src/board.rs:115-128 | if the block can move one row down it does; otherwise it is locked, full rows are cleared and scored (at most four), a block of the given shape appears at (W/2, 0), and the result is whether the new block collides |
| Boards.Board.Step | src/board.rs:108-110 | one Down: the result is true iff the block now in play collides |
| Boards.Board.Input | src/board.rs:67-86 | Up, Down, Left and Right move as `mv` does, Space rotates, any other key changes nothing |
| Games.Game.constructor | src/game.rs:3-7 | a game begins in Start |
| Games.Game.Input | src/game.rs:34-49 | Start with Space becomes Play with a fresh 10 x 20 board, other keys leave Start; Over with Space becomes Start, other keys leave Over; in Play the key goes to the board and the phase stays Play; only Start to Play and Over to Start happen |
| Games.Game.Step | src/game.rs:51-61 | Start and Over are unchanged; Play becomes Over iff the board's step reports a collision, and otherwise stays Play with the updated board |

## Left out

- Rendering: `Board::draw`, `Block::draw`, `Game::draw` and all of `src/draw.rs`. These are terminal and SDL2 output, including the float scaling of text.
- `src/main.rs`: a demo entry point that only prints a rotated mask.
- `BlockType::rand`: random choice. The caller supplies the shape.
- Decoding of SDL2 and crossterm key codes. These become the abstract `Key` enum, with Space for `KeyCode::Char(' ')`.
- The tick scheduler, the input polling loop and quitting: they are outside the core.
- Machine integers: `i32` and `usize` are unbounded `int` and `nat`. No overflow is modelled. That is harmless for a 10 x 20 field.
- Boards.Board.constructor: requires a field of at least 5 x 4, which the source does not check. A smaller field can panic on the first lock.
- Games.Game.Input: requires `DownSafe()` for a Down key in Play, and Games.Game.Step requires it in Play. These stand for the `unreachable!()` panic of `get_score`, which the source reaches when more than four rows are full.
- The outcome of the source's panics is not modelled; they are excluded by the preconditions above. Whether a real game reaches an excluded state (a full row 0, then a lock that leaves five full rows) is not shown; `FullRowZeroNotDownSafe` only shows that such a board exists.
