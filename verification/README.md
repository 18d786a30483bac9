# Tetris rules engine in Dafny

A model of the rules engine of a small Tetris game, written in Rust on top
of a drawing library (`projects/tetris/src/main.rs`), with proofs about it.

The engine has these parts:

- a 20-row by 10-column board of cells (0 is empty; `k + 1` is a cell
  locked by a piece of kind `k`);
- the seven tetrominoes I, O, T, S, Z, J and L as 4x4 masks;
- a falling piece with a kind, an orientation index 0..3, an anchor and a
  mask;
- a single collision test;
- one-cell moves and soft drop, hard drop, and gravity;
- quarter turns with the wall kicks of the Super Rotation System;
- locking, line clearing, the score table, and game over when a new piece
  does not fit.

The game keeps its state in one mutable struct and changes it step by step.
The model therefore has the same shape:

- `Engine.Game` is a class over a `board: array<Row>` that its methods
  update in place.
- The game's loops are methods with loop invariants: the collision scan,
  the lock loop, the line-clearing pass with its row shifting, the mask
  rotation, the kick search and the hard-drop descent.
- Each method is proved against a value-level reference definition in the
  modules `Shapes`, `Boards`, `Pieces` and `Rotation`. Those definitions
  are `RotateMask`, `Fits`, `Lock`, `Cleared`, `ClearedCount`, `DropRow`,
  `Landed`, `TryShift` and `Rotated`.
- The properties the rules promise are proved as lemmas about those
  definitions.

The class invariant `Valid()` includes the game's safety property: while the
game is not over, the falling piece fits on the board.

**Files**

| file | module | contents |
|---|---|---|
| `shapes.dfy` | `Shapes` | board dimensions, base shapes, mask rotation |
| `boards.dfy` | `Boards` | the board as a value, the clear pass, stamping a piece |
| `pieces.dfy` | `Pieces` | the piece, spawning, collision, moves, landing row, locking |
| `rotation.dfy` | `Rotation` | kick tables, the candidates of a turn, the first-fit rule |
| `game.dfy` | `Engine` | the session class and the clear-pass loop invariant |
| `scenarios.dfy` | `Scenarios` | an O piece hard-dropped onto an empty board |

**Two behaviours of the code the model keeps**

- **A full row 0 is removed only after a row below it was.** The clearing
  loop runs while `y > 0`, so it never tests row 0 on its own. A full row 0
  with no full row below it stays on the board and scores nothing; that
  case is `Boards.FullTopRowSurvives`. Once a row below is removed, the old
  row 0 slides into the scanned range and is tested like any other row.
  `Boards.ClearedCount` and `Boards.Cleared` state this exactly.
- **The restart key is read only while the game is over.** During play
  `Engine.Game.Apply` does nothing with `Restart`.

## Model

| member | source | states |
|---|---|---|
| Shapes.BaseShape | projects/tetris/src/main.rs:29-37 | each of the seven rotation-0 masks, read from the table, is a 4x4 mask with at least one filled cell |
| Shapes.Turn | projects/tetris/src/main.rs:203-209 | where one turn sends mask cell (x, y): (3 - y, x) clockwise, (y, 3 - x) counter-clockwise |
| Shapes.Origin | projects/tetris/src/main.rs:203-209 | every cell (nx, ny) of the turned mask has a cell it came from: the turn sends `Origin(nx, ny, d)` to (nx, ny); together with `Shapes.UndoTurn` the turn is a bijection on the 4x4 cells |
| Shapes.RotateMask | projects/tetris/src/main.rs:199-213 | the reference definition of a quarter turn: cell (nx, ny) of the result is filled exactly when the cell it came from, `Origin(nx, ny, d)`, was; the result is again a 4x4 mask |
| Shapes.Turns | projects/tetris/src/main.rs:196-213 | the mask of orientation n: the base shape turned clockwise n times, again a 4x4 mask; `Shapes.TurnsStep` ties it to the orientation index |
| Shapes.RotateShape | projects/tetris/src/main.rs:199-214 | the game's rotation loop builds exactly the quarter-turned mask `RotateMask(shape, d)` |
| Shapes.TurnedCellCameFromCell | projects/tetris/src/main.rs:199-213 | every filled cell of the turned mask is the image of a filled cell of the original |
| Shapes.CellTurnsToTurnedCell | projects/tetris/src/main.rs:199-213 | every filled cell of the original is sent to a filled cell of the turned mask |
| Shapes.RotateCells | projects/tetris/src/main.rs:199-213 | the filled cells of the turned mask are exactly the images of the original filled cells under (x, y) -> (3 - y, x) clockwise and (x, y) -> (y, 3 - x) counter-clockwise |
| Shapes.RotatePreservesCount | projects/tetris/src/main.rs:199-213 | a turn keeps the number of filled cells |
| Shapes.RotateKeepsSomeCell | projects/tetris/src/main.rs:199-213 | a turn of a mask with a filled cell still has a filled cell |
| Shapes.UndoTurn | projects/tetris/src/main.rs:203-209 | a clockwise turn then a counter-clockwise one restores the mask, and so does the reverse order |
| Shapes.FourTurns | projects/tetris/src/main.rs:203-205 | four clockwise turns restore the mask |
| Shapes.TurnsStep | projects/tetris/src/main.rs:196-213 | turning the mask of orientation r gives the mask of orientation (r + 1) % 4 clockwise and (r + 3) % 4 counter-clockwise |
| Boards.IsFull | projects/tetris/src/main.rs:168 | a row is full when every one of its cells is non-zero |
| Boards.EmptyRows | projects/tetris/src/main.rs:176 | n rows, every one of them the all-empty row |
| Boards.EmptyBoard | projects/tetris/src/main.rs:102 | the fresh board is a 20x10 board |
| Boards.ClearedCount | projects/tetris/src/main.rs:163-180 | the number of rows one pass removes: 0 when no row among 1..19 is full, otherwise every full row including row 0; `Boards.ClearedCountMatches` bounds it and ties it to the result |
| Boards.Cleared | projects/tetris/src/main.rs:163-180 | the board after one pass: unchanged when no row among 1..19 is full, otherwise the full rows removed, the others in order at the bottom and empty rows on top; the result is again a 20x10 board |
| Boards.KeepUnfullSize | projects/tetris/src/main.rs:168-178 | kept rows plus full rows make up all the rows; every kept row was on the board and is not full |
| Boards.KeepUnfullAppend | projects/tetris/src/main.rs:168-178 | keeping and counting distribute over concatenation |
| Boards.ClearedLeavesNoFullRow | projects/tetris/src/main.rs:167-180 | after a pass none of rows 1..19 is full |
| Boards.ClearedCountMatches | projects/tetris/src/main.rs:163-180 | the count is at most 20; it is 0 exactly when none of rows 1..19 was full; the top `count` rows of the result are empty |
| Boards.ClearedRowLands | projects/tetris/src/main.rs:169-178 | a row that is not full survives, moved down by the number of full rows below it, so the surviving rows keep their order |
| Boards.FullTopRowSurvives | projects/tetris/src/main.rs:165-167 | the loop stops above row 0: a full row 0 with no full row below it stays and nothing is scored |
| Boards.StampUpTo | projects/tetris/src/main.rs:139-148 | the board after the lock loop has written the mask cells before (x, y) in row-major order, dropping cells off the board (above the top row, and also outside the walls or below the floor, which only a piece that does not fit has and where the source would panic); the result is again a 20x10 board |
| Boards.Stamp | projects/tetris/src/main.rs:139-148 | the board after the whole lock loop, again a 20x10 board, with off-board cells dropped as in `StampUpTo`; `Boards.StampCells` gives it cell by cell, and `Engine.Game.WritePiece` and the `Pieces.Lock` lemmas only take pieces that fit |
| Boards.StampUpToCells | projects/tetris/src/main.rs:139-148 | after the mask cells before (x, y) in row-major order, exactly the covered cells among them hold the value and all other cells are unchanged |
| Boards.StampCells | projects/tetris/src/main.rs:139-148 | stamping sets exactly the covered board cells to the value and leaves every other cell unchanged |
| Pieces.NewPiece | projects/tetris/src/main.rs:80-88 | a fresh piece is well-formed: a known kind, an orientation index below 4 and a 4x4 mask with a filled cell; its orientation 0, anchor (3, 0) and base-shape mask are given by its body |
| Pieces.NewPieceOriented | projects/tetris/src/main.rs:80-88 | a fresh piece's mask is its kind's base shape turned 0 times |
| Pieces.Open | projects/tetris/src/main.rs:122-131 | the test one filled cell must pass: inside the side walls, above the floor, and empty when its row is on the board |
| Pieces.OpenUpTo | projects/tetris/src/main.rs:116-133 | the part of the collision scan done before (x, y); `Pieces.OpenUpToCells` gives it cell by cell |
| Pieces.Fits | projects/tetris/src/main.rs:115-135 | the collision rule: the scan taken over the whole mask; `Pieces.FitsCells` and `Pieces.MisfitWitness` state its meaning in both directions |
| Pieces.OpenUpToCells | projects/tetris/src/main.rs:116-133 | the part of the collision scan done before (x, y) passes exactly when every filled cell scanned so far lands on an open cell |
| Pieces.FitsCells | projects/tetris/src/main.rs:115-135 | a piece fits exactly when each filled cell is inside the side walls, above the floor, and on an empty cell if its row is on the board |
| Pieces.MisfitWitness | projects/tetris/src/main.rs:122-131 | a piece fails to fit exactly when some filled cell is left or right of the walls, below the floor, or on a locked cell of a row >= 0 |
| Pieces.FitsIgnoresRotation | projects/tetris/src/main.rs:115-135 | the collision test never reads the orientation index |
| Pieces.SpawnFitsEmptyBoard | projects/tetris/src/main.rs:80-88 | every kind fits at the spawn anchor of an empty board |
| Pieces.Shifted | projects/tetris/src/main.rs:259-279 | the piece moved by (dx, dy), everything else kept |
| Pieces.TryShift | projects/tetris/src/main.rs:259-279 | a move commits the shifted piece when it fits and leaves the piece as it was otherwise; `Pieces.TryShiftKeepsPiece` states what it keeps |
| Pieces.TryShiftKeepsPiece | projects/tetris/src/main.rs:259-279 | a move either commits the shifted piece or leaves the piece unchanged; kind, orientation and mask never change; a fitting piece still fits |
| Pieces.TryShiftKeepsOrientation | projects/tetris/src/main.rs:259-279 | a move keeps the mask matched to the orientation index |
| Pieces.FitsAboveFloor | projects/tetris/src/main.rs:128-130 | a piece that fits has its anchor above row 20 |
| Pieces.DropRow | projects/tetris/src/main.rs:287-290 | the resting row is at or below the piece's row and above 20; the piece fits at every row down to it and not one row further |
| Pieces.DropRowBoundary | projects/tetris/src/main.rs:287-290 | between the piece's row and one past its resting row, the piece fits exactly up to the resting row |
| Pieces.Landed | projects/tetris/src/main.rs:286-291 | the piece moved down to its resting row `DropRow`; `Pieces.LandedRests` states where that is |
| Pieces.LandedRests | projects/tetris/src/main.rs:286-291 | the hard-dropped piece is the same piece moved straight down, at or below its row and above the floor; it fits there and not one row lower |
| Pieces.Lock | projects/tetris/src/main.rs:139-148 | the board after locking: the piece's covered cells take kind + 1; the result is again a 20x10 board; `Pieces.LockWritesPiece` and `Pieces.LockChangesOnlyPiece` give it cell by cell |
| Pieces.LockWritesPiece | projects/tetris/src/main.rs:139-148 | locking a fitting piece writes kind + 1 into the cell of every filled mask cell on a row >= 0, and each such cell is inside the board |
| Pieces.LockChangesOnlyPiece | projects/tetris/src/main.rs:139-148 | locking changes only cells covered by the mask, each of which was empty and now holds kind + 1 |
| Rotation.KickTable | projects/tetris/src/main.rs:216-221 | the I piece and the other kinds each have 4 rows of 5 kicks |
| Rotation.KicksStartInPlace | projects/tetris/src/main.rs:41-54 | every row of both tables starts with the kick (0, 0) |
| Rotation.NewRotation | projects/tetris/src/main.rs:196 | the new orientation is in 0..3: (r + 1) % 4 clockwise, (r + 3) % 4 counter-clockwise, and the turn can be undone |
| Rotation.RotationCycles | projects/tetris/src/main.rs:196 | a turn each way restores the orientation, and so do four clockwise turns |
| Rotation.KickRow | projects/tetris/src/main.rs:224-228 | the kick row chosen is one of the four |
| Rotation.Kicked | projects/tetris/src/main.rs:233-243 | a kicked placement keeps the kind and carries the new orientation and the turned mask |
| Rotation.CandidatesFrom | projects/tetris/src/main.rs:231-243 | candidates i..4 of a turn from a row of five kicks, in the order they are tried: 5 - i of them, each with the kind, the new orientation and the turned mask |
| Rotation.CandidatesFromAt | projects/tetris/src/main.rs:231-239 | entry k of the candidates from j is the turned piece moved by kick j + k of the row |
| Rotation.Candidates | projects/tetris/src/main.rs:231-243 | the five candidates of a turn, each a 4x4 mask |
| Rotation.KickCandidate | projects/tetris/src/main.rs:231-243 | every candidate keeps the kind and carries the new orientation and the turned mask |
| Rotation.CandidateFromKick | projects/tetris/src/main.rs:231-239 | candidate i is the turned piece moved by kick i of the table row: x plus the kick's x and y minus the kick's y when turning clockwise, both kicks negated when turning counter-clockwise |
| Rotation.CandidateWellFormed | projects/tetris/src/main.rs:231-243 | a candidate of a well-formed piece is well-formed |
| Rotation.CandidateOriented | projects/tetris/src/main.rs:196-243 | a candidate of a piece whose mask matches its orientation matches its own new orientation |
| Rotation.KickTest | projects/tetris/src/main.rs:231-243 | the placement the game tests, still labelled with the old orientation, fits exactly when candidate i does, and once relabelled it is candidate i |
| Rotation.TurnToNewRotation | projects/tetris/src/main.rs:196-214 | turning the base shape's orientation-r mask gives its mask for the new orientation |
| Rotation.FirstFit | projects/tetris/src/main.rs:231-246 | an answer is a candidate index in range whose candidate fits |
| Rotation.FirstFitSkipsMisfits | projects/tetris/src/main.rs:231-246 | every candidate before the answer, or every candidate when there is none, fails to fit |
| Rotation.FirstFitFrom | projects/tetris/src/main.rs:231-246 | when candidate i fits and none of j..i-1 does, the scan from j answers i |
| Rotation.ScanStep | projects/tetris/src/main.rs:231-246 | one step of the kick scan: a fitting candidate is the answer, a misfit passes the scan on, and no answer is left after five misfits |
| Rotation.Rotated | projects/tetris/src/main.rs:194-247 | the piece after a rotation attempt: the first fitting candidate, or the piece itself when none fits; the lemmas below state what it takes and keeps |
| Rotation.RotatedTakesFirstFit | projects/tetris/src/main.rs:231-245 | the first fitting kick candidate wins |
| Rotation.RotatedWhenBlocked | projects/tetris/src/main.rs:231-247 | when no candidate fits, the piece is left exactly as it was |
| Rotation.RotatedSkipsMisfits | projects/tetris/src/main.rs:231-246 | the outcome is the piece itself or a candidate whose predecessors all fail to fit |
| Rotation.RotatedKeepsPiece | projects/tetris/src/main.rs:194-247 | a rotation keeps the piece well-formed; a committed turn fits and has the new orientation; a fitting piece stays fitting |
| Rotation.RotatedKeepsOrientation | projects/tetris/src/main.rs:194-247 | a rotation keeps the mask matched to the orientation index |
| Rotation.FirstCandidateInPlace | projects/tetris/src/main.rs:41-54 | the first candidate is the turned piece at the same anchor |
| Rotation.UnobstructedTurnStaysPut | projects/tetris/src/main.rs:231-245 | when the turn in place fits it is taken, and the anchor does not move |
| Engine.LineScore | projects/tetris/src/main.rs:183-189 | a pass scores nothing exactly when it cleared 0 or more than 4 rows; 1 to 4 rows score between 100 per row and 800, rising strictly with the count |
| Engine.Game.Valid | projects/tetris/src/main.rs:100-160 | the session invariant: a 20x10 board, a well-formed piece, and the game's safety property, that while the game is not over the falling piece fits; the constructor, Reset, TryMove, HandleRotation, DropToRest, LockPiece, HardDropPiece, Tick, Play and Apply keep it; the steps inside a lock (WritePiece, ClearLines and its helpers) do not, because between writing the piece and spawning the next one the piece overlaps its own locked cells, as in the source |
| Engine.Game.constructor | projects/tetris/src/main.rs:100-108 | a new session has an empty board, a fresh piece of the given kind, score 0, and is not over; the piece fits |
| Engine.Game.Reset | projects/tetris/src/main.rs:110-112 | a reset rebuilds the session as the constructor does, score 0 and not over |
| Engine.Game.IsValidPosition | projects/tetris/src/main.rs:115-135 | the scan answers exactly the collision rule `Fits` |
| Engine.Game.SpawnNewPiece | projects/tetris/src/main.rs:155-160 | the new piece is a fresh one of the given kind; the game is over afterwards exactly when it was before or the new piece does not fit |
| Engine.Game.ClearLines | projects/tetris/src/main.rs:163-190 | the pass leaves the board `Cleared(old board)` and adds the table score of `ClearedCount(old board)` |
| Engine.Game.RemoveFullRows | projects/tetris/src/main.rs:164-180 | the `while y > 0` scan leaves the board `Cleared(old board)` and counts `ClearedCount(old board)` rows |
| Engine.Game.TestRow | projects/tetris/src/main.rs:168-179 | one pass of the scan keeps the pass invariant and brings the scan closer to its end |
| Engine.Game.ShiftRowsDown | projects/tetris/src/main.rs:172-176 | removing row y moves rows 0..y-1 down by one and puts an empty row on top; rows below y are unchanged |
| Engine.Game.WritePiece | projects/tetris/src/main.rs:139-149 | the lock loop leaves the board `Lock(old board, piece)` |
| Engine.Game.LockPiece | projects/tetris/src/main.rs:138-152 | locking writes the piece, clears lines, scores them and spawns the next piece; the game is then over exactly when that piece does not fit |
| Engine.Game.TryMove | projects/tetris/src/main.rs:259-279 | a move or soft drop reports whether the shifted piece fits, and the piece becomes `TryShift` of the old one; the invariant is kept |
| Engine.Game.KickedPlacement | projects/tetris/src/main.rs:195-246 | the kick search returns `Rotated(board, piece, d)` |
| Engine.Game.HandleRotation | projects/tetris/src/main.rs:194-247 | a turn leaves the piece `Rotated(board, old piece, d)` and keeps the invariant |
| Engine.Game.DropToRest | projects/tetris/src/main.rs:287-290 | the descent stops with the piece at its landing row `Landed(board, piece)` |
| Engine.Game.HardDropPiece | projects/tetris/src/main.rs:286-291 | a hard drop locks the piece at its landing row, clears and scores lines, and spawns the next piece |
| Engine.Game.Tick | projects/tetris/src/main.rs:300-309 | gravity does nothing once the game is over, moves a fitting piece down a row, and otherwise locks it; the score never decreases |
| Engine.Game.Play | projects/tetris/src/main.rs:258-292 | during play every action acts on the piece as its own operation does; only a hard drop changes the board, and it gives the new board, score, piece and game-over flag; Restart does nothing |
| Engine.Game.Apply | projects/tetris/src/main.rs:258-297 | during play a key press is `Play`, with the whole new state for each action; once the game is over only Restart does anything, and it starts a new session; only Restart can lower the score or end a game over |
| Engine.ScanKeep | projects/tetris/src/main.rs:177-179 | a pass that tests a row that is not full keeps the board and moves up a row, keeping the pass invariant |
| Engine.ScanTopIsEmpty | projects/tetris/src/main.rs:176 | once the old row 0 has been pulled into the scanned range, the row under test is one of the empty rows brought in at the top |
| Engine.ScanFull | projects/tetris/src/main.rs:169-176 | a pass that removes a full row keeps the pass invariant with one more line cleared and tests the same row again |
| Engine.RemoveRow | projects/tetris/src/main.rs:172-176 | removing the row at index \|e\| + \|a\| from e + a + [r] + k and adding an empty top row gives [empty] + e + a + k |
| Engine.ScanDone | projects/tetris/src/main.rs:167-180 | when the pass stops, the board is `Cleared` and the count is `ClearedCount` of the board it started from |
| Engine.NothingRemoved | projects/tetris/src/main.rs:167-180 | a pass that reaches row 0 without removing a row leaves the board as it was and counts 0 |
| Engine.RowsRemoved | projects/tetris/src/main.rs:167-180 | a pass that pulled the old row 0 into the tested range has removed every full row, row 0 included |
| Engine.RowsShifted | projects/tetris/src/main.rs:172-176 | the rows after a shift are an empty row, then the rows above y, then the rows below y |
| Engine.Blocked | projects/tetris/src/main.rs:124-131 | a filled cell that is off the board or on a locked cell means the piece does not fit |
| Scenarios.OFitsDownTo18 | projects/tetris/src/main.rs:115-135 | on the empty board the O piece fits at every row down to 18 and no lower |
| Scenarios.ODropsToRow18 | projects/tetris/src/main.rs:286-290 | a fresh O piece hard-dropped on the empty board comes to rest at row 18 |
| Scenarios.OLockedAtFloor | projects/tetris/src/main.rs:139-148 | locked there, it fills columns 4 and 5 of rows 18 and 19 with 2 and nothing else |
| Scenarios.HardDropOOnEmptyBoard | projects/tetris/src/main.rs:286-291 | after that hard drop no line is cleared, the score is unchanged, row 19 holds exactly the two O cells, and any next piece fits, so the game goes on |

## Left out

- Drawing, colours, window and cell geometry, and the frame loop are not modelled; they do not affect the rules.
- Keys are polled once per frame in the order Left, Right, Down, Up, Z, Space. Several keys can act in one frame. `Engine.Game.Apply` takes one action per call, and a frame is a sequence of `Apply` calls in that order. Only Space can end the game, and it comes last, so the model covers every frame.
- The fall clock (`get_time`, `last_fall_time`, the 0.5 s delay) is not modelled. `Engine.Game.Tick` is the step the game takes once the delay has passed.
- The random kind of each new piece (`rand::gen_range(0, 7)`) is a parameter in 0..6 of the constructor, `Reset`, `SpawnNewPiece` and every operation that can spawn.
- Engine.Game.ClearLines: the score is an unbounded `nat`. The source's `u32` addition overflowing after about 5.4 million four-line clears is not modelled.
- Cells are `nat` rather than `u8`, and masks are `bool` rather than 0/1 bytes. The game only ever stores 0 or `kind + 1` (at most 7) in a cell and only tests a mask cell against 0.
- Engine.Game.Reset: builds a new board array instead of overwriting the old one in place. The source replaces the whole session value, so no observable state is shared with the old board.
- Engine.Game.WritePiece: requires the piece to fit. Otherwise the source would panic on a cell outside the walls or below the floor, and would overwrite a locked cell it overlaps. In the session it is only ever called on a fitting piece, and `Valid()` guarantees that.
- Engine.Game.Valid: the session invariant does not include that the mask matches the orientation index (`Pieces.Oriented`). That property is proved separately, on the value-level operations: `Pieces.NewPieceOriented`, `Pieces.TryShiftKeepsOrientation` and `Rotation.RotatedKeepsOrientation`.
