# Tetris rules engine in Dafny

This project models the game rules of a small Tetris clone. All of them sit
in `Tetris/src/Tetris/Application.cpp`. Rendering is stripped out. What is
left is four parts:

- **The playfield table** (`PieceTable`, file `piece_table.dfy`). It is a flat
  table of 10 × 20 colour indices, where 0 means empty. Cell `k` sits at row
  `k / 10` (row 0 at the top) and column `k % 10`. The operations are the
  zero-filling constructor, `SetQuad`, `GetQuad` and the row shift `Fall`.
- **The falling piece** (`Pieces`, file `piece.dfy`, and `Rotation`, file
  `rotation.dfy`). A piece is a 3 × 3 occupancy mask, a colour, an anchor
  cell and a `landed` flag. Mask slot `i` covers cell
  `pos + 10 * (i / 3 - 1) + (i % 3 - 1)`. The operations are `Respawn`,
  `Spawn`, `Clear`, `Move` (one row down), `MoveLeft`, `MoveRight` and
  `Rotate`.
- **The main loop's rules** (`Game`, file `game.dfy`):
  - the six shapes and their colours;
  - the landing handler, which scans the three rows around the landed
    anchor, removes full rows with `Fall` and counts them;
  - the edge-triggered keys: rotate, left and right act once per press;
  - one iteration of the loop, as `Tick`.

Each operation is a pure function. It takes the piece and the table and
returns both, as a `Board`. Most source loops are recursive functions over
the loop index, visiting the same indices in the same order and making the
same arithmetic tests. There are two exceptions:

- The three `covered` loops of `Move`, `MoveLeft` and `MoveRight` are
  written as existentials (`CoveredBelow`, `CoveredLeft`, `CoveredRight`).
  Lemmas show that each one agrees with the reference predicates
  `ExposedBelow`, `ExposedLeft` and `ExposedRight`.
- The slot loops `DropScan`, `LeftScan` and `RightScan` are a disjunction
  of one test per slot. The source returns at the first slot that stops the
  move. The model computes the same value without the early exit.

Each loop's contract ties it to a geometric reference definition. For
example, `DropScan` is proved equal to "some bottom-exposed occupied slot
sits on the last row or above an occupied cell". So the operation contracts
are stated in terms of the board, not in terms of the loop.

The piece invariant is `WellPlaced`:

- the mask has nine slots and the centre slot is occupied;
- the anchor is on row 1 or below;
- every occupied slot lies on a real row and a real column, with no
  wrapping into the neighbouring row.

All six shapes satisfy it at the spawn anchor. `Move`, `MoveLeft`,
`MoveRight` and `Rotate` each preserve it. `GameInv` carries it through
`Init`, `Land` and `Tick`. `GameInv` also records that every piece keeps its
colour and a tetromino mask: nine slots, the centre occupied and exactly four
occupied slots.

Inputs that come from outside the rules are parameters:

- the three key states;
- whether the drop timer has run out;
- the index of the next shape, which the source draws with `rand() % 6`.

`Fall` does not clear row 0. The code (`Application.cpp:177-183`) only
copies rows 0..r-1 one row down, so row 0 keeps its contents, and
`PieceTable.Fall` states that row 0 is unchanged.

The line clear is described by `Game.Compacted`. A removed row is a scanned
row that is full and is not row 0. Every other row z reappears `Drops` rows
lower, where `Drops` is the number of removed rows below z. The rows freed
at the top all repeat the old row 0. A full row 0 is counted in `lines`
but stays in place, because `Fall` of row 0 changes nothing.

## Model

| member | source | states |
|---|---|---|
| PieceTable.NewTable | Tetris/src/Tetris/Application.cpp:77-80 | a fresh table has all 200 cells equal to 0 |
| PieceTable.SetQuad | Tetris/src/Tetris/Application.cpp:148-150 | the written cell holds the new colour, every other cell is unchanged, and the length is kept |
| PieceTable.GetQuadAfterSetQuad | Tetris/src/Tetris/Application.cpp:148-173 | GetQuad after SetQuad reads the new colour at the written cell and the old contents at every other cell |
| PieceTable.CopyRowFrom | Tetris/src/Tetris/Application.cpp:179-182 | the inner loop of Fall: from column j on, row dst gets the cell directly above, and nothing else changes |
| PieceTable.CopyStep | Tetris/src/Tetris/Application.cpp:179-182 | one pass of the inner loop of Fall writes cell (dst, j) from the cell above it; together with the rest of the loop, columns j.. of row dst get the row above and nothing else changes |
| PieceTable.FallFrom | Tetris/src/Tetris/Application.cpp:177-183 | the outer loop of Fall, working upwards from the removed row: rows 1..row-i receive the row above them, and the others are unchanged |
| PieceTable.FallStep | Tetris/src/Tetris/Application.cpp:177-183 | one pass of the outer loop of Fall copies row row-i from the row above it before the rows above it are moved, so each row of 1..row-i gets the old contents of its upper neighbour |
| PieceTable.Fall | Tetris/src/Tetris/Application.cpp:175-184 | each row 1..r holds the old contents of the row above it; row 0 and all rows below r are unchanged, so row 0 is not cleared |
| Pieces.SlotCell | Tetris/src/Tetris/Application.cpp:227-230 | a slot that fits lands on a cell of the table, at the anchor's row and column offset by the slot's mask row and column |
| Pieces.PaintFrom | Tetris/src/Tetris/Application.cpp:222-231 | the slot loop from slot i on writes the colour to exactly the cells that the occupied slots i..8 cover, and leaves every other cell as it was |
| Pieces.Spawn | Tetris/src/Tetris/Application.cpp:220-232 | a cell takes the piece colour exactly when an occupied slot covers it; every other cell is unchanged |
| Pieces.Clear | Tetris/src/Tetris/Application.cpp:234-246 | a cell becomes 0 exactly when an occupied slot covers it; every other cell is unchanged |
| Pieces.SpawnPaints | Tetris/src/Tetris/Application.cpp:220-232 | after Spawn, every occupied slot's cell holds the piece colour |
| Pieces.ClearThenSpawn | Tetris/src/Tetris/Application.cpp:220-246 | on a table where the piece is painted, Clear followed by Spawn gives back the same table |
| Pieces.Respawn | Tetris/src/Tetris/Application.cpp:214-218 | the anchor becomes 15, landed becomes false, and mask and colour are kept; any nine-slot mask with its centre occupied is well placed there |
| Pieces.RepaintIsClearThenSpawn | Tetris/src/Tetris/Application.cpp:286-291 | Clear of the old piece and then Spawn of the new one gives each cell one of three values: the new colour if the new piece covers it, else 0 if the old piece covered it, else the old contents |
| Pieces.Relocate | Tetris/src/Tetris/Application.cpp:286-291 | clearing the piece and painting it again at its new place yields the new piece, and each cell is the new colour where the new piece covers it, else 0 where the old piece covered it, else unchanged |
| Pieces.CoveredBelowMatchesEdge | Tetris/src/Tetris/Application.cpp:256-268 | the `covered` loop of Move skips an occupied slot exactly when an occupied slot lies below it in the same mask column |
| Pieces.CoveredLeftMatchesEdge | Tetris/src/Tetris/Application.cpp:301-313 | the `covered` loop of MoveLeft skips an occupied slot exactly when an occupied slot lies to its left in the same mask row |
| Pieces.CoveredRightMatchesEdge | Tetris/src/Tetris/Application.cpp:338-350 | the `covered` loop of MoveRight skips an occupied slot exactly when an occupied slot lies to its right in the same mask row |
| Pieces.FloorTestIgnoresColumn | Tetris/src/Tetris/Application.cpp:273 | the floor test, which leaves out the slot's column offset, holds exactly when the slot's cell is on the last row |
| Pieces.DropSlotStops | Tetris/src/Tetris/Application.cpp:253-283 | Move's tests for one slot stop the drop exactly when the slot is occupied, has no occupied slot below it in its mask column, and is on the last row or above an occupied cell |
| Pieces.DropScan | Tetris/src/Tetris/Application.cpp:250-283 | the slot loop of Move reports a landing exactly when some bottom-exposed occupied slot is on the last row or above an occupied cell |
| Pieces.DropScanStep | Tetris/src/Tetris/Application.cpp:251-284 | the slot loop of Move stops from slot i exactly when slot i stops it or some later slot does |
| Pieces.DropKeepsPlaced | Tetris/src/Tetris/Application.cpp:248-292 | when no bottom-exposed slot is blocked, the piece one row lower is still well placed |
| Pieces.Move | Tetris/src/Tetris/Application.cpp:248-292 | a landed piece changes nothing; otherwise, if blocked below, only landed is set and the anchor and table are unchanged; if not blocked, the anchor moves down exactly one row and the same mask is repainted; the result is well placed |
| Pieces.WrapTests | Tetris/src/Tetris/Application.cpp:315-356 | the modular wrap tests of MoveLeft and MoveRight hold exactly when the slot is in column 0 or column 9 respectively |
| Pieces.LeftSlotStops | Tetris/src/Tetris/Application.cpp:298-326 | MoveLeft's tests for one slot stop the shift exactly when the slot is occupied, has no occupied slot to its left in its mask row, and is in column 0 or has an occupied cell to its left |
| Pieces.RightSlotStops | Tetris/src/Tetris/Application.cpp:335-362 | MoveRight's tests for one slot stop the shift exactly when the slot is occupied, has no occupied slot to its right in its mask row, and is in column 9 or has an occupied cell to its right |
| Pieces.LeftScan | Tetris/src/Tetris/Application.cpp:296-326 | the slot loop of MoveLeft stops exactly when some left-exposed occupied slot is in column 0 or has an occupied cell to its left |
| Pieces.LeftScanStep | Tetris/src/Tetris/Application.cpp:296-326 | the slot loop of MoveLeft stops from slot i exactly when slot i stops it or some later slot does |
| Pieces.RightScan | Tetris/src/Tetris/Application.cpp:333-362 | the slot loop of MoveRight stops exactly when some right-exposed occupied slot is in column 9 or has an occupied cell to its right |
| Pieces.RightScanStep | Tetris/src/Tetris/Application.cpp:333-362 | the slot loop of MoveRight stops from slot i exactly when slot i stops it or some later slot does |
| Pieces.LeftmostInRow | Tetris/src/Tetris/Application.cpp:301-310 | every occupied slot has a left-exposed occupied slot in its mask row at or left of it |
| Pieces.RightmostInRow | Tetris/src/Tetris/Application.cpp:338-347 | every occupied slot has a right-exposed occupied slot in its mask row at or right of it |
| Pieces.LeftKeepsPlaced | Tetris/src/Tetris/Application.cpp:294-329 | when MoveLeft is not blocked, the piece one column left is still well placed, so it never wraps into the previous row |
| Pieces.RightKeepsPlaced | Tetris/src/Tetris/Application.cpp:331-365 | when MoveRight is not blocked, the piece one column right is still well placed |
| Pieces.MoveLeft | Tetris/src/Tetris/Application.cpp:294-329 | either nothing changes, when blocked, or the anchor moves exactly one cell left and the mask is repainted there; the result is well placed |
| Pieces.MoveRight | Tetris/src/Tetris/Application.cpp:331-365 | either nothing changes, when blocked, or the anchor moves exactly one cell right and the mask is repainted there; the result is well placed |
| Rotation.TurnedSourceInverse | Tetris/src/Tetris/Application.cpp:375-401 | the slot map of a quarter turn, (r, c) to (2 - c, r), is a bijection of the nine slots |
| Rotation.RotateMask | Tetris/src/Tetris/Application.cpp:373-407 | slot (r, c) of the mask moves to slot (2 - c, r) |
| Rotation.RotateKeepsCentre | Tetris/src/Tetris/Application.cpp:375-401 | a quarter turn keeps the centre slot |
| Rotation.QuarterTurnBySwaps | Tetris/src/Tetris/Application.cpp:401-406 | a quarter turn is the same as six slot swaps, which are two 4-cycles |
| Rotation.RotateIsPermutation | Tetris/src/Tetris/Application.cpp:401-406 | a quarter turn permutes the slots, so the number of occupied slots is kept |
| Rotation.FourRotationsIdentity | Tetris/src/Tetris/Application.cpp:401-406 | four quarter turns give back the original mask |
| Rotation.RotateReadInRange | Tetris/src/Tetris/Application.cpp:381-395 | once the deltaX and floor guards pass, the cell the rotation reads is inside the table |
| Rotation.RotateSlotTerms | Tetris/src/Tetris/Application.cpp:373-401 | the source's expressions written with newX and newY are the cell of the turned slot, the floor test and the target slot |
| Rotation.SlotTest | Tetris/src/Tetris/Application.cpp:375-399 | Rotate's three tests on one slot, the deltaX guard, the floor guard and the empty target cell, all pass exactly when the slot can be turned |
| Rotation.ScanStep | Tetris/src/Tetris/Application.cpp:401 | writing slot i's value at its turned position, followed by the rest of the loop, leaves every turned slot holding the value of its source slot |
| Rotation.RotateScan | Tetris/src/Tetris/Application.cpp:371-403 | the slot loop of Rotate finishes exactly when every slot passes all three tests; the mask it builds holds each slot's turned value |
| Rotation.BoxCellInRange | Tetris/src/Tetris/Application.cpp:389-395 | with the anchor in columns 1..8 and with row index at most 17 (row 0 is the top), every cell of the 3 × 3 box is inside the table without wrapping |
| Rotation.WrapTestMeansSideColumn | Tetris/src/Tetris/Application.cpp:381-387 | the deltaX guard passes for every slot exactly when the anchor is in columns 1..8 |
| Rotation.MiddleColumnPasses | Tetris/src/Tetris/Application.cpp:381-387 | with the anchor in columns 1..8 no slot fails the deltaX guard |
| Rotation.SlotChecksMeanTurnFits | Tetris/src/Tetris/Application.cpp:379-399 | all nine slot tests pass exactly when the anchor is in columns 1..8 and with row index at most 17 (row 0 is the top), and every cell of the box is empty once the piece is cleared |
| Rotation.Rotate | Tetris/src/Tetris/Application.cpp:367-410 | all or nothing: if the turn fits, the mask becomes its quarter turn and is repainted; otherwise mask and table are as after Clear then Spawn; the anchor, colour and landed flag are unchanged and the result is well placed |
| Rotation.ScanBuildsTurn | Tetris/src/Tetris/Application.cpp:401-406 | the mask the slot loop builds is exactly the quarter turn |
| Rotation.TurnedPiecePlaced | Tetris/src/Tetris/Application.cpp:379-406 | a turn accepted by the three tests leaves the piece well placed |
| Rotation.RejectedRotationChangesNothing | Tetris/src/Tetris/Application.cpp:389-399 | a rejected rotation of a painted piece returns the same piece and the same table |
| Game.ShapeMask | Tetris/src/Tetris/Application.cpp:650-700 | every shape has nine slots, an occupied centre and exactly four occupied slots |
| Game.Shape | Tetris/src/Tetris/Application.cpp:650-702 | shape k has colour k + 1, is at the spawn anchor, is not landed and is well placed |
| Game.TurnKeepsTetromino | Tetris/src/Tetris/Application.cpp:401-406 | a quarter turn of a tetromino mask is again a tetromino mask: nine slots, the centre occupied, four occupied slots |
| Game.KeyEdge | Tetris/src/Tetris/Application.cpp:778-786 | a key fires exactly when it is down and was not down at the previous poll; the new pressed flag is the key state |
| Game.FiresOncePerPress | Tetris/src/Tetris/Application.cpp:778-806 | over any run of polls, the number of times a key fires equals the number of presses, i.e. polls where it goes from up to down |
| Game.HeldKeyFiresOnce | Tetris/src/Tetris/Application.cpp:778-786 | holding a key down for any number of polls fires it once |
| Game.RowScan | Tetris/src/Tetris/Application.cpp:747-758 | the column loop reaches its last column exactly when every cell of the row is occupied |
| Game.FallKeepsRowFull | Tetris/src/Tetris/Application.cpp:175-184 | removing a row does not change whether a row below it is full |
| Game.FallKeepsLowerRows | Tetris/src/Tetris/Application.cpp:754 | removing a row leaves the fullness of every row below it unchanged |
| Game.SameLowerCounts | Tetris/src/Tetris/Application.cpp:740-759 | two tables that agree on which rows below a removed row are full give the same count for the rows still to scan |
| Game.FullRowCounted | Tetris/src/Tetris/Application.cpp:752-756 | a full row counts once, and removing it does not change the count of the rows scanned after it |
| Game.FallSameFrom | Tetris/src/Tetris/Application.cpp:175-184 | removing a row leaves every cell below it unchanged |
| Game.ClearRows | Tetris/src/Tetris/Application.cpp:740-759 | rows outside 0..19 are skipped; the number of rows counted (one `Fall` each) equals the number of full rows among the three in the table before the scan, at most 3; the table afterwards is the old one with the removed rows (the counted rows other than row 0) taken out (Compacted): every other row moves down by the number of removed rows below it, the freed top rows repeat row 0, and no row below pos/10 + 1 changes; when no row is full the table is unchanged |
| Game.KeepRow | Tetris/src/Tetris/Application.cpp:744-759 | skipping a row that is out of range or not full and scanning on removes as many rows as were full, leaves the table compacted as ClearRows states, and leaves it unchanged when nothing is removed |
| Game.RemoveRow | Tetris/src/Tetris/Application.cpp:752-756 | removing a full row found by the scan with Fall and scanning on removes at least one row, as many as were full before, and leaves the table compacted as ClearRows states |
| Game.FullBottomRowReplaced | Tetris/src/Tetris/Application.cpp:740-759 | when a piece lands with its anchor on row 18 and only row 19 becomes full, row 19 afterwards holds the old row 18 |
| Game.ClearStep | Tetris/src/Tetris/Application.cpp:752-756 | the count after a removal is one more than the count of the rows scanned after it, and the rows below pos/10 + 1 stay as they were |
| Game.Drops | Tetris/src/Tetris/Application.cpp:740-759 | how far a row moves down is the number of removed rows below it, and at most the number of scanned rows still ahead |
| Game.RemovedBelowStep | Tetris/src/Tetris/Application.cpp:740-759 | one iteration of the scan adds its own row to the removed rows below z exactly when that row is below z, in the table and full, and that row is not among those the later iterations remove |
| Game.NothingRemoved | Tetris/src/Tetris/Application.cpp:740 | once the three iterations are over, no row is removed and the table is its own compaction |
| Game.DropsBound | Tetris/src/Tetris/Application.cpp:740-759 | a row never moves below the last row of the table |
| Game.DropsAboveScan | Tetris/src/Tetris/Application.cpp:740-759 | all rows above the scanned rows move down by the same amount |
| Game.SameLowerDrops | Tetris/src/Tetris/Application.cpp:740-759 | two tables that agree on which rows below a removed row are full move every row by the same amount |
| Game.FallMovesCell | Tetris/src/Tetris/Application.cpp:177-183 | after Fall(row), each cell of rows 1..row holds the cell directly above it |
| Game.FallKeepsCell | Tetris/src/Tetris/Application.cpp:177-183 | after Fall(row), row 0 and the rows below row keep their cells |
| Game.FallCells | Tetris/src/Tetris/Application.cpp:175-184 | the cell-by-cell effect of Fall(row) on every row |
| Game.SkipStep | Tetris/src/Tetris/Application.cpp:744-750 | an iteration that skips an out-of-range or non-full row, followed by the rest of the scan, leaves the table compacted for the rows from this iteration on |
| Game.CompactStep | Tetris/src/Tetris/Application.cpp:752-756 | an iteration that removes a full row with Fall, followed by the rest of the scan, leaves the table compacted: the removed row is gone, the rows above it move down one more row |
| Game.ShiftRows | Tetris/src/Tetris/Application.cpp:752-756 | the same step stated with Fall's effect on cells, row counts and full rows as premises |
| Game.KeptRows | Tetris/src/Tetris/Application.cpp:752-756 | the first half of the step: every row the scan keeps lands where the count of removed rows below it says |
| Game.KeptCell | Tetris/src/Tetris/Application.cpp:752-756 | for one cell: a kept row lands where the count of removed rows below it says |
| Game.KeptBelow | Tetris/src/Tetris/Application.cpp:752-756 | a kept row at or below the removed one stays put under Fall and then moves as the rest of the scan moves it |
| Game.KeptAbove | Tetris/src/Tetris/Application.cpp:752-756 | a row above the removed one is moved one row down by Fall and then as the rest of the scan moves it, one row more in total |
| Game.ShiftTop | Tetris/src/Tetris/Application.cpp:752-756 | for the freed top rows: each repeats row 0 |
| Game.Init | Tetris/src/Tetris/Application.cpp:649-734 | the start state satisfies the game invariant: an empty table, piece object k is shape k with its fixed mask for each of the six shapes, J (index 0) is the falling piece, no lines, and no key is marked pressed |
| Game.Put | Tetris/src/Tetris/Application.cpp:778-823 | storing a move's outcome keeps the game invariant; the falling piece object is replaced, the other five piece objects, the active index, the line counter and the pressed flags are unchanged |
| Game.Land | Tetris/src/Tetris/Application.cpp:738-775 | the line counter grows by the number of full rows among the three scanned rows, at most 3; only the chosen shape changes, to its respawned self; it is painted on the table, and every cell it does not cover is the cell of the table after the line clear; the invariant is kept |
| Game.RespawnKeepsInv | Tetris/src/Tetris/Application.cpp:761-772 | choosing any of the six shapes as the next piece and respawning it keeps the game invariant |
| Game.Enter | Tetris/src/Tetris/Application.cpp:773 | spawning the new piece paints every cell it covers with its colour and changes no other cell |
| Game.Steer | Tetris/src/Tetris/Application.cpp:778-806 | keeps the game invariant and the line counter; with no key edge nothing changes; for every combination of edges the fired actions apply in the order rotate, left, right: Turn, then Shift left, then Shift right, each on the result of the previous one |
| Game.Turn | Tetris/src/Tetris/Application.cpp:780-781 | the falling piece and the table become Rotate's result, the other piece objects stay, and the game invariant holds, including that the mask is still a tetromino mask of its colour |
| Game.Shift | Tetris/src/Tetris/Application.cpp:788-806 | the falling piece and the table become the result of MoveLeft or MoveRight, the other piece objects stay, and the game invariant holds |
| Game.Drop | Tetris/src/Tetris/Application.cpp:818-823 | the falling piece and the table become Move's result, the other piece objects stay, and the game invariant holds |
| Game.Tick | Tetris/src/Tetris/Application.cpp:736-823 | one loop iteration keeps the game invariant and sets the pressed flags to the key states; after a landing the counter grows by the number of full scanned rows, otherwise it stays; with no key edge it is exactly the landing handler (landed, no drop due), the landing handler then Drop (landed, drop due), Drop (not landed, drop due) or nothing (not landed, no drop due); with a single rotate, left or right edge and no drop due on a piece that has not landed it is exactly Turn, Shift left or Shift right; for any keys on a piece that has not landed it is Steer followed by Drop when the drop is due |
| Game.TickAfterLanding | Tetris/src/Tetris/Application.cpp:738-823 | an iteration on a landed piece equals the landing handler followed by an iteration on the fresh piece, which has not landed |

## Left out

- Rendering: vertex and index buffers, the `glBufferSubData` upload in
  `SetQuad`, shaders, `Renderer`, `Playfield` geometry, the text field
  showing the line count, and window and context setup. These are drawing
  only and do not affect the table.
- `Tetris/src/Tetris/TextRenderer.cpp`, `TextRenderer.h` and
  `Tetris/src/Tetris/GLCall.cpp` are not part of this model. They parse
  fonts, build float geometry and check OpenGL errors.
- The drop timer, built on `std::chrono`, and the 500 ms / 75 ms speed
  selection by the S key. Whether a drop is due is the `dropDue` parameter
  of `Game.Tick`. The timer's clock and double arithmetic are not modelled.
- `rand() % 6`. The next shape is the `next` parameter of `Game.Land` and
  `Game.Tick`.
- Unsigned 32-bit wrap-around. The model uses unbounded integers. The
  landing handler relies on wrap only for row -1, which becomes 2^32 - 1 and
  is then skipped by the `row >= 20` test. `Game.ClearRows` skips it as
  "row out of range".
- Game.Land: the line counter is an unbounded `nat`. The source's `uint32_t`
  counter would wrap after 2^32 lines.
- Pieces.Move, Pieces.MoveLeft, Pieces.MoveRight, Rotation.Rotate: these
  require `WellPlaced`. Every piece the game moves satisfies it (see
  `Game.GameInv`). The source has no such guard. Some pieces outside this
  invariant make it index outside the table, which is undefined behaviour:
  for example, an occupied top-row slot with the anchor on row 0. The other
  pieces outside the invariant are simply not described by the model.
- Colours are natural numbers. The source stores a piece's colour as a
  float (1.0f..6.0f) and its mask as floats 0.0f/1.0f. Only these exact
  values occur, so `nat` and `bool` lose nothing.
- The initial J piece is never painted, because the call to `Spawn` after
  the shapes are built is commented out. `Game.Init` keeps this: the table
  starts empty. For the same reason, "the falling piece is painted on the
  table" is not part of `Game.GameInv`; `Game.Land` states it for every
  piece after the first.
- There is no game-over check in the source, and the model adds none. A
  spawn on top of occupied cells simply overwrites them.
