# Tetris 2048 board engine in Dafny

A functional model of the board engine of the Tetris 2048 game.
- **The grid.** A 20 x 20 matrix of optional numbered tiles. Row 0 is the bottom row.
- **The pieces.** The seven tetrominoes, with guarded moves, collision rules, rotation with wall-kick, and `move_pos`.
- **The settling sequence.** It runs once a piece has locked:
  1. merge equal vertically adjacent tiles until a pass merges nothing;
  2. clear full rows until none is left;
  3. label the 4-connected components of the tiles and drop every free tile one row, until nothing is free.

  The whole sequence runs twice.

## How the model is organised
- Every mutable object of the program becomes an immutable value, and every method becomes a pure function that returns the new value.
  - `Tiles`: `Tile` is `number` plus `pos`.
  - `Grid`: the grid holds its cells, score and game-over flag.
  - `Pieces`: a `Piece` holds its shape, the grid size it was made for, its tile matrix and its bottom-left corner.
- Loops become recursive functions over the scan position. Each has a reference description of its result, proved equal to it:
  - `MergedCell` for a merge pass;
  - `DroppedCell` for `move_free_tiles`;
  - `SlidFrom` for `slide_down`;
  - `Spun` for rotation.
- Every exception the program can raise is a `Result.Fault` naming the failure:
  - `EmptyLabelList` is `max([])` in `rearrange_min_equivalent_labels`;
  - `EmptyFullRowCell` is `None.number` in `is_full`.
- The program hard-codes constants that the model names:
  - `GridHeight = GridWidth = 20`;
  - `GameWidth = 12`, the columns merging, row scoring, sliding and wall-kicks look at;
  - `MergeRows = 19`.
- A direction string becomes `Dir`. `DirOf` maps "left" and "right" to themselves and every other string to `Down`, as `move` and `can_be_moved` do.
- Randomness becomes parameters:
  - the spawn column of a new piece;
  - the target of `move_pos`.

  A tile's number is always 2, the only value `np.random.choice([2])` can give.

Modules, in dependency order:
`Common`, `Tiles`, `Tally` (tile counts, number sums and per-number occurrences of a matrix), `Grid`, `Merging`, `RowClear`, `Connectivity` (4-adjacency, paths), `LabelTables`, `Labelling`, `FreeTiles`, `Settle`, `Pieces`, `Rotation`.

## Model

| member | source | states |
|---|---|---|
| Tiles.NewTile | tile.py:19-31 | a new tile carries number 2 and exactly the position it was given |
| Tiles.SetPosition | tile.py:34-36 | setting a position keeps the number and stands the tile exactly at that position |
| Tiles.GetPosition | tile.py:39-41 | the position read, set back, leaves the tile as it was |
| Tiles.SetThenGet | tile.py:34-41 | reading the position after setting it gives the set position back; the last set wins; setting the current position changes nothing |
| Tiles.Move | tile.py:44-45 | a move shifts the position by exactly (dx, dy) and keeps the number |
| Tiles.MoveComposes | tile.py:44-45 | two moves add up to one move by the sum of the vectors, and a move is undone by its opposite |
| Grid.NewGrid | game_grid.py:18-37 | a new grid has the requested size, no occupied cell, no tile, score 0 and game over unset |
| Grid.IsInside | game_grid.py:129-134 | true exactly for 0 <= row < height and 0 <= col < width |
| Grid.IsOccupied | game_grid.py:120-125 | an out-of-range cell never reads as occupied; an in-range cell is occupied exactly when it holds a tile |
| Grid.PlacementOrderAgrees | game_grid.py:142-146 | the column-by-column visit of the piece matrix reaches exactly the piece's tiles and their positions |
| Grid.UpdateGrid | game_grid.py:140-154 | every in-bounds piece tile is stored at its own position and every other cell is unchanged; game over becomes set exactly when it already was or some piece tile lies outside, so it is never cleared |
| Grid.MoveFreeTiles | game_grid.py:157-165 | each cell ends as the flagged tile from the cell above, lowered by one row, or else empty if it was itself flagged, or else unchanged; score and game over are kept |
| Grid.MoveFreeTilesConserves | game_grid.py:157-165 | when no unflagged tile lies under a flagged one, the multiset of numbers, the tile count and the number sum are kept, unflagged tiles stay, flagged tiles land one row lower, and the sum of tile rows drops by the number of flags |
| Merging.StepAdvances | Tetris_2048.py:223-237 | one step of the pass turns the board before a cell into the board before the next cell, with score and flag to match |
| Merging.CheckMerging | Tetris_2048.py:217-238 | after a pass each cell is emptied if its tile merged into the one below, doubled if the tile above merged into it, and untouched otherwise; the score grows by the doubled numbers; the result is true exactly when some merge happened |
| Merging.MergesAreDisjoint | Tetris_2048.py:223-228 | only two present, equal, vertically adjacent tiles merge, and no tile takes part in two merges |
| Merging.MergesIffEqualPair | Tetris_2048.py:219-238 | a pass merges somewhere exactly when some pair in rows 0..19, columns 0..11 is equal, and gains nothing when it merges nothing |
| Merging.CheckMergingConserves | Tetris_2048.py:220-237 | a pass keeps the number sum, loses one tile per merge, reports true exactly when an equal pair exists, and without one leaves the grid, score included, unchanged |
| Merging.MergeFix | Tetris_2048.py:115-117 | merging until a pass reports false ends with no equal pair, the same number sum and no more tiles |
| RowClear.CountsTo12 | Tetris_2048.py:249-254 | the column loop reaches `counter == 12` exactly when the row holds at least 12 tiles among its 20 cells |
| RowClear.RowScore | Tetris_2048.py:255-257 | the row sum is defined exactly when columns 0..11 all hold a tile |
| RowClear.ScanFull | Tetris_2048.py:244-258 | the row loop fails exactly when a full row has a gap in columns 0..11, and otherwise flags exactly the full rows |
| RowClear.ScanFullGain | Tetris_2048.py:246-260 | the score added is the column 0..11 sum of the highest full row only, and nothing without a full row |
| RowClear.IsFull | Tetris_2048.py:242-263 | `is_full` flags exactly the full rows, fails with `None.number` exactly when a full row has a gap in columns 0..11, adds the highest full row's sum to the score and changes no cell |
| RowClear.LowestTrue | Tetris_2048.py:267-268 | the row `slide_down` acts on is the lowest flagged row |
| RowClear.LowerRow | Tetris_2048.py:270-274 | a copied row keeps which cells hold tiles and the tiles' numbers |
| RowClear.ShiftRows | Tetris_2048.py:269-274 | rows a..18 each take the lowered row above them; every other row is unchanged |
| RowClear.SlideDown | Tetris_2048.py:266-275 | at the lowest flagged row i, rows i..18 take the lowered row above them; rows below i and row 19 are unchanged; score and game over are kept |
| RowClear.SlideDownWeight | Tetris_2048.py:269-274 | a slide at row i < 19 removes row i and duplicates row 19: for counts, sums and per-number occurrences, after + row i = before + row 19 |
| RowClear.SlideProgress | Tetris_2048.py:124-126 | a slide at the lowest full row keeps the rows below it and row 19 and leaves fewer full rows from there up |
| RowClear.FullTopRowIsStuck | Tetris_2048.py:123-127 | when row 19 is the only full row, `slide_down` changes nothing, so the clear loop never ends |
| RowClear.ClearFrom | Tetris_2048.py:121-127 | its own contract gives the exit condition: the clear loop ends with no full row and row 19 untouched, or fails with `None.number`; `ClearFromCompacts` and `ClearFromScore` relate the result to the input |
| RowClear.ClearRows | Tetris_2048.py:120-127 | its own contract: clearing leaves no full row and row 19 unchanged, fails whenever a full row has a gap in columns 0..11, and changes nothing when no row is full; `ClearRowsResult` gives the result board and score |
| RowClear.Compacted | Tetris_2048.py:266-274 | the reference board after clearing, as long as the board: the rows of 0..18 that are not full, in order, each lowered once per full row below it, then the d copies of row 19 left by d slides, the copy in row j lowered 19 - j times, and row 19 itself |
| RowClear.SlidCompacted | Tetris_2048.py:266-275 | a slide at a full row, with row 19 not full, leaves the compacted board unchanged |
| RowClear.CompactedSettled | Tetris_2048.py:121-127 | with no full row the compacted board is the board itself |
| RowClear.LowerKeepsScore | Tetris_2048.py:255-257 | lowering a row keeps its column 0..11 sum and whether it is defined |
| RowClear.SlideKeepsReadable | Tetris_2048.py:255-257 | after a slide every full row still holds tiles in columns 0..11, so the next `is_full` does not fail |
| RowClear.SlideHighest | Tetris_2048.py:266-275 | a slide below the highest full row h makes the lowered row h the highest full row, at h - 1 |
| RowClear.ClearFromCompacts | Tetris_2048.py:121-127 | entered with the flags of a successful `is_full`, the loop succeeds and leaves exactly the compacted board |
| RowClear.ClearFromScore | Tetris_2048.py:121-127 | entered the same way, the loop's score plus the highest full row's sum equals the entry score plus that sum times the number of full rows; with no full row the score is kept |
| RowClear.ClearRowsResult | Tetris_2048.py:120-127 | clearing succeeds exactly when every full row holds tiles in columns 0..11; it then leaves the compacted board and adds k times the highest full row's column 0..11 sum, k the number of full rows, because `score` is reset per row and `is_full` runs again after every slide |
| LabelTables.GetNeighborLabels | Tetris_2048.py:540-557 | the neighbour labels are exactly the non-zero labels of the cell one row lower and of the cell to the left, without duplicates |
| LabelTables.UpdateMinEquivalentLabels | Tetris_2048.py:561-569 | exactly the entries whose value is in the merge set become the set's minimum; all others are kept |
| LabelTables.UpdateJoinsClasses | Tetris_2048.py:561-569 | two entries end equal exactly when they were equal or both named a merged class |
| LabelTables.RearrangeMinEquivalentLabels | Tetris_2048.py:573-589 | rearranging fails with `max([])` exactly on an empty list, and keeps the length otherwise |
| LabelTables.RearrangedEntry | Tetris_2048.py:575-589 | each entry is replaced by the rank, from 1, of its value among the distinct values |
| LabelTables.RearrangeKeepsOrder | Tetris_2048.py:575-589 | rearranging keeps the order and the equalities between entries, and every new value lies in 1..k, k the number of distinct values |
| LabelTables.RearrangeOnto | Tetris_2048.py:579-589 | every value 1..k appears after rearranging |
| LabelTables.RearrangeKeepsDistinct | Tetris_2048.py:573-589 | rearranging keeps the number of distinct values, which is the count the labelling returns |
| Labelling.LabelStep | Tetris_2048.py:497-522 | one first-pass step keeps the state well formed: exactly the visited occupied cells carry a label, every label has an entry in the equivalence table, `next_label` is one past the table, and every entry names a smaller or equal label that is its own entry |
| Labelling.StepKeeps | Tetris_2048.py:497-522 | one first-pass step keeps the invariants: handled neighbours share a class, one class means connected, every label has a first cell, and the first tile has label 1 |
| Labelling.ScanKeeps | Tetris_2048.py:495-522 | the first pass keeps those invariants along the whole scan |
| Labelling.ConnectedComponentLabeling | Tetris_2048.py:485-537 | the labelling either fails with `max([])` or returns a label matrix of the grid's shape |
| Labelling.LabellingFaultsIffEmpty | Tetris_2048.py:527-537 | the labelling fails exactly when no cell holds a tile |
| Labelling.LabelZeroIffEmpty | Tetris_2048.py:485-537 | a cell's label is 0 exactly when it is empty, and an occupied cell's label lies in 1..k for the returned k |
| Labelling.ClassIffConnected | Tetris_2048.py:495-522 | after the first pass, two tiles share a class exactly when they are 4-connected |
| Labelling.FinalIsRank | Tetris_2048.py:527-535 | a tile's final label is the rank of its class among all classes |
| Labelling.FinalIffClass | Tetris_2048.py:527-535 | two tiles get the same final label exactly when they share a class |
| Labelling.LabelsAreComponents | Tetris_2048.py:485-537 | two tiles get the same label exactly when they are 4-connected |
| Labelling.LabelsOnto | Tetris_2048.py:527-537 | every label 1..k, for the returned k, is carried by some tile |
| Labelling.FirstTileLabelOne | Tetris_2048.py:503-509 | the tile met first in the bottom-up, left-to-right scan gets label 1 |
| FreeTiles.Anchors | Tetris_2048.py:594-599 | the anchoring labels are exactly the labels other than 0 and 1 seen in row 0 so far |
| FreeTiles.FindFreeTiles | Tetris_2048.py:592-603 | a cell ends flagged exactly when it was already flagged or holds a free label, that is, one that is neither 0 nor 1 and does not appear in row 0 |
| FreeTiles.FindFreeTilesCounts | Tetris_2048.py:593-603 | starting from no flags, the returned count is the number of flags set |
| FreeTiles.FreeMeansFloating | Tetris_2048.py:597-601 | a tile is free exactly when it lies above row 0, does not carry label 1, and is not connected to any tile of row 0 |
| FreeTiles.FirstTileNeverFree | Tetris_2048.py:597 | the first tile of the scan is never free, wherever it lies |
| FreeTiles.UnderFreeIsFree | Tetris_2048.py:597-601 | a tile directly under a free tile is free too |
| FreeTiles.FreeFlagsReady | Tetris_2048.py:592-603 | the flags flag only tiles, never row 0, and never a tile with an unflagged tile under it, which is what a drop needs |
| Settle.MergeFixNoPair | Tetris_2048.py:115-117 | without an equal pair the merge loop changes nothing |
| Settle.MergeFixTopRow | Tetris_2048.py:115-117 | merging only takes tiles out of row 19 |
| Settle.DropRound | Tetris_2048.py:130-134 | its own contract says only that a successful round leaves a 20 x 20 game grid; `DropRoundFaults`, `DropRoundConserves` and `DropRoundParts` state what it does |
| Settle.DropRoundFaults | Tetris_2048.py:130-134 | a drop round fails exactly on a board without tiles, with `max([])` |
| Settle.DropRoundConserves | Tetris_2048.py:130-134 | on a board with a tile a drop round succeeds, keeps the numbers, score and game over, lowers the sum of tile rows by the reported `num_free`, and only removes tiles from row 19 |
| Settle.DropRoundParts | Tetris_2048.py:130-134 | on a board with a tile, a round's `num_free` is the number of free flags, and its board is those flags' drop |
| Settle.NoFlagIffSettled | Tetris_2048.py:132 | no flag is set exactly when no tile is free |
| Settle.DropRoundStops | Tetris_2048.py:132-137 | on a board with a tile, a round succeeds and reports `num_free == 0` exactly when the board has no free tile |
| Settle.NoFlagMovesNothing | Tetris_2048.py:134 | with no flag set the drop changes nothing |
| Settle.DropRoundIdle | Tetris_2048.py:130-137 | a round that reports no free tile leaves the board as it was |
| Settle.DropLoop | Tetris_2048.py:130-141 | its own contract says only that a successful loop leaves a 20 x 20 game grid; `DropLoopSettles` states what it does |
| Settle.DropLoopSettles | Tetris_2048.py:130-141 | the drop loop fails exactly on a board without tiles; otherwise it ends with the same numbers, score and game over, no free tile, and row 19 only thinned |
| Settle.SettledMeansAnchored | Tetris_2048.py:137-141 | after the drop loop every tile lies in row 0, carries label 1, or is connected to a tile of row 0 |
| Settle.Cleared | Tetris_2048.py:114-127 | merging and then clearing leaves no full row, only thins row 19, keeps game over, and fails exactly as `is_full` does |
| Settle.ClearedResult | Tetris_2048.py:114-127 | merging then clearing succeeds exactly when the merged board's full rows hold tiles in columns 0..11, and leaves the compacted merged board with the score raised by k times its highest full row's sum |
| Settle.Phase | Tetris_2048.py:114-143 | one half of the sequence ends on a board with no free tile, row 19 only thinned and not full, and game over kept |
| Settle.PhaseFaults | Tetris_2048.py:114-143 | one half fails in the clear loop with `None.number`, or on a board the clear loop emptied with `max([])`, and for no other reason |
| Settle.SettleBoard | Tetris_2048.py:107-171 | both halves in turn: on success a game grid with game over kept and no free tile |
| Settle.SettleBoardResult | Tetris_2048.py:107-171 | after both halves the board has no free tile, row 19 only lost tiles, and game over is the flag `update_grid` returned |
| Settle.ClearingLastRowCrashes | Tetris_2048.py:119-130 | a board whose only tiles fill columns 0..11 of row 0 makes the sequence fail with `max([])` |
| Settle.SettleChecked | Tetris_2048.py:107-171 | the corrected sequence: on success a game grid with game over kept and row 19 only thinned |
| Settle.SettleCheckedResult | Tetris_2048.py:107-171 | the sequence with the empty-board check fails only in the clear loop, and ends on a board with no free tile or no tile at all |
| Settle.SettleCheckedAgrees | Tetris_2048.py:107-171 | wherever the sequence as written succeeds, the checked one gives the same board |
| Settle.PhaseCheckedResult | Tetris_2048.py:114-143 | one checked half fails only in the clear loop and ends settled or empty |
| Settle.PhaseAgrees | Tetris_2048.py:114-143 | a checked half agrees with the half as written wherever the latter succeeds |
| Settle.ClearingLastRowChecked | Tetris_2048.py:119-130 | on the board that crashes the sequence as written, the checked sequence ends with an empty board |
| Settle.EmptyStaysEmpty | Tetris_2048.py:114-143 | a checked half leaves a board without tiles as it is |
| Pieces.TableFacts | tetromino.py:18-66 | every shape lists four distinct (column, row) pairs inside its n x n matrix |
| Pieces.NewPiece | tetromino.py:11-75 | a new piece has the given shape and grid size, and its corner is (x, grid_height) |
| Pieces.NewPieceLayout | tetromino.py:68-87 | a new piece holds tiles exactly at its shape's table entries, all numbered 2, with the tile at [r][c] at (corner.x + c, corner.y + n - 1 - r) and no holes in any row or column |
| Pieces.ShiftComposes | tetromino.py:118-126 | shifting every tile twice is one shift by the sum, and a zero shift changes nothing |
| Pieces.DirOf | tetromino.py:110-115 | "left" and "right" name themselves, and every other direction string means down |
| Pieces.EdgeColumn | tetromino.py:180-198 | the column found is the leftmost, or rightmost, tile of the row, and there is none exactly when the row is empty |
| Pieces.BottomRow | tetromino.py:215-217 | the row found is the bottommost tile of the column, and there is none exactly when the column is empty |
| Pieces.SidesFromLeft | tetromino.py:179-196 | the left check passes exactly when every row's leftmost tile is off column 0 and either above the grid or next to a free cell |
| Pieces.SidesFromRight | tetromino.py:197-212 | the right check passes exactly when every row's rightmost tile is off column grid_width - 1 and either above the grid or next to a free cell |
| Pieces.BottomsFromDown | tetromino.py:214-229 | the down check passes exactly when every column's bottommost tile is above grid_height, or off row 0 with a free cell below it |
| Pieces.CanBeMoved | tetromino.py:177-230 | no contract of its own: it sends left and right to the side scan and down to the bottom scan; `CanBeMovedMeans` states what it decides |
| Pieces.CanBeMovedMeans | tetromino.py:177-230 | `can_be_moved` is, for each direction, exactly the check on the extreme tiles described in the three rows above |
| Pieces.MovePiece | tetromino.py:104-127 | `move` reports `can_be_moved`; when it fails nothing changes, and otherwise the corner and every tile move by exactly (-1, 0), (1, 0) or (0, -1) |
| Pieces.MoveUndone | tetromino.py:104-127 | a sideways move followed by a successful move back restores the piece |
| Pieces.StepTargetClear | tetromino.py:177-230 | when a placed piece may move, every tile's target cell is inside the columns, not below row 0, and not occupied |
| Pieces.MoveKeepsPlaced | tetromino.py:104-127 | a piece placed on free cells is still so placed after a successful move, one step further on |
| Pieces.Pivot | tetromino.py:136-146 | the pivot exists exactly when one of [0][0], [0][1], [1][0] holds a tile |
| Pieces.MovePos | tetromino.py:131-152 | `move_pos` succeeds exactly when there is a pivot, and keeps the corner and the shape |
| Pieces.MovePosPivot | tetromino.py:131-152 | after `move_pos(dx, dy)` the pivot, with its number, sits at (dx, dy), all tiles moved by one common vector, and doing it again changes nothing |
| Pieces.MovePosSpawned | tetromino.py:131-152 | every new piece has a pivot |
| Rotation.Turn | tetromino.py:157-161 | the matrix entry at [r][c] moves to [c][n - 1 - r] |
| Rotation.TurnTwice | tetromino.py:157-161 | two turns are a half turn |
| Rotation.TurnFour | tetromino.py:157-161 | four turns restore the matrix |
| Rotation.TurnGapFree | tetromino.py:157-161 | a turned matrix has no holes in any row or column when the original had none |
| Rotation.StepShifts | tetromino.py:170-173 | one kick move shifts the whole piece by one column or leaves it as it was |
| Rotation.RepeatShifts | tetromino.py:169-173 | k kick moves shift the whole piece by between 0 and k columns in the kick's direction |
| Rotation.KickShifts | tetromino.py:168-173 | a wall-kick only shifts the whole piece sideways |
| Rotation.Rotate | tetromino.py:156-173 | its own contract says only that a rotated piece is still well formed, with the same shape and grid size; `RotateIsRotated`, `RotationLifts` and `FourRotations` state what it does |
| Rotation.RotateFromMidway | tetromino.py:162-173 | continued from any midway state, the per-tile loop ends with the tile at each turned cell [r][c] moved by (c - r, n - r - c) plus the total kick, and the corner row unchanged |
| Rotation.RotateIsRotated | tetromino.py:156-173 | a rotation is the turned matrix, each tile moved by its (c - r, n - r - c) vector, the whole shifted sideways by the total kick |
| Rotation.RotationLifts | tetromino.py:162-167 | a rotated piece is laid out one row higher than before, at the kicked column, without holes, and with the corner row unchanged |
| Rotation.RotationUnkicked | tetromino.py:156-173 | a piece well inside columns 0..11 rotates without kicks into the turned layout one row higher |
| Rotation.TwoRotations | tetromino.py:156-173 | two unkicked rotations give the half-turned layout two rows higher |
| Rotation.FourRotations | tetromino.py:156-173 | four unkicked rotations restore the layout, four rows higher |

## Left out
- Drawing, menus, keyboard input, pause and restart, sounds, colours and `change_speed` are left out. They are graphics, audio, floating-point arithmetic or input handling, with no effect on the board.
- `create_tetromino` and the random choices are parameters:
  - the shape;
  - the spawn column;
  - the `move_pos` target.
- `last_updated` is not modelled. It is only read by the speed change.
- The falling-piece loop and `update_grid`'s caller are left out. Both depend on user input and timing.
  - The settling sequence starts from the board `update_grid` returned.
  - The number of pieces is unbounded.
- RowClear.ClearRows, Settle.Cleared, Settle.Phase, Settle.SettleBoard: they require row 19 not to be full.
  - `slide_down` never changes row 19, so on a full top row the clear loop does not end. `FullTopRowIsStuck` states this.
  - Merging and dropping only ever remove tiles from row 19.
  - The requirement holds as long as no locked piece fills it.
- Grid.MoveFreeTiles: it requires that no row-0 cell is flagged and that every flagged cell holds a tile. Both error paths of game_grid.py:157-165 are left out.
  - On a flagged row-0 cell the program would write to row -1, which is row 19.
  - On a flagged empty cell the program copies `None` and calls `move` on it, which raises.
  - `find_free_tiles` never flags row 0 or an empty cell (`FreeFlagsReady`).
- The labelling calls at Tetris_2048.py:143 and :171 are not modelled. Their results are never used, and they cannot fail on a board with no free tile: being settled includes a successful labelling of that board.
- Settle.Phase: its contract does not state the score the half adds. The score is stated per pass by `CheckMerging` and `IsFull`.
- Pieces.MovePos: when none of the three pivot slots holds a tile, `move_pos` raises on `None.get_position`. The model returns `None` for that case.
- Pieces.NewPiece: it takes any spawn column, not only 0..grid_width - n.
- Rotation.Rotate checks no collisions beyond the guarded kick moves, as in the program.
  - It uses the hard-coded width 12, while `can_be_moved` uses the piece's grid width.
  - Both are kept as written.
- Object identity and aliasing are left out: the model uses values, while the program holds references to tiles. `np.copy` of a row in `slide_down` copies the references, so after a slide rows 18 and 19 hold the same tile objects. The model differs from the program where this sharing shows:
  - The move at Tetris_2048.py:274 lowers the shared tile, so the program's row-19 tile reports y = 18 after a slide; in the model it keeps y = 19.
  - A later merge pass pairs a shared tile with itself at rows 18 and 19. The program sets its position to `None` (Tetris_2048.py:227) while row 18 still holds it, so its next move (Tetris_2048.py:274, game_grid.py:164) or drawing (tile.py:51) raises. The model performs an ordinary merge.
  - After two slides rows 17, 18 and 19 share one tile. Merging rows 17 and 18 doubles that object, so row 19 shows the doubled number too: the program's board holds 2n in rows 17 and 19 where the model holds 2n and n, and the number sums differ.

## Findings

| source | as written | input that shows it | evidently intended | confidence | as-written member | corrected member |
|---|---|---|---|---|---|---|
| Tetris_2048.py:130 | once the clear loop has removed the last tiles, the drop loop labels an empty board, and `rearrange_min_equivalent_labels` calls `max([])`, which raises | a locked piece completes row 0 on a board whose only tiles are columns 0..11 of row 0 | a board with no tiles has nothing to drop, so the sequence should end with the empty board | not executed | Settle.ClearingLastRowCrashes | Settle.ClearingLastRowChecked |

`Settle.SettleChecked` is the corrected sequence: each half skips the drop loop when the cleared board holds no tile.
- `SettleCheckedResult` proves that it fails only in the clear loop.
- `SettleCheckedAgrees` proves that it agrees with the sequence as written wherever the latter succeeds.
