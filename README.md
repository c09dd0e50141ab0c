# Color Blocks move engine — a Dafny model

Color Blocks is a sliding-block puzzle. A level is a rectangular board of cells holding
straight blocks of one colour each; every block has a length (1 or more cells), a list of
directions it may move in (0 = Up, 1 = Right, 2 = Down, 3 = Left) and an anchor cell, and its
footprint runs from the anchor along the axis of its first direction. Gates sit on the board's
edge; a block that runs off the board through a gate of its own colour facing its direction
of travel is destroyed. The level is won when no cell is occupied and lost when the move
budget (a limit of 0 means none) is spent. All moves of one drag gesture count as one move.

The model covers the move engine:

- `geometry.dfy` — direction codes, cells, the one-step target (`UpdateNewPosition`), the
  direction from anchor to target (`GetDirection`) and the footprint of a block.
- `levels.dfy` — the level description (board size, move limit, block placements, exits).
- `level_sets.dfy` — choosing a level from a level set, with the random fallback.
- `blocks.dfy` — the block object (`SetValues`, `Move`, `CanMove`).
- `cells.dfy` — the cell manager: a board extent plus an occupancy map from cell to block,
  and the pure functions `Cleared` and `MarkFootprint` that specify its updates.
- `gates.dfy` — gates, their matching rule, and the gate manager's acceptance test.
- `factory.dfy` — the factory that turns level placements into blocks.
- `probing.dfy` — the footprint probe as a pure function `Probe`, with its closed-form
  characterisation, and the lemmas about what a move does to other blocks.
- `block_manager.dfy` — the block manager: the live block list, the move counter with
  drag-gesture deduplication, level placement, the probe loop (`TryToMove`), the footprint
  loop (`SetOccupiedCells`) and `MoveBlock`. Each loop is proved against its function.
- `completion.dfy` — the level completion decision and its handler.
- `grid.dfy` — the grid that owns the managers, builds a level and turns a move into the
  state change plus its notifications (an event log).

Block identity is object identity: the occupancy map holds references to `Block` objects, and
a cell missing from the map is free. Probe and footprint functions are generic in the
occupant type, so their lemmas speak about any identity.

One behaviour of the source is kept on purpose. The probe lays its cells along the axis of
the move direction, but occupancy is written along the axis of the block's *first*
direction. A block allowed to move across its own axis is therefore checked on one line of
cells and written on another. `Probing.MoveKeepsOtherBlocks` proves that a move along the
block's own axis never overwrites another block. `Probing.PerpendicularMoveOverwrites` exhibits
a 3 × 3 board on which a perpendicular move takes a cell from another block.

## Model

| member | source | states |
|---|---|---|
| Geometry.UpdateNewPosition | Assets/Game/Code/Gameplay/Blocks/BlockManager.cs:131-140 | a direction code moves the anchor exactly one cell: Up to the row before, Down to the row after, Right to the column after, Left to the column before; any other code leaves it in place |
| Geometry.GetDirection | Assets/Game/Code/Gameplay/Blocks/BlockManager.cs:118-129 | the result is -1 or a direction code; -1 exactly when target and anchor coincide; Up exactly when the target is on an earlier row; Right exactly when it is on no earlier row and a later column; Down exactly when it is on a later row and no later column; Left exactly when it is on the same row and an earlier column |
| Geometry.DirectionOfStep | Assets/Game/Code/Gameplay/Blocks/BlockManager.cs:118-140 | the direction derived from a one-step target is the requested direction code, and -1 for any other code |
| Geometry.OnFootprintIff | Assets/Game/Code/Gameplay/Blocks/BlockManager.cs:187-204 | a cell lies on a footprint exactly when it is the anchor shifted by some index below the length along the footprint's axis |
| LevelSets.GetLevel | Assets/Game/Code/LevelManagement/LevelSet.cs:12-19 | an index inside the set returns that level; any other index returns the level picked by the random roll; the result is always a level of the set |
| LevelSets.InRangeIgnoresRoll | Assets/Game/Code/LevelManagement/LevelSet.cs:14-18 | for an in-range index the random roll has no influence |
| LevelSets.FallbackReachesEveryLevel | Assets/Game/Code/LevelManagement/LevelSet.cs:14-17 | for an out-of-range index, every level of the set is reachable by some roll |
| Blocks.Block.constructor | Assets/Game/Code/Gameplay/Blocks/Block.cs:11-15 | a new block of a given size variant and palette with empty logical fields |
| Blocks.Block.SetValues | Assets/Game/Code/Gameplay/Blocks/Block.cs:33-41 | the anchor, direction list, colour and length become the given ones; the colour must index the palette |
| Blocks.Block.CanMove | Assets/Game/Code/Gameplay/Blocks/Block.cs:50-53 | a direction is allowed exactly when it occurs in the block's direction list, so a block without directions can move nowhere |
| Blocks.Block.Move | Assets/Game/Code/Gameplay/Blocks/Block.cs:43-48 | the anchor becomes the new cell and the directions, colour and length are unchanged |
| Cells.Cleared | Assets/Game/Code/Gameplay/Blocks/BlockManager.cs:182-185 | a cell stays occupied exactly when it was occupied by another block, with the same occupant |
| Cells.MarkFootprintAt | Assets/Game/Code/Gameplay/Blocks/BlockManager.cs:187-204 | after marking, a cell holds the block exactly when it is inside the board and on the footprint; every other cell keeps its old occupant or stays free |
| Cells.MarkFootprintKeeps | Assets/Game/Code/Gameplay/Blocks/BlockManager.cs:187-204 | marking keeps the occupancy inside the board and adds no occupant but the marked block |
| Cells.CellManager.constructor | Assets/Game/Code/Gameplay/Grid/Grid.cs:62 | a cell manager without cells |
| Cells.CellManager.CreateCells | Assets/Game/Code/Gameplay/Grid/Grid.cs:78 | the board takes the given column and row counts with every cell free; the counts must not be negative |
| Cells.CellManager.ClearCells | Assets/Game/Code/Gameplay/Grid/Grid.cs:101 | the board is removed: no cells and no occupant |
| Cells.CellManager.IsOutOfBounds | Assets/Game/Code/Gameplay/Blocks/BlockManager.cs:164 | true exactly when the cell lies outside the board's rows and columns; on a consistent board such a cell has no occupant |
| Cells.CellManager.IsOccupied | Assets/Game/Code/Gameplay/Blocks/BlockManager.cs:173 | true exactly when the cell has an occupant other than the moving block; such a cell is on the board and makes the board non-empty |
| Cells.CellManager.HasOccupiedCells | Assets/Game/Code/Gameplay/LevelCompletionHandler.cs:49 | true exactly when some cell has an occupant; on a consistent board that cell is on the board |
| Cells.CellManager.SetOccupied | Assets/Game/Code/Gameplay/Blocks/BlockManager.cs:202 | an in-board cell gets the block as occupant and nothing else changes |
| Cells.CellManager.ClearOccupied | Assets/Game/Code/Gameplay/Grid/Grid.cs:126 | the occupancy becomes `Cleared` of the old one: every cell of the block is freed, all others are kept |
| Gates.CreateGate | Assets/Game/Code/Gameplay/Grid/GridFactory.cs:45-52 | a gate takes the exit's cell, direction and colour |
| Gates.IsMatch | Assets/Game/Code/Gameplay/Blocks/BlockManager.cs:166 | a gate matches exactly when it has the block's colour and faces the block's direction, whatever its cell |
| Gates.GatesOf | Assets/Game/Code/Gameplay/Grid/Grid.cs:80 | one gate per exit, in the level's order |
| Gates.AcceptsFromLevel | Assets/Game/Code/Gameplay/Blocks/BlockManager.cs:164-171 | the gates of a level accept a block exactly when some exit is aligned with it, has its colour and faces its direction |
| Gates.GateManager.constructor | Assets/Game/Code/Gameplay/Grid/Grid.cs:63 | a gate manager without gates |
| Gates.GateManager.ClearGates | Assets/Game/Code/Gameplay/Grid/Grid.cs:103 | the gate list becomes empty |
| Gates.GateManager.CreateGates | Assets/Game/Code/Gameplay/Grid/Grid.cs:80 | the gate list is exactly the gates of the level's exits, in order; every exit cell must lie on the board |
| Gates.GateManager.TryDestroyBlock | Assets/Game/Code/Gameplay/Grid/Grid.cs:124 | true exactly when some gate is aligned with the block (column for a vertical gate, row otherwise) and matches its colour and the direction |
| Factory.CreateCell | Assets/Game/Code/Gameplay/Grid/GridFactory.cs:20-28 | the cell gets the given row and column, passed in (column, row) order |
| Factory.GridFactory.constructor | Assets/Game/Code/Gameplay/Grid/GridFactory.cs:12-18 | the factory knows its number of size variants and its palette |
| Factory.GridFactory.CreateBlock | Assets/Game/Code/Gameplay/Grid/GridFactory.cs:30-43 | no block exactly when the length exceeds the number of variants; otherwise a new block of variant length - 1 holding the placement's fields |
| Probing.ProbeFromMovedIff | Assets/Game/Code/Gameplay/Blocks/BlockManager.cs:142-180 | from any index, the probe reports a move exactly when every remaining footprint cell is inside the board and not held by another block |
| Probing.ProbeFromDestroyedIff | Assets/Game/Code/Gameplay/Blocks/BlockManager.cs:142-180 | from any index, the probe reports a destruction exactly when the gates accept and the first failing cell is outside the board |
| Probing.ProbeSpec | Assets/Game/Code/Gameplay/Blocks/BlockManager.cs:142-180 | the probe's verdicts in closed form: moved iff every cell passes (or the length is not positive), destroyed iff the first failing cell leaves the board and a gate takes the block |
| Probing.MovedAnchorInBounds | Assets/Game/Code/Gameplay/Grid/Grid.cs:118-129 | a block of length at least 1 that moved has its new anchor inside the board, so the grid's out-of-bounds follow-up never fires |
| Probing.MoveKeepsOtherBlocks | Assets/Game/Code/Gameplay/Blocks/BlockManager.cs:64-68 | a move along the block's own axis leaves every cell of every other block with its occupant |
| Probing.PerpendicularMoveOverwrites | Assets/Game/Code/Gameplay/Blocks/BlockManager.cs:154-161 | a block moving across its first direction's axis passes the probe yet its footprint is written over another block's cell |
| BlockManagement.RemoveFirstDistinct | Assets/Game/Code/Gameplay/Blocks/BlockManager.cs:78 | removing a listed block from a list without repetitions leaves exactly the other blocks, one fewer, without repetitions |
| BlockManagement.CountMove | Assets/Game/Code/Gameplay/Blocks/BlockManager.cs:69-84 | the count rises by one exactly for a successful move of a new drag gesture, which becomes the remembered one; a failed move changes nothing |
| BlockManagement.OneDragCountsOnce | Assets/Game/Code/Gameplay/Blocks/BlockManager.cs:69-84 | any run of successful moves of one gesture adds one move if the gesture is new and none otherwise |
| BlockManagement.TwoDragsCountTwice | Assets/Game/Code/Gameplay/Blocks/BlockManager.cs:69-84 | two successful moves of two different gestures add two moves |
| BlockManagement.MarkAllAt | Assets/Game/Code/Gameplay/Blocks/BlockManager.cs:34-46 | after placing a level a cell is occupied exactly when it was before or some placement covers it inside the board, and a new occupant is the block of a covering placement |
| BlockManagement.MarkAllSnoc | Assets/Game/Code/Gameplay/Blocks/BlockManager.cs:38-45 | placing one more block marks its footprint on top of the occupancy of the placements before it |
| BlockManagement.PlacedOnOwnFootprints | Assets/Game/Code/Gameplay/Blocks/BlockManager.cs:34-46 | on an empty board, every cell a placed level occupies lies on its occupant's footprint, and that occupant is one of the placed blocks |
| BlockManagement.MarkAllKeeps | Assets/Game/Code/Gameplay/Blocks/BlockManager.cs:34-46 | placing a level keeps the occupancy inside the board and only adds placed blocks |
| BlockManagement.BlockManager.constructor | Assets/Game/Code/Gameplay/Blocks/BlockManager.cs:16-32 | no blocks, a move count of 0 and no remembered gesture (-1) |
| BlockManagement.BlockManager.ClearBlocks | Assets/Game/Code/Gameplay/Blocks/BlockManager.cs:104-111 | the block list becomes empty |
| BlockManagement.BlockManager.PlaceBlock | Assets/Game/Code/Gameplay/Blocks/BlockManager.cs:38-45 | one loop step: a new block holding the placement is appended to the list and its footprint is marked; the list stays without repetitions |
| BlockManagement.BlockManager.CreateBlocks | Assets/Game/Code/Gameplay/Blocks/BlockManager.cs:34-46 | one new block per placement, in order, each holding its placement; every footprint must lie on the board; the occupancy is the old one with all footprints marked; the count restarts at 0 and the remembered gesture is kept; the manager's invariant (including that every occupied cell lies on its occupant's footprint) holds when the board started empty |
| BlockManagement.BlockManager.ClearOccupiedCells | Assets/Game/Code/Gameplay/Blocks/BlockManager.cs:182-185 | the block's cells are freed and all others kept |
| BlockManagement.BlockManager.SetOccupiedCells | Assets/Game/Code/Gameplay/Blocks/BlockManager.cs:187-204 | the loop marks exactly the block's footprint along its first direction's axis, inside the board |
| BlockManagement.BlockManager.TryToMove | Assets/Game/Code/Gameplay/Blocks/BlockManager.cs:142-180 | the loop returns the probe function's verdict for the candidate anchor |
| BlockManagement.BlockManager.GetMoveCount | Assets/Game/Code/Gameplay/Blocks/BlockManager.cs:99-102 | the current move count, never negative on a consistent manager |
| BlockManagement.BlockManager.MoveBlock | Assets/Game/Code/Gameplay/Blocks/BlockManager.cs:48-97 | the result is the probe's verdict (failure for an unmanaged block or a forbidden direction); on failure nothing changes; on a move the anchor steps and the footprint is rewritten; on destruction the block leaves the list and the board; the count follows `CountMove`; the manager's invariant is kept, including that every occupied cell lies on its occupant's footprint |
| Completion.FailureTakesPrecedence | Assets/Game/Code/Gameplay/LevelCompletionHandler.cs:43-47 | a spent budget fails the level even when the board is empty |
| Completion.CompletedIffEmpty | Assets/Game/Code/Gameplay/LevelCompletionHandler.cs:40-53 | within budget, the level completes exactly when no cell is occupied and nothing is signalled otherwise |
| Completion.NoLimitNeverFails | Assets/Game/Code/Gameplay/LevelCompletionHandler.cs:43 | a move limit of 0 never fails the level |
| Completion.FailureIsFinal | Assets/Game/Code/Gameplay/LevelCompletionHandler.cs:43 | once the level would fail, it fails for every larger move count |
| Completion.LevelCompletionHandler.constructor | Assets/Game/Code/Gameplay/LevelCompletionHandler.cs:14-23 | the handler watches the given level with the given managers |
| Completion.LevelCompletionHandler.UpdateLevelData | Assets/Game/Code/Gameplay/LevelCompletionHandler.cs:25-28 | later checks use the new level |
| Completion.LevelCompletionHandler.CheckLevelCompletion | Assets/Game/Code/Gameplay/LevelCompletionHandler.cs:40-53 | the verdict is failed when the budget is spent, else completed when no cell is occupied, else none |
| GridSystem.Grid.constructor | Assets/Game/Code/Gameplay/Grid/Grid.cs:52-65 | the factory and the three managers, wired to each other, with no level and no completion handler |
| GridSystem.Grid.ClearAll | Assets/Game/Code/Gameplay/Grid/Grid.cs:99-104 | no cells, no blocks, no gates |
| GridSystem.Grid.BuildLevel | Assets/Game/Code/Gameplay/Grid/Grid.cs:78-80 | on an emptied board: the board has the level's size, the blocks and occupancy are the level's placements and the gates are its exits |
| GridSystem.Grid.InitGrid | Assets/Game/Code/Gameplay/Grid/Grid.cs:67-90 | the board has the level's size, the blocks and occupancy are the level's placements, the gates its exits, the handler (created once, then reused) judges this level, and the maximum moves are the level's limit; the level's counts must not be negative and its footprints and exits must lie on the board |
| GridSystem.Grid.Judge | Assets/Game/Code/Gameplay/LevelCompletionHandler.cs:30-38 | a subscribed handler's verdict becomes its conclusion event, and without a handler nothing is signalled |
| GridSystem.Grid.Announce | Assets/Game/Code/Gameplay/Grid/Grid.cs:118-134 | a failed move announces nothing; a destruction is announced and judged; a move is announced and judged, followed by the gate exit when the anchor left the board; the occupancy is unchanged |
| GridSystem.Grid.ExitThroughGate | Assets/Game/Code/Gameplay/Grid/Grid.cs:122-129 | when a gate takes the block its destruction is announced and judged, otherwise nothing happens; a block holding no cell leaves the occupancy as it is |
| GridSystem.Grid.MoveBlock | Assets/Game/Code/Gameplay/Grid/Grid.cs:111-139 | reports moved exactly when the block moved; on a move the anchor is the one-step target, the blocks are unchanged and the occupancy is the old one with the block's cells cleared and its footprint marked anew; on a destruction the block leaves the list and the board; a failed move only announces the move count; a move or destruction is announced, then judged by the handler, then the move count is announced; the out-of-bounds follow-up does not fire for a block of length at least 1 |
| GridSystem.Grid.ClearGrid | Assets/Game/Code/Gameplay/Grid/Grid.cs:141-144 | the board is emptied of cells, blocks and gates, so no cell is occupied |

## Left out

- Rendering: world positions, rotations, tweening, the board plane, materials and gate smash
  effects are not modelled; only the logical fields of cells, blocks and gates are.
- The drag handler (`BlockDragHandler`) is not part of this model: drag ids and directions
  are parameters of `MoveBlock`.
- Object pools: a block or gate from a pool may be an object used before; the model
  allocates a fresh object each time.
- Singletons and `Awake`: the grid's constructor stands in for manager initialisation.
- Notifications are recorded as an event log returned by `GridSystem.Grid.MoveBlock`. The
  completion handler is subscribed to the moved and destroyed events, and the game manager's
  `LevelFailed`/`LevelCompleted` calls become `Concluded` events; the HUD and the game manager
  themselves are not modelled.
- Level loading from JSON text and the level loader are not modelled. `LevelSets.GetLevel`
  returns the stored level, and the random index (`Random.Range`) is a parameter `roll`.
- The cell manager and gate manager of the gameplay variant are not part of this model. Both
  managers follow the grid-system variant instead. The cell operations come from
  `Assets/Game/Code/Grid System/CellManager.cs`: `IsOccupied` 47-50, `SetOccupied` 52-55,
  `ClearOccupied` 57-69, `IsOutOfBounds` 71-75 and `ClearCells` 91-99. The gate operations
  come from `Assets/Game/Code/Grid System/GateManager.cs`: `CreateGates` 27-37, `ClearGates`
  39-46 and `TryDestroyBlock` 48-62. Gate matching comes from
  `Assets/Game/Code/Grid System/Gate.cs` 34-37. Those paths contain a space, so the
  `## Model` rows for these members cite the call sites in the gameplay code.
  `HasOccupiedCells` is modelled as "some cell has an occupant", which is what the
  completion check relies on.
- Cells.CellManager.SetOccupied: a write outside the board throws in the source; the model
  drops it. The move engine only writes outside the board for a footprint that crosses the edge,
  which the probe excludes for moves along the block's own axis.
- Cells.CellManager.ClearCells: the source drops the cell array and later calls would fail;
  the model leaves a 0 × 0 board.
- Crashes of the source become preconditions. A level placement with an empty direction
  list crashes on `Directions[0]`. A placement longer than the number of size variants makes
  the factory return no block, which then crashes the block manager. A length below 1 indexes
  variant -1. A colour outside the palette indexes no material. These are required of callers
  of `Factory.GridFactory.CreateBlock`, `BlockManagement.BlockManager.CreateBlocks` and
  `GridSystem.Grid.InitGrid`. A block anchor or footprint cell off the board fails in the
  cell manager's `GetCellPosition` or `SetOccupied` while the level is placed, an exit cell
  off the board fails in the gate manager's position lookup, and a negative row or column
  count fails when the cell array is allocated. These are required by `CreateBlocks`,
  `Gates.GateManager.CreateGates`, `Cells.CellManager.CreateCells` and `InitGrid`.
- Property setters that are private in the source are ordinary fields here; Dafny has no
  per-field write visibility, and every write is made by the methods that model the source's.
- BlockManagement.BlockManager.MoveBlock: the manager's invariant says that occupants are
  live blocks, cells lie inside the board, no block is listed twice and every occupied cell
  lies on its occupant's footprint. It does not state the converse, that every footprint
  cell is held by its block, nor that the number of occupied cells is the sum of the block
  lengths: a perpendicular move breaks both (see `Probing.PerpendicularMoveOverwrites`).
  Footprint agreement is stated per move by `Probing.MoveKeepsOtherBlocks` and per level by
  `BlockManagement.MarkAllAt`.
- Integer overflow of the move counter and of coordinates is not modelled; integers are
  unbounded.
