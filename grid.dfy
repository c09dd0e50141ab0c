/** The grid: it owns the managers, builds a level, and turns a move request into the
    manager's state change plus the notifications that follow it. */
module GridSystem {
  import opened Geometry
  import opened Levels
  import opened Blocks
  import opened Cells
  import opened Gates
  import opened Factory
  import opened Probing
  import opened BlockManagement
  import opened Completion

  /** The notifications a move produces, in the order they fire. `Concluded` is the completion
      handler's call into the game manager (level failed or completed). */
  datatype Event =
    | BlockMoved(block: Block, fromRow: int, fromCol: int, toRow: int, toCol: int)
    | BlockDestroyed(block: Block)
    | MoveCountChanged(moves: int)
    | Concluded(verdict: Verdict)

  /** What the completion handler signals for a verdict. */
  function Conclusion(verdict: Verdict): seq<Event> {
    if verdict == NoVerdict then [] else [Concluded(verdict)]
  }

  class Grid {
    const gridFactory: GridFactory
    const cellManager: CellManager
    const gateManager: GateManager
    const blockManager: BlockManager
    var handler: LevelCompletionHandler?
    var maxMoves: int

    ghost predicate Valid()
      reads this, cellManager, blockManager, blockManager.blocks
    {
      && blockManager.cells == cellManager && blockManager.gates == gateManager
      && blockManager.factory == gridFactory && gateManager.cells == cellManager
      && blockManager.Valid()
      && (handler != null ==> handler.blockManager == blockManager && handler.cells == cellManager)
    }

    /** The managers wired together; no level yet, so no completion handler. */
    constructor (variants: nat, paletteSize: nat)
      ensures Valid() && handler == null && maxMoves == 0
      ensures gridFactory.variants == variants && gridFactory.paletteSize == paletteSize
      ensures blockManager.blocks == [] && blockManager.moveCount == 0 && blockManager.lastDragId == -1
      ensures fresh(cellManager) && fresh(gateManager) && fresh(blockManager)
    {
      var factory := new GridFactory(variants, paletteSize);
      var cells := new CellManager();
      var gates := new GateManager(cells);
      gridFactory := factory;
      cellManager := cells;
      gateManager := gates;
      blockManager := new BlockManager(factory, cells, gates);
      handler := null;
      maxMoves := 0;
    }

    /** What the completion handler, if there is one, signals in the current state. */
    ghost function Check(): seq<Event>
      reads this, handler, blockManager, cellManager
    {
      if handler == null then []
      else Conclusion(LevelVerdict(handler.levelData.moveLimit, blockManager.moveCount, cellManager.HasOccupiedCells()))
    }

    /** The completion handler, when subscribed, judges the level after a block event. */
    method Judge() returns (conclusion: seq<Event>)
      requires Valid()
      ensures conclusion == Check()
    {
      conclusion := [];
      if handler != null {
        var verdict := handler.CheckLevelCompletion();
        conclusion := Conclusion(verdict);
      }
    }

    /** Removes the cells, the blocks and the gates of the previous level. */
    method ClearAll()
      requires Valid()
      modifies cellManager, blockManager`blocks, gateManager
      ensures Valid()
      ensures cellManager.occupant == map[] && cellManager.rows == 0 && cellManager.cols == 0
      ensures blockManager.blocks == [] && gateManager.gates == []
    {
      cellManager.ClearCells();
      blockManager.ClearBlocks();
      gateManager.ClearGates();
    }

    /** Clears the previous level, then builds the cells, the blocks and the gates of `level`,
        hands the level to the completion handler (creating it the first time) and takes
        the level's move limit. */
    method InitGrid(level: LevelData)
      requires Valid()
      requires level.rowCount >= 0 && level.colCount >= 0
      requires forall j | 0 <= j < |level.movableInfo| :: Buildable(level.movableInfo[j], gridFactory.variants, gridFactory.paletteSize)
      requires forall j | 0 <= j < |level.movableInfo| :: |level.movableInfo[j].direction| > 0
      requires forall j | 0 <= j < |level.movableInfo| :: OnBoard(level.movableInfo[j], level.rowCount, level.colCount)
      requires forall j | 0 <= j < |level.exitInfo| ::
        InBounds(level.rowCount, level.colCount, Cell(level.exitInfo[j].row, level.exitInfo[j].col))
      modifies this, cellManager, blockManager, gateManager, handler
      ensures Valid()
      ensures handler != null && handler.levelData == level && maxMoves == level.moveLimit
      ensures old(handler) != null ==> handler == old(handler)
      ensures cellManager.rows == level.rowCount && cellManager.cols == level.colCount
      ensures blockManager.moveCount == 0 && blockManager.lastDragId == old(blockManager.lastDragId)
      ensures |blockManager.blocks| == |level.movableInfo|
      ensures forall j | 0 <= j < |blockManager.blocks| ::
        fresh(blockManager.blocks[j]) && blockManager.blocks[j].Holds(level.movableInfo[j])
      ensures cellManager.occupant == MarkAll(map[], level.rowCount, level.colCount, level.movableInfo, blockManager.blocks)
      ensures gateManager.gates == GatesOf(level.exitInfo)
    {
      ClearAll();
      BuildLevel(level);
      if handler == null {
        handler := new LevelCompletionHandler(level, blockManager, cellManager);
      } else {
        handler.UpdateLevelData(level);
      }
      maxMoves := level.moveLimit;
    }

    /** The board, the blocks and the gates of `level`, built on an empty board. */
    method BuildLevel(level: LevelData)
      requires Valid()
      requires cellManager.occupant == map[]
      requires level.rowCount >= 0 && level.colCount >= 0
      requires forall j | 0 <= j < |level.movableInfo| :: Buildable(level.movableInfo[j], gridFactory.variants, gridFactory.paletteSize)
      requires forall j | 0 <= j < |level.movableInfo| :: |level.movableInfo[j].direction| > 0
      requires forall j | 0 <= j < |level.movableInfo| :: OnBoard(level.movableInfo[j], level.rowCount, level.colCount)
      requires forall j | 0 <= j < |level.exitInfo| ::
        InBounds(level.rowCount, level.colCount, Cell(level.exitInfo[j].row, level.exitInfo[j].col))
      modifies cellManager, blockManager, gateManager
      ensures Valid()
      ensures cellManager.rows == level.rowCount && cellManager.cols == level.colCount
      ensures blockManager.moveCount == 0 && blockManager.lastDragId == old(blockManager.lastDragId)
      ensures |blockManager.blocks| == |level.movableInfo|
      ensures forall j | 0 <= j < |blockManager.blocks| ::
        fresh(blockManager.blocks[j]) && blockManager.blocks[j].Holds(level.movableInfo[j])
      ensures cellManager.occupant == MarkAll(map[], level.rowCount, level.colCount, level.movableInfo, blockManager.blocks)
      ensures gateManager.gates == GatesOf(level.exitInfo)
    {
      cellManager.CreateCells(level.colCount, level.rowCount);
      blockManager.CreateBlocks(level);
      gateManager.CreateGates(level);
    }

    /** Asks the block manager to move `block` one step in `direction` within drag gesture
        `dragId`, fires the notifications, and reports whether the block moved. After a move
        whose anchor ended outside the board (possible only for a block of length below 1),
        a gate taking the block removes its cells and announces its destruction. */
    method MoveBlock(dragId: int, block: Block, direction: int) returns (moved: bool, events: seq<Event>)
      requires Valid()
      modifies blockManager, cellManager`occupant, block`row, block`col
      ensures Valid()
      ensures moved <==> old(blockManager.Resolve(block, direction)) == Moved
      ensures Tally(blockManager.moveCount, blockManager.lastDragId)
           == CountMove(old(Tally(blockManager.moveCount, blockManager.lastDragId)), dragId,
                        old(blockManager.Resolve(block, direction)))
      ensures old(blockManager.Resolve(block, direction)) == Failed ==>
        && events == [MoveCountChanged(blockManager.moveCount)]
        && blockManager.blocks == old(blockManager.blocks) && cellManager.occupant == old(cellManager.occupant)
        && block.row == old(block.row) && block.col == old(block.col)
      ensures old(blockManager.Resolve(block, direction)) == Destroyed ==>
        && events == [BlockDestroyed(block)] + Check() + [MoveCountChanged(blockManager.moveCount)]
        && blockManager.blocks == RemoveFirst(old(blockManager.blocks), block) && block !in blockManager.blocks
        && cellManager.occupant == Cleared(old(cellManager.occupant), block)
        && block.row == old(block.row) && block.col == old(block.col)
      ensures old(blockManager.Resolve(block, direction)) == Moved ==>
        var to := old(UpdateNewPosition(block.row, block.col, direction));
        && block.row == to.row && block.col == to.col
        && blockManager.blocks == old(blockManager.blocks)
        && cellManager.occupant == MarkFootprint(Cleared(old(cellManager.occupant), block), cellManager.rows, cellManager.cols,
                                                 to, block.directions[0], block.length, block)
        && events == [BlockMoved(block, old(block.row), old(block.col), to.row, to.col)] + Check()
                     + (if cellManager.IsOutOfBounds(to.row, to.col) && Accepts(gateManager.gates, to.row, to.col, block.color, direction)
                        then [BlockDestroyed(block)] + Check() else [])
                     + [MoveCountChanged(blockManager.moveCount)]
      ensures old(blockManager.Resolve(block, direction)) == Moved && old(block.length) >= 1 ==>
        !cellManager.IsOutOfBounds(block.row, block.col)
      ensures |events| > 0 && events[|events| - 1] == MoveCountChanged(blockManager.moveCount)
    {
      var oldRow := block.row;
      var oldCol := block.col;
      ghost var length := block.length;
      ghost var to := UpdateNewPosition(oldRow, oldCol, direction);
      ghost var dir := GetDirection(Cell(oldRow, oldCol), to);
      ghost var accepts := Accepts(gateManager.gates, oldRow, oldCol, block.color, dir);
      ghost var rows, cols, occ := cellManager.rows, cellManager.cols, cellManager.occupant;

      var args := blockManager.MoveBlock(dragId, block, direction);
      if args.result == Moved && length >= 1 {
        MovedAnchorInBounds(rows, cols, occ, block, dir, to, length, accepts);
      }
      events := Announce(args.result, block, oldRow, oldCol, direction);
      events := events + [MoveCountChanged(blockManager.GetMoveCount())];
      moved := args.result == Moved;
    }

    /** The notifications that follow a move call with result `result`, in the order they
        fire, up to the move count: the moved or destroyed event, each followed by the
        completion handler's judgement. */
    method Announce(result: MoveResult, block: Block, fromRow: int, fromCol: int, direction: int)
      returns (events: seq<Event>)
      requires Valid()
      requires result == Moved && cellManager.IsOutOfBounds(block.row, block.col) ==>
        forall k | k in cellManager.occupant :: cellManager.occupant[k] != block
      modifies cellManager`occupant
      ensures Valid() && cellManager.occupant == old(cellManager.occupant)
      ensures events == match result
        case Failed => []
        case Destroyed => [BlockDestroyed(block)] + Check()
        case Moved =>
          [BlockMoved(block, fromRow, fromCol, block.row, block.col)] + Check()
          + (if cellManager.IsOutOfBounds(block.row, block.col)
                && Accepts(gateManager.gates, block.row, block.col, block.color, direction)
             then [BlockDestroyed(block)] + Check() else [])
    {
      events := [];
      if result == Moved {
        var judged := Judge();
        events := [BlockMoved(block, fromRow, fromCol, block.row, block.col)] + judged;
        if cellManager.IsOutOfBounds(block.row, block.col) {
          var exited := ExitThroughGate(block, direction);
          events := events + exited;
        }
      } else if result == Destroyed {
        var judged := Judge();
        events := [BlockDestroyed(block)] + judged;
      }
    }

    /** The follow-up to a move whose anchor ended outside the board: a gate that takes the
        block clears its cells, and its destruction is announced and judged. The block then
        holds no cell, so clearing leaves the occupancy as it is. */
    method ExitThroughGate(block: Block, direction: int) returns (exited: seq<Event>)
      requires Valid()
      requires forall k | k in cellManager.occupant :: cellManager.occupant[k] != block
      modifies cellManager`occupant
      ensures Valid() && cellManager.occupant == old(cellManager.occupant)
      ensures exited == if Accepts(gateManager.gates, block.row, block.col, block.color, direction)
                        then [BlockDestroyed(block)] + Check() else []
    {
      exited := [];
      var accepted := gateManager.TryDestroyBlock(block, direction);
      if accepted {
        ghost var before := cellManager.occupant;
        cellManager.ClearOccupied(block);
        assert cellManager.occupant == before;
        var judged := Judge();
        exited := [BlockDestroyed(block)] + judged;
      }
    }

    /** Empties the board between levels, as the level loader does before building the next one. */
    method ClearGrid()
      requires Valid()
      modifies cellManager, blockManager`blocks, gateManager
      ensures Valid()
      ensures cellManager.occupant == map[] && !cellManager.HasOccupiedCells()
      ensures blockManager.blocks == [] && gateManager.gates == []
    {
      ClearAll();
    }
  }
}
