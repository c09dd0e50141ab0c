/** The level completion decision: failed when the move budget is spent, completed when the
    board is empty, nothing otherwise. */
module Completion {
  import opened Levels
  import opened Cells
  import opened BlockManagement

  datatype Verdict = LevelFailed | LevelCompleted | NoVerdict

  /** The decision taken after a block moved or was destroyed. A move limit of 0 means no
      limit; a spent budget is reported even if the same move emptied the board. */
  function LevelVerdict(moveLimit: int, moveCount: int, hasOccupiedCells: bool): Verdict {
    if moveLimit > 0 && moveCount >= moveLimit then LevelFailed
    else if !hasOccupiedCells then LevelCompleted
    else NoVerdict
  }

  /** A spent budget fails the level whatever the board holds, even an empty board. */
  lemma FailureTakesPrecedence(moveLimit: int, moveCount: int, hasOccupiedCells: bool)
    requires moveLimit > 0 && moveCount >= moveLimit
    ensures LevelVerdict(moveLimit, moveCount, hasOccupiedCells) == LevelFailed
    ensures LevelVerdict(moveLimit, moveCount, false) == LevelFailed
  {
  }

  /** Within budget, the level completes exactly when no cell is occupied, and otherwise
      nothing is signalled. */
  lemma CompletedIffEmpty(moveLimit: int, moveCount: int, hasOccupiedCells: bool)
    requires !(moveLimit > 0 && moveCount >= moveLimit)
    ensures LevelVerdict(moveLimit, moveCount, hasOccupiedCells) == LevelCompleted <==> !hasOccupiedCells
    ensures LevelVerdict(moveLimit, moveCount, hasOccupiedCells) == NoVerdict <==> hasOccupiedCells
  {
  }

  /** Without a move limit the level can never fail. */
  lemma NoLimitNeverFails(moveCount: int, hasOccupiedCells: bool)
    ensures LevelVerdict(0, moveCount, hasOccupiedCells) != LevelFailed
  {
  }

  /** Since the move count never decreases, once the level would fail every later check
      fails as well. */
  lemma FailureIsFinal(moveLimit: int, count1: int, count2: int, occupied1: bool, occupied2: bool)
    requires LevelVerdict(moveLimit, count1, occupied1) == LevelFailed
    requires count1 <= count2
    ensures LevelVerdict(moveLimit, count2, occupied2) == LevelFailed
  {
  }

  /** Listens to the grid's block events and judges the level. */
  class LevelCompletionHandler {
    var levelData: LevelData
    const blockManager: BlockManager
    const cells: CellManager

    constructor (levelData: LevelData, blockManager: BlockManager, cells: CellManager)
      ensures this.levelData == levelData && this.blockManager == blockManager && this.cells == cells
    {
      this.levelData := levelData;
      this.blockManager := blockManager;
      this.cells := cells;
    }

    /** Later checks use the move limit of the new level. */
    method UpdateLevelData(levelData: LevelData)
      modifies this`levelData
      ensures this.levelData == levelData
    {
      this.levelData := levelData;
    }

    /** Judges the current level from its move limit, the manager's move count and whether
        any cell is occupied. */
    method CheckLevelCompletion() returns (verdict: Verdict)
      ensures verdict == LevelVerdict(levelData.moveLimit, blockManager.moveCount, cells.HasOccupiedCells())
    {
      if levelData.moveLimit > 0 && blockManager.GetMoveCount() >= levelData.moveLimit {
        return LevelFailed;
      }
      if !cells.HasOccupiedCells() {
        return LevelCompleted;
      }
      return NoVerdict;
    }
  }
}
