/** The level records read from a level file. */
module Levels {

  datatype CellInfo = CellInfo(row: int, col: int)

  /** A block placement: anchor, allowed direction codes (the first one fixes the footprint
      axis), length in cells and colour index. */
  datatype MovableInfo = MovableInfo(row: int, col: int, direction: seq<int>, length: int, colors: int)

  /** A gate placement: the cell it is attached to, the side it faces and its colour. */
  datatype ExitInfo = ExitInfo(row: int, col: int, direction: int, colors: int)

  /** A level: move limit (0 means unlimited), extent, cells, blocks and gates. */
  datatype LevelData = LevelData(
    moveLimit: int,
    rowCount: int,
    colCount: int,
    cellInfo: seq<CellInfo>,
    movableInfo: seq<MovableInfo>,
    exitInfo: seq<ExitInfo>)
}
