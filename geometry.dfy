/** Grid coordinates, direction codes and the one-step arithmetic of the block manager. */
module Geometry {

  /** Direction codes as the level files and the block manager use them. */
  const Up := 0
  const Right := 1
  const Down := 2
  const Left := 3

  predicate IsDirectionCode(d: int) {
    Up <= d <= Left
  }

  /** A cell coordinate: row grows downwards, column grows to the right. */
  datatype Cell = Cell(row: int, col: int)

  /** The extent test of the occupancy grid (`rows` x `cols`). */
  predicate InBounds(rows: int, cols: int, c: Cell) {
    0 <= c.row < rows && 0 <= c.col < cols
  }

  /** Even direction codes (Up, Down) run along the column axis, odd ones along the row axis.
      `% 2 == 0` agrees with C#'s truncating remainder for negative codes too. */
  predicate IsVertical(d: int) {
    d % 2 == 0
  }

  /** The candidate anchor one step away in `direction`; any other code leaves it in place. */
  function UpdateNewPosition(row: int, col: int, direction: int): (p: Cell)
    ensures IsDirectionCode(direction) ==> Distance(Cell(row, col), p) == 1
    ensures IsDirectionCode(direction) && IsVertical(direction) ==> p.col == col
    ensures IsDirectionCode(direction) && !IsVertical(direction) ==> p.row == row
    ensures !IsDirectionCode(direction) ==> p == Cell(row, col)
    ensures direction == Up ==> p.row == row - 1
    ensures direction == Right ==> p.col == col + 1
    ensures direction == Down ==> p.row == row + 1
    ensures direction == Left ==> p.col == col - 1
  {
    if direction == Up then Cell(row - 1, col)
    else if direction == Right then Cell(row, col + 1)
    else if direction == Down then Cell(row + 1, col)
    else if direction == Left then Cell(row, col - 1)
    else Cell(row, col)
  }

  function Abs(x: int): nat {
    if x < 0 then -x else x
  }

  /** Manhattan distance between two cells. */
  function Distance(a: Cell, b: Cell): nat {
    Abs(a.row - b.row) + Abs(a.col - b.col)
  }

  /** The direction of travel from the anchor `current` to `target`; -1 when they coincide.
      The tests run in the order earlier row, later column, later row, earlier column, so a
      target up and to one side reads as Up, down and to the right as Right, and down and
      to the left as Down. */
  function GetDirection(current: Cell, target: Cell): (d: int)
    ensures d == -1 || IsDirectionCode(d)
    ensures d == -1 <==> target == current
    ensures d == Up <==> target.row < current.row
    ensures d == Right <==> target.row >= current.row && target.col > current.col
    ensures d == Down <==> target.row > current.row && target.col <= current.col
    ensures d == Left <==> target.row == current.row && target.col < current.col
  {
    if target.row < current.row then Up
    else if target.col > current.col then Right
    else if target.row > current.row then Down
    else if target.col < current.col then Left
    else -1
  }

  /** The `i`-th cell of a footprint starting at `anchor`, laid along the axis of `axis`. */
  function FootprintCell(anchor: Cell, axis: int, i: int): Cell {
    if IsVertical(axis) then Cell(anchor.row + i, anchor.col) else Cell(anchor.row, anchor.col + i)
  }

  /** `k` is one of the `n` cells of the footprint starting at `anchor` along `axis`. */
  predicate OnFootprint(anchor: Cell, axis: int, n: int, k: Cell) {
    if IsVertical(axis) then k.col == anchor.col && anchor.row <= k.row < anchor.row + n
    else k.row == anchor.row && anchor.col <= k.col < anchor.col + n
  }

  /** The closed form agrees with the cell-by-cell enumeration: a cell is on the footprint
      exactly when some index below `n` names it. */
  lemma OnFootprintIff(anchor: Cell, axis: int, n: int, k: Cell)
    ensures OnFootprint(anchor, axis, n, k) <==> exists i :: 0 <= i < n && FootprintCell(anchor, axis, i) == k
  {
    if OnFootprint(anchor, axis, n, k) {
      var i := if IsVertical(axis) then k.row - anchor.row else k.col - anchor.col;
      assert FootprintCell(anchor, axis, i) == k;
    }
  }

  /** Stepping in a direction code and asking for the direction back gives the same code;
      for any other code the candidate is the anchor and the answer is -1. */
  lemma DirectionOfStep(row: int, col: int, direction: int)
    ensures IsDirectionCode(direction) ==> GetDirection(Cell(row, col), UpdateNewPosition(row, col, direction)) == direction
    ensures !IsDirectionCode(direction) ==> GetDirection(Cell(row, col), UpdateNewPosition(row, col, direction)) == -1
  {
  }
}
