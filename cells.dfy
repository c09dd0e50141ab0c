/** The occupancy grid: which block, if any, occupies each cell of a `rows` x `cols` board.
    An occupancy is a map holding only the occupied cells; a missing cell is empty. */
module Cells {
  import opened Geometry
  import opened Blocks

  /** The cell holds a block other than `me`. */
  predicate OccupiedByOther<B(==)>(occ: map<Cell, B>, c: Cell, me: B) {
    c in occ && occ[c] != me
  }

  /** Every cell attributed to `b` is emptied; every other cell keeps its occupant. */
  function Cleared<B(==)>(occ: map<Cell, B>, b: B): (r: map<Cell, B>)
    ensures forall k :: k in r <==> k in occ && occ[k] != b
    ensures forall k | k in r :: r[k] == occ[k]
  {
    map k | k in occ && occ[k] != b :: occ[k]
  }

  /** The occupancy after writing `b` into the first `n` footprint cells from `anchor`
      along `axis`, one index after the other; cells outside the extent are not written. */
  function MarkFootprint<B>(occ: map<Cell, B>, rows: int, cols: int, anchor: Cell, axis: int, n: int, b: B): map<Cell, B>
    decreases n
  {
    if n <= 0 then occ
    else
      var m := MarkFootprint(occ, rows, cols, anchor, axis, n - 1, b);
      var c := FootprintCell(anchor, axis, n - 1);
      if InBounds(rows, cols, c) then m[c := b] else m
  }

  /** Marking writes exactly the in-bounds footprint cells and leaves every other cell alone. */
  lemma {:induction false} MarkFootprintAt<B>(occ: map<Cell, B>, rows: int, cols: int, anchor: Cell, axis: int, n: int, b: B, k: Cell)
    ensures var m := MarkFootprint(occ, rows, cols, anchor, axis, n, b);
      if InBounds(rows, cols, k) && OnFootprint(anchor, axis, n, k) then k in m && m[k] == b
      else (k in m <==> k in occ) && (k in occ ==> m[k] == occ[k])
    decreases n
  {
    if n > 0 {
      MarkFootprintAt(occ, rows, cols, anchor, axis, n - 1, b, k);
    }
  }

  /** All cells of an occupancy lie inside the extent. */
  predicate WithinExtent<B>(occ: map<Cell, B>, rows: int, cols: int) {
    forall k | k in occ :: InBounds(rows, cols, k)
  }

  /** Marking keeps an occupancy inside the extent and only ever adds `b` as an occupant. */
  lemma MarkFootprintKeeps<B>(occ: map<Cell, B>, rows: int, cols: int, anchor: Cell, axis: int, n: int, b: B)
    requires WithinExtent(occ, rows, cols)
    ensures var m := MarkFootprint(occ, rows, cols, anchor, axis, n, b);
      WithinExtent(m, rows, cols) && forall k | k in m :: m[k] == b || (k in occ && m[k] == occ[k])
  {
    var m := MarkFootprint(occ, rows, cols, anchor, axis, n, b);
    forall k | k in m
      ensures InBounds(rows, cols, k) && (m[k] == b || (k in occ && m[k] == occ[k]))
    {
      MarkFootprintAt(occ, rows, cols, anchor, axis, n, b, k);
    }
  }

  /** Cell `k` is one of the cells `b` covers from its anchor along the axis of its first
      direction. */
  predicate OnOwnFootprint(b: Block, k: Cell)
    reads b
  {
    |b.directions| > 0 && OnFootprint(Cell(b.row, b.col), b.directions[0], b.length, k)
  }

  /** The collaborator that owns the cells. Only its observable contract is modelled: the
      extent, the occupant of each cell, and the queries and updates the block manager and
      the completion handler use. */
  class CellManager {
    var rows: int
    var cols: int
    var occupant: map<Cell, Block>

    ghost predicate Valid()
      reads this
    {
      rows >= 0 && cols >= 0 && WithinExtent(occupant, rows, cols)
    }

    /** Before any level is built there are no cells. */
    constructor ()
      ensures Valid() && rows == 0 && cols == 0 && occupant == map[]
    {
      rows, cols, occupant := 0, 0, map[];
    }

    /** Builds a fresh `rows` x `cols` board of empty cells. */
    method CreateCells(cols: int, rows: int)
      requires cols >= 0 && rows >= 0
      modifies this
      ensures Valid() && this.rows == rows && this.cols == cols && occupant == map[]
    {
      this.rows, this.cols, occupant := rows, cols, map[];
    }

    /** Destroys the board: no cells are left, so none is occupied. */
    method ClearCells()
      modifies this
      ensures Valid() && rows == 0 && cols == 0 && occupant == map[]
    {
      rows, cols, occupant := 0, 0, map[];
    }

    /** The cell lies outside the board. No cell outside the board is ever occupied. */
    predicate IsOutOfBounds(row: int, col: int)
      reads this
      ensures IsOutOfBounds(row, col) <==> !InBounds(rows, cols, Cell(row, col))
      ensures Valid() && IsOutOfBounds(row, col) ==> Cell(row, col) !in occupant
    {
      row < 0 || row >= rows || col < 0 || col >= cols
    }

    /** Occupied by a block other than `block`; such a cell is on the board. */
    predicate IsOccupied(row: int, col: int, block: Block)
      reads this
      ensures IsOccupied(row, col, block) <==> Cell(row, col) in occupant && occupant[Cell(row, col)] != block
      ensures IsOccupied(row, col, block) ==> HasOccupiedCells()
      ensures Valid() && IsOccupied(row, col, block) ==> !IsOutOfBounds(row, col)
    {
      OccupiedByOther(occupant, Cell(row, col), block)
    }

    /** Some cell holds a block. */
    predicate HasOccupiedCells()
      reads this
      ensures HasOccupiedCells() <==> exists k :: k in occupant
      ensures Valid() && HasOccupiedCells() ==> exists k :: k in occupant && InBounds(rows, cols, k)
    {
      occupant != map[]
    }

    /** Records `block` as the occupant of an in-bounds cell, replacing any previous one. */
    method SetOccupied(row: int, col: int, block: Block)
      requires Valid()
      modifies this`occupant
      ensures Valid()
      ensures occupant == if InBounds(rows, cols, Cell(row, col)) then old(occupant)[Cell(row, col) := block] else old(occupant)
    {
      if InBounds(rows, cols, Cell(row, col)) {
        occupant := occupant[Cell(row, col) := block];
      }
    }

    /** Empties every cell attributed to `block`. */
    method ClearOccupied(block: Block)
      requires Valid()
      modifies this`occupant
      ensures Valid()
      ensures occupant == Cleared(old(occupant), block)
    {
      occupant := Cleared(occupant, block);
    }
  }
}
