/** Gates on the board's perimeter and the decision whether one of them takes a departing block. */
module Gates {
  import opened Geometry
  import opened Levels
  import opened Blocks
  import opened Cells

  /** A gate: the cell it is attached to, the side it faces and its colour. */
  datatype Gate = Gate(row: int, col: int, direction: int, color: int)

  /** The gate that the factory initialises from a level placement. */
  function CreateGate(exit: ExitInfo): (g: Gate)
    ensures g.row == exit.row && g.col == exit.col
    ensures g.direction == exit.direction && g.color == exit.colors
  {
    Gate(exit.row, exit.col, exit.direction, exit.colors)
  }

  /** Colour and exit direction both agree with the gate. */
  predicate IsMatch(g: Gate, color: int, direction: int)
    ensures IsMatch(g, color, direction) <==> g == Gate(g.row, g.col, direction, color)
  {
    g.color == color && g.direction == direction
  }

  /** A gate facing Up or Down sits on the block's column, one facing Left or Right on its row. */
  predicate IsAligned(g: Gate, row: int, col: int) {
    if IsVertical(g.direction) then col == g.col else row == g.row
  }

  predicate Takes(g: Gate, row: int, col: int, color: int, direction: int) {
    IsAligned(g, row, col) && IsMatch(g, color, direction)
  }

  /** Some gate of the list takes a block anchored at (row, col) of colour `color`
      leaving in `direction`. */
  predicate Accepts(gates: seq<Gate>, row: int, col: int, color: int, direction: int) {
    exists j :: 0 <= j < |gates| && Takes(gates[j], row, col, color, direction)
  }

  /** The gates built from a list of placements, in the same order. */
  function GatesOf(exits: seq<ExitInfo>): (gs: seq<Gate>)
    ensures |gs| == |exits|
    ensures forall j :: 0 <= j < |exits| ==> gs[j] == CreateGate(exits[j])
  {
    if exits == [] then [] else GatesOf(exits[..|exits| - 1]) + [CreateGate(exits[|exits| - 1])]
  }

  /** Gates built from a level take a block exactly when some exit placement of the level
      is aligned with it and has its colour and direction. */
  lemma {:induction false} AcceptsFromLevel(exits: seq<ExitInfo>, row: int, col: int, color: int, direction: int)
    ensures Accepts(GatesOf(exits), row, col, color, direction)
        <==> exists e :: e in exits && e.colors == color && e.direction == direction
                         && (if IsVertical(e.direction) then col == e.col else row == e.row)
  {
    var gs := GatesOf(exits);
    if Accepts(gs, row, col, color, direction) {
      var j :| 0 <= j < |gs| && Takes(gs[j], row, col, color, direction);
      assert exits[j] in exits;
    }
    if exists e :: e in exits && e.colors == color && e.direction == direction
                   && (if IsVertical(e.direction) then col == e.col else row == e.row) {
      var e :| e in exits && e.colors == color && e.direction == direction
               && (if IsVertical(e.direction) then col == e.col else row == e.row);
      var j :| 0 <= j < |exits| && exits[j] == e;
      assert Takes(gs[j], row, col, color, direction);
    }
  }

  /** The collaborator that owns the gates of the current level. */
  class GateManager {
    var gates: seq<Gate>
    /** The board the gates are placed against. */
    const cells: CellManager

    constructor (cells: CellManager)
      ensures this.cells == cells && gates == []
    {
      this.cells := cells;
      gates := [];
    }

    method ClearGates()
      modifies this
      ensures gates == []
    {
      gates := [];
    }

    /** Drops the previous level's gates and registers one gate per exit placement, in order. */
    method CreateGates(level: LevelData)
      requires forall j | 0 <= j < |level.exitInfo| ::
        InBounds(cells.rows, cells.cols, Cell(level.exitInfo[j].row, level.exitInfo[j].col))
      modifies this
      ensures gates == GatesOf(level.exitInfo)
    {
      ClearGates();
      var exits := level.exitInfo;
      var i := 0;
      while i < |exits|
        invariant 0 <= i <= |exits|
        invariant gates == GatesOf(exits[..i])
      {
        assert exits[..i + 1][..i] == exits[..i];
        gates := gates + [CreateGate(exits[i])];
        i := i + 1;
      }
      assert exits[..i] == exits;
    }

    /** Looks for the first gate, in registration order, that takes `block` leaving in
        `direction`; reports whether there is one. */
    method TryDestroyBlock(block: Block, direction: int) returns (accepted: bool)
      ensures accepted <==> Accepts(gates, block.row, block.col, block.color, direction)
    {
      var i := 0;
      while i < |gates|
        invariant 0 <= i <= |gates|
        invariant forall j :: 0 <= j < i ==> !Takes(gates[j], block.row, block.col, block.color, direction)
      {
        var g := gates[i];
        var isVerticalGate := g.direction % 2 == 0;
        var isAligned := if isVerticalGate then block.col == g.col else block.row == g.row;
        if isAligned && IsMatch(g, block.color, direction) {
          return true;
        }
        i := i + 1;
      }
      return false;
    }
  }
}
