/** A block on the board: its logical state (anchor, allowed directions, colour, length). */
module Blocks {
  import opened Levels

  class Block {
    var row: int
    var col: int
    var directions: seq<int>
    var color: int
    var length: int
    /** Index of the size variant (prefab) the block was taken from. */
    const variant: nat
    /** Number of colour materials the block can show; `color` must index them. */
    const paletteSize: nat

    /** A pooled block before `SetValues`: no directions, zero length. */
    constructor (variant: nat, paletteSize: nat)
      ensures this.variant == variant && this.paletteSize == paletteSize
      ensures row == 0 && col == 0 && directions == [] && color == 0 && length == 0
    {
      this.variant := variant;
      this.paletteSize := paletteSize;
      row, col, directions, color, length := 0, 0, [], 0, 0;
    }

    /** The block's logical fields agree with a level placement. */
    predicate Holds(info: MovableInfo)
      reads this
    {
      row == info.row && col == info.col && directions == info.direction
      && color == info.colors && length == info.length
    }

    /** Sets every logical field; the colour selects a material, so it must index the palette. */
    method SetValues(row: int, col: int, directions: seq<int>, color: int, length: int)
      requires 0 <= color < paletteSize
      modifies this
      ensures this.row == row && this.col == col && this.directions == directions
      ensures this.color == color && this.length == length
    {
      this.row := row;
      this.col := col;
      this.directions := directions;
      this.color := color;
      this.length := length;
    }

    /** Moves the anchor; directions, colour and length stay as they were. */
    method Move(newRow: int, newCol: int)
      modifies this`row, this`col
      ensures row == newRow && col == newCol
      ensures directions == old(directions) && color == old(color) && length == old(length)
    {
      row := newRow;
      col := newCol;
    }

    /** The block may move in `direction`; only a block with a first direction (the axis of
        its footprint) can move at all. */
    predicate CanMove(direction: int)
      reads this
      ensures CanMove(direction) <==> exists i :: 0 <= i < |directions| && directions[i] == direction
      ensures CanMove(direction) ==> |directions| > 0
    {
      direction in directions
    }
  }
}
