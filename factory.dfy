/** The factory that hands out cells, blocks and gates for a level. */
module Factory {
  import opened Geometry
  import opened Levels
  import opened Blocks

  /** The logical part of a created cell: its coordinates. Note the (column, row) argument order. */
  function CreateCell(col: int, row: int): (c: Cell)
    ensures c.row == row && c.col == col
  {
    Cell(row, col)
  }

  /** A level placement the factory turns into a block: the length selects an existing
      size variant and the colour an existing material. */
  predicate Buildable(info: MovableInfo, variants: nat, paletteSize: nat) {
    1 <= info.length <= variants && 0 <= info.colors < paletteSize
  }

  class GridFactory {
    /** Number of block size variants (prefabs); variant `k` is a block of length `k + 1`. */
    const variants: nat
    /** Number of colour materials each block can show. */
    const paletteSize: nat

    constructor (variants: nat, paletteSize: nat)
      ensures this.variants == variants && this.paletteSize == paletteSize
    {
      this.variants := variants;
      this.paletteSize := paletteSize;
    }

    /** No block (null) when the length exceeds the number of variants; otherwise a new block
        of variant `length - 1` whose logical fields are those of the placement. A length
        below 1 would index variant -1, which the source does not survive. */
    method CreateBlock(info: MovableInfo) returns (block: Block?)
      requires info.length >= 1
      requires info.length <= variants ==> 0 <= info.colors < paletteSize
      ensures block == null <==> info.length > variants
      ensures block != null ==> fresh(block) && block.Holds(info)
      ensures block != null ==> block.variant == info.length - 1 && block.variant < variants
      ensures block != null ==> block.paletteSize == paletteSize
    {
      if info.length > variants {
        return null;
      }
      block := new Block(info.length - 1, paletteSize);
      block.SetValues(info.row, info.col, info.direction, info.colors, info.length);
    }
  }
}
