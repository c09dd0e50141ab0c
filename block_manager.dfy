/** The block manager: the live blocks of a level, the move counter with its drag-gesture
    deduplication, and the move operation that checks, transfers or removes a block. */
module BlockManagement {
  import opened Geometry
  import opened Levels
  import opened Blocks
  import opened Cells
  import opened Gates
  import opened Factory
  import opened Probing

  predicate Distinct<T(==)>(s: seq<T>) {
    forall i, j :: 0 <= i < j < |s| ==> s[i] != s[j]
  }

  /** The list with the first occurrence of `x` taken out (a list's `Remove`). */
  function RemoveFirst<T(==)>(s: seq<T>, x: T): seq<T> {
    if s == [] then []
    else if s[0] == x then s[1..]
    else [s[0]] + RemoveFirst(s[1..], x)
  }

  /** Removing a member of a list without repetitions leaves exactly the other members,
      still without repetitions. */
  lemma {:induction false} RemoveFirstDistinct<T>(s: seq<T>, x: T)
    requires Distinct(s)
    ensures Distinct(RemoveFirst(s, x))
    ensures forall y :: y in RemoveFirst(s, x) <==> y in s && y != x
    ensures x in s ==> |RemoveFirst(s, x)| == |s| - 1
  {
    if s != [] {
      assert Distinct(s[1..]) by {
        forall i, j | 0 <= i < j < |s[1..]| ensures s[1..][i] != s[1..][j] {
          assert s[1..][i] == s[i + 1] && s[1..][j] == s[j + 1];
        }
      }
      RemoveFirstDistinct(s[1..], x);
      if s[0] != x {
        var r := RemoveFirst(s[1..], x);
        assert s[0] !in s[1..] by {
          forall i | 0 <= i < |s[1..]| ensures s[1..][i] != s[0] {
            assert s[1..][i] == s[i + 1];
          }
        }
        forall i, j | 0 <= i < j < |[s[0]] + r| ensures ([s[0]] + r)[i] != ([s[0]] + r)[j] {
          if i == 0 {
            assert ([s[0]] + r)[j] == r[j - 1];
            assert r[j - 1] in r;
          } else {
            assert ([s[0]] + r)[i] == r[i - 1] && ([s[0]] + r)[j] == r[j - 1];
          }
        }
      } else {
        assert x !in s[1..] by {
          forall i | 0 <= i < |s[1..]| ensures s[1..][i] != x {
            assert s[1..][i] == s[i + 1];
          }
        }
      }
    }
  }

  /** The move counter and the id of the drag gesture it last counted. */
  datatype Tally = Tally(moveCount: int, lastDragId: int)

  /** A successful move (moved or destroyed) counts once per drag gesture; a failed one
      never counts and does not change the remembered gesture. */
  function CountMove(t: Tally, dragId: int, result: MoveResult): (u: Tally)
    ensures u.moveCount == t.moveCount || u.moveCount == t.moveCount + 1
    ensures u.moveCount == t.moveCount + 1 <==> result != Failed && dragId != t.lastDragId
    ensures result != Failed ==> u.lastDragId == dragId
    ensures result == Failed ==> u == t
  {
    if result != Failed && t.lastDragId != dragId then Tally(t.moveCount + 1, dragId) else t
  }

  /** Several successful steps of one drag gesture count as one move. */
  lemma {:induction false} OneDragCountsOnce(t: Tally, dragId: int, results: seq<MoveResult>)
    requires forall j :: 0 <= j < |results| ==> results[j] != Failed
    ensures CountSteps(t, dragId, results).moveCount
         == t.moveCount + (if results != [] && dragId != t.lastDragId then 1 else 0)
    decreases |results|
  {
    if results != [] {
      var u := CountMove(t, dragId, results[0]);
      OneDragCountsOnce(u, dragId, results[1..]);
    }
  }

  /** The tally after a run of results of one drag gesture. */
  function CountSteps(t: Tally, dragId: int, results: seq<MoveResult>): Tally
    decreases |results|
  {
    if results == [] then t else CountSteps(CountMove(t, dragId, results[0]), dragId, results[1..])
  }

  /** Two successful moves of two different gestures count twice when the first is new. */
  lemma TwoDragsCountTwice(t: Tally, drag1: int, drag2: int, r1: MoveResult, r2: MoveResult)
    requires r1 != Failed && r2 != Failed
    requires drag1 != t.lastDragId && drag2 != drag1
    ensures CountMove(CountMove(t, drag1, r1), drag2, r2).moveCount == t.moveCount + 2
  {
  }

  /** The occupancy after marking the footprints of the level placements `infos` one after
      the other, placement `j` with occupant `ids[j]`. */
  function MarkAll<B>(occ: map<Cell, B>, rows: int, cols: int, infos: seq<MovableInfo>, ids: seq<B>): map<Cell, B>
    requires |infos| == |ids|
    requires forall j | 0 <= j < |infos| :: |infos[j].direction| > 0
    decreases |infos|
  {
    if infos == [] then occ
    else
      var n := |infos| - 1;
      MarkFootprint(MarkAll(occ, rows, cols, infos[..n], ids[..n]), rows, cols,
                    Cell(infos[n].row, infos[n].col), infos[n].direction[0], infos[n].length, ids[n])
  }

  /** Placement `j`'s footprint, inside the board, covers cell `k`. */
  predicate Covers(rows: int, cols: int, infos: seq<MovableInfo>, j: int, k: Cell)
    requires 0 <= j < |infos| && |infos[j].direction| > 0
  {
    InBounds(rows, cols, k) && OnFootprint(Cell(infos[j].row, infos[j].col), infos[j].direction[0], infos[j].length, k)
  }

  /** After a level is placed, a cell is occupied exactly when it was before or some
      placement's footprint covers it inside the board, and a newly written occupant is the
      block of a placement whose footprint covers the cell. */
  lemma {:induction false} MarkAllAt<B>(occ: map<Cell, B>, rows: int, cols: int, infos: seq<MovableInfo>, ids: seq<B>, k: Cell)
    requires |infos| == |ids|
    requires forall j | 0 <= j < |infos| :: |infos[j].direction| > 0
    ensures var m := MarkAll(occ, rows, cols, infos, ids);
      && (k in m <==> k in occ || exists j :: 0 <= j < |infos| && Covers(rows, cols, infos, j, k))
      && (k in m ==> (k in occ && m[k] == occ[k]) || exists j :: 0 <= j < |infos| && Covers(rows, cols, infos, j, k) && m[k] == ids[j])
    decreases |infos|
  {
    if infos != [] {
      var n := |infos| - 1;
      var inner := MarkAll(occ, rows, cols, infos[..n], ids[..n]);
      MarkAllAt(occ, rows, cols, infos[..n], ids[..n], k);
      MarkFootprintAt(inner, rows, cols, Cell(infos[n].row, infos[n].col), infos[n].direction[0], infos[n].length, ids[n], k);
      forall j | 0 <= j < n
        ensures Covers(rows, cols, infos[..n], j, k) == Covers(rows, cols, infos, j, k) && ids[..n][j] == ids[j]
      {
      }
      var m := MarkAll(occ, rows, cols, infos, ids);
      if exists j :: 0 <= j < |infos| && Covers(rows, cols, infos, j, k) {
        var j :| 0 <= j < |infos| && Covers(rows, cols, infos, j, k);
        if j < n {
          assert Covers(rows, cols, infos[..n], j, k);
        }
        assert k in m;
      }
      if k in m && k !in inner {
        assert Covers(rows, cols, infos, n, k) && m[k] == ids[n];
      } else if k in m && k !in occ {
        var j :| 0 <= j < n && Covers(rows, cols, infos[..n], j, k) && inner[k] == ids[..n][j];
        if Covers(rows, cols, infos, n, k) {
          assert m[k] == ids[n];
        } else {
          assert Covers(rows, cols, infos, j, k) && m[k] == ids[j];
        }
      }
    }
  }

  /** Marking one more placement extends the occupancy of the ones before it. */
  lemma MarkAllSnoc<B>(occ: map<Cell, B>, rows: int, cols: int, infos: seq<MovableInfo>, ids: seq<B>, i: nat, b: B)
    requires i < |infos| && |ids| == i
    requires forall j | 0 <= j < |infos| :: |infos[j].direction| > 0
    ensures MarkAll(occ, rows, cols, infos[..i + 1], ids + [b])
         == MarkFootprint(MarkAll(occ, rows, cols, infos[..i], ids), rows, cols,
                          Cell(infos[i].row, infos[i].col), infos[i].direction[0], infos[i].length, b)
  {
    assert infos[..i + 1][..i] == infos[..i] && (ids + [b])[..i] == ids;
  }

  /** Placing a level keeps the occupancy inside the board and only adds the placed blocks. */
  lemma MarkAllKeeps<B>(occ: map<Cell, B>, rows: int, cols: int, infos: seq<MovableInfo>, ids: seq<B>)
    requires |infos| == |ids|
    requires forall j | 0 <= j < |infos| :: |infos[j].direction| > 0
    requires WithinExtent(occ, rows, cols)
    ensures var m := MarkAll(occ, rows, cols, infos, ids);
      WithinExtent(m, rows, cols) && forall k | k in m :: m[k] in ids || (k in occ && m[k] == occ[k])
  {
    var m := MarkAll(occ, rows, cols, infos, ids);
    forall k | k in m
      ensures InBounds(rows, cols, k) && (m[k] in ids || (k in occ && m[k] == occ[k]))
    {
      MarkAllAt(occ, rows, cols, infos, ids, k);
    }
  }

  /** On an empty board, every cell the placed level occupies lies on the footprint of its
      occupant, which is one of the placed blocks. */
  lemma PlacedOnOwnFootprints(rows: int, cols: int, infos: seq<MovableInfo>, blocks: seq<Block>)
    requires |infos| == |blocks|
    requires forall j | 0 <= j < |infos| :: |infos[j].direction| > 0
    requires forall j | 0 <= j < |blocks| :: blocks[j].Holds(infos[j])
    ensures var m := MarkAll(map[], rows, cols, infos, blocks);
      forall k | k in m :: m[k] in blocks && OnOwnFootprint(m[k], k)
  {
    var m := MarkAll(map[], rows, cols, infos, blocks);
    forall k | k in m
      ensures m[k] in blocks && OnOwnFootprint(m[k], k)
    {
      MarkAllAt(map[], rows, cols, infos, blocks, k);
      var j :| 0 <= j < |infos| && Covers(rows, cols, infos, j, k) && m[k] == blocks[j];
      assert blocks[j].Holds(infos[j]);
    }
  }

  /** Every cell of the placement's footprint, the anchor first, lies on a `rows` x `cols`
      board: the board position of the anchor and the cells written for the block exist. */
  predicate OnBoard(info: MovableInfo, rows: int, cols: int) {
    |info.direction| > 0
    && forall i | 0 <= i < info.length :: InBounds(rows, cols, FootprintCell(Cell(info.row, info.col), info.direction[0], i))
  }

  /** What a move call returns: a failed guard and a destruction carry only the result. */
  datatype BlockMovedEventArgs = BlockMovedEventArgs(
    result: MoveResult, block: Block?, fromRow: int, fromCol: int, toRow: int, toCol: int)

  function OnlyResult(result: MoveResult): BlockMovedEventArgs {
    BlockMovedEventArgs(result, null, 0, 0, 0, 0)
  }

  class BlockManager {
    var blocks: seq<Block>
    var moveCount: int
    var lastDragId: int
    const factory: GridFactory
    const cells: CellManager
    const gates: GateManager

    /** Every occupied cell belongs to a live block and lies on that block's footprint (no
        stale occupant), the cells stay inside the board, no block is listed twice, and the
        move count is not negative. */
    ghost predicate Valid()
      reads this, cells, blocks
    {
      && cells.Valid() && Distinct(blocks) && moveCount >= 0
      && (forall k | k in cells.occupant :: cells.occupant[k] in blocks)
      && (forall k | k in cells.occupant :: OnOwnFootprint(cells.occupant[k], k))
    }

    constructor (factory: GridFactory, cells: CellManager, gates: GateManager)
      ensures this.factory == factory && this.cells == cells && this.gates == gates
      ensures blocks == [] && moveCount == 0 && lastDragId == -1
    {
      this.factory := factory;
      this.cells := cells;
      this.gates := gates;
      blocks, moveCount, lastDragId := [], 0, -1;
    }

    /** The moves counted so far in this level. */
    function GetMoveCount(): (n: int)
      reads this
      ensures n == moveCount
      ensures Valid() ==> n >= 0
    {
      moveCount
    }

    /** The result a call `MoveBlock(_, block, direction)` produces in the current state:
        failure when the block is not managed or may not go that way, else the probe's
        verdict for the one-step candidate anchor. */
    function Resolve(block: Block, direction: int): MoveResult
      reads this, cells, gates, block
    {
      if block !in blocks || !block.CanMove(direction) then Failed
      else
        var to := UpdateNewPosition(block.row, block.col, direction);
        var dir := GetDirection(Cell(block.row, block.col), to);
        Probe(cells.rows, cells.cols, cells.occupant, block, dir, to, block.length,
              Accepts(gates.gates, block.row, block.col, block.color, dir))
    }

    /** Empties the block list; the blocks' cells are left as they are. */
    method ClearBlocks()
      modifies this`blocks
      ensures blocks == []
    {
      blocks := [];
    }

    /** Replaces the blocks by new ones built from the level's placements, in order, each
        with its footprint marked; the move counter restarts at 0, the remembered drag
        gesture is kept. */
    method CreateBlocks(level: LevelData)
      requires cells.Valid()
      requires forall j | 0 <= j < |level.movableInfo| :: Buildable(level.movableInfo[j], factory.variants, factory.paletteSize)
      requires forall j | 0 <= j < |level.movableInfo| :: |level.movableInfo[j].direction| > 0
      requires forall j | 0 <= j < |level.movableInfo| :: OnBoard(level.movableInfo[j], cells.rows, cells.cols)
      modifies this, cells`occupant
      ensures cells.Valid()
      ensures moveCount == 0 && lastDragId == old(lastDragId)
      ensures |blocks| == |level.movableInfo| && Distinct(blocks)
      ensures forall j | 0 <= j < |blocks| :: fresh(blocks[j]) && blocks[j].Holds(level.movableInfo[j])
      ensures cells.occupant == MarkAll(old(cells.occupant), cells.rows, cells.cols, level.movableInfo, blocks)
      ensures old(cells.occupant) == map[] ==> Valid()
    {
      ClearBlocks();
      moveCount := 0;
      var infos := level.movableInfo;
      var i := 0;
      while i < |infos|
        invariant 0 <= i <= |infos| && |blocks| == i
        invariant moveCount == 0 && lastDragId == old(lastDragId)
        invariant cells.Valid()
        invariant Distinct(blocks)
        invariant forall j | 0 <= j < i :: fresh(blocks[j]) && blocks[j].Holds(infos[j])
        invariant cells.occupant == MarkAll(old(cells.occupant), cells.rows, cells.cols, infos[..i], blocks)
      {
        ghost var before := blocks;
        var block := PlaceBlock(infos[i]);
        MarkAllSnoc(old(cells.occupant), cells.rows, cells.cols, infos, before, i, block);
        i := i + 1;
      }
      assert infos[..i] == infos;
      if old(cells.occupant) == map[] {
        PlacedOnOwnFootprints(cells.rows, cells.cols, infos, blocks);
      }
    }

    /** One step of level placement: a new block for the placement, appended to the list,
        with its footprint marked. */
    method PlaceBlock(info: MovableInfo) returns (block: Block)
      requires cells.Valid()
      requires Buildable(info, factory.variants, factory.paletteSize) && |info.direction| > 0
      modifies this`blocks, cells`occupant
      ensures fresh(block) && block.Holds(info)
      ensures blocks == old(blocks) + [block]
      ensures Distinct(old(blocks)) ==> Distinct(blocks)
      ensures cells.Valid()
      ensures cells.occupant == MarkFootprint(old(cells.occupant), cells.rows, cells.cols,
                                              Cell(info.row, info.col), info.direction[0], info.length, block)
    {
      var created := factory.CreateBlock(info);
      block := created;
      blocks := blocks + [block];
      SetOccupiedCells(block);
    }

    method ClearOccupiedCells(block: Block)
      requires cells.Valid()
      modifies cells`occupant
      ensures cells.Valid()
      ensures cells.occupant == Cleared(old(cells.occupant), block)
    {
      cells.ClearOccupied(block);
    }

    /** Marks the block's `length` cells from its anchor along the axis of its first
        direction, index by index. */
    method SetOccupiedCells(block: Block)
      requires cells.Valid()
      requires |block.directions| > 0
      modifies cells`occupant
      ensures cells.Valid()
      ensures cells.occupant == MarkFootprint(old(cells.occupant), cells.rows, cells.cols,
                                              Cell(block.row, block.col), block.directions[0], block.length, block)
    {
      var length := block.length;
      var i := 0;
      while i < length
        invariant 0 <= i <= if length < 0 then 0 else length
        invariant cells.Valid()
        invariant cells.occupant == MarkFootprint(old(cells.occupant), cells.rows, cells.cols,
                                                  Cell(block.row, block.col), block.directions[0], i, block)
      {
        var row := block.row;
        var col := block.col;
        if block.directions[0] % 2 == 0 {
          row := row + i;
        } else {
          col := col + i;
        }
        cells.SetOccupied(row, col, block);
        i := i + 1;
      }
    }

    /** The footprint probe for a block about to move to the candidate anchor (row, col). */
    method TryToMove(row: int, col: int, block: Block) returns (result: MoveResult)
      ensures result == Probe(cells.rows, cells.cols, cells.occupant, block,
                              GetDirection(Cell(block.row, block.col), Cell(row, col)), Cell(row, col), block.length,
                              Accepts(gates.gates, block.row, block.col, block.color,
                                      GetDirection(Cell(block.row, block.col), Cell(row, col))))
    {
      ghost var dir0 := GetDirection(Cell(block.row, block.col), Cell(row, col));
      ghost var accepts := Accepts(gates.gates, block.row, block.col, block.color, dir0);
      var length := block.length;
      var i := 0;
      while i < length
        invariant 0 <= i
        invariant Probe(cells.rows, cells.cols, cells.occupant, block, dir0, Cell(row, col), length, accepts)
               == ProbeFrom(cells.rows, cells.cols, cells.occupant, block, dir0, Cell(row, col), length, accepts, i)
      {
        var checkRow := row;
        var checkCol := col;
        var dir := GetDirection(Cell(block.row, block.col), Cell(checkRow, checkCol));
        if dir == -1 {
          return Failed;
        }
        if dir % 2 == 0 {
          checkRow := checkRow + i;
        } else {
          checkCol := checkCol + i;
        }
        if cells.IsOutOfBounds(checkRow, checkCol) {
          var accepted := gates.TryDestroyBlock(block, dir);
          if accepted {
            return Destroyed;
          }
          return Failed;
        } else if cells.IsOccupied(checkRow, checkCol, block) {
          return Failed;
        }
        i := i + 1;
      }
      return Moved;
    }

    /** Attempts a one-step move of `block` in `direction` as part of drag gesture `dragId`. */
    method MoveBlock(dragId: int, block: Block, direction: int) returns (args: BlockMovedEventArgs)
      requires Valid()
      modifies this, cells`occupant, block`row, block`col
      ensures Valid()
      ensures args.result == old(Resolve(block, direction))
      ensures Tally(moveCount, lastDragId) == CountMove(old(Tally(moveCount, lastDragId)), dragId, args.result)
      // not managed, or not allowed that way: nothing at all changes
      ensures old(block !in blocks || !block.CanMove(direction)) ==>
        args == OnlyResult(Failed) && blocks == old(blocks) && cells.occupant == old(cells.occupant)
        && block.row == old(block.row) && block.col == old(block.col)
      // the probe failed: nothing changes but the arguments describe the attempted step
      ensures old(block in blocks && block.CanMove(direction)) && args.result == Failed ==>
        var to := old(UpdateNewPosition(block.row, block.col, direction));
        && args == BlockMovedEventArgs(Failed, block, old(block.row), old(block.col), to.row, to.col)
        && blocks == old(blocks) && cells.occupant == old(cells.occupant)
        && block.row == old(block.row) && block.col == old(block.col)
      // moved: the anchor steps, the old cells are emptied and the footprint is written anew
      ensures args.result == Moved ==>
        var to := old(UpdateNewPosition(block.row, block.col, direction));
        && args == BlockMovedEventArgs(Moved, block, old(block.row), old(block.col), to.row, to.col)
        && block.row == to.row && block.col == to.col
        && blocks == old(blocks)
        && cells.occupant == MarkFootprint(Cleared(old(cells.occupant), block), cells.rows, cells.cols,
                                           to, block.directions[0], block.length, block)
      // destroyed: the block leaves the list and the board, and stays where it was
      ensures args.result == Destroyed ==>
        && args == OnlyResult(Destroyed)
        && blocks == RemoveFirst(old(blocks), block) && block !in blocks
        && cells.occupant == Cleared(old(cells.occupant), block)
        && block.row == old(block.row) && block.col == old(block.col)
      ensures cells.rows == old(cells.rows) && cells.cols == old(cells.cols)
    {
      if block !in blocks || !block.CanMove(direction) {
        return OnlyResult(Failed);
      }

      var oldRow := block.row;
      var oldCol := block.col;
      var to := UpdateNewPosition(oldRow, oldCol, direction);
      var newRow := to.row;
      var newCol := to.col;

      var result := TryToMove(newRow, newCol, block);
      if result == Moved {
        ClearOccupiedCells(block);
        block.Move(newRow, newCol);
        SetOccupiedCells(block);
        forall k | k in cells.occupant
          ensures cells.occupant[k] in blocks && OnOwnFootprint(cells.occupant[k], k)
        {
          MarkFootprintAt(Cleared(old(cells.occupant), block), cells.rows, cells.cols,
                          to, block.directions[0], block.length, block, k);
          if cells.occupant[k] != block {
            assert old(OnOwnFootprint(cells.occupant[k], k));
          }
        }
        if lastDragId != dragId {
          moveCount := moveCount + 1;
          lastDragId := dragId;
        }
      } else if result == Destroyed {
        RemoveFirstDistinct(blocks, block);
        blocks := RemoveFirst(blocks, block);
        ClearOccupiedCells(block);
        assert forall k | k in cells.occupant :: k in old(cells.occupant) && cells.occupant[k] != block;
        if lastDragId != dragId {
          moveCount := moveCount + 1;
          lastDragId := dragId;
        }
        return OnlyResult(result);
      }

      return BlockMovedEventArgs(result, block, oldRow, oldCol, newRow, newCol);
    }
  }
}
