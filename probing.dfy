/** The footprint probe that decides what a one-step move of a block does, as a function of
    the board, and what it guarantees. The block manager's probe loop is proved against it. */
module Probing {
  import opened Geometry
  import opened Cells

  datatype MoveResult = Destroyed | Moved | Failed

  /** Probe cell `i` passes: it is inside the board and not held by another block. */
  predicate Clear<B(==)>(rows: int, cols: int, occ: map<Cell, B>, me: B, to: Cell, dir: int, i: int) {
    var c := FootprintCell(to, dir, i);
    InBounds(rows, cols, c) && !OccupiedByOther(occ, c, me)
  }

  /** The probe from index `i` on. `to` is the candidate anchor, `dir` the direction derived
      from the current anchor to `to` (-1 for none), `accepts` the gates' answer for the block
      leaving in `dir`. Cells are laid along `dir`'s axis. */
  function ProbeFrom<B(==)>(rows: int, cols: int, occ: map<Cell, B>, me: B, dir: int, to: Cell,
                            length: int, accepts: bool, i: nat): MoveResult
    decreases length - i
  {
    if i >= length then Moved
    else if dir == -1 then Failed
    else
      var c := FootprintCell(to, dir, i);
      if !InBounds(rows, cols, c) then (if accepts then Destroyed else Failed)
      else if OccupiedByOther(occ, c, me) then Failed
      else ProbeFrom(rows, cols, occ, me, dir, to, length, accepts, i + 1)
  }

  function Probe<B(==)>(rows: int, cols: int, occ: map<Cell, B>, me: B, dir: int, to: Cell,
                        length: int, accepts: bool): MoveResult
  {
    ProbeFrom(rows, cols, occ, me, dir, to, length, accepts, 0)
  }

  /** From index `i` on the probe reports a move exactly when every remaining cell passes
      (and, if any remains, a direction was derived). */
  lemma {:induction false} ProbeFromMovedIff<B>(rows: int, cols: int, occ: map<Cell, B>, me: B, dir: int,
                                                    to: Cell, length: int, accepts: bool, i: nat)
    ensures ProbeFrom(rows, cols, occ, me, dir, to, length, accepts, i) == Moved
        <==> (i >= length || (dir != -1 && forall j :: i <= j < length ==> Clear(rows, cols, occ, me, to, dir, j)))
    decreases length - i
  {
    if i < length && dir != -1 && Clear(rows, cols, occ, me, to, dir, i) {
      ProbeFromMovedIff(rows, cols, occ, me, dir, to, length, accepts, i + 1);
      if ProbeFrom(rows, cols, occ, me, dir, to, length, accepts, i + 1) == Moved {
        forall j | i <= j < length ensures Clear(rows, cols, occ, me, to, dir, j) {
          if j > i { assert i + 1 <= j; }
        }
      }
    }
  }

  /** From index `i` on the probe reports a destruction exactly when a direction was derived,
      the gates accept, and the first remaining cell that fails is outside the board. */
  lemma {:induction false} ProbeFromDestroyedIff<B>(rows: int, cols: int, occ: map<Cell, B>, me: B, dir: int,
                                                        to: Cell, length: int, accepts: bool, i: nat)
    ensures ProbeFrom(rows, cols, occ, me, dir, to, length, accepts, i) == Destroyed
        <==> (dir != -1 && accepts
              && exists k :: i <= k < length && !InBounds(rows, cols, FootprintCell(to, dir, k))
                             && forall j :: i <= j < k ==> Clear(rows, cols, occ, me, to, dir, j))
    decreases length - i
  {
    if i < length && dir != -1 {
      var c := FootprintCell(to, dir, i);
      if !InBounds(rows, cols, c) {
        if accepts {
          assert forall j :: i <= j < i ==> Clear(rows, cols, occ, me, to, dir, j);
        }
      } else if OccupiedByOther(occ, c, me) {
        assert !Clear(rows, cols, occ, me, to, dir, i);
      } else {
        ProbeFromDestroyedIff(rows, cols, occ, me, dir, to, length, accepts, i + 1);
        if dir != -1 && accepts
           && exists k :: i <= k < length && !InBounds(rows, cols, FootprintCell(to, dir, k))
                          && forall j :: i <= j < k ==> Clear(rows, cols, occ, me, to, dir, j) {
          var k :| i <= k < length && !InBounds(rows, cols, FootprintCell(to, dir, k))
                   && forall j :: i <= j < k ==> Clear(rows, cols, occ, me, to, dir, j);
          assert k != i;
        }
      }
    }
  }

  /** The probe's verdicts in closed form: a move when every footprint cell passes, a
      destruction when the first failing cell lies outside the board and a gate takes the
      block, a failure otherwise. */
  lemma ProbeSpec<B>(rows: int, cols: int, occ: map<Cell, B>, me: B, dir: int, to: Cell, length: int, accepts: bool)
    ensures Probe(rows, cols, occ, me, dir, to, length, accepts) == Moved
        <==> (length <= 0 || (dir != -1 && forall j :: 0 <= j < length ==> Clear(rows, cols, occ, me, to, dir, j)))
    ensures Probe(rows, cols, occ, me, dir, to, length, accepts) == Destroyed
        <==> (dir != -1 && accepts
              && exists k :: 0 <= k < length && !InBounds(rows, cols, FootprintCell(to, dir, k))
                             && forall j :: 0 <= j < k ==> Clear(rows, cols, occ, me, to, dir, j))
  {
    ProbeFromMovedIff(rows, cols, occ, me, dir, to, length, accepts, 0);
    ProbeFromDestroyedIff(rows, cols, occ, me, dir, to, length, accepts, 0);
  }

  /** Probe cell 0 is the candidate anchor, so a block of length at least 1 that moves ends
      with its anchor inside the board. */
  lemma MovedAnchorInBounds<B>(rows: int, cols: int, occ: map<Cell, B>, me: B, dir: int, to: Cell, length: int, accepts: bool)
    requires length >= 1
    requires Probe(rows, cols, occ, me, dir, to, length, accepts) == Moved
    ensures InBounds(rows, cols, to)
  {
    ProbeSpec(rows, cols, occ, me, dir, to, length, accepts);
    assert Clear(rows, cols, occ, me, to, dir, 0);
  }

  /** When the block moves along its own axis, the cells written for it are exactly the
      probed ones, so no other block's cell is overwritten by the occupancy transfer. */
  lemma MoveKeepsOtherBlocks<B>(rows: int, cols: int, occ: map<Cell, B>, me: B, dir: int, to: Cell,
                                    axis: int, length: int, accepts: bool, k: Cell)
    requires Probe(rows, cols, occ, me, dir, to, length, accepts) == Moved
    requires IsVertical(dir) == IsVertical(axis)
    requires OccupiedByOther(occ, k, me)
    ensures var m := MarkFootprint(Cleared(occ, me), rows, cols, to, axis, length, me);
      k in m && m[k] == occ[k]
  {
    var cleared := Cleared(occ, me);
    MarkFootprintAt(cleared, rows, cols, to, axis, length, me, k);
    ProbeSpec(rows, cols, occ, me, dir, to, length, accepts);
    if OnFootprint(to, axis, length, k) {
      var i := if IsVertical(axis) then k.row - to.row else k.col - to.col;
      assert FootprintCell(to, dir, i) == k;
      assert !Clear(rows, cols, occ, me, to, dir, i);
    }
  }

  /** A block whose first direction is Up (so its footprint is vertical) but which may also
      move Right probes the horizontal cells and then writes the vertical ones: on a 3 x 3
      board, block 1 at (0,0) of length 2 moves Right and takes cell (1,1) from block 2. */
  lemma PerpendicularMoveOverwrites()
    ensures var occ := map[Cell(0, 0) := 1, Cell(1, 0) := 1, Cell(1, 1) := 2];
      var to := UpdateNewPosition(0, 0, Right);
      var dir := GetDirection(Cell(0, 0), to);
      && Probe(3, 3, occ, 1, dir, to, 2, false) == Moved
      && MarkFootprint(Cleared(occ, 1), 3, 3, to, Up, 2, 1)[Cell(1, 1)] == 1
  {
    var occ := map[Cell(0, 0) := 1, Cell(1, 0) := 1, Cell(1, 1) := 2];
    var to := Cell(0, 1);
    assert Clear(3, 3, occ, 1, to, Right, 0);
    assert Clear(3, 3, occ, 1, to, Right, 1);
    assert ProbeFrom(3, 3, occ, 1, Right, to, 2, false, 2) == Moved;
    MarkFootprintAt(Cleared(occ, 1), 3, 3, to, Up, 2, 1, Cell(1, 1));
  }
}
