/**
 The board of the library front-end: the shared board operations and the
 generation step wrapping indices with the hand-written `rem_euclid`.
 */
module Gol {
  import opened Life
  import opened Boards
  import Kernel

  /** `count_n` of this file: the scan of `Kernel.CountN` with `rem_euclid`. */
  method CountN(b: Board, row: nat, col: nat) returns (n: nat)
    requires Kernel.Steppable(b.cells) && row < |b.cells| && col < |b.cells[0]|
    ensures n == NeighbourCount(b.cells, row, col)
    ensures n <= 8
  {
    n := Kernel.CountN(b.cells, row, col, Kernel.RemEuclidHelper);
  }

  /** `next_gen` of this file: one generation of the cells; the cursor is
      untouched, so the result is `Boards.Advance`, the step the operation
      sequences are stated with. A board without cells is left as it is. */
  method NextGen(b: Board) returns (b': Board)
    requires Kernel.Steppable(b.cells)
    ensures IsGrid(b.cells) ==> b'.cells == Step(b.cells)
    ensures IsGrid(b.cells) ==> b' == Advance(b)
    ensures !IsGrid(b.cells) ==> b' == b
    ensures b'.cursor == b.cursor
    ensures Valid(b) ==> Valid(b')
  {
    var cells := Kernel.NextGen(b.cells, Kernel.RemEuclidHelper);
    b' := b.(cells := cells);
  }

  /** This file's board offers no cursor moves either: after `new` and any
      sequence of its operations the board keeps its clamped size, the cursor
      stays at (0, 0), and a cleared board survives a generation unchanged. */
  lemma BoardOpsKeepShapeAndCursor(rows: nat, cols: nat, ops: seq<Op>)
    ensures var b := Replay(New(rows, cols), ops);
      && b.cursor == (0, 0)
      && HasShape(b.cells, Clamp(rows, MinRows, MaxRows), Clamp(cols, MinCols, MaxCols))
      && Advance(Clear(b)) == Clear(b)
  {
    CursorStaysAtOrigin(rows, cols, ops);
    ClearedBoardIsStill(Replay(New(rows, cols), ops));
  }
}
