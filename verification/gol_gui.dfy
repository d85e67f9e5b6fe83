/**
 The SDL front-end's board: the shared board operations and the generation
 step wrapping indices with `emod`. This front-end never moves the cursor
 (see `Boards.CursorStaysAtOrigin`).
 */
module GolGui {
  import opened Life
  import opened Boards
  import Kernel

  /** The size of the board the window shows. */
  const Rows: nat := 100
  const Cols: nat := 100

  /** `count_n` of this file: the scan of `Kernel.CountN` with `emod`. */
  method CountN(b: Board, row: nat, col: nat) returns (n: nat)
    requires Kernel.Steppable(b.cells) && row < |b.cells| && col < |b.cells[0]|
    ensures n == NeighbourCount(b.cells, row, col)
    ensures n <= 8
  {
    n := Kernel.CountN(b.cells, row, col, Kernel.EmodHelper);
  }

  /** `next_gen` of this file: one generation of the cells; the cursor is
      untouched, so the result is `Boards.Advance`, the step the operation
      sequences are stated with. A board without cells is left as it is. */
  method NextGen(b: Board) returns (b': Board)
    requires Kernel.Steppable(b.cells)
    ensures IsGrid(b.cells) ==> b'.cells == Step(b.cells)
    ensures IsGrid(b.cells) ==> b' == Advance(b)
    ensures !IsGrid(b.cells) ==> b' == b
    ensures b'.cursor == b.cursor
    ensures Valid(b) ==> Valid(b')
  {
    var cells := Kernel.NextGen(b.cells, Kernel.EmodHelper);
    b' := b.(cells := cells);
  }

  /** The board the window shows is 100 by 100 whatever sequence of
      randomize, clear and generation steps it goes through, and an
      untouched one never changes. */
  lemma WindowBoardKeepsSize(ops: seq<Op>)
    ensures HasShape(Replay(New(Rows, Cols), ops).cells, 100, 100)
    ensures Advance(New(Rows, Cols)) == New(Rows, Cols)
  {
    StepAllDead(New(Rows, Cols).cells);
  }
}
