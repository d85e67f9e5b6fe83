/**
 The terminal front-end's board: the shared board operations plus cursor
 movement, the Run/Edit mode switch, and the generation step wrapping indices
 with `emod`.
 */
module GolTerm {
  import opened Life
  import opened Boards
  import Kernel

  /** Whether the main loop steps the board (Run) or lets keys edit it (Edit). */
  datatype Mode = Run | Edit

  /** `Mode::toggle`, bound to the Enter key. */
  function ToggleMode(m: Mode): (m': Mode)
    ensures m' != m
  {
    match m
    case Run => Edit
    case Edit => Run
  }

  lemma ToggleModeTwice(m: Mode)
    ensures ToggleMode(ToggleMode(m)) == m
  {
  }

  /** `count_n` of this file: the scan of `Kernel.CountN` with `emod`. */
  method CountN(b: Board, row: nat, col: nat) returns (n: nat)
    requires Kernel.Steppable(b.cells) && row < |b.cells| && col < |b.cells[0]|
    ensures n == NeighbourCount(b.cells, row, col)
    ensures n <= 8
  {
    n := Kernel.CountN(b.cells, row, col, Kernel.EmodHelper);
  }

  /** `next_gen` of this file: one generation of the cells; the cursor is
      untouched, so the result is `Boards.Advance`, the step the operation
      sequences are stated with. A board without cells is left as it is. */
  method NextGen(b: Board) returns (b': Board)
    requires Kernel.Steppable(b.cells)
    ensures IsGrid(b.cells) ==> b'.cells == Step(b.cells)
    ensures IsGrid(b.cells) ==> b' == Advance(b)
    ensures !IsGrid(b.cells) ==> b' == b
    ensures b'.cursor == b.cursor
    ensures Valid(b) ==> Valid(b')
  {
    var cells := Kernel.NextGen(b.cells, Kernel.EmodHelper);
    b' := b.(cells := cells);
  }

  /** `move_cursor_left`: a saturating decrement of the column. */
  function MoveCursorLeft(b: Board): (b': Board)
    ensures b'.cells == b.cells
    ensures b'.cursor.1 == b.cursor.1
    ensures b.cursor.0 == 0 ==> b'.cursor.0 == 0
    ensures 0 < b.cursor.0 ==> b'.cursor.0 + 1 == b.cursor.0
    ensures Valid(b) ==> Valid(b')
  {
    b.(cursor := (if b.cursor.0 == 0 then 0 else b.cursor.0 - 1, b.cursor.1))
  }

  /** `move_cursor_right`: the column plus one, clamped to the last column.
      The source reads the first row, so it panics on an empty board. */
  function MoveCursorRight(b: Board): (b': Board)
    requires |b.cells| > 0 && |b.cells[0]| > 0
    ensures b'.cells == b.cells
    ensures b'.cursor.1 == b.cursor.1
    ensures b'.cursor.0 < |b.cells[0]|
    ensures b.cursor.0 + 1 < |b.cells[0]| ==> b'.cursor.0 == b.cursor.0 + 1
    ensures |b.cells[0]| <= b.cursor.0 + 1 ==> b'.cursor.0 == |b.cells[0]| - 1
    ensures Valid(b) ==> Valid(b')
  {
    b.(cursor := (Clamp(b.cursor.0 + 1, 0, |b.cells[0]| - 1), b.cursor.1))
  }

  /** `move_cursor_up`: a saturating decrement of the row. */
  function MoveCursorUp(b: Board): (b': Board)
    ensures b'.cells == b.cells
    ensures b'.cursor.0 == b.cursor.0
    ensures b.cursor.1 == 0 ==> b'.cursor.1 == 0
    ensures 0 < b.cursor.1 ==> b'.cursor.1 + 1 == b.cursor.1
    ensures Valid(b) ==> Valid(b')
  {
    b.(cursor := (b.cursor.0, if b.cursor.1 == 0 then 0 else b.cursor.1 - 1))
  }

  /** `move_cursor_down`: the row plus one, clamped to the last row. */
  function MoveCursorDown(b: Board): (b': Board)
    requires |b.cells| > 0
    ensures b'.cells == b.cells
    ensures b'.cursor.0 == b.cursor.0
    ensures b'.cursor.1 < |b.cells|
    ensures b.cursor.1 + 1 < |b.cells| ==> b'.cursor.1 == b.cursor.1 + 1
    ensures |b.cells| <= b.cursor.1 + 1 ==> b'.cursor.1 == |b.cells| - 1
    ensures Valid(b) ==> Valid(b')
  {
    b.(cursor := (b.cursor.0, Clamp(b.cursor.1 + 1, 0, |b.cells| - 1)))
  }

  /** Away from the edge it moves towards, each move is undone by the
      opposite one; at that edge it leaves the board as it is. */
  lemma CursorMovesUndo(b: Board)
    requires Valid(b)
    ensures b.cursor.0 + 1 < |b.cells[0]| ==> MoveCursorLeft(MoveCursorRight(b)) == b
    ensures 0 < b.cursor.0 ==> MoveCursorRight(MoveCursorLeft(b)) == b
    ensures b.cursor.1 + 1 < |b.cells| ==> MoveCursorUp(MoveCursorDown(b)) == b
    ensures 0 < b.cursor.1 ==> MoveCursorDown(MoveCursorUp(b)) == b
    ensures b.cursor.0 + 1 == |b.cells[0]| ==> MoveCursorRight(b) == b
    ensures b.cursor.0 == 0 ==> MoveCursorLeft(b) == b
    ensures b.cursor.1 + 1 == |b.cells| ==> MoveCursorDown(b) == b
    ensures b.cursor.1 == 0 ==> MoveCursorUp(b) == b
  {
  }

  /** What the main loop does to the board: a generation per iteration in Run
      mode, and in Edit mode the keys c (clear), r (randomize), w/s/a/d or the
      arrows (cursor moves) and space (toggle the cursor cell). */
  datatype Command =
    | Tick
    | ClearKey
    | RandomKey(coin: (nat, nat) -> bool)
    | UpKey
    | DownKey
    | LeftKey
    | RightKey
    | SpaceKey

  function Perform(b: Board, cmd: Command): (b': Board)
    requires Valid(b)
    ensures Valid(b')
    ensures HasShape(b'.cells, |b.cells|, |b.cells[0]|)
  {
    match cmd
    case Tick => Advance(b)
    case ClearKey => Clear(b)
    case RandomKey(coin) => Randomize(b, coin)
    case UpKey => MoveCursorUp(b)
    case DownKey => MoveCursorDown(b)
    case LeftKey => MoveCursorLeft(b)
    case RightKey => MoveCursorRight(b)
    case SpaceKey => ToggleCurCell(b)
  }

  /** The board after the commands `cmds`, in order. */
  function PerformAll(b: Board, cmds: seq<Command>): (b': Board)
    requires Valid(b)
    ensures Valid(b')
    ensures HasShape(b'.cells, |b.cells|, |b.cells[0]|)
    decreases |cmds|
  {
    if cmds == [] then b else PerformAll(Perform(b, cmds[0]), cmds[1..])
  }

  /** From a new board, whatever keys are pressed and however many
      generations run, the board keeps its clamped size and the cursor never
      leaves it, so `toggle_cur_cell` never indexes out of range. */
  lemma CursorStaysOnBoard(rows: nat, cols: nat, cmds: seq<Command>)
    ensures var b := PerformAll(New(rows, cols), cmds);
      && HasShape(b.cells, Clamp(rows, MinRows, MaxRows), Clamp(cols, MinCols, MaxCols))
      && b.cursor.0 < Clamp(cols, MinCols, MaxCols)
      && b.cursor.1 < Clamp(rows, MinRows, MaxRows)
  {
  }
}
