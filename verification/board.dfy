/**
 The board the three front-ends share: a grid of cells plus an editing cursor,
 and the operations on it other than the generation step (see `Kernel`). The
 three source files each declare their own `Board` with the same fields and
 the same code for these operations; the terminal one also carries a render
 mode, which only affects drawing and is not modelled.
 */
module Boards {
  import opened Life

  /** The clamp range of both board dimensions. */
  const MinRows: nat := 10
  const MaxRows: nat := 125
  const MinCols: nat := 10
  const MaxCols: nat := 125

  /** Rust's `Ord::clamp`: `x` moved into `[lo, hi]`. */
  function Clamp(x: nat, lo: nat, hi: nat): (r: nat)
    requires lo <= hi
    ensures lo <= r <= hi
    ensures lo <= x <= hi ==> r == x
  {
    if x < lo then lo else if hi < x then hi else x
  }

  function Dist(x: int, y: int): nat {
    if x < y then y - x else x - y
  }

  /** The clamped value is the point of `[lo, hi]` nearest to `x`. */
  lemma ClampIsNearest(x: nat, lo: nat, hi: nat, y: nat)
    requires lo <= hi && lo <= y <= hi
    ensures Dist(x, Clamp(x, lo, hi)) <= Dist(x, y)
  {
  }

  /** A board: its cells, indexed `[row][col]`, and the cursor, stored as
      `(col, row)`. */
  datatype Board = Board(cells: Grid, cursor: (nat, nat))

  predicate ValidDims(rows: nat, cols: nat) {
    MinRows <= rows <= MaxRows && MinCols <= cols <= MaxCols
  }

  /** What every board the program builds satisfies: a rectangular grid with
      both sides in the clamp range, and the cursor on one of its cells. */
  predicate Valid(b: Board) {
    && IsGrid(b.cells)
    && ValidDims(|b.cells|, |b.cells[0]|)
    && b.cursor.0 < |b.cells[0]|
    && b.cursor.1 < |b.cells|
  }

  /** `h` has the same number of rows as `g`, row by row of the same length. */
  predicate SameShape(g: Grid, h: Grid) {
    |h| == |g| && forall i :: 0 <= i < |g| ==> |h[i]| == |g[i]|
  }

  /** `Board::new`: requested sizes are clamped, never rejected. */
  function New(rows: nat, cols: nat): (b: Board)
    ensures Valid(b)
    ensures HasShape(b.cells, Clamp(rows, MinRows, MaxRows), Clamp(cols, MinCols, MaxCols))
    ensures AllDead(b.cells)
    ensures b.cursor == (0, 0)
  {
    Board(DeadGrid(Clamp(rows, MinRows, MaxRows), Clamp(cols, MinCols, MaxCols)), (0, 0))
  }

  /** Sizes inside the range are kept; sizes outside it become the nearest
      bound, so a 1 by 1 request yields a 10 by 10 board. */
  lemma NewClamps(rows: nat, cols: nat)
    ensures ValidDims(rows, cols) ==> HasShape(New(rows, cols).cells, rows, cols)
    ensures rows < MinRows ==> |New(rows, cols).cells| == MinRows
    ensures MaxRows < rows ==> |New(rows, cols).cells| == MaxRows
    ensures cols < MinCols ==> |New(rows, cols).cells[0]| == MinCols
    ensures MaxCols < cols ==> |New(rows, cols).cells[0]| == MaxCols
    ensures New(1, 1).cells == DeadGrid(10, 10)
  {
  }

  /** `Board::toggle_cur_cell`: flips the cell under the cursor. The index
      panics in the source when the cursor is off the grid. */
  function ToggleCurCell(b: Board): (b': Board)
    requires b.cursor.1 < |b.cells| && b.cursor.0 < |b.cells[b.cursor.1]|
    ensures b'.cursor == b.cursor
    ensures SameShape(b.cells, b'.cells)
    ensures b'.cells[b.cursor.1][b.cursor.0] != b.cells[b.cursor.1][b.cursor.0]
    ensures forall i, j ::
      (0 <= i < |b.cells| && 0 <= j < |b.cells[i]| && (i, j) != (b.cursor.1, b.cursor.0)) ==>
        b'.cells[i][j] == b.cells[i][j]
    ensures Valid(b) ==> Valid(b')
  {
    var (c, r) := b.cursor;
    b.(cells := b.cells[r := b.cells[r][c := Toggle(b.cells[r][c])]])
  }

  /** Toggling the cursor cell twice restores the board. */
  lemma ToggleCurCellTwice(b: Board)
    requires b.cursor.1 < |b.cells| && b.cursor.0 < |b.cells[b.cursor.1]|
    ensures ToggleCurCell(ToggleCurCell(b)) == b
  {
    var (c, r) := b.cursor;
    var b2 := ToggleCurCell(ToggleCurCell(b));
    assert b2.cells[r] == b.cells[r];
    assert b2.cells == b.cells;
  }

  /** `Board::clear`: the cells are replaced by those of a new board built
      with the current sizes (re-clamped), the cursor is kept. The source
      reads the first row, so it panics on a board without rows. */
  function Clear(b: Board): (b': Board)
    requires |b.cells| > 0
    ensures b'.cursor == b.cursor
    ensures AllDead(b'.cells)
    ensures HasShape(b'.cells, Clamp(|b.cells|, MinRows, MaxRows), Clamp(|b.cells[0]|, MinCols, MaxCols))
    ensures Valid(b) ==> Valid(b') && HasShape(b'.cells, |b.cells|, |b.cells[0]|)
  {
    b.(cells := New(|b.cells|, |b.cells[0]|).cells)
  }

  /** On a board the program builds the re-clamp changes nothing: clearing
      gives a Dead grid of exactly the board's size. Clearing twice is
      clearing once. */
  lemma ClearIsNewOfSameSize(b: Board)
    requires |b.cells| > 0
    ensures Valid(b) ==> Clear(b).cells == DeadGrid(|b.cells|, |b.cells[0]|)
    ensures Clear(Clear(b)) == Clear(b)
  {
  }

  /** `Board::randomize`: every cell is redrawn from the random source, which
      is modelled by `coin` (one draw per cell); a `true` draw gives Dead. */
  function Randomize(b: Board, coin: (nat, nat) -> bool): (b': Board)
    ensures b'.cursor == b.cursor
    ensures SameShape(b.cells, b'.cells)
    ensures forall i, j :: 0 <= i < |b.cells| && 0 <= j < |b.cells[i]| ==>
      (b'.cells[i][j] == Dead <==> coin(i, j))
    ensures Valid(b) ==> Valid(b')
  {
    b.(cells := seq(|b.cells|, i requires 0 <= i < |b.cells| =>
      seq(|b.cells[i]|, j requires 0 <= j < |b.cells[i]| => if coin(i, j) then Dead else Alive)))
  }

  /** Every grid of the board's shape is a possible outcome of `Randomize`,
      and only the cells change. */
  lemma RandomizeReachesEveryGrid(b: Board, g: Grid)
    requires SameShape(b.cells, g)
    ensures exists coin :: Randomize(b, coin) == b.(cells := g)
  {
    var coin := (i: nat, j: nat) => i < |g| && j < |g[i]| && g[i][j] == Dead;
    var b' := Randomize(b, coin);
    forall i | 0 <= i < |g|
      ensures b'.cells[i] == g[i]
    {
      forall j | 0 <= j < |g[i]|
        ensures b'.cells[i][j] == g[i][j]
      {
        assert coin(i, j) <==> g[i][j] == Dead;
      }
    }
    assert b'.cells == g;
  }

  /** The board after one generation; `Kernel.NextGen` computes its cells. */
  function Advance(b: Board): (b': Board)
    requires IsGrid(b.cells)
    ensures b'.cursor == b.cursor
    ensures HasShape(b'.cells, |b.cells|, |b.cells[0]|)
    ensures Valid(b) ==> Valid(b')
  {
    b.(cells := Step(b.cells))
  }

  /** A cleared board stays the same over a generation. */
  lemma ClearedBoardIsStill(b: Board)
    requires Valid(b)
    ensures Advance(Clear(b)) == Clear(b)
  {
    StepAllDead(Clear(b).cells);
  }

  /** The operations gol_gui.rs and gol.rs offer on their boards. Neither file
      has a way to move the cursor. */
  datatype Op = NextGen | ToggleCell | ClearCells | RandomizeCells(coin: (nat, nat) -> bool)

  function Apply(b: Board, op: Op): (b': Board)
    requires Valid(b)
    ensures Valid(b')
    ensures HasShape(b'.cells, |b.cells|, |b.cells[0]|)
    ensures b'.cursor == b.cursor
  {
    match op
    case NextGen => Advance(b)
    case ToggleCell => ToggleCurCell(b)
    case ClearCells => Clear(b)
    case RandomizeCells(coin) => Randomize(b, coin)
  }

  /** The board after applying `ops` in order. */
  function Replay(b: Board, ops: seq<Op>): (b': Board)
    requires Valid(b)
    ensures Valid(b')
    ensures HasShape(b'.cells, |b.cells|, |b.cells[0]|)
    ensures b'.cursor == b.cursor
    decreases |ops|
  {
    if ops == [] then b else Replay(Apply(b, ops[0]), ops[1..])
  }

  /** Whatever operations follow `new`, the board keeps its clamped size and
      its cursor stays at (0, 0), so toggling always flips the top-left cell
      and nothing else. */
  lemma CursorStaysAtOrigin(rows: nat, cols: nat, ops: seq<Op>)
    ensures var b := Replay(New(rows, cols), ops);
      && b.cursor == (0, 0)
      && HasShape(b.cells, Clamp(rows, MinRows, MaxRows), Clamp(cols, MinCols, MaxCols))
      && ToggleCurCell(b).cells[0][0] == Toggle(b.cells[0][0])
      && (forall i, j ::
            (0 <= i < |b.cells| && 0 <= j < |b.cells[i]| && (i, j) != (0, 0)) ==>
              ToggleCurCell(b).cells[i][j] == b.cells[i][j])
  {
    var b := Replay(New(rows, cols), ops);
    assert ToggleCurCell(b).cells[0][0] != b.cells[0][0];
  }
}
