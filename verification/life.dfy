/**
 The reference semantics of Conway's Game of Life (birth on 3, survival on 2
 or 3) on a toroidal grid: every index is taken modulo the grid's height or
 width, so there are no edges. The board code of all three front-ends is
 proved against the definitions here.
 */
module Life {
  import Modulo

  datatype Cell = Dead | Alive

  /** `Cell::toggle`: the other state. */
  function Toggle(c: Cell): (t: Cell)
    ensures t != c
  {
    match c
    case Alive => Dead
    case Dead => Alive
  }

  /** Toggling twice gives back the original cell. */
  lemma ToggleInvolutive(c: Cell)
    ensures Toggle(Toggle(c)) == c
  {
  }

  /** Rows of cells, indexed `g[row][col]`. */
  type Grid = seq<seq<Cell>>

  /** `g` has exactly `rows` rows of exactly `cols` cells each. */
  predicate HasShape(g: Grid, rows: nat, cols: nat) {
    |g| == rows && forall i :: 0 <= i < |g| ==> |g[i]| == cols
  }

  /** A non-empty rectangular grid. */
  predicate IsGrid(g: Grid) {
    |g| > 0 && |g[0]| > 0 && HasShape(g, |g|, |g[0]|)
  }

  predicate AllDead(g: Grid) {
    forall i, j :: 0 <= i < |g| && 0 <= j < |g[i]| ==> g[i][j] == Dead
  }

  /** A `rows` by `cols` grid of Dead cells. */
  function DeadGrid(rows: nat, cols: nat): (g: Grid)
    ensures HasShape(g, rows, cols)
    ensures AllDead(g)
  {
    seq(rows, _ => seq(cols, _ => Dead))
  }

  /** The toroidal index: the unique index in `[0, len)` congruent to `k`. */
  function Wrap(k: int, len: nat): (w: nat)
    requires len > 0
    ensures w < len
    ensures Modulo.Congruent(k, w, len)
  {
    Modulo.ModCongruent(k, len);
    k % len
  }

  /** Stepping off either edge re-enters at the opposite edge; in range, the
      index is unchanged. */
  lemma WrapEdges(len: nat)
    requires len > 0
    ensures Wrap(-1, len) == len - 1
    ensures Wrap(len, len) == 0
    ensures forall k :: 0 <= k < len ==> Wrap(k, len) == k
  {
    Modulo.ShiftCongruent(len - 1, -1, len);
    Modulo.TransCongruent(len - 1, -1, Wrap(-1, len), len);
    Modulo.CongruentInWindow(len - 1, Wrap(-1, len), 0, len);
    Modulo.ShiftCongruent(0, len, len);
    Modulo.TransCongruent(0, len, Wrap(len, len), len);
    Modulo.CongruentInWindow(0, Wrap(len, len), 0, len);
    forall k | 0 <= k < len
      ensures Wrap(k, len) == k
    {
      Modulo.CongruentInWindow(k, Wrap(k, len), 0, len);
    }
  }

  /** On an axis of length at least 3, offsets in {-1, 0, 1} from the same
      index wrap to distinct positions. */
  lemma WrapSeparatesOffsets(x: int, a: int, b: int, len: nat)
    requires len >= 3
    requires -1 <= a <= 1 && -1 <= b <= 1
    requires Wrap(x + a, len) == Wrap(x + b, len)
    ensures a == b
  {
    var w := Wrap(x + a, len);
    Modulo.NegateCongruent(x + b, w, len);
    Modulo.AddMultiples(x + a - w, -(x + b - w), len);
    assert Modulo.Congruent(a, b, len) by {
      assert (x + a - w) + -(x + b - w) == a - b;
    }
    Modulo.CongruentInWindow(a, b, -1, len);
  }

  /** The Moore offsets (row, col), in the order a row-major scan of the 3 by 3
      block around a cell meets them, the centre left out. */
  const Moore: seq<(int, int)> :=
    [(-1, -1), (-1, 0), (-1, 1), (0, -1), (0, 1), (1, -1), (1, 0), (1, 1)]

  /** The 8 wrapped Moore neighbour positions (row, col) of `(r, c)`. */
  function MoorePositions(rows: nat, cols: nat, r: int, c: int): (ps: seq<(nat, nat)>)
    requires rows > 0 && cols > 0
    ensures |ps| == 8
    ensures forall k :: 0 <= k < 8 ==> ps[k].0 < rows && ps[k].1 < cols
  {
    seq(8, k requires 0 <= k < 8 => (Wrap(r + Moore[k].0, rows), Wrap(c + Moore[k].1, cols)))
  }

  /** On a torus at least 3 by 3 the 8 neighbour positions are pairwise
      distinct and none of them is the cell itself. On a smaller axis the
      wrap folds two offsets onto one position. */
  lemma MoorePositionsDistinct(rows: nat, cols: nat, r: int, c: int)
    requires rows >= 3 && cols >= 3
    ensures var ps := MoorePositions(rows, cols, r, c);
      && (forall k, k' :: 0 <= k < k' < 8 ==> ps[k] != ps[k'])
      && (forall k :: 0 <= k < 8 ==> ps[k] != (Wrap(r, rows), Wrap(c, cols)))
  {
    var ps := MoorePositions(rows, cols, r, c);
    forall k, k' | 0 <= k < k' < 8
      ensures ps[k] != ps[k']
    {
      if ps[k] == ps[k'] {
        WrapSeparatesOffsets(r, Moore[k].0, Moore[k'].0, rows);
        WrapSeparatesOffsets(c, Moore[k].1, Moore[k'].1, cols);
        assert false;
      }
    }
    forall k | 0 <= k < 8
      ensures ps[k] != (Wrap(r, rows), Wrap(c, cols))
    {
      if ps[k] == (Wrap(r, rows), Wrap(c, cols)) {
        WrapSeparatesOffsets(r, Moore[k].0, 0, rows);
        WrapSeparatesOffsets(c, Moore[k].1, 0, cols);
        assert false;
      }
    }
  }

  /** With only 2 rows, the neighbours one row up and one row down of any
      cell are the same cell. */
  lemma MoorePositionsFoldOnTwoRows(cols: nat, r: int, c: int)
    requires cols > 0
    ensures var ps := MoorePositions(2, cols, r, c);
      ps[1] == ps[6]
  {
    Modulo.ShiftCongruent(r - 1, r + 1, 2);
    assert Wrap(r - 1, 2) == Wrap(r + 1, 2);
  }

  /** The states of the 8 Moore neighbours of `(r, c)`, in `Moore` order. */
  function Neighbours(g: Grid, r: int, c: int): (ns: seq<Cell>)
    requires IsGrid(g)
    ensures |ns| == 8
  {
    var ps := MoorePositions(|g|, |g[0]|, r, c);
    seq(8, k requires 0 <= k < 8 => g[ps[k].0][ps[k].1])
  }

  /** The number of Alive cells in `s`. */
  function CountAlive(s: seq<Cell>): (n: nat)
    ensures n <= |s|
  {
    if s == [] then 0
    else CountAlive(s[..|s| - 1]) + (if s[|s| - 1] == Alive then 1 else 0)
  }

  lemma {:induction false} CountAliveNone(s: seq<Cell>)
    requires forall k :: 0 <= k < |s| ==> s[k] == Dead
    ensures CountAlive(s) == 0
  {
    if s != [] {
      CountAliveNone(s[..|s| - 1]);
    }
  }

  /** The number of Alive cells among the 8 wrapped Moore neighbours. */
  function NeighbourCount(g: Grid, r: int, c: int): (n: nat)
    requires IsGrid(g)
    ensures n <= 8
  {
    CountAlive(Neighbours(g, r, c))
  }

  /** The transition of one cell that has `n` Alive neighbours: birth on 3,
      survival on 2 or 3, death otherwise. */
  function Rule(cell: Cell, n: nat): (next: Cell)
    ensures cell == Dead ==> (next == Alive <==> n == 3)
    ensures cell == Alive ==> (next == Alive <==> n == 2 || n == 3)
  {
    match cell
    case Dead => if n == 3 then Alive else Dead
    case Alive => if 2 <= n <= 3 then Alive else Dead
  }

  /** B3/S23: a cell is Alive next exactly when it has 3 Alive neighbours, or
      has 2 and is Alive now. */
  lemma RuleIsB3S23(cell: Cell, n: nat)
    ensures Rule(cell, n) == Alive <==> n == 3 || (cell == Alive && n == 2)
  {
  }

  /** One generation. Every cell of the result is computed from `g` alone,
      never from cells of the result. */
  function Step(g: Grid): (h: Grid)
    requires IsGrid(g)
    ensures IsGrid(h)
    ensures HasShape(h, |g|, |g[0]|)
  {
    seq(|g|, i requires 0 <= i < |g| =>
      seq(|g[0]|, j requires 0 <= j < |g[0]| => Rule(g[i][j], NeighbourCount(g, i, j))))
  }

  /** Each cell of the next generation obeys B3/S23 with its neighbour count
      taken on the current generation. */
  lemma StepBirthSurvival(g: Grid)
    requires IsGrid(g)
    ensures forall i, j :: 0 <= i < |g| && 0 <= j < |g[0]| ==>
      (Step(g)[i][j] == Alive <==>
        NeighbourCount(g, i, j) == 3 || (g[i][j] == Alive && NeighbourCount(g, i, j) == 2))
  {
  }

  /** The next state of a cell depends only on the cell and its 8 wrapped
      neighbours: two grids that agree there agree on it after a step. */
  lemma StepIsLocal(g: Grid, g': Grid, i: nat, j: nat)
    requires IsGrid(g) && HasShape(g', |g|, |g[0]|)
    requires i < |g| && j < |g[0]|
    requires g[i][j] == g'[i][j]
    requires var ps := MoorePositions(|g|, |g[0]|, i, j);
      forall k :: 0 <= k < 8 ==> g[ps[k].0][ps[k].1] == g'[ps[k].0][ps[k].1]
    ensures Step(g)[i][j] == Step(g')[i][j]
  {
    assert Neighbours(g, i, j) == Neighbours(g', i, j);
  }

  /** An all-Dead grid is a fixed point of the step. */
  lemma StepAllDead(g: Grid)
    requires IsGrid(g) && AllDead(g)
    ensures Step(g) == g
  {
    forall i | 0 <= i < |g|
      ensures Step(g)[i] == g[i]
    {
      forall j | 0 <= j < |g[0]|
        ensures Step(g)[i][j] == g[i][j]
      {
        CountAliveNone(Neighbours(g, i, j));
      }
    }
  }
}
