/**
 The generation kernel as the source writes it: `count_n`, a 3 by 3 scan
 around a cell with wrapped indices, and `next_gen`, which fills a copy of the
 board cell by cell while reading only the original. Both are proved to
 compute the reference `Life.NeighbourCount` and `Life.Step`.
 */
module Kernel {
  import opened Life
  import Modulo

  /** The modulo helper a front-end's scan wraps indices with: `emod` in
      gol_term.rs and gol_gui.rs, the hand-written `rem_euclid` in gol.rs. */
  datatype WrapHelper = EmodHelper | RemEuclidHelper

  /** The largest board side for which the scan's i32 arithmetic cannot
      overflow: `emod` forms `a % b + b`, which reaches `2 * b - 1`. */
  const MaxSide: nat := 0x4000_0000

  /** The boards `next_gen` can step without a panic or an overflow:
      rectangular (possibly without rows or columns, in which case no cell is
      scanned) with sides up to `MaxSide`. */
  predicate Steppable(g: Grid) {
    |g| == 0 || (HasShape(g, |g|, |g[0]|) && |g| <= MaxSide && |g[0]| <= MaxSide)
  }

  /** The wrapped index the scan computes for `a`, which lies between -1 and
      `len`, on an axis of length `len` (the `usize` to `i32` casts are exact
      for such values). */
  function WrapWith(h: WrapHelper, a: int, len: nat): (w: nat)
    requires 0 < len <= MaxSide && -1 <= a <= len
    ensures w == Wrap(a, len)
  {
    match h
    case EmodHelper => Modulo.Emod(a, len)
    case RemEuclidHelper => Modulo.RemEuclid(a, len)
  }

  /** How many of the 8 neighbours a row-major scan of the 3 by 3 block has
      passed when it reaches offset `(dr, dc)`, counted from 0. */
  function Scanned(dr: nat, dc: nat): nat {
    if 3 * dr + dc <= 4 then 3 * dr + dc else 3 * dr + dc - 1
  }

  /** The scan meets the neighbours in `Moore` order. */
  lemma ScanFollowsMoore(dr: nat, dc: nat)
    requires dr <= 2 && dc <= 2 && (dr, dc) != (1, 1)
    ensures Scanned(dr, dc) < 8
    ensures Moore[Scanned(dr, dc)] == (dr - 1, dc - 1)
  {
  }

  /** The neighbour the scan reads at offset `(dr, dc)` is the one `Neighbours`
      lists at position `Scanned(dr, dc)`. */
  lemma ScanReadsNeighbour(g: Grid, row: nat, col: nat, dr: nat, dc: nat)
    requires IsGrid(g)
    requires dr <= 2 && dc <= 2 && (dr, dc) != (1, 1)
    ensures Scanned(dr, dc) < 8
    ensures Neighbours(g, row, col)[Scanned(dr, dc)]
      == g[Wrap(row + dr - 1, |g|)][Wrap(col + dc - 1, |g[0]|)]
  {
    ScanFollowsMoore(dr, dc);
  }

  lemma CountAlivePrefix(s: seq<Cell>, k: nat)
    requires k < |s|
    ensures CountAlive(s[..k + 1]) == CountAlive(s[..k]) + (if s[k] == Alive then 1 else 0)
  {
    assert s[..k + 1][..k] == s[..k];
  }

  /** `count_n`: the number of Alive cells among the 8 wrapped neighbours of
      `(row, col)`, scanning offsets 0..=2 on both axes minus one and
      skipping the centre. */
  method CountN(g: Grid, row: nat, col: nat, h: WrapHelper) returns (n: nat)
    requires Steppable(g) && row < |g| && col < |g[0]|
    ensures n == NeighbourCount(g, row, col)
    ensures n <= 8
  {
    ghost var ns := Neighbours(g, row, col);
    n := 0;
    var dr := 0;
    while dr <= 2
      invariant dr <= 3
      invariant n == CountAlive(ns[..Scanned(dr, 0)])
    {
      var dc := 0;
      while dc <= 2
        invariant dc <= 3
        invariant n == CountAlive(ns[..Scanned(dr, dc)])
      {
        if dr != 1 || dc != 1 {
          var r := WrapWith(h, row + dr - 1, |g|);
          var c := WrapWith(h, col + dc - 1, |g[0]|);
          ScanReadsNeighbour(g, row, col, dr, dc);
          CountAlivePrefix(ns, Scanned(dr, dc));
          if g[r][c] == Alive {
            n := n + 1;
          }
        }
        dc := dc + 1;
      }
      dr := dr + 1;
    }
    assert ns[..8] == ns;
  }

  /** `next_gen`: a copy of `g` is overwritten cell by cell with the rule
      applied to counts taken on `g`, so no cell sees an already updated
      neighbour. The result is exactly one generation of `g`. */
  method NextGen(g: Grid, h: WrapHelper) returns (next: Grid)
    requires Steppable(g)
    ensures IsGrid(g) ==> next == Step(g)
    ensures !IsGrid(g) ==> next == g
  {
    next := g;
    var ir := 0;
    while ir < |next|
      invariant ir <= |next| == |g|
      invariant forall i :: 0 <= i < ir ==> IsGrid(g) ==> next[i] == Step(g)[i]
      invariant forall i :: ir <= i < |next| ==> next[i] == g[i]
      invariant !IsGrid(g) ==> next == g
    {
      var row := next[ir];
      var ic := 0;
      while ic < |row|
        invariant ic <= |row| == |g[0]|
        invariant 0 < |row| ==> IsGrid(g)
        invariant forall j :: 0 <= j < ic ==> row[j] == Step(g)[ir][j]
      {
        var n := CountN(g, ir, ic, h);
        var cell := match g[ir][ic]
          case Dead => if n == 3 then Alive else Dead
          case Alive => if 2 <= n <= 3 then Alive else Dead;
        row := row[ic := cell];
        ic := ic + 1;
      }
      if IsGrid(g) {
        assert row == Step(g)[ir];
      }
      next := next[ir := row];
      ir := ir + 1;
    }
  }
}
