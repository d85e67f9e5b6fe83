/**
 Integer remainder helpers used for toroidal wrap-around.

 Rust's `%` on `i32` truncates toward zero (the remainder takes the sign of the
 dividend), unlike Dafny's `%`, which is Euclidean. `Rem` models Rust's
 operator; `Emod` and `RemEuclid` model the two helpers the board code builds
 on top of it, and both are shown to compute the floored modulo `FloorMod`.
 */
module Modulo {

  const I32Min: int := -0x8000_0000
  const I32Max: int := 0x7fff_ffff

  predicate IsI32(x: int) {
    I32Min <= x <= I32Max
  }

  function Abs(x: int): int {
    if x < 0 then -x else x
  }

  /** `a` and `b` are congruent modulo `m`. */
  predicate Congruent(a: int, b: int, m: int)
    requires m > 0
  {
    (a - b) % m == 0
  }

  /** When Rust's `a % b` on i32 does not panic: a zero divisor and
      `i32::MIN % -1` both panic. */
  predicate RemDefined(a: int, b: int) {
    IsI32(a) && IsI32(b) && b != 0 && !(a == I32Min && b == -1)
  }

  /** Rust's `a % b` on i32. The three ensures together pin the value down:
      it is congruent to `a`, smaller in size than `b`, and has `a`'s sign. */
  function Rem(a: int, b: int): (r: int)
    requires RemDefined(a, b)
    ensures Congruent(a, r, Abs(b))
    ensures 0 <= a ==> 0 <= r < Abs(b)
    ensures a < 0 ==> -Abs(b) < r <= 0
  {
    var m := Abs(b);
    if 0 <= a then
      ModCongruent(a, m);
      a % m
    else
      ModCongruent(-a, m);
      NegateCongruent(-a, (-a) % m, m);
      -((-a) % m)
  }

  /** The floored modulo (the result takes the sign of the divisor): the
      reference every wrap helper is compared against. For a positive divisor
      it is Dafny's `%`. */
  function FloorMod(a: int, b: int): (r: int)
    requires b != 0
    ensures Congruent(a, r, Abs(b))
    ensures 0 < b ==> 0 <= r < b
    ensures b < 0 ==> b < r <= 0
  {
    if 0 < b then
      ModCongruent(a, b);
      a % b
    else
      ModCongruent(-a, -b);
      NegateCongruent(-a, (-a) % (-b), -b);
      -((-a) % (-b))
  }

  /** When `emod(a, b)` does not panic: both `%` are defined and the
      intermediate sum `a % b + b` does not overflow i32. */
  predicate EmodDefined(a: int, b: int) {
    RemDefined(a, b) && IsI32(Rem(a, b) + b)
  }

  /** `emod` of gol_term.rs and gol_gui.rs: `(a % b + b) % b` with Rust's `%`. */
  function Emod(a: int, b: int): (r: int)
    requires EmodDefined(a, b)
    ensures r == FloorMod(a, b)
    ensures 0 < b ==> 0 <= r < b && r == a % b
  {
    var t := Rem(a, b);
    var r := Rem(t + b, b);
    AddCongruent(a, t, t + b, r, Abs(b));
    CongruentToFloorMod(a, r, b);
    if 0 < b then FloorModPositive(a, b); r else r
  }

  /** The hand-written `rem_euclid` of gol.rs. */
  function RemEuclid(a: int, b: int): (r: int)
    requires RemDefined(a, b)
    ensures r == FloorMod(a, b)
    ensures 0 < b ==> 0 <= r < b && r == a % b
  {
    var t := Rem(a, b);
    var r := if (t < 0 && b > 0) || (t > 0 && b < 0) then t + b else t;
    ShiftCongruent(t, r, Abs(b));
    TransCongruent(a, t, r, Abs(b));
    CongruentToFloorMod(a, r, b);
    if 0 < b then FloorModPositive(a, b); r else r
  }

  /** The two helpers agree wherever `emod` is defined, whatever the sign of
      the divisor. */
  lemma EmodAgreesWithRemEuclid(a: int, b: int)
    requires EmodDefined(a, b)
    ensures Emod(a, b) == RemEuclid(a, b)
  {
  }

  /** The wrap-around cases the neighbour scan relies on: one step before 0
      lands on the last index and one step past the last index lands on 0. */
  lemma EmodWrapsEdges(len: int)
    requires 0 < len <= I32Max
    ensures Emod(-1, len) == len - 1
    ensures Emod(len, len) == 0
    ensures RemEuclid(-1, len) == len - 1
    ensures RemEuclid(len, len) == 0
  {
    ShiftCongruent(-1, len - 1, len);
    CongruentToFloorMod(-1, len - 1, len);
    ShiftCongruent(len, 0, len);
    CongruentToFloorMod(len, 0, len);
  }

  /** Unlike Rust's standard `i32::rem_euclid`, whose result is never
      negative, the hand-written one returns a non-positive value for a
      negative divisor. */
  lemma RemEuclidNegativeDivisor()
    ensures RemEuclid(1, -3) == -2
  {
  }

  // ---------------------------------------------------------------------
  // Arithmetic facts about Dafny's Euclidean `%`.

  lemma MulMod(m: nat, q: int)
    requires m > 0
    ensures (m * q) % m == 0
  {
    var x := m * q;
    var d := x / m - q;
    assert m * d == x % m by {
      assert x == m * (x / m) + x % m;
      assert m * d == m * (x / m) - m * q;
    }
  }

  lemma MulMonotone(m: nat, d: int)
    requires d >= 1
    ensures m * d >= m
  {
  }

  lemma ModCongruent(a: int, m: nat)
    requires m > 0
    ensures Congruent(a, a % m, m)
  {
    assert a == m * (a / m) + a % m;
    MulMod(m, a / m);
  }

  lemma NegateCongruent(a: int, b: int, m: nat)
    requires m > 0 && Congruent(a, b, m)
    ensures Congruent(-a, -b, m)
  {
    var q := (a - b) / m;
    assert a - b == m * q + (a - b) % m;
    assert -a - -b == m * (-q);
    MulMod(m, -q);
  }

  lemma AddMultiples(x: int, y: int, m: nat)
    requires m > 0 && x % m == 0 && y % m == 0
    ensures (x + y) % m == 0
  {
    assert x == m * (x / m);
    assert y == m * (y / m);
    assert x + y == m * (x / m + y / m);
    MulMod(m, x / m + y / m);
  }

  lemma TransCongruent(a: int, b: int, c: int, m: nat)
    requires m > 0 && Congruent(a, b, m) && Congruent(b, c, m)
    ensures Congruent(a, c, m)
  {
    AddMultiples(a - b, b - c, m);
  }

  /** Adding or subtracting the modulus keeps congruence. */
  lemma ShiftCongruent(t: int, r: int, m: nat)
    requires m > 0 && (r == t || r == t + m || r == t - m)
    ensures Congruent(t, r, m)
  {
    if r == t {
      assert t - r == m * 0;
      MulMod(m, 0);
    } else if r == t + m {
      assert t - r == m * -1;
      MulMod(m, -1);
    } else {
      assert t - r == m * 1;
      MulMod(m, 1);
    }
  }

  /** `a ≡ t` and `t + b ≡ r` give `a ≡ r` modulo `|b|`. */
  lemma AddCongruent(a: int, t: int, s: int, r: int, m: nat)
    requires m > 0 && Congruent(a, t, m) && Congruent(s, r, m)
    requires s == t + m || s == t - m
    ensures Congruent(a, r, m)
  {
    ShiftCongruent(t, s, m);
    TransCongruent(a, t, s, m);
    TransCongruent(a, s, r, m);
  }

  /** Two congruent numbers in the same window of width `m` are equal. */
  lemma CongruentInWindow(r1: int, r2: int, lo: int, m: nat)
    requires m > 0 && Congruent(r1, r2, m)
    requires lo <= r1 < lo + m && lo <= r2 < lo + m
    ensures r1 == r2
  {
    var d := r1 - r2;
    var q := d / m;
    assert d == m * q;
    if q >= 1 {
      MulMonotone(m, q);
    } else if q <= -1 {
      MulMonotone(m, -q);
    }
  }

  /** A value congruent to `a` in `FloorMod`'s range is `FloorMod(a, b)`. */
  lemma CongruentToFloorMod(a: int, r: int, b: int)
    requires b != 0 && Congruent(a, r, Abs(b))
    requires 0 < b ==> 0 <= r < b
    requires b < 0 ==> b < r <= 0
    ensures r == FloorMod(a, b)
  {
    var f := FloorMod(a, b);
    NegateCongruent(a, r, Abs(b));
    AddMultiples(-(a - r), a - f, Abs(b));
    assert Congruent(r, f, Abs(b));
    if 0 < b {
      CongruentInWindow(r, f, 0, b);
    } else {
      CongruentInWindow(r, f, b + 1, -b);
    }
  }

  lemma FloorModPositive(a: int, b: int)
    requires 0 < b
    ensures FloorMod(a, b) == a % b
  {
  }
}
