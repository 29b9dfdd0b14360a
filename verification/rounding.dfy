/** Decimal rounding as bignumber.js performs it by default (ROUND_HALF_UP:
    to the nearest neighbour, ties away from zero), and the division whose
    quotient it rounds to 20 decimal places.

    Scaling by a power of ten is written as a recursion that multiplies or
    divides by ten once per step, so that every proof step stays linear. */
module Rounding {

  function Abs(x: real): (a: real)
    ensures a >= 0.0 && (a == x || a == -x)
  {
    if x < 0.0 then -x else x
  }

  /** x * 10^dp */
  function Shift(x: real, dp: nat): real {
    if dp == 0 then x else Shift(x, dp - 1) * 10.0
  }

  /** x / 10^dp */
  function Unshift(x: real, dp: nat): real {
    if dp == 0 then x else Unshift(x, dp - 1) / 10.0
  }

  lemma {:induction false} ShiftAdd(a: real, b: real, dp: nat)
    ensures Shift(a + b, dp) == Shift(a, dp) + Shift(b, dp)
    ensures Shift(a - b, dp) == Shift(a, dp) - Shift(b, dp)
    ensures Shift(-a, dp) == -Shift(a, dp)
  {
    if dp > 0 {
      ShiftAdd(a, b, dp - 1);
    }
  }

  lemma {:induction false} ShiftMonotone(a: real, b: real, dp: nat)
    ensures a <= b ==> Shift(a, dp) <= Shift(b, dp)
    ensures a < b ==> Shift(a, dp) < Shift(b, dp)
    ensures a == 0.0 ==> Shift(a, dp) == 0.0
  {
    if dp > 0 {
      ShiftMonotone(a, b, dp - 1);
    }
  }

  lemma {:induction false} ShiftTenth(a: real, dp: nat)
    ensures Shift(a / 10.0, dp) == Shift(a, dp) / 10.0
  {
    if dp > 0 {
      ShiftTenth(a, dp - 1);
    }
  }

  lemma {:induction false} ShiftUnshift(x: real, dp: nat)
    ensures Shift(Unshift(x, dp), dp) == x
  {
    if dp > 0 {
      ShiftTenth(Unshift(x, dp - 1), dp - 1);
      ShiftUnshift(x, dp - 1);
    }
  }

  /** Shifting is one-to-one and order-preserving, so a fact about shifted
      values carries back to the values themselves. */
  lemma ShiftReflects(a: real, b: real, dp: nat)
    ensures Shift(a, dp) <= Shift(b, dp) ==> a <= b
    ensures Shift(a, dp) == Shift(b, dp) ==> a == b
  {
    ShiftMonotone(a, b, dp);
    ShiftMonotone(b, a, dp);
  }

  lemma UnshiftShift(x: real, dp: nat)
    ensures Unshift(Shift(x, dp), dp) == x
  {
    ShiftUnshift(Shift(x, dp), dp);
    ShiftReflects(Unshift(Shift(x, dp), dp), x, dp);
  }

  lemma {:induction false} UnshiftZero(dp: nat)
    ensures Unshift(0.0, dp) == 0.0
  {
    if dp > 0 {
      UnshiftZero(dp - 1);
    }
  }

  lemma UnshiftMonotone(a: real, b: real, dp: nat)
    requires a <= b
    ensures Unshift(a, dp) <= Unshift(b, dp)
    ensures a == 0.0 ==> Unshift(a, dp) == 0.0
  {
    UnshiftZero(dp);
    ShiftUnshift(a, dp);
    ShiftUnshift(b, dp);
    ShiftReflects(Unshift(a, dp), Unshift(b, dp), dp);
  }

  lemma UnshiftNeg(a: real, dp: nat)
    ensures Unshift(-a, dp) == -Unshift(a, dp)
  {
    ShiftUnshift(a, dp);
    ShiftUnshift(-a, dp);
    ShiftAdd(Unshift(a, dp), 0.0, dp);
    ShiftReflects(Unshift(-a, dp), -Unshift(a, dp), dp);
  }

  /** x is a whole number of units 10^-dp. */
  predicate OnGrid(x: real, dp: nat) {
    Shift(x, dp).Floor as real == Shift(x, dp)
  }

  /** The magnitude a, counted in units of 10^-dp and rounded to the nearest
      whole unit, halves upward. */
  function RoundScaled(a: real, dp: nat): (n: nat)
    requires a >= 0.0
    ensures Shift(a, dp) - 0.5 < n as real <= Shift(a, dp) + 0.5
  {
    ShiftMonotone(0.0, a, dp);
    (Shift(a, dp) + 0.5).Floor
  }

  /** x rounded to dp decimal places, ties away from zero: the value that
      `toFixed(dp)` prints and that `div` keeps (with dp = 20). */
  function Rounded(x: real, dp: nat): (r: real)
    // r is a whole number of units 10^-dp ...
    ensures OnGrid(r, dp)
    // ... at most half a unit away from x ...
    ensures -0.5 <= Shift(r, dp) - Shift(x, dp) <= 0.5
    // ... and a tie goes away from zero
    ensures Shift(r, dp) - Shift(x, dp) == 0.5 ==> x > 0.0
    ensures Shift(r, dp) - Shift(x, dp) == -0.5 ==> x < 0.0
    // rounding never crosses zero
    ensures x >= 0.0 ==> r >= 0.0
    ensures x <= 0.0 ==> r <= 0.0
  {
    var n := RoundScaled(Abs(x), dp);
    ShiftUnshift(n as real, dp);
    ShiftAdd(x, 0.0, dp);
    ShiftMonotone(0.0, x, dp);
    ShiftMonotone(x, 0.0, dp);
    if x < 0.0 then
      UnshiftNeg(n as real, dp);
      ShiftAdd(Unshift(n as real, dp), 0.0, dp);
      UnshiftMonotone(0.0, n as real, dp);
      var r := -Unshift(n as real, dp);
      assert Shift(r, dp) == -(n as real);
      assert Shift(r, dp).Floor == -(n as int);
      r
    else
      UnshiftMonotone(0.0, n as real, dp);
      Unshift(n as real, dp)
  }

  /** The rounding error, as a bound on the distance itself. */
  lemma RoundedError(x: real, dp: nat)
    ensures Abs(Rounded(x, dp) - x) <= Unshift(0.5, dp)
  {
    var r := Rounded(x, dp);
    ShiftAdd(r, x, dp);
    ShiftUnshift(0.5, dp);
    ShiftAdd(Unshift(0.5, dp), 0.0, dp);
    ShiftReflects(r - x, Unshift(0.5, dp), dp);
    ShiftReflects(-Unshift(0.5, dp), r - x, dp);
  }

  lemma Unshift20()
    ensures Unshift(0.5, 20) == 0.000000000000000000005
  {
    assert Unshift(0.5, 5) == 0.000005;
    assert Unshift(0.5, 10) == 0.00000000005;
    assert Unshift(0.5, 15) == 0.0000000000000005;
  }

  /** The quotient x / y as bignumber.js `div` returns it: rounded to
      DECIMAL_PLACES = 20 places with ROUNDING_MODE = ROUND_HALF_UP. */
  function Div(x: real, y: real): (q: real)
    requires y != 0.0
    ensures OnGrid(q, 20)
    ensures Abs(q - x / y) <= 0.000000000000000000005
  {
    RoundedError(x / y, 20);
    Unshift20();
    Rounded(x / y, 20)
  }

  /** A value already on the grid of 10^-dp is left unchanged. */
  lemma RoundedExact(x: real, dp: nat)
    requires OnGrid(x, dp)
    ensures Rounded(x, dp) == x
  {
    var r := Rounded(x, dp);
    var kr, kx := Shift(r, dp).Floor, Shift(x, dp).Floor;
    assert kr == kx;
    ShiftReflects(r, x, dp);
  }

  /** Rounding preserves order. */
  lemma RoundedMonotone(x: real, y: real, dp: nat)
    requires x <= y
    ensures Rounded(x, dp) <= Rounded(y, dp)
  {
    var rx, ry := Rounded(x, dp), Rounded(y, dp);
    ShiftMonotone(x, y, dp);
    var kx, ky := Shift(rx, dp).Floor, Shift(ry, dp).Floor;
    assert kx <= ky;
    ShiftReflects(rx, ry, dp);
  }

  /** Rounding to dq places after rounding to dp places stays within the
      sum of the two half-unit errors of the exact value. */
  lemma RoundedTwice(x: real, dp: nat, dq: nat)
    ensures Abs(Rounded(Rounded(x, dp), dq) - x) <= Unshift(0.5, dq) + Unshift(0.5, dp)
  {
    RoundedError(x, dp);
    RoundedError(Rounded(x, dp), dq);
  }
}
