/** Score arithmetic on exact reals: clamping into [0,1] and decimal rounding. */
module Numeric {

  predicate InUnit(x: real) { 0.0 <= x <= 1.0 }

  function Min(a: real, b: real): real { if a <= b then a else b }
  function Max(a: real, b: real): real { if a >= b then a else b }

  /** `max(0.0, min(1.0, x))`. */
  function Clamp01(x: real): (r: real)
    ensures InUnit(r)
    ensures InUnit(x) ==> r == x
    ensures x > 1.0 ==> r == 1.0
    ensures x < 0.0 ==> r == 0.0
  {
    Max(0.0, Min(1.0, x))
  }

  /** Nearest integer to `y`; a tie (fractional part exactly one half) goes to the even one. */
  function RoundHalfEvenInt(y: real): (n: int)
    ensures y - 0.5 <= n as real <= y + 0.5
    ensures y - y.Floor as real != 0.5 ==> y - 0.5 < n as real < y + 0.5
    ensures y - y.Floor as real == 0.5 ==> n % 2 == 0
  {
    var k := y.Floor;
    var f := y - k as real;
    if f > 0.5 then k + 1
    else if f < 0.5 then k
    else if k % 2 == 0 then k
    else k + 1
  }

  lemma RoundHalfEvenIntOfInt(n: int)
    ensures RoundHalfEvenInt(n as real) == n
  {
    assert (n as real).Floor == n;
  }

  lemma RoundHalfEvenIntMonotone(x: real, y: real)
    requires x <= y
    ensures RoundHalfEvenInt(x) <= RoundHalfEvenInt(y)
  {
    var kx, ky := x.Floor, y.Floor;
    assert kx <= ky;
  }

  /** `round(x, 3)` on an exact real: the nearest multiple of 0.001, ties to even. */
  function Round3(x: real): real
  {
    RoundHalfEvenInt(x * 1000.0) as real / 1000.0
  }

  /** `round(x, 1)` on an exact real: the nearest multiple of 0.1, ties to even. */
  function Round1(x: real): real
  {
    RoundHalfEvenInt(x * 10.0) as real / 10.0
  }

  /** The rounded value is within half a unit of the third decimal. */
  lemma Round3Error(x: real)
    ensures x - 0.0005 <= Round3(x) <= x + 0.0005
  {
  }

  /** Rounding an already-rounded value leaves it unchanged. */
  lemma Round3Idempotent(x: real)
    ensures Round3(Round3(x)) == Round3(x)
  {
    var n := RoundHalfEvenInt(x * 1000.0);
    assert Round3(x) * 1000.0 == n as real;
    RoundHalfEvenIntOfInt(n);
  }

  /** Rounding preserves the (non-strict) order of values. */
  lemma Round3Monotone(x: real, y: real)
    requires x <= y
    ensures Round3(x) <= Round3(y)
  {
    RoundHalfEvenIntMonotone(x * 1000.0, y * 1000.0);
  }

  /** Rounding keeps a score inside [0,1]. */
  lemma Round3InUnit(x: real)
    requires InUnit(x)
    ensures InUnit(Round3(x))
  {
    Round3Monotone(0.0, x);
    Round3Monotone(x, 1.0);
    assert Round3(0.0) == 0.0 by { RoundHalfEvenIntOfInt(0); }
    assert Round3(1.0) == 1.0 by { RoundHalfEvenIntOfInt(1000); }
  }

  lemma Round1Monotone(x: real, y: real)
    requires x <= y
    ensures Round1(x) <= Round1(y)
  {
    RoundHalfEvenIntMonotone(x * 10.0, y * 10.0);
  }

  /** `round(x, 1)` keeps a percentage inside [0,100]. */
  lemma Round1Percent(x: real)
    requires 0.0 <= x <= 100.0
    ensures 0.0 <= Round1(x) <= 100.0
  {
    Round1Monotone(0.0, x);
    Round1Monotone(x, 100.0);
    assert Round1(0.0) == 0.0 by { RoundHalfEvenIntOfInt(0); }
    assert Round1(100.0) == 100.0 by { RoundHalfEvenIntOfInt(1000); }
  }

  /** The worked example of a gap of one half: it is reported as 0.500. */
  lemma Round3Half()
    ensures Round3(0.5) == 0.5
  {
    RoundHalfEvenIntOfInt(500);
  }
}
