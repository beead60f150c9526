/** `DataFrame.round(2)`: numpy scales by 100, rounds to the nearest integer with
    ties to even (`rint`), and scales back. Exact reals stand in for doubles. */
module Rounding {

  /** The integer nearest to y; a tie (y exactly halfway) goes to the even neighbour. */
  function RoundHalfEven(y: real): (r: int)
    ensures -0.5 <= r as real - y <= 0.5
    ensures y - y.Floor as real != 0.5 ==> -0.5 < r as real - y < 0.5
    ensures y - y.Floor as real == 0.5 ==> r % 2 == 0
  {
    var f := y.Floor;
    var d := y - f as real;
    if d < 0.5 then f
    else if d > 0.5 then f + 1
    else if f % 2 == 0 then f else f + 1
  }

  /** Rounding to two decimals. */
  function Round2(v: real): (r: real)
    ensures -0.005 <= r - v <= 0.005
    ensures (r * 100.0).Floor as real == r * 100.0
  {
    RoundHalfEven(v * 100.0) as real / 100.0
  }

  /** An integer rounds to itself. */
  lemma RoundHalfEvenOfInteger(k: int)
    ensures RoundHalfEven(k as real) == k
  {
    assert (k as real).Floor == k;
  }

  /** A value with at most two decimals is left as it is. */
  lemma Round2OfCents(k: int)
    ensures Round2(k as real / 100.0) == k as real / 100.0
  {
    assert k as real / 100.0 * 100.0 == k as real;
    RoundHalfEvenOfInteger(k);
  }

  /** Rounding twice is rounding once. */
  lemma Round2Idempotent(v: real)
    ensures Round2(Round2(v)) == Round2(v)
  {
    var k := RoundHalfEven(v * 100.0);
    Round2OfCents(k);
  }

  /** Rounding to the nearest integer never reverses an order. */
  lemma RoundHalfEvenMonotone(a: real, b: real)
    requires a <= b
    ensures RoundHalfEven(a) <= RoundHalfEven(b)
  {
  }

  /** Rounding to two decimals never reverses an order. */
  lemma Round2Monotone(a: real, b: real)
    requires a <= b
    ensures Round2(a) <= Round2(b)
  {
    RoundHalfEvenMonotone(a * 100.0, b * 100.0);
  }

  /** A value in [lo, hi] with two-decimal bounds rounds into [lo, hi]. */
  lemma Round2Within(v: real, lo: int, hi: int)
    requires lo as real / 100.0 <= v <= hi as real / 100.0
    ensures lo as real / 100.0 <= Round2(v) <= hi as real / 100.0
  {
    Round2Monotone(lo as real / 100.0, v);
    Round2Monotone(v, hi as real / 100.0);
    Round2OfCents(lo);
    Round2OfCents(hi);
  }
}
