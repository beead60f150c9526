/** The loop-free column formulas of the feature-engineering step: percentage
    change, rolling window means, and the close-to-close difference split into
    gains and losses. */
module Indicators {
  import opened Wrappers
  import opened Series

  /** Every closing price is strictly positive, so no percentage change divides by zero. */
  predicate Positive(close: seq<real>)
  {
    forall i :: 0 <= i < |close| ==> close[i] > 0.0
  }

  /** A nonzero factor cancels from both sides of an equation. */
  lemma CancelFactor(a: real, b: real, c: real)
    requires c != 0.0 && a * c == b * c
    ensures a == b
  {
    assert (a - b) * c == 0.0;
  }

  /** Division distributes over a sum. */
  lemma DivideSum(a: real, b: real, c: real)
    requires c != 0.0
    ensures (a + b) / c == a / c + b / c
  {
  }

  /** The source's form `cur / prev - 1` of a relative move equals the textbook
      form `(cur - prev) / prev`. */
  lemma RelativeMove(prev: real, cur: real)
    requires prev > 0.0
    ensures cur / prev - 1.0 == (cur - prev) / prev
  {
    var q := cur / prev;
    var d := (cur - prev) / prev;
    assert q * prev == cur;
    assert d * prev == cur - prev;
    calc {
      (q - 1.0) * prev;
      q * prev - prev;
      cur - prev;
      d * prev;
    }
    CancelFactor(q - 1.0, d, prev);
  }

  /** One cell of `pct_change() * 100`: the move from `prev` to `cur` in percent of
      `prev`; its sign is the direction of the move. */
  function Pct(prev: real, cur: real): (p: real)
    requires prev > 0.0
    ensures p == (cur - prev) / prev * 100.0
    ensures p > 0.0 <==> cur > prev
    ensures p < 0.0 <==> cur < prev
  {
    RelativeMove(prev, cur);
    (cur / prev - 1.0) * 100.0
  }

  /** `Close.pct_change() * 100`: undefined at row 0, then the relative move in percent. */
  function PctChange(close: seq<real>): (r: Column)
    requires Positive(close)
    ensures |r| == |close|
    ensures |close| > 0 ==> r[0].None?
    ensures forall i :: 1 <= i < |close| ==> r[i] == Some(Pct(close[i - 1], close[i]))
  {
    seq(|close|, i requires 0 <= i < |close| =>
      if i == 0 then None else Some(Pct(close[i - 1], close[i])))
  }

  /** `rolling(window=w).mean()` with its default `min_periods = w`: row i holds the
      mean of the w values ending at row i once that many rows exist. */
  function RollingMean(x: seq<real>, w: nat): (r: Column)
    requires w >= 1
    ensures |r| == |x|
    ensures forall i :: 0 <= i < |x| ==> (r[i].Some? <==> i >= w - 1)
  {
    seq(|x|, i requires 0 <= i < |x| =>
      if i + 1 >= w then Some(Sum(x[i + 1 - w..i + 1]) / w as real) else None)
  }

  /** The cell of a window mean once its window is full. */
  lemma RollingMeanAt(x: seq<real>, w: nat, i: nat)
    requires 1 <= w && w - 1 <= i < |x|
    ensures RollingMean(x, w)[i] == Some(Sum(x[i + 1 - w..i + 1]) / w as real)
  {
  }

  /** A window mean lies between any lower and upper bound of the values in its window. */
  lemma RollingMeanBounds(x: seq<real>, w: nat, i: nat, lo: real, hi: real)
    requires 1 <= w && w - 1 <= i < |x|
    requires forall j :: i + 1 - w <= j <= i ==> lo <= x[j] <= hi
    ensures RollingMean(x, w)[i].Some?
    ensures lo <= RollingMean(x, w)[i].value <= hi
  {
    var window := x[i + 1 - w..i + 1];
    assert forall j :: 0 <= j < |window| ==> window[j] == x[i + 1 - w + j];
    SumBounds(window, lo, hi);
    DivideBounds(Sum(window), w as real, lo, hi);
  }

  /** Successive window means differ by the entering value minus the leaving one, over w. */
  lemma RollingMeanSlide(x: seq<real>, w: nat, i: nat)
    requires 1 <= w <= i < |x|
    ensures RollingMean(x, w)[i].Some? && RollingMean(x, w)[i - 1].Some?
    ensures RollingMean(x, w)[i].value
         == RollingMean(x, w)[i - 1].value + (x[i] - x[i - w]) / w as real
  {
    SumSlide(x, i - w, i);
    RollingMeanAt(x, w, i);
    RollingMeanAt(x, w, i - 1);
    var prev, cur := Sum(x[i - w..i]), Sum(x[i + 1 - w..i + 1]);
    assert cur == prev + (x[i] - x[i - w]);
    DivideSum(prev, x[i] - x[i - w], w as real);
  }

  /** On a linearly rising series a + b*i, the window mean ending at row i is the
      value at the window's midpoint, a + b*(i - (w - 1)/2). */
  lemma RollingMeanLinear(x: seq<real>, a: real, b: real, w: nat, i: nat)
    requires 1 <= w && w - 1 <= i < |x|
    requires forall j :: 0 <= j < |x| ==> x[j] == a + b * j as real
    ensures RollingMean(x, w)[i] == Some(a + b * (i as real - (w - 1) as real / 2.0))
  {
    var m := i + 1 - w;
    SumLinear(x, a, b, m, w);
    var total := Sum(x[m..m + w]);
    assert (2 * m + w - 1) as real == 2.0 * i as real - w as real + 1.0;
    var mid := a + b * (i as real - (w - 1) as real / 2.0);
    assert total * 2.0 == w as real * (2.0 * a + b * (2.0 * i as real - w as real + 1.0));
    assert 2.0 * mid == 2.0 * a + b * (2.0 * i as real - w as real + 1.0);
    assert total == w as real * mid;
    assert (total / w as real) * w as real == total;
    CancelFactor(total / w as real, mid, w as real);
  }

  /** `Close.diff()`: undefined at row 0, then the change from the previous row. */
  function Delta(close: seq<real>): (r: Column)
    ensures |r| == |close|
    ensures |close| > 0 ==> r[0].None?
    ensures forall i :: 1 <= i < |close| ==> r[i].Some? && close[i] == close[i - 1] + r[i].value
  {
    seq(|close|, i requires 0 <= i < |close| =>
      if i == 0 then None else Some(close[i] - close[i - 1]))
  }

  /** `np.where(delta > 0, delta, 0)`: a NaN compares false and becomes 0. */
  function Gains(delta: Column): (g: seq<real>)
    ensures |g| == |delta|
    ensures forall i :: 0 <= i < |delta| ==> g[i] >= 0.0
    ensures forall i :: 0 <= i < |delta| ==> (g[i] > 0.0 <==> delta[i].Some? && delta[i].value > 0.0)
  {
    seq(|delta|, i requires 0 <= i < |delta| =>
      if delta[i].Some? && delta[i].value > 0.0 then delta[i].value else 0.0)
  }

  /** `np.where(delta < 0, -delta, 0)`: a NaN compares false and becomes 0. */
  function Losses(delta: Column): (l: seq<real>)
    ensures |l| == |delta|
    ensures forall i :: 0 <= i < |delta| ==> l[i] >= 0.0
    ensures forall i :: 0 <= i < |delta| ==> (l[i] > 0.0 <==> delta[i].Some? && delta[i].value < 0.0)
  {
    seq(|delta|, i requires 0 <= i < |delta| =>
      if delta[i].Some? && delta[i].value < 0.0 then -delta[i].value else 0.0)
  }

  /** Gain and loss of a close series: both zero at row 0, never both nonzero, and
      their difference is the close-to-close change. */
  lemma GainLossSplit(close: seq<real>, i: nat)
    requires i < |close|
    ensures |Gains(Delta(close))| == |Losses(Delta(close))| == |close|
    ensures i == 0 ==> Gains(Delta(close))[i] == 0.0 && Losses(Delta(close))[i] == 0.0
    ensures Gains(Delta(close))[i] == 0.0 || Losses(Delta(close))[i] == 0.0
    ensures i >= 1 ==> Gains(Delta(close))[i] - Losses(Delta(close))[i] == close[i] - close[i - 1]
    ensures Gains(Delta(close))[i] + Losses(Delta(close))[i] > 0.0 <==> i >= 1 && close[i] != close[i - 1]
  {
  }
}
