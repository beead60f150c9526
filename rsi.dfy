/** The 14-span relative strength index: `RS = roll_up / roll_down` and
    `RSI = 100 - 100 / (1 + RS)`, with IEEE division's outcomes on a zero
    denominator (x/0 = +inf for x > 0, 0/0 = NaN) written out. */
module Rsi {
  import opened Wrappers
  import opened Series
  import opened Indicators
  import opened Ewm

  /** The RSI cell for the smoothed gain `up` and smoothed loss `down` (both never
      negative). With `down > 0`, RS is finite; with `down == 0 < up`, RS = +inf and
      100 / (1 + inf) = 0 gives 100; with both 0, RS = 0/0 is NaN. */
  function RsiValue(up: real, down: real): (r: Option<real>)
    requires up >= 0.0 && down >= 0.0
    ensures r.Some? <==> up > 0.0 || down > 0.0
    ensures r.Some? ==> 0.0 <= r.value <= 100.0
    ensures down > 0.0 ==> r == Some(100.0 * up / (up + down))
    ensures down == 0.0 && up > 0.0 ==> r == Some(100.0)
  {
    if down > 0.0 then
      var rs := up / down;
      RsiAlgebra(up, down, rs);
      Some(100.0 - 100.0 / (1.0 + rs))
    else if up > 0.0 then Some(100.0)
    else None
  }

  /** 100 - 100 / (1 + up/down) is 100 * up / (up + down), a value in [0, 100]. */
  lemma RsiAlgebra(up: real, down: real, rs: real)
    requires up >= 0.0 && down > 0.0 && rs == up / down
    ensures 100.0 - 100.0 / (1.0 + rs) == 100.0 * up / (up + down)
    ensures 0.0 <= 100.0 * up / (up + down) <= 100.0
  {
    assert rs * down == up;
    var a := 100.0 / (1.0 + rs);
    var b := 100.0 * up / (up + down);
    assert a * (1.0 + rs) == 100.0;
    assert b * (up + down) == 100.0 * up;
    assert (1.0 + rs) * down == up + down;
    calc {
      (100.0 - a) * (up + down);
      100.0 * (up + down) - a * ((1.0 + rs) * down);
      100.0 * (up + down) - (a * (1.0 + rs)) * down;
      100.0 * up;
      b * (up + down);
    }
    CancelFactor(100.0 - a, b, up + down);
    assert b <= 100.0 by {
      assert b * (up + down) <= 100.0 * (up + down);
    }
  }

  /** The RSI column of a close series: gains and losses of `Close.diff()`, each
      smoothed by `ewm(span=14).mean()`, combined row by row. */
  function RsiColumn(close: seq<real>): (r: Column)
    ensures |r| == |close|
    ensures forall t :: 0 <= t < |close| && r[t].Some? ==> 0.0 <= r[t].value <= 100.0
  {
    var up := EwmColumn(Gains(Delta(close)));
    var down := EwmColumn(Losses(Delta(close)));
    EwmNonnegative(Gains(Delta(close)));
    EwmNonnegative(Losses(Delta(close)));
    seq(|close|, t requires 0 <= t < |close| => RsiValue(up[t], down[t]))
  }

  /** The close changed at some row in 1..t. */
  predicate MovedBy(close: seq<real>, t: nat)
    requires t < |close|
  {
    exists j :: 1 <= j <= t && close[j] != close[j - 1]
  }

  /** Once the close has moved, it has moved by every later row. */
  lemma MovedByLater(close: seq<real>, t: nat, u: nat)
    requires t <= u < |close| && MovedBy(close, t)
    ensures MovedBy(close, u)
  {
    var j :| 1 <= j <= t && close[j] != close[j - 1];
    assert 1 <= j <= u;
  }

  /** RSI is defined at row t exactly when the close has moved at some row up to t:
      otherwise both smoothed averages are 0 and RS is 0/0. */
  lemma RsiDefinedIff(close: seq<real>, t: nat)
    requires t < |close|
    ensures RsiColumn(close)[t].Some? <==> MovedBy(close, t)
  {
    var g, l := Gains(Delta(close)), Losses(Delta(close));
    EwmPositiveIff(g, t);
    EwmPositiveIff(l, t);
    EwmNonnegative(g);
    EwmNonnegative(l);
    if MovedBy(close, t) {
      var j :| 1 <= j <= t && close[j] != close[j - 1];
      GainLossSplit(close, j);
      assert g[j] > 0.0 || l[j] > 0.0;
    } else {
      forall j | 0 <= j <= t
        ensures g[j] == 0.0 && l[j] == 0.0
      {
        GainLossSplit(close, j);
      }
    }
  }

  /** Row 0 never has an RSI: its gain and loss are both 0. */
  lemma RsiUndefinedAtRowZero(close: seq<real>)
    requires |close| > 0
    ensures RsiColumn(close)[0].None?
  {
    RsiDefinedIff(close, 0);
  }

  /** A close that never moves has no RSI on any row. */
  lemma RsiOfFlatClose(close: seq<real>)
    requires forall j :: 0 <= j < |close| ==> close[j] == close[0]
    ensures forall t :: 0 <= t < |close| ==> RsiColumn(close)[t].None?
  {
    forall t | 0 <= t < |close|
      ensures RsiColumn(close)[t].None?
    {
      RsiDefinedIff(close, t);
    }
  }

  /** A close that has risen at least once and never fallen up to row t has RSI 100
      there: the smoothed loss is 0 and the smoothed gain positive. */
  lemma RsiOfRisingClose(close: seq<real>, t: nat)
    requires t < |close|
    requires forall j :: 1 <= j <= t ==> close[j] >= close[j - 1]
    requires MovedBy(close, t)
    ensures RsiColumn(close)[t] == Some(100.0)
  {
    var l := Losses(Delta(close));
    forall j | 0 <= j <= t
      ensures 0.0 <= l[j] <= 0.0
    {
      GainLossSplit(close, j);
    }
    EwmBounds(l, t, 0.0, 0.0);
    RsiDefinedIff(close, t);
  }
}
