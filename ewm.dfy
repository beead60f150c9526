/** `Series.ewm(span=14).mean()` with pandas' defaults (adjust=True, no minimum
    number of periods, no missing values in the input): the value at row t is the
    weighted average of rows 0..t in which row t - k has weight Decay^k. */
module Ewm {
  import opened Series

  /** The smoothing span of the RSI averages. */
  const Span: nat := 14

  /** alpha = 2 / (span + 1) = 2/15. */
  const Alpha: real := 2.0 / (Span as real + 1.0)

  /** The weight ratio between a row and the row after it, 1 - alpha = 13/15. */
  const Decay: real := 1.0 - Alpha

  /** Decay is 13/15. */
  lemma DecayValue()
    ensures Alpha == 2.0 / 15.0 && Decay == 13.0 / 15.0
  {
  }

  /** Decay^k, the weight of the value k rows back. The factor is written as the
      literal 13/15 (see DecayValue) so that the solver treats the product as linear. */
  function Weight(k: nat): (w: real)
    ensures 0.0 < w <= 1.0
  {
    if k == 0 then 1.0 else 13.0 / 15.0 * Weight(k - 1)
  }

  /** Sum of Decay^k * x[t - k] for k < n. */
  function WeightedSum(x: seq<real>, t: nat, n: nat): real
    requires t < |x| && n <= t + 1
  {
    if n == 0 then 0.0 else WeightedSum(x, t, n - 1) + Weight(n - 1) * x[t - (n - 1)]
  }

  /** Sum of Decay^k for k < n. */
  function TotalWeight(n: nat): (tw: real)
    ensures n >= 1 ==> tw >= 1.0
    ensures tw >= 0.0
  {
    if n == 0 then 0.0 else TotalWeight(n - 1) + Weight(n - 1)
  }

  /** The adjusted exponentially weighted mean at row t. */
  function Mean(x: seq<real>, t: nat): real
    requires t < |x|
  {
    WeightedSum(x, t, t + 1) / TotalWeight(t + 1)
  }

  /** `ewm(span=14).mean()` as a column: defined from row 0 on, starting at x[0]. */
  function EwmColumn(x: seq<real>): (r: seq<real>)
    ensures |r| == |x|
    ensures |x| > 0 ==> r[0] == x[0]
  {
    assert |x| > 0 ==> WeightedSum(x, 0, 1) == x[0] && TotalWeight(1) == 1.0;
    seq(|x|, t requires 0 <= t < |x| => Mean(x, t))
  }

  /** The smallest element of a non-empty sequence. */
  function Min(s: seq<real>): (m: real)
    requires |s| > 0
    ensures forall j :: 0 <= j < |s| ==> m <= s[j]
    ensures exists j :: 0 <= j < |s| && m == s[j]
  {
    if |s| == 1 then s[0]
    else
      var m := Min(s[1..]);
      assert forall j :: 1 <= j < |s| ==> s[j] == s[1..][j - 1];
      if s[0] <= m then s[0] else m
  }

  /** The largest element of a non-empty sequence. */
  function Max(s: seq<real>): (m: real)
    requires |s| > 0
    ensures forall j :: 0 <= j < |s| ==> s[j] <= m
    ensures exists j :: 0 <= j < |s| && m == s[j]
  {
    if |s| == 1 then s[0]
    else
      var m := Max(s[1..]);
      assert forall j :: 1 <= j < |s| ==> s[j] == s[1..][j - 1];
      if s[0] >= m then s[0] else m
  }

  /** The row-by-row form of the weighted sum at row t: the new value plus the
      decayed sum of the row before (Horner's scheme for the same polynomial). */
  function RunningSum(x: seq<real>, t: nat): real
    requires t < |x|
  {
    if t == 0 then x[0] else x[t] + 13.0 / 15.0 * RunningSum(x, t - 1)
  }

  /** The row-by-row form of the total weight of rows 0..t. */
  function RunningWeight(t: nat): (w: real)
    ensures w >= 1.0
  {
    if t == 0 then 1.0 else 1.0 + 13.0 / 15.0 * RunningWeight(t - 1)
  }

  /** One more row with a value in [lo, hi] keeps the running sum between lo and hi
      times the running weight. */
  lemma StepBounds(lo: real, hi: real, prevSum: real, prevWeight: real, v: real)
    requires lo * prevWeight <= prevSum <= hi * prevWeight
    requires lo <= v <= hi
    ensures lo * (1.0 + 13.0 / 15.0 * prevWeight) <= v + 13.0 / 15.0 * prevSum
    ensures v + 13.0 / 15.0 * prevSum <= hi * (1.0 + 13.0 / 15.0 * prevWeight)
  {
  }

  /** The running sum of values in [lo, hi] lies between lo and hi times the running weight. */
  lemma {:induction false} RunningSumBounds(x: seq<real>, t: nat, lo: real, hi: real)
    requires t < |x|
    requires forall j :: 0 <= j <= t ==> lo <= x[j] <= hi
    ensures lo * RunningWeight(t) <= RunningSum(x, t) <= hi * RunningWeight(t)
  {
    if t > 0 {
      RunningSumBounds(x, t - 1, lo, hi);
      StepBounds(lo, hi, RunningSum(x, t - 1), RunningWeight(t - 1), x[t]);
    }
  }

  /** The total weight of n + 1 rows is 1 plus Decay times the total weight of n rows. */
  lemma {:induction false} TotalWeightShift(n: nat)
    ensures TotalWeight(n + 1) == 1.0 + 13.0 / 15.0 * TotalWeight(n)
  {
    if n > 0 {
      TotalWeightShift(n - 1);
    }
  }

  /** The weighted sum at row t is x[t] plus Decay times the weighted sum at row t - 1. */
  lemma {:induction false} WeightedSumShift(x: seq<real>, t: nat, n: nat)
    requires 1 <= t < |x| && n <= t
    ensures WeightedSum(x, t, n + 1) == x[t] + 13.0 / 15.0 * WeightedSum(x, t - 1, n)
  {
    if n > 0 {
      WeightedSumShift(x, t, n - 1);
      var term := Weight(n - 1) * x[t - n];
      assert x[t - 1 - (n - 1)] == x[t - n];
      assert WeightedSum(x, t - 1, n) == WeightedSum(x, t - 1, n - 1) + term;
      assert Weight(n) * x[t - n] == 13.0 / 15.0 * term;
    }
  }

  /** The closed form and the row-by-row form agree: pandas' running computation of
      numerator and denominator yields exactly the sums of powers of Decay. */
  lemma {:induction false} RunningFormAgrees(x: seq<real>, t: nat)
    requires t < |x|
    ensures WeightedSum(x, t, t + 1) == RunningSum(x, t)
    ensures TotalWeight(t + 1) == RunningWeight(t)
  {
    DecayValue();
    if t > 0 {
      RunningFormAgrees(x, t - 1);
      WeightedSumShift(x, t, t);
      TotalWeightShift(t);
    }
  }

  /** Every smoothed value is a convex combination of the values so far: it lies
      between any lower and upper bound of x[0..t]. */
  lemma EwmBounds(x: seq<real>, t: nat, lo: real, hi: real)
    requires t < |x|
    requires forall j :: 0 <= j <= t ==> lo <= x[j] <= hi
    ensures lo <= EwmColumn(x)[t] <= hi
  {
    RunningFormAgrees(x, t);
    RunningSumBounds(x, t, lo, hi);
    DivideBounds(RunningSum(x, t), RunningWeight(t), lo, hi);
  }

  /** In particular it lies between the minimum and the maximum of x[0..t]. */
  lemma EwmWithinRange(x: seq<real>, t: nat)
    requires t < |x|
    ensures Min(x[..t + 1]) <= EwmColumn(x)[t] <= Max(x[..t + 1])
  {
    var prefix := x[..t + 1];
    assert forall j :: 0 <= j <= t ==> x[j] == prefix[j];
    EwmBounds(x, t, Min(prefix), Max(prefix));
  }

  /** A non-negative input gives a non-negative smoothed column. */
  lemma EwmNonnegative(x: seq<real>)
    requires forall j :: 0 <= j < |x| ==> x[j] >= 0.0
    ensures forall t :: 0 <= t < |x| ==> EwmColumn(x)[t] >= 0.0
  {
    forall t | 0 <= t < |x|
      ensures EwmColumn(x)[t] >= 0.0
    {
      EwmWithinRange(x, t);
      var prefix := x[..t + 1];
      var j :| 0 <= j < |prefix| && Min(prefix) == prefix[j];
      assert prefix[j] == x[j];
    }
  }

  /** An all-zero input gives an all-zero smoothed column. */
  lemma EwmOfZeros(x: seq<real>)
    requires forall j :: 0 <= j < |x| ==> x[j] == 0.0
    ensures forall t :: 0 <= t < |x| ==> EwmColumn(x)[t] == 0.0
  {
    forall t | 0 <= t < |x|
      ensures EwmColumn(x)[t] == 0.0
    {
      EwmBounds(x, t, 0.0, 0.0);
    }
  }

  /** For non-negative inputs the running sum is positive exactly when some value
      so far is. */
  lemma {:induction false} RunningSumPositive(x: seq<real>, t: nat)
    requires t < |x|
    requires forall j :: 0 <= j < |x| ==> x[j] >= 0.0
    ensures RunningSum(x, t) >= 0.0
    ensures RunningSum(x, t) > 0.0 <==> exists j :: 0 <= j <= t && x[j] > 0.0
  {
    if t > 0 {
      RunningSumPositive(x, t - 1);
      if RunningSum(x, t - 1) > 0.0 {
        var j :| 0 <= j <= t - 1 && x[j] > 0.0;
        assert 0 <= j <= t && x[j] > 0.0;
      }
    }
  }

  /** For non-negative inputs the smoothed value at row t is positive exactly when
      some value in x[0..t] is: every row keeps a positive weight for ever. */
  lemma EwmPositiveIff(x: seq<real>, t: nat)
    requires t < |x|
    requires forall j :: 0 <= j < |x| ==> x[j] >= 0.0
    ensures EwmColumn(x)[t] > 0.0 <==> exists j :: 0 <= j <= t && x[j] > 0.0
  {
    RunningFormAgrees(x, t);
    RunningSumPositive(x, t);
    var s, w := RunningSum(x, t), RunningWeight(t);
    assert (s / w) * w == s;
    if s > 0.0 {
      assert s / w > 0.0;
    } else {
      assert s == 0.0;
    }
  }

  /** The running form of the adjusted mean (how pandas computes it row by row):
      the previous mean keeps the weight Decay * TotalWeight(t) and the new value
      enters with weight 1. */
  lemma EwmRecurrence(x: seq<real>, t: nat)
    requires 1 <= t < |x|
    ensures TotalWeight(t + 1) == Decay * TotalWeight(t) + 1.0
    ensures EwmColumn(x)[t]
         == (Decay * TotalWeight(t) * EwmColumn(x)[t - 1] + x[t]) / TotalWeight(t + 1)
  {
    DecayValue();
    WeightedSumShift(x, t, t);
    TotalWeightShift(t);
    var prev, w := WeightedSum(x, t - 1, t), TotalWeight(t);
    assert EwmColumn(x)[t - 1] == prev / w;
    ScaledQuotient(Decay, prev, w);
    assert EwmColumn(x)[t] == WeightedSum(x, t, t + 1) / TotalWeight(t + 1);
  }

  /** Multiplying a quotient back by its denominator recovers the numerator. */
  lemma ScaledQuotient(d: real, s: real, w: real)
    requires w > 0.0
    ensures d * w * (s / w) == d * s
  {
    assert w * (s / w) == s;
  }

  /** The adjusted mean is not the simple recursion alpha * x[t] + (1 - alpha) * avg[t-1]:
      on the input [0, 1] it gives 15/28 at row 1 where the recursion gives 2/15. */
  lemma AdjustedIsNotSimpleRecursion()
    ensures EwmColumn([0.0, 1.0])[1] == 15.0 / 28.0
    ensures Alpha * 1.0 + Decay * EwmColumn([0.0, 1.0])[0] == 2.0 / 15.0
  {
    var x := [0.0, 1.0];
    assert WeightedSum(x, 1, 2) == 1.0;
    assert TotalWeight(2) == 28.0 / 15.0;
  }
}
