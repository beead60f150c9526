/** Columns of a table and the sums that the window means are built from. */
module Series {
  import opened Wrappers

  /** One column of a data frame: a cell is `None` where pandas holds NaN. */
  type Column = seq<Option<real>>

  /** A gap-free series as a column. */
  function Lift(s: seq<real>): (c: Column)
    ensures |c| == |s|
    ensures forall i :: 0 <= i < |s| ==> c[i] == Some(s[i])
  {
    seq(|s|, i requires 0 <= i < |s| => Some(s[i]))
  }

  /** A column of `n` NaN cells (the `np.nan` placeholder). */
  function Undefined(n: nat): (c: Column)
    ensures |c| == n
    ensures forall i :: 0 <= i < n ==> c[i].None?
  {
    seq(n, i => None)
  }

  /** The sum of a sequence, adding its elements from the front. */
  function Sum(s: seq<real>): real
  {
    if |s| == 0 then 0.0 else Sum(s[..|s| - 1]) + s[|s| - 1]
  }

  lemma {:induction false} SumCons(h: real, s: seq<real>)
    ensures Sum([h] + s) == h + Sum(s)
  {
    if |s| > 0 {
      assert ([h] + s)[..|s|] == [h] + s[..|s| - 1];
      SumCons(h, s[..|s| - 1]);
    } else {
      assert [h] + s == [h];
      assert [h][..0] == [];
    }
  }

  /** Sliding a window one step right drops its first element and adds the next one. */
  lemma SumSlide(x: seq<real>, a: nat, b: nat)
    requires a < b < |x|
    ensures Sum(x[a + 1..b + 1]) == Sum(x[a..b]) - x[a] + x[b]
  {
    assert x[a..b + 1][..b - a] == x[a..b];
    assert x[a..b + 1] == [x[a]] + x[a + 1..b + 1];
    SumCons(x[a], x[a + 1..b + 1]);
  }

  /** A sum of elements that all lie in [lo, hi] lies in [lo * n, hi * n]. */
  lemma {:induction false} SumBounds(s: seq<real>, lo: real, hi: real)
    requires forall j :: 0 <= j < |s| ==> lo <= s[j] <= hi
    ensures lo * |s| as real <= Sum(s) <= hi * |s| as real
  {
    if |s| > 0 {
      var p := s[..|s| - 1];
      assert forall j :: 0 <= j < |p| ==> p[j] == s[j];
      SumBounds(p, lo, hi);
    }
  }

  /** m + (m + 1) + ... + (m + len - 1). */
  function IndexSum(m: nat, len: nat): real
  {
    if len == 0 then 0.0 else IndexSum(m, len - 1) + (m + len - 1) as real
  }

  /** Gauss's formula for the sum of consecutive indices. */
  lemma {:induction false} IndexSumValue(m: nat, len: nat)
    ensures IndexSum(m, len) * 2.0 == len as real * (2 * m + len - 1) as real
  {
    if len > 0 {
      IndexSumValue(m, len - 1);
      var k := (len - 1) as real;
      assert IndexSum(m, len - 1) * 2.0 == k * (2 * m + len - 2) as real;
      assert len as real * (2 * m + len - 1) as real
          == k * (2 * m + len - 2) as real + 2.0 * (m + len - 1) as real;
    }
  }

  /** The values a + b*i over the indices [m, m + len) sum to len*a plus b times
      the sum of the indices. */
  lemma {:induction false} SumLinearTerms(x: seq<real>, a: real, b: real, m: nat, len: nat)
    requires m + len <= |x|
    requires forall i :: 0 <= i < |x| ==> x[i] == a + b * i as real
    ensures Sum(x[m..m + len]) == len as real * a + b * IndexSum(m, len)
  {
    if len > 0 {
      assert x[m..m + len][..len - 1] == x[m..m + len - 1];
      SumLinearTerms(x, a, b, m, len - 1);
      var j := (m + len - 1) as real;
      assert x[m + len - 1] == a + b * j;
      assert b * IndexSum(m, len - 1) + b * j == b * IndexSum(m, len);
      assert (len - 1) as real * a + a == len as real * a;
    }
  }

  /** The sum of an arithmetic progression a + b*i over the indices [m, m + len). */
  lemma SumLinear(x: seq<real>, a: real, b: real, m: nat, len: nat)
    requires m + len <= |x|
    requires forall i :: 0 <= i < |x| ==> x[i] == a + b * i as real
    ensures Sum(x[m..m + len]) * 2.0 == len as real * (2.0 * a + b * (2 * m + len - 1) as real)
  {
    SumLinearTerms(x, a, b, m, len);
    IndexSumValue(m, len);
    var total, q := IndexSum(m, len), (2 * m + len - 1) as real;
    assert (b * total) * 2.0 == b * (len as real * q);
  }

  /** A positive factor keeps an inequality. */
  lemma ScaleBounds(w: real, lo: real, v: real, hi: real)
    requires w > 0.0 && lo <= v <= hi
    ensures lo * w <= w * v <= hi * w
  {
  }

  /** Dividing by a positive number keeps bounds that were scaled by it. */
  lemma DivideBounds(s: real, w: real, lo: real, hi: real)
    requires w > 0.0 && lo * w <= s <= hi * w
    ensures lo <= s / w <= hi
  {
    var q := s / w;
    assert q * w == s;
    if q < lo {
      ScaleBounds(w, q, q, lo);
    }
    if q > hi {
      ScaleBounds(w, hi, hi, q);
    }
  }
}
