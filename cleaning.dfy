/** The clean-and-format step: projection to named columns (`df[[...]]`), removal
    of every row with a NaN cell (`dropna()`), and rounding (`round(2)`). */
module Cleaning {
  import opened Wrappers
  import opened Series
  import opened Rounding

  /** A projection: its columns in the order they were named. */
  type Table = seq<Column>

  /** The names among `names` that are not columns, in order. */
  function Missing(columns: map<string, Column>, names: seq<string>): (m: seq<string>)
    ensures forall name :: name in m <==> name in names && name !in columns
  {
    if names == [] then []
    else
      var rest := Missing(columns, names[1..]);
      assert forall name :: name in names <==> name == names[0] || name in names[1..];
      if names[0] in columns then rest else [names[0]] + rest
  }

  /** `frame[names]`: fails with the missing names when a name is not a column
      (pandas raises KeyError), otherwise the named columns in order. */
  function Select(columns: map<string, Column>, names: seq<string>): (r: Result<Table, seq<string>>)
    ensures r.Failure? <==> exists k :: 0 <= k < |names| && names[k] !in columns
    ensures r.Failure? ==> forall name :: name in r.error <==> name in names && name !in columns
    ensures r.Success? ==> |r.value| == |names|
    ensures r.Success? ==> forall k :: 0 <= k < |names| ==> r.value[k] == columns[names[k]]
  {
    var missing := Missing(columns, names);
    if |missing| > 0 then
      assert missing[0] in missing;
      Failure(missing)
    else
      assert forall k :: 0 <= k < |names| ==> names[k] in names;
      Success(seq(|names|, k requires 0 <= k < |names| => columns[names[k]]))
  }

  /** Every column has at least n rows. */
  predicate Covers(t: Table, n: nat)
  {
    forall c :: 0 <= c < |t| ==> |t[c]| >= n
  }

  /** Row i holds no NaN. */
  predicate Complete(t: Table, i: nat)
  {
    forall c :: 0 <= c < |t| ==> i < |t[c]| && t[c][i].Some?
  }

  /** Row i with every cell rounded to two decimals. */
  function RoundedRow(t: Table, i: nat): (row: seq<real>)
    requires Complete(t, i)
    ensures |row| == |t|
    ensures forall c :: 0 <= c < |t| ==> row[c] == Round2(t[c][i].value)
  {
    seq(|t|, c requires 0 <= c < |t| => Round2(t[c][i].value))
  }

  /** The cleaned table: the original row numbers that survive and their rounded values. */
  datatype Cleaned = Cleaned(index: seq<nat>, rows: seq<seq<real>>)

  /** `dropna().round(2)` over the first n rows. */
  function DropnaRound(t: Table, n: nat): (r: Cleaned)
    requires Covers(t, n)
    ensures |r.index| == |r.rows| <= n
  {
    if n == 0 then Cleaned([], [])
    else
      var before := DropnaRound(t, n - 1);
      if Complete(t, n - 1) then Cleaned(before.index + [n - 1], before.rows + [RoundedRow(t, n - 1)])
      else before
  }

  /** Every kept row is a complete row below n, kept with its cells rounded. */
  lemma {:induction false} DropnaRoundSound(t: Table, n: nat)
    requires Covers(t, n)
    ensures forall k :: 0 <= k < |DropnaRound(t, n).index| ==>
      && DropnaRound(t, n).index[k] < n
      && Complete(t, DropnaRound(t, n).index[k])
      && DropnaRound(t, n).rows[k] == RoundedRow(t, DropnaRound(t, n).index[k])
  {
    if n > 0 {
      DropnaRoundSound(t, n - 1);
      var before, r := DropnaRound(t, n - 1), DropnaRound(t, n);
      if Complete(t, n - 1) {
        assert r.index == before.index + [n - 1];
        assert r.rows == before.rows + [RoundedRow(t, n - 1)];
        forall k | 0 <= k < |r.index|
          ensures r.index[k] < n && Complete(t, r.index[k]) && r.rows[k] == RoundedRow(t, r.index[k])
        {
          if k < |before.index| {
            assert r.index[k] == before.index[k] && r.rows[k] == before.rows[k];
          }
        }
      }
    }
  }

  /** The kept rows are in their original order. */
  lemma {:induction false} DropnaRoundOrdered(t: Table, n: nat)
    requires Covers(t, n)
    ensures forall k, k' :: 0 <= k < k' < |DropnaRound(t, n).index| ==>
      DropnaRound(t, n).index[k] < DropnaRound(t, n).index[k']
  {
    if n > 0 {
      DropnaRoundOrdered(t, n - 1);
      DropnaRoundSound(t, n - 1);
      var before, r := DropnaRound(t, n - 1), DropnaRound(t, n);
      if Complete(t, n - 1) {
        assert r.index == before.index + [n - 1];
        forall k, k' | 0 <= k < k' < |r.index|
          ensures r.index[k] < r.index[k']
        {
          assert r.index[k] == before.index[k];
          if k' < |before.index| {
            assert r.index[k'] == before.index[k'];
          }
        }
      }
    }
  }

  /** No complete row below n is dropped. */
  lemma {:induction false} DropnaRoundExhaustive(t: Table, n: nat)
    requires Covers(t, n)
    ensures forall i :: 0 <= i < n && Complete(t, i) ==> i in DropnaRound(t, n).index
  {
    if n > 0 {
      DropnaRoundExhaustive(t, n - 1);
      var before, r := DropnaRound(t, n - 1), DropnaRound(t, n);
      if Complete(t, n - 1) {
        assert r.index == before.index + [n - 1];
      }
    }
  }

  /** What `dropna().round(2)` keeps: exactly the complete rows, in their original
      order, each rounded cell by cell. */
  lemma DropnaRoundKeeps(t: Table, n: nat)
    requires Covers(t, n)
    ensures var r := DropnaRound(t, n);
      && (forall k :: 0 <= k < |r.index| ==> r.index[k] < n && Complete(t, r.index[k]))
      && (forall k :: 0 <= k < |r.index| ==> r.rows[k] == RoundedRow(t, r.index[k]))
      && (forall k, k' :: 0 <= k < k' < |r.index| ==> r.index[k] < r.index[k'])
      && (forall i :: 0 <= i < n && Complete(t, i) ==> i in r.index)
  {
    DropnaRoundSound(t, n);
    DropnaRoundOrdered(t, n);
    DropnaRoundExhaustive(t, n);
  }

  /** When exactly the rows from `first` on are complete, the kept rows are
      first, first + 1, ..., n - 1. */
  lemma {:induction false} DropnaRoundFrom(t: Table, n: nat, first: nat)
    requires Covers(t, n)
    requires forall i :: 0 <= i < n ==> (Complete(t, i) <==> i >= first)
    ensures |DropnaRound(t, n).index| == if n >= first then n - first else 0
    ensures forall k :: 0 <= k < |DropnaRound(t, n).index| ==> DropnaRound(t, n).index[k] == first + k
  {
    if n > 0 {
      DropnaRoundFrom(t, n - 1, first);
    }
  }

  /** Whether row i is complete, column by column. */
  method RowComplete(t: Table, i: nat) returns (complete: bool)
    ensures complete == Complete(t, i)
  {
    complete := true;
    var c := 0;
    while c < |t|
      invariant 0 <= c <= |t|
      invariant complete == forall c' :: 0 <= c' < c ==> i < |t[c']| && t[c'][i].Some?
    {
      complete := complete && i < |t[c]| && t[c][i].Some?;
      c := c + 1;
    }
  }

  /** `dropna().round(2)`, filling arrays with the rows it keeps. */
  method Clean(t: Table, n: nat) returns (r: Cleaned)
    requires Covers(t, n)
    ensures r == DropnaRound(t, n)
  {
    var index := new nat[n];
    var rows := new seq<real>[n];
    var count := 0;
    var i := 0;
    while i < n
      invariant 0 <= count <= i <= n
      invariant Cleaned(index[..count], rows[..count]) == DropnaRound(t, i)
    {
      ghost var before := DropnaRound(t, i);
      assert before == Cleaned(index[..count], rows[..count]);
      var complete := RowComplete(t, i);
      if complete {
        var row := RoundedRow(t, i);
        index[count], rows[count] := i, row;
        assert index[..count + 1] == before.index + [i];
        assert rows[..count + 1] == before.rows + [row];
        count := count + 1;
      }
      assert DropnaRound(t, i + 1) == Cleaned(index[..count], rows[..count]);
      i := i + 1;
    }
    r := Cleaned(index[..count], rows[..count]);
  }
}
