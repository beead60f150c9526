/** The stock analyzer script: the downloaded price table gains its indicator
    columns one assignment at a time, then the relevant columns are selected,
    incomplete rows dropped and values rounded. */
module Analyzer {
  import opened Wrappers
  import opened Series
  import opened Indicators
  import opened Ewm
  import opened Rsi
  import opened Rounding
  import opened Cleaning

  const CloseName := "Close"
  const PctChangeName := "Pct_Change"
  const Ma50Name := "MA_50"
  const Ma200Name := "MA_200"
  const AvgVolumeName := "Avg_Volume"
  const RsiName := "RSI"
  const VolumeName := "Volume"

  /** The columns kept for the output file, in their order there. */
  const Relevant: seq<string> :=
    [CloseName, PctChangeName, RsiName, Ma50Name, Ma200Name, AvgVolumeName, VolumeName]

  /** Window lengths of the moving averages. */
  const ShortWindow: nat := 50
  const LongWindow: nat := 200

  /** What the download step hands over: a gap-free, strictly positive close series
      and, when the provider sends one, a volume series of the same length. */
  predicate ValidDownload(close: seq<real>, volume: Option<seq<real>>)
  {
    Positive(close) && (volume.Some? ==> |volume.value| == |close|)
  }

  /** The downloaded table: a Close column and, when present, a Volume column. */
  function Downloaded(close: seq<real>, volume: Option<seq<real>>): (m: map<string, Column>)
    ensures CloseName in m && m[CloseName] == Lift(close)
    ensures VolumeName in m <==> volume.Some?
    ensures volume.Some? ==> m[VolumeName] == Lift(volume.value)
    ensures forall name :: name in m ==> name == CloseName || name == VolumeName
  {
    map[CloseName := Lift(close)]
      + if volume.Some? then map[VolumeName := Lift(volume.value)] else map[]
  }

  /** The data frame `gspc`: named columns of equal length that the script
      assigns in place. */
  class Frame {
    var length: nat
    var columns: map<string, Column>

    ghost predicate Valid()
      reads this
    {
      forall name :: name in columns ==> |columns[name]| == length
    }

    /** The frame as downloaded. */
    constructor (close: seq<real>, volume: Option<seq<real>>)
      requires volume.Some? ==> |volume.value| == |close|
      ensures Valid() && length == |close| && columns == Downloaded(close, volume)
    {
      length := |close|;
      columns := Downloaded(close, volume);
    }

    /** `frame[name] = column`: adds the column or replaces the one of that name. */
    method Assign(name: string, column: Column)
      requires Valid() && |column| == length
      modifies this
      ensures Valid() && length == old(length)
      ensures columns == old(columns)[name := column]
    {
      columns := columns[name := column];
    }
  }

  /** `Avg_Volume`: the 50-row mean of Volume, or all NaN without a Volume column. */
  function AvgVolume(close: seq<real>, volume: Option<seq<real>>): (c: Column)
    requires volume.Some? ==> |volume.value| == |close|
    ensures |c| == |close|
    ensures volume.None? ==> forall i :: 0 <= i < |close| ==> c[i].None?
    ensures volume.Some? ==> c == RollingMean(volume.value, ShortWindow)
  {
    if volume.Some? then RollingMean(volume.value, ShortWindow) else Undefined(|close|)
  }

  /** The frame after feature engineering. */
  function Features(close: seq<real>, volume: Option<seq<real>>): (f: map<string, Column>)
    requires ValidDownload(close, volume)
    ensures forall name :: name in f <==> name in Relevant && (volume.Some? || name != VolumeName)
  {
    Downloaded(close, volume)
      [PctChangeName := PctChange(close)]
      [Ma50Name := RollingMean(close, ShortWindow)]
      [Ma200Name := RollingMean(close, LongWindow)]
      [AvgVolumeName := AvgVolume(close, volume)]
      [RsiName := RsiColumn(close)]
  }

  /** The whole transformation: features, projection, `dropna`, `round(2)`. */
  function Analysis(close: seq<real>, volume: Option<seq<real>>): (r: Result<Cleaned, seq<string>>)
    requires ValidDownload(close, volume)
    ensures r.Success? <==> volume.Some?
    ensures r.Failure? ==> forall name :: name in r.error <==> name == VolumeName
    ensures r.Success? ==> |r.value.index| == |r.value.rows| <= |close|
  {
    var features := Features(close, volume);
    assert Relevant[6] == VolumeName;
    assert forall k :: 0 <= k < |Relevant| ==> Relevant[k] in Relevant;
    match Select(features, Relevant)
    case Failure(missing) => Failure(missing)
    case Success(table) =>
      assert forall c :: 0 <= c < |table| ==> table[c] == features[Relevant[c]];
      Success(DropnaRound(table, |close|))
  }

  /** The script, step by step on a frame: it produces exactly `Analysis`. */
  method Analyze(close: seq<real>, volume: Option<seq<real>>) returns (r: Result<Cleaned, seq<string>>)
    requires ValidDownload(close, volume)
    ensures r == Analysis(close, volume)
  {
    var gspc := new Frame(close, volume);
    gspc.Assign(PctChangeName, PctChange(close));
    gspc.Assign(Ma50Name, RollingMean(close, ShortWindow));
    gspc.Assign(Ma200Name, RollingMean(close, LongWindow));
    if VolumeName in gspc.columns {
      gspc.Assign(AvgVolumeName, RollingMean(volume.value, ShortWindow));
    } else {
      gspc.Assign(AvgVolumeName, Undefined(gspc.length));
    }
    gspc.Assign(RsiName, RsiColumn(close));
    assert gspc.columns == Features(close, volume);
    var selected := Select(gspc.columns, Relevant);
    match selected {
      case Failure(missing) =>
        r := Failure(missing);
      case Success(table) =>
        assert forall c :: 0 <= c < |table| ==> |table[c]| == gspc.length;
        var cleaned := Clean(table, gspc.length);
        r := Success(cleaned);
    }
  }

  /** Without a Volume column, Avg_Volume is NaN on every row and the projection
      fails naming Volume and nothing else: no table is produced. */
  lemma AnalysisWithoutVolume(close: seq<real>)
    requires Positive(close)
    ensures forall i :: 0 <= i < |close| ==> Features(close, None)[AvgVolumeName][i].None?
    ensures Analysis(close, None).Failure?
    ensures forall name :: name in Analysis(close, None).error <==> name == VolumeName
  {
    var features := Features(close, None);
    assert VolumeName in Relevant && VolumeName !in features;
    assert forall name :: name in Relevant && name != VolumeName ==> name in features;
  }

  /** Column `c` of the projection onto `Relevant`, for a frame with a Volume column. */
  function ProjectedColumn(close: seq<real>, volume: seq<real>, c: nat): Column
    requires ValidDownload(close, Some(volume))
  {
    if c == 0 then Lift(close)
    else if c == 1 then PctChange(close)
    else if c == 2 then RsiColumn(close)
    else if c == 3 then RollingMean(close, ShortWindow)
    else if c == 4 then RollingMean(close, LongWindow)
    else if c == 5 then RollingMean(volume, ShortWindow)
    else Lift(volume)
  }

  /** The seven relevant columns, in order, of a frame that has a Volume column. */
  function Projection(close: seq<real>, volume: seq<real>): (t: Table)
    requires ValidDownload(close, Some(volume))
    ensures |t| == |Relevant| && Covers(t, |close|)
  {
    seq(|Relevant|, c requires 0 <= c < |Relevant| => ProjectedColumn(close, volume, c))
  }

  /** The frame after feature engineering holds each indicator under its name. */
  lemma FeatureColumns(close: seq<real>, volume: Option<seq<real>>)
    requires ValidDownload(close, volume)
    ensures var f := Features(close, volume);
      && CloseName in f && f[CloseName] == Lift(close)
      && PctChangeName in f && f[PctChangeName] == PctChange(close)
      && RsiName in f && f[RsiName] == RsiColumn(close)
      && Ma50Name in f && f[Ma50Name] == RollingMean(close, ShortWindow)
      && Ma200Name in f && f[Ma200Name] == RollingMean(close, LongWindow)
      && AvgVolumeName in f && f[AvgVolumeName] == AvgVolume(close, volume)
      && (VolumeName in f <==> volume.Some?)
      && (volume.Some? ==> f[VolumeName] == Lift(volume.value))
  {
  }

  /** The feature frame holds projected column `c` under the name `Relevant[c]`. */
  lemma FeatureOfRelevant(close: seq<real>, volume: seq<real>, c: nat)
    requires ValidDownload(close, Some(volume)) && c < |Relevant|
    ensures Relevant[c] in Features(close, Some(volume))
    ensures Features(close, Some(volume))[Relevant[c]] == ProjectedColumn(close, volume, c)
  {
    FeatureColumns(close, Some(volume));
    if c == 0 {
      assert Relevant[0] == CloseName;
    } else if c == 1 {
      assert Relevant[1] == PctChangeName;
    } else if c == 2 {
      assert Relevant[2] == RsiName;
    } else if c == 3 {
      assert Relevant[3] == Ma50Name;
    } else if c == 4 {
      assert Relevant[4] == Ma200Name;
    } else if c == 5 {
      assert Relevant[5] == AvgVolumeName;
    } else {
      assert Relevant[6] == VolumeName;
    }
  }

  /** With a Volume column, the projection succeeds with the seven columns in order. */
  lemma SelectedColumns(close: seq<real>, volume: seq<real>)
    requires ValidDownload(close, Some(volume))
    ensures Select(Features(close, Some(volume)), Relevant) == Success(Projection(close, volume))
  {
    var features := Features(close, Some(volume));
    forall k | 0 <= k < |Relevant|
      ensures Relevant[k] in features && features[Relevant[k]] == ProjectedColumn(close, volume, k)
    {
      FeatureOfRelevant(close, volume, k);
    }
    var t := Select(features, Relevant).value;
    var p := Projection(close, volume);
    assert |t| == |p|;
    assert forall k :: 0 <= k < |t| ==> t[k] == p[k];
    assert t == p;
  }

  /** With a Volume column, the analysis is `dropna().round(2)` of the projection. */
  lemma AnalysisWithVolume(close: seq<real>, volume: seq<real>)
    requires ValidDownload(close, Some(volume))
    ensures Analysis(close, Some(volume)) == Success(DropnaRound(Projection(close, volume), |close|))
  {
    SelectedColumns(close, volume);
  }

  /** Which cells of a projected row hold a value. */
  lemma ProjectionDefined(close: seq<real>, volume: seq<real>, i: nat, c: nat)
    requires ValidDownload(close, Some(volume)) && i < |close| && c < |Relevant|
    ensures var t := Projection(close, volume);
      i < |t[c]| && (t[c][i].Some? <==>
        if c == 1 then i >= 1
        else if c == 2 then MovedBy(close, i)
        else if c == 3 || c == 5 then i >= ShortWindow - 1
        else if c == 4 then i >= LongWindow - 1
        else true)
  {
    if c == 2 {
      RsiDefinedIff(close, i);
    }
  }

  /** A row survives `dropna` exactly when it is at least row 199 (the first with a
      200-row mean) and the close has moved by then (so RSI is not 0/0). */
  lemma CompleteIff(close: seq<real>, volume: seq<real>, i: nat)
    requires ValidDownload(close, Some(volume)) && i < |close|
    ensures Complete(Projection(close, volume), i) <==> i >= LongWindow - 1 && MovedBy(close, i)
  {
    var t: Table := Projection(close, volume);
    if Complete(t, i) {
      ProjectionDefined(close, volume, i, 2);
      ProjectionDefined(close, volume, i, 4);
    }
    if i >= LongWindow - 1 && MovedBy(close, i) {
      forall c | 0 <= c < |t|
        ensures i < |t[c]| && t[c][i].Some?
      {
        ProjectionDefined(close, volume, i, c);
        if c == 1 {
          var j :| 1 <= j <= i && close[j] != close[j - 1];
        }
      }
    }
  }

  /** The unrounded value in column `c` at a row where every relevant column is defined. */
  function IndicatorCell(close: seq<real>, volume: seq<real>, i: nat, c: nat): real
    requires ValidDownload(close, Some(volume))
    requires LongWindow - 1 <= i < |close| && MovedBy(close, i)
  {
    if c == 0 then close[i]
    else if c == 1 then Pct(close[i - 1], close[i])
    else if c == 2 then (RsiDefinedIff(close, i); RsiColumn(close)[i].value)
    else if c == 3 then Sum(close[i + 1 - ShortWindow..i + 1]) / ShortWindow as real
    else if c == 4 then Sum(close[i + 1 - LongWindow..i + 1]) / LongWindow as real
    else if c == 5 then Sum(volume[i + 1 - ShortWindow..i + 1]) / ShortWindow as real
    else volume[i]
  }

  /** The unrounded values of the seven relevant columns at such a row. */
  function IndicatorRow(close: seq<real>, volume: seq<real>, i: nat): (row: seq<real>)
    requires ValidDownload(close, Some(volume))
    requires LongWindow - 1 <= i < |close| && MovedBy(close, i)
    ensures |row| == |Relevant|
    ensures 0.0 <= row[2] <= 100.0
  {
    RsiDefinedIff(close, i);
    seq(|Relevant|, c requires 0 <= c < |Relevant| => IndicatorCell(close, volume, i, c))
  }

  /** The price columns at a complete row: Close, Pct_Change and RSI. */
  lemma PriceColumnValue(close: seq<real>, volume: seq<real>, i: nat, c: nat)
    requires ValidDownload(close, Some(volume))
    requires LongWindow - 1 <= i < |close| && MovedBy(close, i) && c <= 2
    ensures i < |ProjectedColumn(close, volume, c)|
    ensures ProjectedColumn(close, volume, c)[i] == Some(IndicatorCell(close, volume, i, c))
  {
    if c == 2 {
      RsiDefinedIff(close, i);
    }
  }

  /** The average columns and Volume at a complete row. */
  lemma AverageColumnValue(close: seq<real>, volume: seq<real>, i: nat, c: nat)
    requires ValidDownload(close, Some(volume))
    requires LongWindow - 1 <= i < |close| && MovedBy(close, i) && 3 <= c
    ensures i < |ProjectedColumn(close, volume, c)|
    ensures ProjectedColumn(close, volume, c)[i] == Some(IndicatorCell(close, volume, i, c))
  {
    if c == 3 {
      assert ProjectedColumn(close, volume, c) == RollingMean(close, ShortWindow);
      RollingMeanAt(close, ShortWindow, i);
    } else if c == 4 {
      assert ProjectedColumn(close, volume, c) == RollingMean(close, LongWindow);
      RollingMeanAt(close, LongWindow, i);
    } else if c == 5 {
      assert ProjectedColumn(close, volume, c) == RollingMean(volume, ShortWindow);
      RollingMeanAt(volume, ShortWindow, i);
    } else {
      assert ProjectedColumn(close, volume, c) == Lift(volume);
    }
  }

  /** Each cell of a complete projected row holds the indicator value of its column. */
  lemma ProjectionValue(close: seq<real>, volume: seq<real>, i: nat, c: nat)
    requires ValidDownload(close, Some(volume))
    requires LongWindow - 1 <= i < |close| && MovedBy(close, i) && c < |Relevant|
    ensures var t := Projection(close, volume);
      i < |t[c]| && t[c][i] == Some(IndicatorRow(close, volume, i)[c])
  {
    var t := Projection(close, volume);
    var row := IndicatorRow(close, volume, i);
    assert t[c] == ProjectedColumn(close, volume, c);
    assert row[c] == IndicatorCell(close, volume, i, c);
    if c <= 2 {
      PriceColumnValue(close, volume, i, c);
    } else {
      AverageColumnValue(close, volume, i, c);
    }
  }

  /** A complete projected row, rounded, is the indicator row rounded cell by cell. */
  lemma ProjectedRow(close: seq<real>, volume: seq<real>, i: nat)
    requires ValidDownload(close, Some(volume))
    requires LongWindow - 1 <= i < |close| && MovedBy(close, i)
    ensures Complete(Projection(close, volume), i)
    ensures RoundedRow(Projection(close, volume), i)
         == seq(|Relevant|, c requires 0 <= c < |Relevant| => Round2(IndicatorRow(close, volume, i)[c]))
  {
    CompleteIff(close, volume, i);
    var t: Table := Projection(close, volume);
    var row := IndicatorRow(close, volume, i);
    forall c | 0 <= c < |t|
      ensures RoundedRow(t, i)[c] == Round2(row[c])
    {
      ProjectionValue(close, volume, i, c);
    }
  }

  /** The output of a run with a Volume column: row numbers in increasing order,
      exactly those from 199 on at which RSI is defined. */
  lemma AnalysisKeeps(close: seq<real>, volume: seq<real>)
    requires ValidDownload(close, Some(volume))
    ensures Analysis(close, Some(volume)).Success?
    ensures var out := Analysis(close, Some(volume)).value;
      && |out.index| == |out.rows|
      && (forall k, k' :: 0 <= k < k' < |out.index| ==> out.index[k] < out.index[k'])
      && (forall i :: i in out.index <==> LongWindow - 1 <= i < |close| && MovedBy(close, i))
  {
    AnalysisWithVolume(close, volume);
    var t: Table := Projection(close, volume);
    DropnaRoundKeeps(t, |close|);
    var out := DropnaRound(t, |close|);
    forall i | 0 <= i < |close|
      ensures Complete(t, i) <==> LongWindow - 1 <= i && MovedBy(close, i)
    {
      CompleteIff(close, volume, i);
    }
    forall i | i in out.index
      ensures LongWindow - 1 <= i < |close| && MovedBy(close, i)
    {
      var k :| 0 <= k < |out.index| && out.index[k] == i;
    }
  }

  /** Each output row is the indicator row at its row number, rounded to two
      decimals; its RSI lies in [0, 100]. */
  lemma AnalysisRows(close: seq<real>, volume: seq<real>, k: nat)
    requires ValidDownload(close, Some(volume))
    requires Analysis(close, Some(volume)).Success?
    requires k < |Analysis(close, Some(volume)).value.index|
    ensures var out := Analysis(close, Some(volume)).value;
      && LongWindow - 1 <= out.index[k] < |close| && MovedBy(close, out.index[k])
      && out.rows[k] == seq(|Relevant|, c requires 0 <= c < |Relevant| =>
                          Round2(IndicatorRow(close, volume, out.index[k])[c]))
      && 0.0 <= out.rows[k][2] <= 100.0
  {
    AnalysisWithVolume(close, volume);
    AnalysisKeeps(close, volume);
    var t: Table := Projection(close, volume);
    DropnaRoundKeeps(t, |close|);
    var out := DropnaRound(t, |close|);
    var i := out.index[k];
    assert i in out.index;
    ProjectedRow(close, volume, i);
    Round2Within(IndicatorRow(close, volume, i)[2], 0, 10000);
  }

  /** A close series that never moves leaves no row at all: RSI is 0/0 on every row
      (where a flat market is often read as RSI 100, this script drops the rows). */
  lemma AnalysisOfFlatClose(close: seq<real>, volume: seq<real>)
    requires ValidDownload(close, Some(volume))
    requires forall j :: 0 <= j < |close| ==> close[j] == close[0]
    ensures Analysis(close, Some(volume)) == Success(Cleaned([], []))
  {
    AnalysisWithVolume(close, volume);
    var t: Table := Projection(close, volume);
    forall i | 0 <= i < |close|
      ensures Complete(t, i) <==> i >= |close|
    {
      CompleteIff(close, volume, i);
      assert !MovedBy(close, i);
    }
    DropnaRoundFrom(t, |close|, |close|);
  }

  /** When the close has moved by row 199, every row from 199 on is complete. */
  lemma CompleteAfterWarmUp(close: seq<real>, volume: seq<real>)
    requires ValidDownload(close, Some(volume))
    requires |close| >= LongWindow && MovedBy(close, LongWindow - 1)
    ensures forall i :: 0 <= i < |close| ==>
      (Complete(Projection(close, volume), i) <==> i >= LongWindow - 1)
  {
    forall i | 0 <= i < |close|
      ensures Complete(Projection(close, volume), i) <==> i >= LongWindow - 1
    {
      CompleteIff(close, volume, i);
      if i >= LongWindow - 1 {
        MovedByLater(close, LongWindow - 1, i);
      }
    }
  }

  /** The same, on the projected table: `dropna` keeps rows 199 to n - 1. */
  lemma ProjectionRowCount(close: seq<real>, volume: seq<real>)
    requires ValidDownload(close, Some(volume))
    requires |close| >= LongWindow && MovedBy(close, LongWindow - 1)
    ensures var out := DropnaRound(Projection(close, volume), |close|);
      && |out.index| == |close| - (LongWindow - 1)
      && forall k :: 0 <= k < |out.index| ==> out.index[k] == LongWindow - 1 + k
  {
    CompleteAfterWarmUp(close, volume);
    DropnaRoundFrom(Projection(close, volume), |close|, LongWindow - 1);
  }

  /** When the close has moved by row 199, the output has one row per input row
      minus the 199 warm-up rows. */
  lemma AnalysisRowCount(close: seq<real>, volume: seq<real>)
    requires ValidDownload(close, Some(volume))
    requires |close| >= LongWindow && MovedBy(close, LongWindow - 1)
    ensures Analysis(close, Some(volume)).Success?
    ensures |Analysis(close, Some(volume)).value.index| == |close| - (LongWindow - 1)
  {
    AnalysisWithVolume(close, volume);
    ProjectionRowCount(close, volume);
  }

  /** ... and its k-th row is input row 199 + k. */
  lemma AnalysisRowNumber(close: seq<real>, volume: seq<real>, k: nat)
    requires ValidDownload(close, Some(volume))
    requires |close| >= LongWindow && MovedBy(close, LongWindow - 1)
    requires k < |close| - (LongWindow - 1)
    ensures Analysis(close, Some(volume)).Success?
    ensures k < |Analysis(close, Some(volume)).value.index|
    ensures Analysis(close, Some(volume)).value.index[k] == LongWindow - 1 + k
  {
    AnalysisWithVolume(close, volume);
    ProjectionRowCount(close, volume);
  }
}
