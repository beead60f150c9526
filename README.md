# S&P 500 indicator pipeline, modelled in Dafny

The stock-analyzer script `Backend/Services/data_fetcher.py` downloads the daily
S&P 500 table and adds five indicator columns to it, assigning each one into the
`gspc` data frame in place. The columns are:

- `Pct_Change`, the day-on-day percentage change of the close;
- `MA_50` and `MA_200`, the 50- and 200-row rolling means of the close;
- `Avg_Volume`, the 50-row rolling mean of the volume (all NaN when the table
  has no Volume column);
- `RSI`, a 14-span relative strength index. It is built from the gains and losses
  of `Close.diff()`, each smoothed by `ewm(span=14).mean()`.

The script then keeps seven columns (Close, Pct_Change, RSI, MA_50, MA_200,
Avg_Volume, Volume), drops every row that holds a NaN, and rounds the rest to
two decimals.

This project models that transformation and proves what it computes:

- which rows each column defines;
- the exact value of every cell;
- bounds: window means and smoothed averages lie between the inputs, and RSI lies in [0, 100];
- which rows survive `dropna`, in which order, and with which rounded values;
- that the run fails when the Volume column is absent.

Values are exact reals and a NaN cell is `None`. The downloaded Close and Volume
columns are inputs: a gap-free, strictly positive close series, and an optional
volume series of the same length.

Modules, one per file:

- `Series` (`series.dfy`): columns, `Sum`, and the sum facts the window means rest on.
- `Indicators` (`indicators.dfy`): `pct_change`, `rolling(w).mean()`, `diff`,
  and the two `np.where` gain/loss columns.
- `Ewm` (`ewm.dfy`): pandas' `ewm(span=14).mean()` with its default `adjust=True`.
  It is the weighted mean with weights (13/15)^k, stated in closed form. It is
  proved equal to the row-by-row (running) form, and every bound is proved on that form.
- `Rsi` (`rsi.dfy`): RS, RSI and when RSI is defined.
- `Rounding` (`rounding.dfy`): `round(2)`, as numpy does it: ties go to the even neighbour.
- `Cleaning` (`cleaning.dfy`): the column projection `df[[...]]`, which raises
  KeyError on a missing name, and `dropna().round(2)`. `DropnaRound` specifies the
  latter as a function, and the method `Clean` carries it out with arrays and a loop.
- `Analyzer` (`analyzer.dfy`):
  - the class `Frame`, a data frame whose columns are assigned in place;
  - the whole-script function `Analysis` and the method `Analyze`, which runs the
    script step by step on a `Frame` and is proved to yield `Analysis`;
  - the end-to-end lemmas about the output table.

Four behaviours of the code are easy to misread, and the model states each as the code has it:

- **EWM.** `ewm(span=14).mean()` (lines 39-40) uses pandas' default `adjust=True`:
  the weighted mean of all rows so far, with weights (13/15)^k. It is not the
  textbook recursion `avg[i] = α·x[i] + (1 − α)·avg[i−1]`.
  `Ewm.AdjustedIsNotSimpleRecursion` exhibits an input on which the two differ.
- **Flat close.** A flat close gives RSI = NaN (lines 42-43), not the 100 often
  assumed: the smoothed gain and loss are both 0, so RS = 0/0. `dropna` then
  removes every row (`Analyzer.AnalysisOfFlatClose`).
- **No Volume column.** The branch at lines 29-30 fills Avg_Volume with NaN, but the
  selection at line 50 still names `Volume`. A table without Volume therefore
  raises KeyError, and no output is produced (`Analyzer.AnalysisWithoutVolume`).
- **Row 0.** `delta` is NaN at row 0, and a NaN compares false (lines 35-36), so
  gain and loss are 0 there. They enter the EWM, so the smoothed averages start
  at 0 on row 0.

## Model

| member | source | states |
|---|---|---|
| Series.Lift | Backend/Services/data_fetcher.py:13 | a downloaded gap-free series becomes a column with a value in every row |
| Series.Undefined | Backend/Services/data_fetcher.py:30 | `np.nan` assigned to a column makes every one of its rows NaN |
| Series.SumSlide | Backend/Services/data_fetcher.py:23-24 | moving a window one row on adds the entering value and removes the leaving one |
| Series.SumBounds | Backend/Services/data_fetcher.py:23-24 | a sum of n values in [lo, hi] lies in [n·lo, n·hi] |
| Series.SumLinear | Backend/Services/data_fetcher.py:23-24 | Gauss's formula for a window over a linearly rising series |
| Indicators.Pct | Backend/Services/data_fetcher.py:20 | the script's `(cur/prev − 1)·100` equals `(cur − prev)/prev·100`; it is positive iff the close rose and negative iff it fell |
| Indicators.PctChange | Backend/Services/data_fetcher.py:20 | Pct_Change is NaN at row 0 and `Pct(close[i−1], close[i])` at every later row |
| Indicators.RollingMean | Backend/Services/data_fetcher.py:23-24 | a w-row mean is defined at row i iff i ≥ w − 1 (pandas' min_periods = w) |
| Indicators.RollingMeanAt | Backend/Services/data_fetcher.py:23-24 | a defined cell is the sum of the last w values divided by w |
| Indicators.RollingMeanBounds | Backend/Services/data_fetcher.py:23-24 | a window mean lies between any bounds of the values in its window |
| Indicators.RollingMeanSlide | Backend/Services/data_fetcher.py:23-24 | successive window means differ by (entering − leaving)/w |
| Indicators.RollingMeanLinear | Backend/Services/data_fetcher.py:23-24 | on a close a + b·i the window mean is the value at the window's midpoint |
| Indicators.Delta | Backend/Services/data_fetcher.py:34 | `diff()` is NaN at row 0; every later close is the previous close plus delta |
| Indicators.Gains | Backend/Services/data_fetcher.py:35 | gain ≥ 0, and gain > 0 exactly where delta is defined and positive |
| Indicators.Losses | Backend/Services/data_fetcher.py:36 | loss ≥ 0, and loss > 0 exactly where delta is defined and negative |
| Indicators.GainLossSplit | Backend/Services/data_fetcher.py:34-36 | gain and loss are both 0 at row 0; at most one is nonzero per row; gain − loss = close[i] − close[i−1]; gain + loss > 0 iff the close moved |
| Ewm.DecayValue | Backend/Services/data_fetcher.py:39 | span 14 gives α = 2/15 and decay 13/15 |
| Ewm.Weight | Backend/Services/data_fetcher.py:39 | every weight lies in (0, 1] |
| Ewm.TotalWeight | Backend/Services/data_fetcher.py:39 | the normalising weight is at least 1 once a row is present |
| Ewm.EwmColumn | Backend/Services/data_fetcher.py:39-40 | the smoothed column has one value per row and starts at x[0] (no min_periods gate) |
| Ewm.TotalWeightShift | Backend/Services/data_fetcher.py:39-40 | the total weight of n + 1 rows is 1 + decay × the total weight of n rows |
| Ewm.WeightedSumShift | Backend/Services/data_fetcher.py:39-40 | the weighted sum at row t is x[t] + decay × the weighted sum at row t − 1 |
| Ewm.RunningFormAgrees | Backend/Services/data_fetcher.py:39-40 | the closed form (sums of powers of decay) equals the row-by-row running form |
| Ewm.EwmBounds | Backend/Services/data_fetcher.py:39-40 | each smoothed value lies between any lower and upper bound of x[0..t] |
| Ewm.EwmWithinRange | Backend/Services/data_fetcher.py:39-40 | each smoothed value lies between the minimum and maximum of x[0..t] |
| Ewm.EwmNonnegative | Backend/Services/data_fetcher.py:39-40 | a non-negative input (gain, loss) has a non-negative smoothed column |
| Ewm.EwmOfZeros | Backend/Services/data_fetcher.py:39-40 | an all-zero input yields an all-zero output |
| Ewm.EwmPositiveIff | Backend/Services/data_fetcher.py:39-40 | for a non-negative input, the smoothed value at t is positive iff some x[j], j ≤ t, is positive |
| Ewm.EwmRecurrence | Backend/Services/data_fetcher.py:39-40 | the adjusted mean's update: the previous mean keeps weight decay × W(t), and the new value enters with weight 1 |
| Ewm.AdjustedIsNotSimpleRecursion | Backend/Services/data_fetcher.py:39-40 | on [0, 1] the adjusted mean is 15/28 at row 1, where the simple recursion gives 2/15 |
| Rsi.RsiValue | Backend/Services/data_fetcher.py:42-43 | RSI is defined iff up > 0 or down > 0, and then lies in [0, 100]; it is 100·up/(up + down) when down > 0, and 100 when down = 0 < up |
| Rsi.RsiAlgebra | Backend/Services/data_fetcher.py:42-43 | 100 − 100/(1 + up/down) = 100·up/(up + down) ∈ [0, 100] |
| Rsi.RsiColumn | Backend/Services/data_fetcher.py:34-43 | the RSI column has one cell per row, and every defined cell lies in [0, 100] |
| Rsi.MovedByLater | Backend/Services/data_fetcher.py:34-43 | once the close has moved it has moved by every later row |
| Rsi.RsiDefinedIff | Backend/Services/data_fetcher.py:34-43 | RSI at row t is defined iff the close changed at some row in 1..t |
| Rsi.RsiUndefinedAtRowZero | Backend/Services/data_fetcher.py:34-43 | RSI is NaN at row 0 |
| Rsi.RsiOfFlatClose | Backend/Services/data_fetcher.py:34-43 | a constant close has no RSI on any row |
| Rsi.RsiOfRisingClose | Backend/Services/data_fetcher.py:34-43 | a close that never fell and rose at least once has RSI 100 |
| Rounding.RoundHalfEven | Backend/Services/data_fetcher.py:56 | the result is within 0.5 of the input, strictly unless on a tie; a tie goes to the even integer |
| Rounding.Round2 | Backend/Services/data_fetcher.py:56 | rounding moves a value by at most 0.005 and yields whole cents |
| Rounding.RoundHalfEvenOfInteger | Backend/Services/data_fetcher.py:56 | an integer rounds to itself |
| Rounding.Round2OfCents | Backend/Services/data_fetcher.py:56 | a value with at most two decimals is unchanged |
| Rounding.Round2Idempotent | Backend/Services/data_fetcher.py:56 | rounding twice is rounding once |
| Rounding.RoundHalfEvenMonotone | Backend/Services/data_fetcher.py:56 | rounding to an integer preserves order |
| Rounding.Round2Monotone | Backend/Services/data_fetcher.py:56 | rounding to two decimals preserves order |
| Rounding.Round2Within | Backend/Services/data_fetcher.py:56 | a value between two whole-cent bounds rounds to a value between them |
| Cleaning.Missing | Backend/Services/data_fetcher.py:50 | a name is reported missing iff it is asked for and is not a column |
| Cleaning.Select | Backend/Services/data_fetcher.py:50 | the selection fails iff some name is not a column; it then reports exactly the missing names; otherwise it returns the named columns in order |
| Cleaning.RoundedRow | Backend/Services/data_fetcher.py:56 | a row rounded cell by cell |
| Cleaning.DropnaRound | Backend/Services/data_fetcher.py:53-56 | at most one output row per input row, with one index entry per row |
| Cleaning.DropnaRoundSound | Backend/Services/data_fetcher.py:53-56 | every kept row is a complete input row, kept with its cells rounded |
| Cleaning.DropnaRoundOrdered | Backend/Services/data_fetcher.py:53 | kept rows keep their original order |
| Cleaning.DropnaRoundExhaustive | Backend/Services/data_fetcher.py:53 | no complete row is dropped |
| Cleaning.DropnaRoundKeeps | Backend/Services/data_fetcher.py:53-56 | `dropna().round(2)` keeps exactly the complete rows, in order, each rounded |
| Cleaning.DropnaRoundFrom | Backend/Services/data_fetcher.py:53 | when exactly the rows from `first` on are complete, the output index is first, first + 1, … |
| Cleaning.RowComplete | Backend/Services/data_fetcher.py:53 | the column scan answers exactly whether the row has no NaN |
| Cleaning.Clean | Backend/Services/data_fetcher.py:53-56 | the array-and-loop filter produces exactly `DropnaRound` |
| Analyzer.Downloaded | Backend/Services/data_fetcher.py:13 | the fetched table has Close, has Volume iff the provider sent it, and has no other column |
| Analyzer.Frame.constructor | Backend/Services/data_fetcher.py:13 | the frame starts as the downloaded table, with all columns of one length |
| Analyzer.Frame.Assign | Backend/Services/data_fetcher.py:20 | `gspc[name] = column` replaces or adds that one column, and nothing else changes |
| Analyzer.Features | Backend/Services/data_fetcher.py:20-43 | after feature engineering the frame holds exactly the seven relevant columns when Volume was downloaded, and all of them except Volume otherwise |
| Analyzer.Analysis | Backend/Services/data_fetcher.py:20-56 | the whole script: it succeeds iff Volume was downloaded, and otherwise fails naming Volume and only Volume; on success it holds at most one row per input row |
| Analyzer.AvgVolume | Backend/Services/data_fetcher.py:27-30 | with Volume it is the 50-row mean of Volume; without Volume it is NaN on every row |
| Analyzer.Analyze | Backend/Services/data_fetcher.py:20-56 | the script run step by step on a frame yields exactly `Analysis` |
| Analyzer.AnalysisWithoutVolume | Backend/Services/data_fetcher.py:27-50 | without Volume, Avg_Volume is all NaN and the selection fails naming Volume and only Volume |
| Analyzer.Projection | Backend/Services/data_fetcher.py:50 | the projection has the seven relevant columns, each covering every row |
| Analyzer.FeatureColumns | Backend/Services/data_fetcher.py:20-43 | after feature engineering each indicator is stored under its name |
| Analyzer.FeatureOfRelevant | Backend/Services/data_fetcher.py:20-50 | the c-th relevant name holds the c-th projected column |
| Analyzer.SelectedColumns | Backend/Services/data_fetcher.py:50 | with Volume the selection succeeds with the seven columns in order |
| Analyzer.AnalysisWithVolume | Backend/Services/data_fetcher.py:50-56 | with Volume the output is `dropna().round(2)` of the projection |
| Analyzer.ProjectionDefined | Backend/Services/data_fetcher.py:20-50 | which cell of each projected column is defined, column by column |
| Analyzer.CompleteIff | Backend/Services/data_fetcher.py:50-53 | a row has no NaN iff it is row 199 or later and the close has moved by then |
| Analyzer.IndicatorRow | Backend/Services/data_fetcher.py:20-43 | the unrounded seven values of a complete row, with RSI in [0, 100] |
| Analyzer.PriceColumnValue | Backend/Services/data_fetcher.py:20-43 | Close, Pct_Change and RSI at a complete row hold their indicator values |
| Analyzer.AverageColumnValue | Backend/Services/data_fetcher.py:23-28 | MA_50, MA_200, Avg_Volume and Volume at a complete row hold their window means and the volume |
| Analyzer.ProjectionValue | Backend/Services/data_fetcher.py:20-50 | every cell of a complete projected row holds its indicator value |
| Analyzer.ProjectedRow | Backend/Services/data_fetcher.py:50-56 | a complete projected row, rounded, is the indicator row rounded cell by cell |
| Analyzer.AnalysisKeeps | Backend/Services/data_fetcher.py:50-53 | with Volume the output rows are strictly increasing, and are exactly the rows ≥ 199 at which RSI is defined |
| Analyzer.AnalysisRows | Backend/Services/data_fetcher.py:50-56 | each output row is its indicator row rounded to two decimals, and its RSI lies in [0, 100] |
| Analyzer.AnalysisOfFlatClose | Backend/Services/data_fetcher.py:34-53 | a constant close produces an empty output table |
| Analyzer.CompleteAfterWarmUp | Backend/Services/data_fetcher.py:23-53 | if the close moved by row 199, exactly the rows from 199 on are complete |
| Analyzer.ProjectionRowCount | Backend/Services/data_fetcher.py:23-53 | then `dropna` keeps rows 199, 200, …, n − 1 |
| Analyzer.AnalysisRowCount | Backend/Services/data_fetcher.py:23-53 | then the output has n − 199 rows |
| Analyzer.AnalysisRowNumber | Backend/Services/data_fetcher.py:23-53 | then output row k is input row 199 + k |

## Left out

- The download `yf.download` (data_fetcher.py:13) is network I/O. Its Close and Volume columns are the inputs of the model, and the other OHLC columns are not modelled.
- pandas' MultiIndex column labels and the `.flatten()` at line 39 are library plumbing. Columns are addressed by plain names.
- The date index is not modelled. Rows are identified by their position, which `dropna` keeps as the output index.
- The output file written by `to_csv` (line 61), the console prints (lines 12, 62, 67-68) and the plot (lines 70-79) are output only.
- `Backend/main.py` (a FRED download, a reshape, a division by 1000 and a plot) is not part of this model.
- IEEE-754 doubles are not modelled: values are exact reals, so floating-point rounding error and binary ties in `round` are not captured.
- `Analyzer.ValidDownload`: the model requires a strictly positive close with no NaN, and a volume series with no NaN. A zero close would make `pct_change` divide by zero (inf/NaN in pandas), and NaN cells inside the downloaded series are not modelled.
- `Indicators.Pct`: requires a positive previous close, for the same reason.
- The RSI cell with down = 0 < up is stated directly as 100. IEEE's +inf and 100/(1 + inf) = 0 are not modelled as values.
