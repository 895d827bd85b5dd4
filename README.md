# A verified model of the BTC/EUR candle collector

`collector.py` listens to a stream of one-minute BTC/EUR klines. On each
message it does the following:

1. **Filter.** It drops non-kline messages and candles that are not yet
   closed.
2. **Append and evict.** It appends the closed candle to an in-memory
   history and cuts that history to the newest 7770 rows.
3. **Compute indicators.** It recomputes a set of indicators: RSI, EMA12,
   EMA26, MA7, MA25, MACD, OBV, ATR and the Bollinger moving average. It
   also computes and writes the Bollinger `bb_std`, `bb_upper`, `bb_lower`
   and `bb_z`, which the model leaves out (see "## Left out").
4. **Clean (`clean_data`).** It drops the first 30 "cold" rows, fills the
   missing indicator cells, and gives up when too few rows remain. Otherwise
   it writes the result to the one-minute file. Its final `ffill().bfill()`
   runs over the price columns too, so a row with a missing price is filled
   and kept; rows are dropped only when a price column has no value at all.
5. **Aggregate.** It resamples that result into 5-minute, 15-minute,
   30-minute, 1-hour and 4-hour bars. It runs the same indicator and
   cleaning stages on each series, cuts each to its newest 7770 rows, and
   writes each non-empty one to its own file.

The model has five modules, one per stage of that pipeline:

- `Series` (series.dfy): the shared data. A table is a `Frame` of columns,
  and a missing (NaN) cell is `None`. It also holds row slicing and
  `iloc[-n:]` truncation.
- `Indicators` (indicators.dfy): `add_indicators` as pure functions over
  exact reals.
  - Each pandas operation becomes a function: `rolling(w).mean()` with its
    strict window, `diff`, `clip`, `ewm(adjust=False)` and the row-wise
    `max`.
  - The OBV loop is an imperative method, proved equal to a pure fold.
  - `AddIndicators` is a method proved equal to the specification
    `IndicatorsSpec`.
- `Imputation` (imputation.dfy): `clean_data`.
  - Forward fill, backward fill and the pandas median, with their
    properties.
  - The per-column median loop becomes the method `FillMedians`.
  - The whole stage becomes the method `CleanData`, proved equal to
    `CleanSpec`.
- `Aggregation` (aggregation.dfy): `resample(freq).agg(...).dropna()` over
  epoch-millisecond timestamps. It also holds `aggregate_and_save` as the
  method `AggregateAndSave`, proved equal to `AggregateSpec`.
- `Collector` (collector.dfy): the body of `main`'s loop.
  - It is a class that holds the history (`seq<Bar>`) and the files on disk
    (a `map` from path to table).
  - `Step` handles one stream message.
  - The ghost fields `loaded` and `received` record what the history must
    equal.

Timestamps are integers: the kline close time `k['T']`, in milliseconds
since the epoch. Resampling puts a row in bucket `t / (P * 60000)`, which
is the half-open interval `[kP, (k+1)P)`.

Pandas anchors buckets at the start of the day. Every configured period
divides 1440 minutes, so that anchor gives the same buckets; this is proved
as `DayOriginAgrees`.

When several rows share a timestamp, pandas sorts them stably before
`first`/`last`. The model reproduces this without sorting:

- `open` comes from the earliest of the rows with the smallest timestamp;
- `close` comes from the last of the rows with the largest timestamp.

Order of arrival is not checked on append, exactly as in the code.

## Model

| member | source | states |
|---|---|---|
| Series.Last | collector.py:146-147 | `iloc[-cap:]` under the `len > cap` guard: the whole sequence when it is short enough, otherwise its last `cap` elements |
| Series.LastShape | collector.py:146-147 | the cut sequence has `min(n, cap)` elements and is a suffix of the input |
| Series.LastAppend | collector.py:141-147 | evicting after every append gives the same history as appending everything and keeping the newest `cap` |
| Series.DropFirst | collector.py:65 | `iloc[min_rolling:]` keeps every column and has `n - k` rows, or none when `k > n` |
| Series.TakeLast | collector.py:98-99 | `iloc[-7770:]` under the `len > 7770` guard: the whole table when short enough, otherwise its last `cap` rows with every column |
| Series.TakeLastKeepsNewest | collector.py:98-99 | truncation keeps `min(n, cap)` rows, which are the newest rows of the table in order, with every cell unchanged |
| Indicators.RollingDefined | collector.py:29-36 | a strict `rolling(w)` mean is defined at row `i` exactly when `i >= w-1` and all `w` cells of its window are defined |
| Indicators.RollingMeanOfDefined | collector.py:35-36 | over a column with no gaps, the rolling mean at `i` is the average of the `w` values ending at `i`, and is missing before row `w-1` |
| Indicators.RollingNonNegative | collector.py:29-30 | the rolling mean of a non-negative column is non-negative |
| Indicators.WindowSumDefined | collector.py:29 | a window sum is defined exactly when every cell in the window is |
| Indicators.WindowSumOfDefined | collector.py:35 | the window sum of a column with no gaps is the plain sum of its values |
| Indicators.Gains | collector.py:26-27 | `delta.clip(lower=0)` is non-negative and missing exactly where `delta` is |
| Indicators.Losses | collector.py:26-28 | `-delta.clip(upper=0)` is non-negative and missing exactly where `delta` is |
| Indicators.RsiWarmup | collector.py:26-32 | RSI is defined exactly from row 14 on, because `diff()` leaves row 0 missing |
| Indicators.RsiRange | collector.py:27-32 | every defined RSI value lies in `[0, 100)`, because the gains and losses are non-negative and ε > 0 |
| Indicators.EmaBounded | collector.py:33-34 | the `adjust=False` EMA stays between any bounds that contain every close so far |
| Indicators.ConstantCloses | collector.py:33-37 | constant closes give EMA12 = EMA26 = that close and MACD = 0 on every row |
| Indicators.Obv | collector.py:38-46 | the OBV loop returns the fold `ObvSpec`: one value per row, starting at 0; on an empty series it returns `[0]` |
| Indicators.ObvFlat | collector.py:38-46 | with constant closes, OBV is 0 on every row |
| Indicators.ObvRising | collector.py:38-46 | strictly rising closes with positive volumes make OBV strictly increasing |
| Indicators.ObvFalling | collector.py:38-46 | strictly falling closes with positive volumes make OBV strictly decreasing |
| Indicators.ObvReseed | collector.py:38-46 | OBV over a suffix equals the full-series OBV minus its value at the suffix start |
| Indicators.TrueRangeIsMax | collector.py:47-51 | the true range is the largest of high-low, \|high-prev close\| and \|low-prev close\|; at row 0 it is high-low, because the missing shifted close is skipped |
| Indicators.Diff | collector.py:26 | `diff()`: one cell per close, missing at row 0, otherwise the change from the previous close |
| Indicators.Rolling | collector.py:29-54 | `rolling(w).mean()` (lines 29-30, 35-36, 52 and 54) with `min_periods = w`: one cell per row, the mean of the `w` cells ending there, missing before row `w-1` or when a window cell is missing |
| Indicators.RsiCell | collector.py:31-32 | one RSI cell: `100 - 100/(1 + RS)` with `RS = gain / (loss + ε)`, missing when either rolling mean is |
| Indicators.Rsi | collector.py:26-32 | the RSI column: one cell per close, built from the rolling means of the gains and losses |
| Indicators.EmaAt | collector.py:33-34 | the `ewm(span, adjust=False)` recurrence: the first close, then `α·x + (1-α)·previous` |
| Indicators.Ema | collector.py:33-34 | the EMA column: one value per close, with `α = 2/(span+1)` |
| Indicators.Macd | collector.py:37 | MACD: one value per close, EMA12 minus EMA26 |
| Indicators.ObvAt | collector.py:38-46 | OBV at row `i`: 0 at row 0, then add the volume on a rising close, subtract it on a falling one, keep it on an equal one |
| Indicators.ObvSpec | collector.py:38-46 | the OBV column: one value per candle |
| Indicators.TrueRangeAt | collector.py:47-51 | the true range at row `i`: high-low at row 0, else the largest of high-low and the two gaps to the previous close |
| Indicators.IndicatorsSpec | collector.py:24-56 | the indicator table: the candles' timestamps and prices and the nine indicator columns |
| Indicators.AddIndicators | collector.py:24-56 | `add_indicators` returns `IndicatorsSpec`: the price columns and the nine modelled indicator columns |
| Indicators.IndicatorShape | collector.py:24-56 | the result has one row per candle, the five price columns unchanged and nine indicator columns |
| Indicators.IndicatorWarmup | collector.py:26-56 | indicator `j` is defined at row `i` exactly when `i` reaches its warm-up: 14 for RSI, 6 for MA7, 24 for MA25, 13 for ATR, 19 for the Bollinger MA, and 0 for EMA, MACD and OBV |
| Imputation.FFill | collector.py:67-73 | `ffill()`: one cell per row, the last defined cell at or before it |
| Imputation.BFill | collector.py:73 | `bfill()`: one cell per row, the first defined cell at or after it |
| Imputation.FillNone | collector.py:71 | `fillna(v)`: one cell per row, `v` where the cell is missing, the cell otherwise |
| Imputation.Median | collector.py:70 | `median(skipna=True)`: missing when no cell is defined, otherwise the middle defined value, or the mean of the two middle ones |
| Imputation.DropMissingPrices | collector.py:75 | `dropna(subset=price_cols)`: keeps, in order, the rows whose five prices are defined, with every column |
| Imputation.CleanSpec | collector.py:64-78 | `clean_data`: drop the cold rows, fill, drop rows with a missing price, and give the empty table when fewer than `min_rows` rows remain |
| Imputation.FFillNearest | collector.py:67 | `ffill` gives row `i` the last defined cell at or before `i` |
| Imputation.BFillNearest | collector.py:73 | `bfill` gives row `i` the first defined cell at or after `i` |
| Imputation.FFillFills | collector.py:67 | `ffill` keeps defined cells and fills a missing one from the nearest earlier defined cell; a cell stays missing only when nothing before it is defined |
| Imputation.BFillFills | collector.py:73 | `bfill` keeps defined cells; a cell stays missing only when nothing after it is defined |
| Imputation.LastDefinedIsNearest | collector.py:67 | the last defined cell lies in the column with nothing defined after it, and is missing only when all cells are |
| Imputation.FirstDefinedIsNearest | collector.py:73 | the first defined cell lies in the column with nothing defined before it, and is missing only when all cells are |
| Imputation.FillGapsComplete | collector.py:73 | after `ffill().bfill()`, a column with any defined cell has no gap, and a column with none stays all-missing; defined cells are kept |
| Imputation.FillsKeepComplete | collector.py:67-73 | the fills leave a column with no gaps unchanged |
| Imputation.SortSorted | collector.py:70 | sorting the defined values returns them all, in ascending order |
| Imputation.MedianBetween | collector.py:70 | `median(skipna=True)` exists exactly when some cell is defined, and lies between two defined cells |
| Imputation.FillMedians | collector.py:69-71 | the per-column loop replaces each column's gaps with that column's median (`MedianFilled`) |
| Imputation.IndicatorFill | collector.py:67-73 | an indicator column goes through ffill, median fill and ffill/bfill: it ends with no gap when it had any defined cell, and defined cells are kept |
| Imputation.FilledShape | collector.py:65-73 | after dropping the cold rows and filling, each column that had a defined cell has no gap, each that had none stays all-missing, and defined cells are kept |
| Imputation.KeepAllOrNothing | collector.py:75 | a filter that keeps every row or none keeps the whole column or an empty one |
| Imputation.DropIsAllOrNothing | collector.py:73-75 | after the fills, `dropna(subset=price_cols)` drops no row, or drops every row when some price column had no defined cell |
| Imputation.CleanData | collector.py:64-78 | `clean_data` returns `CleanSpec` |
| Imputation.CleanShape | collector.py:65-78 | the result is empty, or has at least `min_rows` rows: the input's rows from `min_rolling` on, in order, with the same columns |
| Imputation.CleanNonEmpty | collector.py:65-78 | the result is non-empty exactly when at least `min_rolling + min_rows` rows (and more than `min_rolling`) exist and every price column has a defined cell after the cold rows |
| Imputation.CleanComplete | collector.py:67-75 | a non-empty result has no missing price; each indicator column is complete unless it was all-missing; defined cells keep their values |
| Imputation.CleanOfComplete | collector.py:64-78 | when nothing after the cold rows is missing and enough rows remain, `clean_data` is just `iloc[min_rolling:]` |
| Aggregation.Key | collector.py:95 | the bucket of timestamp `t` for period `p`: the `k` with `kp <= t < (k+1)p` |
| Aggregation.Earliest | collector.py:89 | `first`: the earliest row among those with the smallest timestamp |
| Aggregation.Latest | collector.py:92 | `last`: the latest row among those with the largest timestamp |
| Aggregation.MaxHigh | collector.py:90 | `max` of the highs of a bucket |
| Aggregation.MinLow | collector.py:91 | `min` of the lows of a bucket |
| Aggregation.SumVolume | collector.py:93 | `sum` of the volumes of a bucket |
| Aggregation.AggregateBucket | collector.py:88-94 | the `agg(ohlc)` bar of one non-empty bucket, labelled with the period start: the open of a row with the smallest timestamp, the close of a row with the largest, the high and low attained by rows and bounding every row, and the bucket's volume sum |
| Aggregation.Resample | collector.py:88-95 | `resample(freq).agg(...).dropna()`: one bar per non-empty bucket, in bucket order |
| Aggregation.AggregateSpec | collector.py:81-101 | `aggregate_and_save`: resample the cleaned one-minute candles, add indicators, clean, keep the newest 7770 rows, and write nothing when the result is empty |
| Aggregation.EarliestIsFirst | collector.py:89 | `first` takes the earliest row among those with the smallest timestamp |
| Aggregation.LatestIsLast | collector.py:92 | `last` takes the latest row among those with the largest timestamp |
| Aggregation.EarliestLatestOfAscending | collector.py:89-92 | on strictly ascending timestamps, `first` and `last` are the first and last rows |
| Aggregation.HighLowAreExtremes | collector.py:90-91 | the bucket high is the maximum high and the bucket low the minimum low, each attained by a row |
| Aggregation.SumVolumeAppend | collector.py:93 | the volume sum splits over concatenation |
| Aggregation.ResampleConservesVolume | collector.py:93-95 | the total volume of the resampled bars equals the total volume of the input |
| Aggregation.ResampleBarsAreBuckets | collector.py:88-95 | every output bar is one non-empty bucket `[kP, (k+1)P)`, labelled `kP`, with that bucket's first/max/min/last/sum |
| Aggregation.ResampleAscends | collector.py:95 | output bars are in strictly ascending bucket order |
| Aggregation.ResampleCoversRows | collector.py:95 | every input row's bucket appears in the output, and the output is non-empty exactly when the input is |
| Aggregation.FiveMinuteExample | collector.py:88-95 | five one-minute bars closing at 59999 to 299999 ms resample to the single five-minute bar with open 10, high 12, low 9, close 14 and volume 5 |
| Aggregation.DayOriginAgrees | collector.py:15-21 | for a period that divides a day, buckets counted from any midnight coincide with buckets counted from the epoch |
| Aggregation.FrameBarsOfIndicators | collector.py:24-61 | `add_indicators` keeps the candles: reading them back gives the input |
| Aggregation.WarmRowsComplete | collector.py:26-56 | after the first 30 rows no cell of the indicator table is missing |
| Aggregation.CleanOfIndicators | collector.py:64-78 | on an indicator table, `clean_data(min_rolling=30)` is non-empty exactly when at least `30 + min_rows` (and more than 30) rows exist, and it is then the table without its first 30 rows |
| Aggregation.FrameBarsOfWarmRows | collector.py:65 | the candles of the cleaned indicator table are the input candles after the first 30 |
| Aggregation.AggregateAndSave | collector.py:81-101 | `aggregate_and_save` returns what `AggregateSpec` says is written: the cleaned resampled series cut to 7770 rows, or nothing when it is empty |
| Aggregation.TakeLastOfComplete | collector.py:98-99 | truncation keeps a complete table complete, and its candles are the newest of the original candles |
| Aggregation.NewestWarmRows | collector.py:96-99 | a written timeframe has between 1 and 7770 rows, no missing cell, nine indicator columns, and the candles `Last(agg[30..], 7770)` |
| Aggregation.AggregateWritten | collector.py:95-101 | a timeframe is written exactly when resampling gives at least 40 bars (30 cold and 10 required), and it is then the indicator table of the bars without its first 30 rows, cut to 7770 |
| Collector.Message.Closed | collector.py:127-131 | a message is handled only when it is a kline (`'k' in msg`) whose candle is closed (`k['x']`) |
| Collector.Timeframes | collector.py:15-21 | `AGGREGATES`: the keys 5m, 15m, 30m, 1h and 4h with periods 5, 15, 30, 60 and 240 minutes, in that order |
| Collector.FileName | collector.py:159 | the path `data/btc_eur_<key>_clean.csv` of a timeframe's file |
| Collector.OneMinuteClean | collector.py:150-153 | `clean_data(add_indicators(df), min_rolling=30, min_rows=30)` on the history |
| Collector.WriteAll | collector.py:158-160 | the files after writing each present aggregate to its file in turn; an absent one leaves the files as they were |
| Collector.Persist | collector.py:150-160 | the files after an update: unchanged while the one-minute cleaning is empty, else the one-minute file and every non-empty timeframe aggregate rewritten |
| Collector.FileNameInjective | collector.py:159 | distinct timeframe keys give distinct file paths |
| Collector.FilesDistinct | collector.py:12-21 | the five timeframe files are distinct, and none is the one-minute file |
| Collector.PeriodsPositive | collector.py:15-21 | every configured period is positive |
| Collector.WriteAllFiles | collector.py:158-160 | writing in turn to distinct files: each written file holds its table, and every other file is left as it was |
| Collector.OutputFiles | collector.py:155-160 | after the writes, the one-minute file holds the cleaned table and each timeframe file holds its output, or is unchanged when there is none; no other file changes |
| Collector.OneMinuteTable | collector.py:150-154 | the one-minute cleaning is non-empty exactly when the history holds at least 60 candles, and it is then the history's indicator table without its first 30 rows, complete, with candles `history[30..]` |
| Collector.OneMinuteFile | collector.py:150-155 | no file changes before the history holds 60 candles; from then on the one-minute file holds the cleaned table |
| Collector.TimeframeFile | collector.py:157-160 | once the one-minute file is written, timeframe `i`'s file is rewritten exactly when resampling `history[30..]` gives at least 40 bars, and is otherwise left as it was |
| Collector.HistoryAppend | collector.py:141-147 | appending to the bounded history and cutting again gives the newest 7770 of all candles, ending with the new candle |
| Collector.Collector.constructor | collector.py:109-117 | at start-up the history is `Loaded(disk)`: the candles of the one-minute file when it exists, none otherwise; nothing has been received and no file changes |
| Collector.Loaded | collector.py:109-117 | the candles read at start-up: those of `data/btc_eur_1m_clean.csv` (`FILEPATH`, line 12), or none when it does not exist |
| Collector.ReloadOneMinute | collector.py:150-155 | reading back, as lines 110-111 do, the one-minute file that the loop writes gives the history without its first 30 candles |
| Collector.Collector.Step | collector.py:125-160 | a non-kline or unclosed message changes nothing; a closed candle is appended, the history is cut to the newest 7770 of everything loaded and received, and the files become `Persist` of the new history |
| Collector.Collector.Save | collector.py:150-160 | recomputes the indicators, cleans, and writes the files as `Persist` says, leaving the history unchanged |
| Collector.Collector.SaveTimeframes | collector.py:157-160 | the loop over the timeframes writes each non-empty aggregate to its file, in configured order |

## Left out

- Bollinger `bb_std`, `bb_upper`, `bb_lower` and `bb_z` (collector.py:55-60) need a square root, which exact reals do not provide. They are not indicator columns of the model. Pandas computes `std` with ddof=1. Their window is the same 20 rows as `bb_ma`.
- Network and concurrency: the Binance client, the socket manager, `asyncio` and `sleep` (collector.py:120-126, 164). Messages arrive as the parameter of `Step`.
- CSV reading and writing, `os.makedirs` and the `print` logging. A write is an update of the `files` map. The files present at start-up are the constructor's parameter.
- Timestamp parsing, `tz_localize` and `to_datetime(errors='coerce')` (collector.py:83-86, 113-115, 134). Timestamps are integer milliseconds, and a candle's prices are already numbers.
- Collector.Collector.constructor: requires the one-minute file, when present, to have all prices present. A CSV row with a missing price, which pandas would read as NaN, is not modelled.
- Floating-point rounding. The model computes over exact reals, so it says nothing about float64 behaviour near ε = 1e-9.
- Indicator columns of a loaded CSV are not modelled: `add_indicators` recomputes every one of them from the prices on the next update.
- Imputation.CleanData: the price/indicator column partition is fixed as in every call of `clean_data`. The model's "insufficient rows" result is a table with no rows and no columns, as `pd.DataFrame()` is.
- Indicators.AddIndicators: requires at least one candle, which both call sites (collector.py:96, 150) guarantee. On an empty table pandas would grow the frame to one row with every price missing and OBV 0 when it assigns the one-element OBV list; that row is not modelled.
- The source does not check that candles arrive in time order, and neither does `Step`.
- The RSI of a series whose closes only rise is not 100 over the reals. ε > 0 keeps it strictly below 100 (`RsiRange`).
