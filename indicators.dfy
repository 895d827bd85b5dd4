/** The indicator engine (`add_indicators`): derived columns computed from an
    ordered series of candles. Every column is recomputed from row 0 on each
    call; windows run over row positions, not over wall-clock time. */
module Indicators {
  import opened Series

  /** One OHLCV candle; `ts` is its timestamp in milliseconds since the epoch. */
  datatype Bar = Bar(ts: int, open: real, high: real, low: real, close: real, volume: real)

  /** Added to the average loss before dividing, so that RSI never divides by zero. */
  const Epsilon: real := 0.000000001

  const RsiWindow: nat := 14
  const ShortMaWindow: nat := 7
  const LongMaWindow: nat := 25
  const AtrWindow: nat := 14
  const BollingerWindow: nat := 20
  const FastSpan: nat := 12
  const SlowSpan: nat := 26

  /** Positions of the indicator columns, in the order the engine adds them. */
  const RsiCol: nat := 0
  const Ema12Col: nat := 1
  const Ema26Col: nat := 2
  const Ma7Col: nat := 3
  const Ma25Col: nat := 4
  const MacdCol: nat := 5
  const ObvCol: nat := 6
  const AtrCol: nat := 7
  const BbMaCol: nat := 8
  const IndicatorCount: nat := 9

  /** First row at which each indicator column is defined. */
  const Warmup: seq<nat> := [14, 0, 0, 6, 24, 0, 0, 13, 19]

  /** Price column `j` of a candle: open, high, low, close, volume. */
  function PriceOf(b: Bar, j: nat): real
    requires j < 5
  {
    match j
    case 0 => b.open
    case 1 => b.high
    case 2 => b.low
    case 3 => b.close
    case 4 => b.volume
  }

  function Timestamps(bars: seq<Bar>): seq<int> {
    seq(|bars|, i requires 0 <= i < |bars| => bars[i].ts)
  }

  function Closes(bars: seq<Bar>): seq<real> {
    seq(|bars|, i requires 0 <= i < |bars| => bars[i].close)
  }

  function PriceColumns(bars: seq<Bar>): seq<Column> {
    seq(5, j requires 0 <= j < 5 => seq(|bars|, i requires 0 <= i < |bars| => Some(PriceOf(bars[i], j))))
  }

  // ---------------------------------------------------------------------
  // Strict trailing windows
  // ---------------------------------------------------------------------

  predicate NonNegative(c: Column) {
    forall i | 0 <= i < |c| && c[i].Some? :: c[i].value >= 0.0
  }

  /** Sum of the cells of a window, missing as soon as any cell is missing. */
  function WindowSum(c: Column): Option<real> {
    if c == [] then Some(0.0)
    else if c[0].None? then None
    else match WindowSum(c[1..])
      case None => None
      case Some(s) => Some(c[0].value + s)
  }

  /** `rolling(w).mean()` with pandas' default `min_periods = w`. */
  function Rolling(c: Column, w: nat): (r: Column)
    requires w > 0
    ensures |r| == |c|
  {
    seq(|c|, i requires 0 <= i < |c| =>
      if i + 1 < w then None
      else match WindowSum(c[i + 1 - w..i + 1])
        case None => None
        case Some(s) => Some(s / (w as real)))
  }

  lemma {:induction false} WindowSumDefined(c: Column)
    ensures WindowSum(c).Some? <==> AllSome(c)
  {
    if c != [] {
      WindowSumDefined(c[1..]);
      if AllSome(c) {
        assert AllSome(c[1..]) by {
          forall i | 0 <= i < |c[1..]| ensures c[1..][i].Some? {
            assert c[1..][i] == c[i + 1];
          }
        }
      } else if c[0].Some? {
        var k :| 0 <= k < |c| && c[k].None?;
        assert c[1..][k - 1] == c[k];
      }
    }
  }

  lemma {:induction false} WindowSumNonNegative(c: Column)
    requires NonNegative(c)
    ensures WindowSum(c).Some? ==> WindowSum(c).value >= 0.0
  {
    if c != [] {
      assert NonNegative(c[1..]) by {
        forall i | 0 <= i < |c[1..]| && c[1..][i].Some? ensures c[1..][i].value >= 0.0 {
          assert c[1..][i] == c[i + 1];
        }
      }
      WindowSumNonNegative(c[1..]);
    }
  }

  lemma {:induction false} WindowSumOfDefined(xs: seq<real>)
    ensures WindowSum(Lift(xs)) == Some(Sum(xs))
  {
    if xs != [] {
      assert Lift(xs)[1..] == Lift(xs[1..]);
      WindowSumOfDefined(xs[1..]);
    }
  }

  /** A window of width `w` ending at row `i` is defined exactly when
      `i >= w - 1` and every one of its `w` cells is defined. */
  lemma RollingDefined(c: Column, w: nat, i: nat)
    requires w > 0 && i < |c|
    ensures Rolling(c, w)[i].Some? <==>
            (i >= w - 1 && forall j | i + 1 - w <= j <= i :: c[j].Some?)
  {
    if i + 1 >= w {
      var win := c[i + 1 - w..i + 1];
      assert Rolling(c, w)[i].Some? <==> WindowSum(win).Some?;
      WindowSumDefined(win);
      SliceAllSome(c, i + 1 - w, i + 1);
    }
  }

  lemma SliceAllSome(c: Column, lo: nat, hi: nat)
    requires lo <= hi <= |c|
    ensures AllSome(c[lo..hi]) <==> forall j | lo <= j < hi :: c[j].Some?
  {
    var win := c[lo..hi];
    if AllSome(win) {
      forall j | lo <= j < hi ensures c[j].Some? {
        assert c[j] == win[j - lo];
      }
    }
  }

  /** Over a column with no missing cell, the rolling mean at row `i` is the
      plain average of the `w` values ending at `i`, from row `w - 1` on. */
  lemma RollingMeanOfDefined(xs: seq<real>, w: nat, i: nat)
    requires w > 0 && i < |xs|
    ensures Rolling(Lift(xs), w)[i] ==
            if i + 1 < w then None else Some(Sum(xs[i + 1 - w..i + 1]) / (w as real))
  {
    if i + 1 >= w {
      assert Lift(xs)[i + 1 - w..i + 1] == Lift(xs[i + 1 - w..i + 1]);
      WindowSumOfDefined(xs[i + 1 - w..i + 1]);
    }
  }

  lemma RollingNonNegative(c: Column, w: nat)
    requires w > 0 && NonNegative(c)
    ensures NonNegative(Rolling(c, w))
  {
    forall i | 0 <= i < |c| && Rolling(c, w)[i].Some?
      ensures Rolling(c, w)[i].value >= 0.0
    {
      var win := c[i + 1 - w..i + 1];
      assert NonNegative(win) by {
        forall k | 0 <= k < |win| && win[k].Some? ensures win[k].value >= 0.0 {
          assert win[k] == c[i + 1 - w + k];
        }
      }
      WindowSumNonNegative(win);
    }
  }

  // ---------------------------------------------------------------------
  // RSI
  // ---------------------------------------------------------------------

  /** `close.diff()`: the change from the previous row, missing at row 0. */
  function Diff(xs: seq<real>): (r: Column)
    ensures |r| == |xs|
  {
    seq(|xs|, i requires 0 <= i < |xs| => if i == 0 then None else Some(xs[i] - xs[i - 1]))
  }

  /** `delta.clip(lower=0)`; a missing cell stays missing. */
  function Gains(d: Column): (r: Column)
    ensures |r| == |d| && NonNegative(r)
    ensures forall i | 0 <= i < |d| :: r[i].Some? == d[i].Some?
  {
    seq(|d|, i requires 0 <= i < |d| =>
      if d[i].None? then None else Some(if d[i].value > 0.0 then d[i].value else 0.0))
  }

  /** `-delta.clip(upper=0)`; a missing cell stays missing. */
  function Losses(d: Column): (r: Column)
    ensures |r| == |d| && NonNegative(r)
    ensures forall i | 0 <= i < |d| :: r[i].Some? == d[i].Some?
  {
    seq(|d|, i requires 0 <= i < |d| =>
      if d[i].None? then None else Some(if d[i].value < 0.0 then -d[i].value else 0.0))
  }

  function RsiCell(up: Column, down: Column, i: nat): Option<real>
    requires |up| == |down| && i < |up|
    requires NonNegative(up) && NonNegative(down)
  {
    if up[i].Some? && down[i].Some? then
      var rs := up[i].value / (down[i].value + Epsilon);
      assert rs >= 0.0;
      Some(100.0 - 100.0 / (1.0 + rs))
    else None
  }

  /** `100 - 100 / (1 + rs)` with `rs` the ratio of the 14-row average gain
      to the 14-row average loss plus epsilon. */
  function Rsi(closes: seq<real>): (r: Column)
    ensures |r| == |closes|
  {
    var d := Diff(closes);
    var up := Rolling(Gains(d), RsiWindow);
    var down := Rolling(Losses(d), RsiWindow);
    RollingNonNegative(Gains(d), RsiWindow);
    RollingNonNegative(Losses(d), RsiWindow);
    seq(|closes|, i requires 0 <= i < |closes| => RsiCell(up, down, i))
  }

  /** RSI is missing on rows 0 to 13 and defined from row 14 on: row 13's
      window still contains the missing change at row 0. */
  lemma RsiWarmup(closes: seq<real>, i: nat)
    requires i < |closes|
    ensures Rsi(closes)[i].Some? <==> i >= 14
  {
    var d := Diff(closes);
    RollingDefined(Gains(d), RsiWindow, i);
    RollingDefined(Losses(d), RsiWindow, i);
    if i >= 14 {
      forall j | i + 1 - 14 <= j <= i ensures Gains(d)[j].Some? && Losses(d)[j].Some? {
        assert d[j].Some?;
      }
    } else if i >= 13 {
      assert d[0].None?;
    }
  }

  /** Wherever it is defined, RSI lies in [0, 100). */
  lemma RsiRange(closes: seq<real>, i: nat)
    requires i < |closes| && Rsi(closes)[i].Some?
    ensures 0.0 <= Rsi(closes)[i].value < 100.0
  {
    var d := Diff(closes);
    var up := Rolling(Gains(d), RsiWindow);
    var down := Rolling(Losses(d), RsiWindow);
    RollingNonNegative(Gains(d), RsiWindow);
    RollingNonNegative(Losses(d), RsiWindow);
    var rs := up[i].value / (down[i].value + Epsilon);
    assert rs >= 0.0;
    var q := 100.0 / (1.0 + rs);
    assert 0.0 < q <= 100.0 by {
      assert 1.0 + rs >= 1.0;
    }
  }

  // ---------------------------------------------------------------------
  // EMA and MACD
  // ---------------------------------------------------------------------

  /** Smoothing factor of an EMA with the given span. */
  function Alpha(span: nat): (a: real)
    ensures 0.0 < a <= 1.0 || span == 0
  {
    2.0 / (span as real + 1.0)
  }

  /** `ewm(span, adjust=False).mean()` at row `i`: seeded with the first
      value, then `alpha * x_i + (1 - alpha) * ema_{i-1}`. */
  function EmaAt(xs: seq<real>, alpha: real, i: nat): real
    requires i < |xs|
  {
    if i == 0 then xs[0] else alpha * xs[i] + (1.0 - alpha) * EmaAt(xs, alpha, i - 1)
  }

  function Ema(xs: seq<real>, span: nat): (r: seq<real>)
    ensures |r| == |xs|
  {
    seq(|xs|, i requires 0 <= i < |xs| => EmaAt(xs, Alpha(span), i))
  }

  function Macd(closes: seq<real>): (r: seq<real>)
    ensures |r| == |closes|
  {
    var fast := Ema(closes, FastSpan);
    var slow := Ema(closes, SlowSpan);
    seq(|closes|, i requires 0 <= i < |closes| => fast[i] - slow[i])
  }

  lemma MulNonNegative(p: real, q: real)
    requires p >= 0.0 && q >= 0.0
    ensures p * q >= 0.0
  {
  }

  /** A weighted mean of two values in [lo, hi] stays in [lo, hi]. */
  lemma Between(a: real, x: real, e: real, lo: real, hi: real)
    requires 0.0 <= a <= 1.0 && lo <= x <= hi && lo <= e <= hi
    ensures lo <= a * x + (1.0 - a) * e <= hi
  {
    var b := 1.0 - a;
    MulNonNegative(a, x - lo);
    MulNonNegative(b, e - lo);
    MulNonNegative(a, hi - x);
    MulNonNegative(b, hi - e);
    assert a * x + (1.0 - a) * e - lo == a * (x - lo) + (1.0 - a) * (e - lo);
    assert hi - (a * x + (1.0 - a) * e) == a * (hi - x) + (1.0 - a) * (hi - e);
  }

  /** An EMA never leaves the range of the values it has seen so far. */
  lemma {:induction false} EmaBounded(xs: seq<real>, alpha: real, lo: real, hi: real, i: nat)
    requires 0.0 <= alpha <= 1.0
    requires i < |xs| && forall j | 0 <= j <= i :: lo <= xs[j] <= hi
    ensures lo <= EmaAt(xs, alpha, i) <= hi
  {
    if i > 0 {
      EmaBounded(xs, alpha, lo, hi, i - 1);
      Between(alpha, xs[i], EmaAt(xs, alpha, i - 1), lo, hi);
    }
  }

  /** A constant close series C gives EMA12 = EMA26 = C and MACD = 0 everywhere. */
  lemma ConstantCloses(closes: seq<real>, c: real)
    requires forall j | 0 <= j < |closes| :: closes[j] == c
    ensures forall i | 0 <= i < |closes| ::
      Ema(closes, FastSpan)[i] == c && Ema(closes, SlowSpan)[i] == c && Macd(closes)[i] == 0.0
  {
    forall i | 0 <= i < |closes|
      ensures Ema(closes, FastSpan)[i] == c && Ema(closes, SlowSpan)[i] == c
    {
      EmaBounded(closes, Alpha(FastSpan), c, c, i);
      EmaBounded(closes, Alpha(SlowSpan), c, c, i);
    }
  }

  // ---------------------------------------------------------------------
  // On-balance volume
  // ---------------------------------------------------------------------

  /** OBV at row `i`: 0 at row 0, then the volume is added when the close
      rose, subtracted when it fell, and nothing changes otherwise. */
  function ObvAt(bars: seq<Bar>, i: nat): real
    requires i < |bars|
  {
    if i == 0 then 0.0
    else if bars[i].close > bars[i - 1].close then ObvAt(bars, i - 1) + bars[i].volume
    else if bars[i].close < bars[i - 1].close then ObvAt(bars, i - 1) - bars[i].volume
    else ObvAt(bars, i - 1)
  }

  function ObvSpec(bars: seq<Bar>): (r: seq<real>)
    ensures |r| == |bars|
  {
    seq(|bars|, i requires 0 <= i < |bars| => ObvAt(bars, i))
  }

  /** The OBV loop: starts from `[0]` and appends one value per further row.
      On an empty series it still returns `[0]`. */
  method Obv(bars: seq<Bar>) returns (obv: seq<real>)
    ensures |bars| > 0 ==> obv == ObvSpec(bars)
    ensures |bars| == 0 ==> obv == [0.0]
  {
    obv := [0.0];
    var i := 1;
    while i < |bars|
      invariant 1 <= i && (|bars| > 0 ==> i <= |bars|)
      invariant |obv| == i && (|bars| == 0 ==> obv == [0.0])
      invariant forall k | 0 <= k < i && k < |bars| :: obv[k] == ObvAt(bars, k)
    {
      if bars[i].close > bars[i - 1].close {
        obv := obv + [obv[|obv| - 1] + bars[i].volume];
      } else if bars[i].close < bars[i - 1].close {
        obv := obv + [obv[|obv| - 1] - bars[i].volume];
      } else {
        obv := obv + [obv[|obv| - 1]];
      }
      i := i + 1;
    }
  }

  /** A constant close series has OBV 0 on every row. */
  lemma {:induction false} ObvFlat(bars: seq<Bar>, i: nat)
    requires i < |bars| && forall j | 0 <= j < |bars| :: bars[j].close == bars[0].close
    ensures ObvAt(bars, i) == 0.0
  {
    if i > 0 {
      ObvFlat(bars, i - 1);
    }
  }

  /** Strictly rising closes with positive volumes give strictly rising OBV. */
  lemma {:induction false} ObvRising(bars: seq<Bar>, i: nat, k: nat)
    requires i < k < |bars|
    requires forall j | 0 < j < |bars| :: bars[j - 1].close < bars[j].close && bars[j].volume > 0.0
    ensures ObvAt(bars, i) < ObvAt(bars, k)
  {
    if i < k - 1 {
      ObvRising(bars, i, k - 1);
    }
  }

  /** Strictly falling closes with positive volumes give strictly falling OBV. */
  lemma {:induction false} ObvFalling(bars: seq<Bar>, i: nat, k: nat)
    requires i < k < |bars|
    requires forall j | 0 < j < |bars| :: bars[j - 1].close > bars[j].close && bars[j].volume > 0.0
    ensures ObvAt(bars, i) > ObvAt(bars, k)
  {
    if i < k - 1 {
      ObvFalling(bars, i, k - 1);
    }
  }

  /** OBV is a fold over the retained rows only: after the first `k` rows are
      evicted, every value shifts by the OBV the evicted prefix had built up. */
  lemma {:induction false} ObvReseed(bars: seq<Bar>, k: nat, i: nat)
    requires k + i < |bars|
    ensures ObvAt(bars[k..], i) == ObvAt(bars, k + i) - ObvAt(bars, k)
  {
    if i > 0 {
      ObvReseed(bars, k, i - 1);
      assert bars[k..][i] == bars[k + i] && bars[k..][i - 1] == bars[k + i - 1];
    }
  }

  // ---------------------------------------------------------------------
  // True range and ATR
  // ---------------------------------------------------------------------

  function Abs(x: real): real { if x < 0.0 then -x else x }

  function Max(x: real, y: real): real { if x < y then y else x }

  /** Row-wise maximum of high-low, |high - previous close| and
      |low - previous close|; on row 0 the shifted close is missing and the
      maximum skips it, leaving high-low. */
  function TrueRangeAt(bars: seq<Bar>, i: nat): real
    requires i < |bars|
  {
    var hl := bars[i].high - bars[i].low;
    if i == 0 then hl
    else Max(Max(hl, Abs(bars[i].high - bars[i - 1].close)), Abs(bars[i].low - bars[i - 1].close))
  }

  function TrueRange(bars: seq<Bar>): Column {
    seq(|bars|, i requires 0 <= i < |bars| => Some(TrueRangeAt(bars, i)))
  }

  /** The true range is the largest of its candidates and equals one of them. */
  lemma TrueRangeIsMax(bars: seq<Bar>, i: nat)
    requires i < |bars|
    ensures var tr := TrueRangeAt(bars, i);
      var hl := bars[i].high - bars[i].low;
      tr >= hl && (i == 0 ==> tr == hl) &&
      (i > 0 ==> var hc := Abs(bars[i].high - bars[i - 1].close);
                 var lc := Abs(bars[i].low - bars[i - 1].close);
                 tr >= hc && tr >= lc && (tr == hl || tr == hc || tr == lc))
  {
  }

  // ---------------------------------------------------------------------
  // The engine
  // ---------------------------------------------------------------------

  /** The indicator columns, in their fixed order, given the OBV column. */
  function IndicatorColumns(bars: seq<Bar>, obv: seq<real>): seq<Column>
    requires |obv| == |bars|
  {
    var closes := Closes(bars);
    [ Rsi(closes),
      Lift(Ema(closes, FastSpan)),
      Lift(Ema(closes, SlowSpan)),
      Rolling(Lift(closes), ShortMaWindow),
      Rolling(Lift(closes), LongMaWindow),
      Lift(Macd(closes)),
      Lift(obv),
      Rolling(TrueRange(bars), AtrWindow),
      Rolling(Lift(closes), BollingerWindow) ]
  }

  /** What the engine returns for a series of candles. */
  function IndicatorsSpec(bars: seq<Bar>): Frame {
    Frame(Timestamps(bars), PriceColumns(bars), IndicatorColumns(bars, ObvSpec(bars)))
  }

  /** `add_indicators`, on at least one candle: it runs right after an
      append and on the resampling of a non-empty table. On an empty table
      pandas would grow the frame to one row with every price missing and
      OBV 0 when the OBV list `[0]` is assigned; that case is not modelled. */
  method AddIndicators(bars: seq<Bar>) returns (f: Frame)
    requires |bars| > 0
    ensures f == IndicatorsSpec(bars)
  {
    var obv := Obv(bars);
    f := Frame(Timestamps(bars), PriceColumns(bars), IndicatorColumns(bars, obv));
  }

  /** The engine's frame has one cell per row in each of its five price and
      nine indicator columns, and keeps the candles as they are. */
  lemma IndicatorShape(bars: seq<Bar>)
    ensures var f := IndicatorsSpec(bars);
      f.WellFormed() && |f.prices| == 5 && |f.inds| == IndicatorCount &&
      f.ts == Timestamps(bars) &&
      (forall j, i | 0 <= j < 5 && 0 <= i < |bars| :: f.prices[j][i] == Some(PriceOf(bars[i], j)))
  {
  }

  /** Every indicator column is missing exactly on its warm-up rows: RSI
      until row 14, MA7 until 6, MA25 until 24, ATR until 13, the Bollinger
      mean until 19, the others nowhere. */
  lemma IndicatorWarmup(bars: seq<Bar>, j: nat, i: nat)
    requires j < IndicatorCount && i < |bars|
    ensures IndicatorsSpec(bars).inds[j][i].Some? <==> i >= Warmup[j]
  {
    var closes := Closes(bars);
    var f := IndicatorsSpec(bars);
    if j == RsiCol {
      RsiWarmup(closes, i);
    } else if j == Ma7Col || j == Ma25Col || j == BbMaCol {
      RollingDefined(Lift(closes), [0, 0, 0, 7, 25, 0, 0, 0, 20][j], i);
    } else if j == AtrCol {
      RollingDefined(TrueRange(bars), AtrWindow, i);
    }
  }
}
