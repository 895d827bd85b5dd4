/** The timeframe aggregator (`aggregate_and_save` without the file write):
    re-bucket the clean one-minute series into coarser OHLCV bars, run the
    indicator engine and the imputation stage over them, and keep at most
    the newest `RollWindow` rows. */
module Aggregation {
  import opened Series
  import opened Indicators
  import opened Imputation

  const MinuteMs: int := 60000
  const DayMinutes: int := 1440

  /** Row capacity of every retained or persisted series. */
  const RollWindow: nat := 7770

  // ---------------------------------------------------------------------
  // Buckets
  // ---------------------------------------------------------------------

  /** Number of the half-open period `[k * p, (k + 1) * p)` holding `t`. */
  function Key(t: int, p: int): (k: int)
    requires p > 0
    ensures k * p <= t < (k + 1) * p
  {
    t / p
  }

  /** Rows whose period number lies in `[lo, hi)`, in row order. */
  function Within(bars: seq<Bar>, p: int, lo: int, hi: int): seq<Bar>
    requires p > 0
  {
    if bars == [] then []
    else (if lo <= Key(bars[0].ts, p) < hi then [bars[0]] else []) + Within(bars[1..], p, lo, hi)
  }

  /** Rows of period `k`, in row order. */
  function Bucket(bars: seq<Bar>, p: int, k: int): seq<Bar>
    requires p > 0
  {
    Within(bars, p, k, k + 1)
  }

  /** The row pandas reports as `first` after its stable sort by time: the
      earliest row among those with the smallest timestamp. */
  function Earliest(bs: seq<Bar>): Bar
    requires |bs| > 0
  {
    if |bs| == 1 then bs[0]
    else
      var e := Earliest(bs[1..]);
      if bs[0].ts <= e.ts then bs[0] else e
  }

  /** The row pandas reports as `last` after its stable sort by time: the
      latest row among those with the largest timestamp. */
  function Latest(bs: seq<Bar>): Bar
    requires |bs| > 0
  {
    if |bs| == 1 then bs[0]
    else
      var l := Latest(bs[1..]);
      if l.ts >= bs[0].ts then l else bs[0]
  }

  function MaxHigh(bs: seq<Bar>): real
    requires |bs| > 0
  {
    if |bs| == 1 then bs[0].high else Max(bs[0].high, MaxHigh(bs[1..]))
  }

  function MinLow(bs: seq<Bar>): real
    requires |bs| > 0
  {
    if |bs| == 1 then bs[0].low
    else
      var m := MinLow(bs[1..]);
      if bs[0].low <= m then bs[0].low else m
  }

  function SumVolume(bs: seq<Bar>): real {
    if bs == [] then 0.0 else bs[0].volume + SumVolume(bs[1..])
  }

  /** The bar of one non-empty period, labelled with the period's start:
      the open of a row with the smallest timestamp, the close of a row with
      the largest, the attained extreme high and low, and the volume sum. */
  function AggregateBucket(bs: seq<Bar>, start: int): (b: Bar)
    requires |bs| > 0
    ensures b.ts == start && b.volume == SumVolume(bs)
    ensures exists i | 0 <= i < |bs| :: b.open == bs[i].open && forall j | 0 <= j < |bs| :: bs[i].ts <= bs[j].ts
    ensures exists i | 0 <= i < |bs| :: b.close == bs[i].close && forall j | 0 <= j < |bs| :: bs[i].ts >= bs[j].ts
    ensures forall j | 0 <= j < |bs| :: b.low <= bs[j].low && bs[j].high <= b.high
    ensures (exists j | 0 <= j < |bs| :: bs[j].high == b.high) && (exists j | 0 <= j < |bs| :: bs[j].low == b.low)
  {
    EarliestIsFirst(bs);
    LatestIsLast(bs);
    HighLowAreExtremes(bs);
    Bar(start, Earliest(bs).open, MaxHigh(bs), MinLow(bs), Latest(bs).close, SumVolume(bs))
  }

  function MinKey(bars: seq<Bar>, p: int): int
    requires p > 0 && |bars| > 0
  {
    if |bars| == 1 then Key(bars[0].ts, p)
    else
      var m := MinKey(bars[1..], p);
      if Key(bars[0].ts, p) <= m then Key(bars[0].ts, p) else m
  }

  function MaxKey(bars: seq<Bar>, p: int): int
    requires p > 0 && |bars| > 0
  {
    if |bars| == 1 then Key(bars[0].ts, p)
    else
      var m := MaxKey(bars[1..], p);
      if Key(bars[0].ts, p) >= m then Key(bars[0].ts, p) else m
  }

  /** The bars of periods `k` to `end - 1`; a period without rows yields a
      missing bar, which `dropna` removes. */
  function Collect(bars: seq<Bar>, p: int, k: int, end: int): seq<Bar>
    requires p > 0
    decreases end - k
  {
    if k >= end then []
    else
      var b := Bucket(bars, p, k);
      (if b == [] then [] else [AggregateBucket(b, k * p)]) + Collect(bars, p, k + 1, end)
  }

  /** `df.resample(period).agg(first, max, min, last, sum).dropna()` with
      the period `p` in milliseconds: every period from the first row's to
      the last row's, empty ones dropped. */
  function Resample(bars: seq<Bar>, p: int): seq<Bar>
    requires p > 0
  {
    if bars == [] then [] else Collect(bars, p, MinKey(bars, p), MaxKey(bars, p) + 1)
  }

  // ---------------------------------------------------------------------
  // What one bucket's bar holds
  // ---------------------------------------------------------------------

  /** `Earliest` is a row with the smallest timestamp of the bucket, and no
      row before it has that timestamp. */
  lemma {:induction false} EarliestIsFirst(bs: seq<Bar>)
    requires |bs| > 0
    ensures forall j | 0 <= j < |bs| :: Earliest(bs).ts <= bs[j].ts
    ensures exists m | 0 <= m < |bs| :: bs[m] == Earliest(bs) && forall j | 0 <= j < m :: bs[j].ts > bs[m].ts
  {
    if |bs| > 1 {
      var t := bs[1..];
      EarliestIsFirst(t);
      forall j | 0 < j < |bs| ensures Earliest(t).ts <= bs[j].ts {
        assert bs[j] == t[j - 1];
      }
      if bs[0].ts > Earliest(t).ts {
        var m :| 0 <= m < |t| && t[m] == Earliest(t) && forall j | 0 <= j < m :: t[j].ts > t[m].ts;
        assert bs[m + 1] == t[m];
        forall j | 0 < j < m + 1 ensures bs[j].ts > bs[m + 1].ts {
          assert bs[j] == t[j - 1];
        }
        assert bs[m + 1] == Earliest(bs) && forall j | 0 <= j < m + 1 :: bs[j].ts > bs[m + 1].ts;
      } else {
        assert bs[0] == Earliest(bs);
      }
    } else {
      assert bs[0] == Earliest(bs);
    }
  }

  /** `Latest` is a row with the largest timestamp of the bucket, and no row
      after it has that timestamp. */
  lemma {:induction false} LatestIsLast(bs: seq<Bar>)
    requires |bs| > 0
    ensures forall j | 0 <= j < |bs| :: Latest(bs).ts >= bs[j].ts
    ensures exists m | 0 <= m < |bs| :: bs[m] == Latest(bs) && forall j | m < j < |bs| :: bs[j].ts < bs[m].ts
  {
    if |bs| > 1 {
      var t := bs[1..];
      LatestIsLast(t);
      forall j | 0 < j < |bs| ensures Latest(t).ts >= bs[j].ts {
        assert bs[j] == t[j - 1];
      }
      if Latest(t).ts >= bs[0].ts {
        var m :| 0 <= m < |t| && t[m] == Latest(t) && forall j | m < j < |t| :: t[j].ts < t[m].ts;
        assert bs[m + 1] == t[m];
        forall j | m + 1 < j < |bs| ensures bs[j].ts < bs[m + 1].ts {
          assert bs[j] == t[j - 1];
        }
        assert bs[m + 1] == Latest(bs) && forall j | m + 1 < j < |bs| :: bs[j].ts < bs[m + 1].ts;
      } else {
        forall j | 0 < j < |bs| ensures bs[j].ts < bs[0].ts {
          assert bs[j] == t[j - 1];
        }
        assert bs[0] == Latest(bs) && forall j | 0 < j < |bs| :: bs[j].ts < bs[0].ts;
      }
    } else {
      assert bs[0] == Latest(bs);
    }
  }

  /** When the bucket's timestamps ascend, `first` and `last` are simply its
      first and last rows. */
  lemma EarliestLatestOfAscending(bs: seq<Bar>)
    requires |bs| > 0 && forall i, j | 0 <= i < j < |bs| :: bs[i].ts < bs[j].ts
    ensures Earliest(bs) == bs[0] && Latest(bs) == bs[|bs| - 1]
  {
    EarliestIsFirst(bs);
    LatestIsLast(bs);
  }

  /** The bucket's high is the largest high and its low the smallest low,
      each taken from one of its rows. */
  lemma {:induction false} HighLowAreExtremes(bs: seq<Bar>)
    requires |bs| > 0
    ensures forall j | 0 <= j < |bs| :: MinLow(bs) <= bs[j].low && bs[j].high <= MaxHigh(bs)
    ensures exists j | 0 <= j < |bs| :: bs[j].high == MaxHigh(bs)
    ensures exists j | 0 <= j < |bs| :: bs[j].low == MinLow(bs)
  {
    if |bs| > 1 {
      var t := bs[1..];
      HighLowAreExtremes(t);
      forall j | 0 < j < |bs| ensures MinLow(t) <= bs[j].low && bs[j].high <= MaxHigh(t) {
        assert bs[j] == t[j - 1];
      }
      var a :| 0 <= a < |t| && t[a].high == MaxHigh(t);
      var b :| 0 <= b < |t| && t[b].low == MinLow(t);
      assert bs[a + 1] == t[a] && bs[b + 1] == t[b];
      var hi := if bs[0].high >= MaxHigh(t) then 0 else a + 1;
      var lo := if bs[0].low <= MinLow(t) then 0 else b + 1;
      assert bs[hi].high == MaxHigh(bs);
      assert bs[lo].low == MinLow(bs);
    }
  }

  // ---------------------------------------------------------------------
  // What the resampled series holds
  // ---------------------------------------------------------------------

  lemma {:induction false} SumVolumeAppend(a: seq<Bar>, b: seq<Bar>)
    ensures SumVolume(a + b) == SumVolume(a) + SumVolume(b)
  {
    if a != [] {
      SumVolumeAppend(a[1..], b);
      assert (a + b)[1..] == a[1..] + b;
    } else {
      assert a + b == b;
    }
  }

  /** The rows of `[lo, hi)` carry the volume of period `lo` plus that of
      `[lo + 1, hi)`. */
  lemma {:induction false} WithinSplit(bars: seq<Bar>, p: int, lo: int, hi: int)
    requires p > 0 && lo < hi
    ensures SumVolume(Within(bars, p, lo, hi)) ==
            SumVolume(Bucket(bars, p, lo)) + SumVolume(Within(bars, p, lo + 1, hi))
  {
    if bars != [] {
      WithinSplit(bars[1..], p, lo, hi);
      var x := bars[0];
      SumVolumeAppend(if lo <= Key(x.ts, p) < hi then [x] else [], Within(bars[1..], p, lo, hi));
      SumVolumeAppend(if lo <= Key(x.ts, p) < lo + 1 then [x] else [], Bucket(bars[1..], p, lo));
      SumVolumeAppend(if lo + 1 <= Key(x.ts, p) < hi then [x] else [], Within(bars[1..], p, lo + 1, hi));
    }
  }

  lemma {:induction false} CollectVolume(bars: seq<Bar>, p: int, k: int, end: int)
    requires p > 0
    ensures SumVolume(Collect(bars, p, k, end)) == SumVolume(Within(bars, p, k, end))
    decreases end - k
  {
    if k >= end {
      WithinEmpty(bars, p, k, end);
    } else {
      CollectVolume(bars, p, k + 1, end);
      WithinSplit(bars, p, k, end);
      var b := Bucket(bars, p, k);
      SumVolumeAppend(if b == [] then [] else [AggregateBucket(b, k * p)], Collect(bars, p, k + 1, end));
    }
  }

  lemma {:induction false} WithinEmpty(bars: seq<Bar>, p: int, lo: int, hi: int)
    requires p > 0 && lo >= hi
    ensures Within(bars, p, lo, hi) == []
  {
    if bars != [] {
      WithinEmpty(bars[1..], p, lo, hi);
    }
  }

  lemma {:induction false} KeyRange(bars: seq<Bar>, p: int)
    requires p > 0 && |bars| > 0
    ensures forall j | 0 <= j < |bars| :: MinKey(bars, p) <= Key(bars[j].ts, p) <= MaxKey(bars, p)
  {
    if |bars| > 1 {
      KeyRange(bars[1..], p);
      forall j | 0 < j < |bars| ensures MinKey(bars[1..], p) <= Key(bars[j].ts, p) <= MaxKey(bars[1..], p) {
        assert bars[j] == bars[1..][j - 1];
      }
    }
  }

  lemma {:induction false} WithinAll(bars: seq<Bar>, p: int, lo: int, hi: int)
    requires p > 0 && forall j | 0 <= j < |bars| :: lo <= Key(bars[j].ts, p) < hi
    ensures Within(bars, p, lo, hi) == bars
  {
    if bars != [] {
      WithinAll(bars[1..], p, lo, hi);
    }
  }

  /** Resampling conserves the total volume. */
  lemma ResampleConservesVolume(bars: seq<Bar>, p: int)
    requires p > 0
    ensures SumVolume(Resample(bars, p)) == SumVolume(bars)
  {
    if bars != [] {
      KeyRange(bars, p);
      CollectVolume(bars, p, MinKey(bars, p), MaxKey(bars, p) + 1);
      WithinAll(bars, p, MinKey(bars, p), MaxKey(bars, p) + 1);
    }
  }

  lemma {:induction false} WithinHas(bars: seq<Bar>, p: int, lo: int, hi: int, j: nat)
    requires p > 0 && j < |bars| && lo <= Key(bars[j].ts, p) < hi
    ensures Within(bars, p, lo, hi) != []
  {
    if j > 0 {
      WithinHas(bars[1..], p, lo, hi, j - 1);
    }
  }

  lemma KeyOfStart(k: int, p: int)
    requires p > 0
    ensures Key(k * p, p) == k && (k + 1) * p == k * p + p
  {
    DivIsQuotient(k * p, p, k, 0);
  }

  /** `b` is the aggregate of its own non-empty period, which lies in
      `[k, end)`, and is labelled with the period's start. */
  predicate InBucketRange(bars: seq<Bar>, p: int, b: Bar, k: int, end: int)
    requires p > 0
  {
    k <= Key(b.ts, p) < end && b.ts == Key(b.ts, p) * p &&
    Bucket(bars, p, Key(b.ts, p)) != [] &&
    b == AggregateBucket(Bucket(bars, p, Key(b.ts, p)), b.ts)
  }

  /** Every bar of periods `k` to `end - 1` is the aggregate of its own
      non-empty period in that range, labelled with the period's start. */
  lemma {:induction false} CollectBarsAreBuckets(bars: seq<Bar>, p: int, k: int, end: int)
    requires p > 0
    ensures forall i | 0 <= i < |Collect(bars, p, k, end)| ::
      InBucketRange(bars, p, Collect(bars, p, k, end)[i], k, end)
    decreases end - k
  {
    if k < end {
      CollectBarsAreBuckets(bars, p, k + 1, end);
      KeyOfStart(k, p);
      var b := Bucket(bars, p, k);
      var rest := Collect(bars, p, k + 1, end);
      var r := Collect(bars, p, k, end);
      var skip := if b == [] then 0 else 1;
      assert r == (if b == [] then [] else [AggregateBucket(b, k * p)]) + rest;
      forall i | 0 <= i < |r| ensures InBucketRange(bars, p, r[i], k, end) {
        if i < skip {
          assert r[i] == AggregateBucket(b, k * p);
        } else {
          assert r[i] == rest[i - skip];
          assert InBucketRange(bars, p, rest[i - skip], k + 1, end);
        }
      }
    }
  }

  /** The labels of the collected bars strictly ascend. */
  lemma {:induction false} CollectAscends(bars: seq<Bar>, p: int, k: int, end: int)
    requires p > 0
    ensures forall i | 0 <= i < |Collect(bars, p, k, end)| :: k * p <= Collect(bars, p, k, end)[i].ts
    ensures forall i, j | 0 <= i < j < |Collect(bars, p, k, end)| ::
      Collect(bars, p, k, end)[i].ts < Collect(bars, p, k, end)[j].ts
    decreases end - k
  {
    if k < end {
      CollectAscends(bars, p, k + 1, end);
      KeyOfStart(k, p);
      var b := Bucket(bars, p, k);
      var rest := Collect(bars, p, k + 1, end);
      var r := Collect(bars, p, k, end);
      var skip := if b == [] then 0 else 1;
      assert r == (if b == [] then [] else [AggregateBucket(b, k * p)]) + rest;
      assert forall i | skip <= i < |r| :: r[i] == rest[i - skip];
      assert skip == 1 ==> r[0].ts == k * p;
      forall i | 0 <= i < |r| ensures k * p <= r[i].ts {
        if i >= skip {
          assert r[i] == rest[i - skip];
        }
      }
      forall i, j | 0 <= i < j < |r| ensures r[i].ts < r[j].ts {
        assert r[j] == rest[j - skip];
        if i >= skip {
          assert r[i] == rest[i - skip];
        }
      }
    }
  }

  /** Every non-empty period from `k` to `end - 1` has its bar. */
  lemma {:induction false} CollectCovers(bars: seq<Bar>, p: int, k: int, end: int, q: int)
    requires p > 0 && k <= q < end && Bucket(bars, p, q) != []
    ensures exists i | 0 <= i < |Collect(bars, p, k, end)| :: Collect(bars, p, k, end)[i].ts == q * p
    decreases end - k
  {
    var b := Bucket(bars, p, k);
    var rest := Collect(bars, p, k + 1, end);
    var r := Collect(bars, p, k, end);
    assert r == (if b == [] then [] else [AggregateBucket(b, k * p)]) + rest;
    if q == k {
      assert r[0].ts == q * p;
    } else {
      CollectCovers(bars, p, k + 1, end, q);
      var i :| 0 <= i < |rest| && rest[i].ts == q * p;
      if b != [] {
        assert r == [AggregateBucket(b, k * p)] + rest;
        assert r[i + 1].ts == q * p;
      } else {
        assert r == rest;
      }
    }
  }

  /** `resample(...).agg(...).dropna()`: each bar is labelled with its
      period's start and holds the first open, the highest high, the lowest
      low, the last close and the summed volume of exactly the rows of that
      period, which is not empty. */
  lemma ResampleBarsAreBuckets(bars: seq<Bar>, p: int)
    requires p > 0
    ensures forall i | 0 <= i < |Resample(bars, p)| ::
      var b := Resample(bars, p)[i];
      b.ts == Key(b.ts, p) * p && Bucket(bars, p, Key(b.ts, p)) != [] &&
      b == AggregateBucket(Bucket(bars, p, Key(b.ts, p)), b.ts)
  {
    if bars != [] {
      CollectBarsAreBuckets(bars, p, MinKey(bars, p), MaxKey(bars, p) + 1);
    }
  }

  /** The resampled bars strictly ascend by period. */
  lemma ResampleAscends(bars: seq<Bar>, p: int)
    requires p > 0
    ensures forall i, j | 0 <= i < j < |Resample(bars, p)| :: Resample(bars, p)[i].ts < Resample(bars, p)[j].ts
  {
    if bars != [] {
      CollectAscends(bars, p, MinKey(bars, p), MaxKey(bars, p) + 1);
    }
  }

  lemma ResampleHasRow(bars: seq<Bar>, p: int, j: nat)
    requires p > 0 && j < |bars|
    ensures exists i | 0 <= i < |Resample(bars, p)| :: Resample(bars, p)[i].ts == Key(bars[j].ts, p) * p
  {
    var lo, hi := MinKey(bars, p), MaxKey(bars, p) + 1;
    KeyRange(bars, p);
    var q := Key(bars[j].ts, p);
    WithinHas(bars, p, q, q + 1, j);
    assert Bucket(bars, p, q) != [];
    CollectCovers(bars, p, lo, hi, q);
    var r := Collect(bars, p, lo, hi);
    assert Resample(bars, p) == r;
    var i :| 0 <= i < |r| && r[i].ts == q * p;
    assert Resample(bars, p)[i].ts == Key(bars[j].ts, p) * p;
  }

  /** The period of every input row has its bar; so a non-empty input gives
      a non-empty result. */
  lemma ResampleCoversRows(bars: seq<Bar>, p: int)
    requires p > 0
    ensures forall j | 0 <= j < |bars| ::
      exists i | 0 <= i < |Resample(bars, p)| :: Resample(bars, p)[i].ts == Key(bars[j].ts, p) * p
    ensures |Resample(bars, p)| > 0 <==> |bars| > 0
  {
    forall j | 0 <= j < |bars|
      ensures exists i | 0 <= i < |Resample(bars, p)| :: Resample(bars, p)[i].ts == Key(bars[j].ts, p) * p
    {
      ResampleHasRow(bars, p, j);
    }
    if |bars| > 0 {
      ResampleHasRow(bars, p, 0);
    }
  }

  /** Five one-minute candles closing within one five-minute period
      (close times 59999 to 299999), opens and closes
      10 to 14, highs 12, lows 9, volumes 1, make one bar with open 10,
      high 12, low 9, close 14 and volume 5. */
  lemma FiveMinuteExample()
    ensures var bars := [Bar(59999, 10.0, 12.0, 9.0, 10.0, 1.0), Bar(119999, 11.0, 12.0, 9.0, 11.0, 1.0),
                         Bar(179999, 12.0, 12.0, 9.0, 12.0, 1.0), Bar(239999, 13.0, 12.0, 9.0, 13.0, 1.0),
                         Bar(299999, 14.0, 12.0, 9.0, 14.0, 1.0)];
      Resample(bars, 5 * MinuteMs) == [Bar(0, 10.0, 12.0, 9.0, 14.0, 5.0)]
  {
    var bars := [Bar(59999, 10.0, 12.0, 9.0, 10.0, 1.0), Bar(119999, 11.0, 12.0, 9.0, 11.0, 1.0),
                 Bar(179999, 12.0, 12.0, 9.0, 12.0, 1.0), Bar(239999, 13.0, 12.0, 9.0, 13.0, 1.0),
                 Bar(299999, 14.0, 12.0, 9.0, 14.0, 1.0)];
    var p := 5 * MinuteMs;
    FiveMinuteKeys(bars, p);
    FiveMinuteBar(bars);
    assert Collect(bars, p, 1, 1) == [];
    assert Collect(bars, p, 0, 1) == [AggregateBucket(bars, 0)] + Collect(bars, p, 1, 1);
  }

  /** The five candles of `FiveMinuteExample` all fall in period 0. */
  lemma FiveMinuteKeys(bars: seq<Bar>, p: int)
    requires bars == [Bar(59999, 10.0, 12.0, 9.0, 10.0, 1.0), Bar(119999, 11.0, 12.0, 9.0, 11.0, 1.0),
                      Bar(179999, 12.0, 12.0, 9.0, 12.0, 1.0), Bar(239999, 13.0, 12.0, 9.0, 13.0, 1.0),
                      Bar(299999, 14.0, 12.0, 9.0, 14.0, 1.0)]
    requires p == 5 * MinuteMs
    ensures MinKey(bars, p) == 0 && MaxKey(bars, p) == 0 && Bucket(bars, p, 0) == bars
  {
    KeyRange(bars, p);
    assert forall j | 0 <= j < 5 :: Key(bars[j].ts, p) == 0;
    assert MinKey(bars[4..], p) == 0 && MaxKey(bars[4..], p) == 0;
    assert MinKey(bars[3..], p) == 0 && MaxKey(bars[3..], p) == 0;
    assert MinKey(bars[2..], p) == 0 && MaxKey(bars[2..], p) == 0;
    assert MinKey(bars[1..], p) == 0 && MaxKey(bars[1..], p) == 0;
    WithinAll(bars, p, 0, 1);
  }

  /** The bar of the five candles of `FiveMinuteExample`. */
  lemma FiveMinuteBar(bars: seq<Bar>)
    requires bars == [Bar(59999, 10.0, 12.0, 9.0, 10.0, 1.0), Bar(119999, 11.0, 12.0, 9.0, 11.0, 1.0),
                      Bar(179999, 12.0, 12.0, 9.0, 12.0, 1.0), Bar(239999, 13.0, 12.0, 9.0, 13.0, 1.0),
                      Bar(299999, 14.0, 12.0, 9.0, 14.0, 1.0)]
    ensures AggregateBucket(bars, 0) == Bar(0, 10.0, 12.0, 9.0, 14.0, 5.0)
  {
    EarliestLatestOfAscending(bars);
    assert MaxHigh(bars[4..]) == 12.0 && MinLow(bars[4..]) == 9.0 && SumVolume(bars[5..]) == 0.0;
    assert MaxHigh(bars[3..]) == 12.0 && MinLow(bars[3..]) == 9.0 && SumVolume(bars[4..]) == 1.0;
    assert MaxHigh(bars[2..]) == 12.0 && MinLow(bars[2..]) == 9.0 && SumVolume(bars[3..]) == 2.0;
    assert MaxHigh(bars[1..]) == 12.0 && MinLow(bars[1..]) == 9.0 && SumVolume(bars[2..]) == 3.0;
    assert SumVolume(bars[1..]) == 4.0;
  }

  // ---------------------------------------------------------------------
  // The engine and the imputation stage together
  // ---------------------------------------------------------------------

  /** Rows dropped before imputation, and the fewest rows worth keeping. */
  const MinRolling: nat := 30
  const MinRowsOneMinute: nat := 30
  const MinRowsTimeframe: nat := 10

  /** A table whose five price columns have no missing cell. */
  predicate PricesComplete(f: Frame) {
    f.WellFormed() && |f.prices| == 5 && forall j | 0 <= j < 5 :: AllSome(f.prices[j])
  }

  /** The candles a table's price columns hold. */
  function FrameBars(f: Frame): seq<Bar>
    requires PricesComplete(f)
  {
    seq(f.Rows(), i requires 0 <= i < f.Rows() =>
      Bar(f.ts[i], f.prices[0][i].value, f.prices[1][i].value, f.prices[2][i].value,
          f.prices[3][i].value, f.prices[4][i].value))
  }

  /** The engine keeps the candles: reading them back gives the input. */
  lemma FrameBarsOfIndicators(bars: seq<Bar>)
    ensures PricesComplete(IndicatorsSpec(bars)) && FrameBars(IndicatorsSpec(bars)) == bars
  {
    IndicatorShape(bars);
  }

  /** Reading the candles of a block of rows gives that block of candles. */
  lemma FrameBarsOfSlice(f: Frame, lo: nat, hi: nat)
    requires PricesComplete(f) && lo <= hi <= f.Rows()
    ensures PricesComplete(Slice(f, lo, hi)) && FrameBars(Slice(f, lo, hi)) == FrameBars(f)[lo..hi]
  {
  }

  /** Every indicator is defined from row 24 on (`Warmup`), so once the
      first 30 rows are dropped no cell of the engine's frame is missing. */
  lemma WarmRowsComplete(bars: seq<Bar>)
    ensures var d := DropFirst(IndicatorsSpec(bars), MinRolling);
      (forall j | 0 <= j < |d.prices| :: AllSome(d.prices[j])) &&
      (forall j | 0 <= j < |d.inds| :: AllSome(d.inds[j]))
  {
    var f := IndicatorsSpec(bars);
    IndicatorShape(bars);
    var d := DropFirst(f, MinRolling);
    if MinRolling <= |bars| {
      forall j | 0 <= j < |d.inds| ensures AllSome(d.inds[j]) {
        forall i | 0 <= i < d.Rows() ensures d.inds[j][i].Some? {
          assert d.inds[j][i] == f.inds[j][MinRolling + i];
          IndicatorWarmup(bars, j, MinRolling + i);
        }
      }
      forall j | 0 <= j < |d.prices| ensures AllSome(d.prices[j]) {
        forall i | 0 <= i < d.Rows() ensures d.prices[j][i].Some? {
          assert d.prices[j][i] == f.prices[j][MinRolling + i];
        }
      }
    }
  }

  /** With the first 30 rows dropped the imputation stage has nothing to
      fill: its result is the engine's frame from row 30 on when at least
      `minRows` (and at least one) rows follow, and empty otherwise. */
  lemma CleanOfIndicators(bars: seq<Bar>, minRows: nat)
    ensures var c := CleanSpec(IndicatorsSpec(bars), MinRolling, minRows);
      (c.Rows() > 0 <==> |bars| >= MinRolling + minRows && |bars| > MinRolling) &&
      (c.Rows() > 0 ==> c == DropFirst(IndicatorsSpec(bars), MinRolling))
  {
    var f := IndicatorsSpec(bars);
    IndicatorShape(bars);
    CleanNonEmpty(f, MinRolling, minRows);
    if |bars| >= MinRolling + minRows && |bars| > MinRolling {
      var d := DropFirst(f, MinRolling);
      WarmRowsComplete(bars);
      assert PricesPresent(d) by {
        forall j | 0 <= j < |d.prices| ensures HasDefined(d.prices[j]) {
          assert d.prices[j][0].Some?;
        }
      }
      CleanOfComplete(f, MinRolling, minRows);
    }
  }

  /** Reading back the candles of the engine's frame after its first 30
      rows gives the input candles after the first 30. */
  lemma FrameBarsOfWarmRows(bars: seq<Bar>)
    requires |bars| >= MinRolling
    ensures PricesComplete(DropFirst(IndicatorsSpec(bars), MinRolling))
    ensures FrameBars(DropFirst(IndicatorsSpec(bars), MinRolling)) == bars[MinRolling..]
  {
    var f := IndicatorsSpec(bars);
    FrameBarsOfIndicators(bars);
    FrameBarsOfSlice(f, MinRolling, f.Rows());
  }

  // ---------------------------------------------------------------------
  // aggregate_and_save
  // ---------------------------------------------------------------------

  /** What `aggregate_and_save` writes for one timeframe of `periodMinutes`
      minutes: the resampled bars with indicators, cleaned with 30 cold rows
      and at least 10 rows, cut to the newest `RollWindow` rows; `None` when
      that is empty and nothing is written. */
  function AggregateSpec(clean: Frame, periodMinutes: nat): Option<Frame>
    requires PricesComplete(clean) && periodMinutes > 0
  {
    var agg := Resample(FrameBars(clean), periodMinutes * MinuteMs);
    IndicatorShape(agg);
    var c := TakeLast(CleanSpec(IndicatorsSpec(agg), MinRolling, MinRowsTimeframe), RollWindow);
    if c.IsEmpty() then None else Some(c)
  }

  method AggregateAndSave(clean: Frame, periodMinutes: nat) returns (saved: Option<Frame>)
    requires PricesComplete(clean) && clean.Rows() > 0 && periodMinutes > 0
    ensures saved == AggregateSpec(clean, periodMinutes)
  {
    var bars := FrameBars(clean);
    var agg := Resample(bars, periodMinutes * MinuteMs);
    ResampleCoversRows(bars, periodMinutes * MinuteMs);
    var withIndicators := AddIndicators(agg);
    IndicatorShape(agg);
    var c := CleanData(withIndicators, MinRolling, MinRowsTimeframe);
    c := TakeLast(c, RollWindow);
    if c.IsEmpty() {
      saved := None;
    } else {
      saved := Some(c);
    }
  }

  /** Cutting a table to its newest rows keeps it complete, and the candles
      it holds are the newest of the candles it held. */
  lemma TakeLastOfComplete(f: Frame, cap: nat)
    requires PricesComplete(f) && forall j | 0 <= j < |f.inds| :: AllSome(f.inds[j])
    ensures PricesComplete(TakeLast(f, cap))
    ensures forall j | 0 <= j < |f.inds| :: AllSome(TakeLast(f, cap).inds[j])
    ensures FrameBars(TakeLast(f, cap)) == Last(FrameBars(f), cap)
  {
    if f.Rows() > cap {
      FrameBarsOfSlice(f, f.Rows() - cap, f.Rows());
    }
  }

  /** What is written for a timeframe whose resampling gave `bars`, when it
      is written: the newest `RollWindow` of the bars from the 31st on, with
      their indicators, and no cell missing. */
  lemma NewestWarmRows(bars: seq<Bar>)
    requires |bars| > MinRolling
    ensures var t := TakeLast(DropFirst(IndicatorsSpec(bars), MinRolling), RollWindow);
      0 < t.Rows() <= RollWindow && PricesComplete(t) && |t.inds| == IndicatorCount &&
      (forall j | 0 <= j < |t.inds| :: AllSome(t.inds[j])) &&
      FrameBars(t) == Last(bars[MinRolling..], RollWindow)
  {
    var d := DropFirst(IndicatorsSpec(bars), MinRolling);
    IndicatorShape(bars);
    WarmRowsComplete(bars);
    FrameBarsOfWarmRows(bars);
    TakeLastOfComplete(d, RollWindow);
    TakeLastKeepsNewest(d, RollWindow);
  }

  /** A timeframe is written exactly when resampling gives at least 40 bars,
      and what is written is then `NewestWarmRows` of them. */
  lemma AggregateWritten(clean: Frame, periodMinutes: nat)
    requires PricesComplete(clean) && periodMinutes > 0
    ensures var agg := Resample(FrameBars(clean), periodMinutes * MinuteMs);
      (AggregateSpec(clean, periodMinutes).Some? <==> |agg| >= MinRolling + MinRowsTimeframe) &&
      (AggregateSpec(clean, periodMinutes).Some? ==>
        AggregateSpec(clean, periodMinutes).value ==
          TakeLast(DropFirst(IndicatorsSpec(agg), MinRolling), RollWindow))
  {
    var agg := Resample(FrameBars(clean), periodMinutes * MinuteMs);
    IndicatorShape(agg);
    CleanOfIndicators(agg, MinRowsTimeframe);
    var c := CleanSpec(IndicatorsSpec(agg), MinRolling, MinRowsTimeframe);
    TakeLastKeepsNewest(c, RollWindow);
  }

  /** Every configured period divides a day, so pandas' default origin (the
      midnight of the first row's day) cuts the same periods as counting
      from the epoch. */
  lemma DayOriginAgrees(t: int, day: int, periodMinutes: int)
    requires periodMinutes > 0 && DayMinutes % periodMinutes == 0
    ensures var p := periodMinutes * MinuteMs;
      var origin := day * DayMinutes * MinuteMs;
      origin + ((t - origin) / p) * p == Key(t, p) * p
  {
    var p := periodMinutes * MinuteMs;
    var m := day * (DayMinutes / periodMinutes);
    var origin := day * DayMinutes * MinuteMs;
    assert DayMinutes == (DayMinutes / periodMinutes) * periodMinutes;
    assert origin == m * p;
    var q, r := t / p, t % p;
    assert t == q * p + r && 0 <= r < p;
    assert t - origin == (q - m) * p + r;
    DivIsQuotient(t - origin, p, q - m, r);
    assert (q - m) * p + m * p == q * p;
  }

  lemma DivIsQuotient(a: int, p: int, q: int, r: int)
    requires p > 0 && a == q * p + r && 0 <= r < p
    ensures a / p == q
  {
    var q', r' := a / p, a % p;
    var d := q' - q;
    assert d * p == r - r' by {
      assert q' * p + r' == q * p + r;
      assert d * p == q' * p - q * p;
    }
    if d >= 1 {
      MulAtLeast(d, p);
    } else if d <= -1 {
      MulAtLeast(-d, p);
    }
  }

  lemma MulAtLeast(d: int, p: int)
    requires d >= 1 && p > 0
    ensures d * p >= p
  {
  }
}
