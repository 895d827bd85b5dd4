/** The collector loop (`main` in collector.py): every closed one-minute
    candle from the stream is appended to the in-memory history, the
    history is cut to the newest `RollWindow` rows, the indicators are
    recomputed, and once cleaning yields a non-empty table it is written to
    the one-minute file and each configured timeframe is aggregated and
    written to its own file. Files are a map from path to the table last
    written there. */
module Collector {
  import opened Series
  import opened Indicators
  import opened Imputation
  import opened Aggregation

  /** A message from the kline stream: a candle with its "closed" flag
      (`k['x']`), or any other message. */
  datatype Message = Kline(closed: bool, candle: Bar) | Other
  {
    predicate Closed() { Kline? && closed }
  }

  /** A configured timeframe: the key in its file name and its period. */
  datatype Timeframe = Timeframe(key: string, minutes: nat)

  const OneMinuteKey: string := "1m"

  /** The timeframes written after each update, in their configured order. */
  const Timeframes: seq<Timeframe> := [
    Timeframe("5m", 5), Timeframe("15m", 15), Timeframe("30m", 30),
    Timeframe("1h", 60), Timeframe("4h", 240)
  ]

  /** The file a timeframe is written to (`data/btc_eur_<key>_clean.csv`). */
  function FileName(key: string): string {
    "data/btc_eur_" + key + "_clean.csv"
  }

  lemma FileNameInjective(a: string, b: string)
    ensures FileName(a) == FileName(b) ==> a == b
  {
    if FileName(a) == FileName(b) {
      var n := |FileName(a)|;
      assert FileName(a)[13..n - 10] == a;
      assert FileName(b)[13..n - 10] == b;
    }
  }

  /** The files the timeframes are written to, in their configured order. */
  function TimeframeFiles(): (names: seq<string>)
    ensures |names| == |Timeframes|
    ensures forall i | 0 <= i < |Timeframes| :: names[i] == FileName(Timeframes[i].key)
  {
    seq(|Timeframes|, i requires 0 <= i < |Timeframes| => FileName(Timeframes[i].key))
  }

  predicate Distinct(names: seq<string>) {
    forall i, k | 0 <= i < k < |names| :: names[i] != names[k]
  }

  /** Every configured period is positive. */
  lemma PeriodsPositive()
    ensures forall i | 0 <= i < |Timeframes| :: Timeframes[i].minutes > 0
  {
  }

  /** Every timeframe has its own file, and none of them is the one-minute
      file. */
  lemma FilesDistinct()
    ensures Distinct(TimeframeFiles())
    ensures FileName(OneMinuteKey) !in TimeframeFiles()
  {
    var names := TimeframeFiles();
    forall i, k | 0 <= i < k < |names| ensures names[i] != names[k] {
      FileNameInjective(Timeframes[i].key, Timeframes[k].key);
    }
    forall i | 0 <= i < |names| ensures names[i] != FileName(OneMinuteKey) {
      FileNameInjective(Timeframes[i].key, OneMinuteKey);
    }
  }

  /** What `aggregate_and_save` produces for each timeframe, in order, from
      the cleaned one-minute table. */
  function Aggregates(clean: Frame): (outs: seq<Option<Frame>>)
    requires PricesComplete(clean)
    ensures |outs| == |Timeframes|
  {
    PeriodsPositive();
    seq(|Timeframes|, i requires 0 <= i < |Timeframes| => AggregateSpec(clean, Timeframes[i].minutes))
  }

  /** The files after writing each present `outs[i]` to `names[i]`, in turn. */
  function WriteAll(files: map<string, Frame>, names: seq<string>, outs: seq<Option<Frame>>): map<string, Frame>
    requires |names| == |outs|
    decreases |names|
  {
    if names == [] then files
    else
      var written := if outs[0].Some? then files[names[0] := outs[0].value] else files;
      WriteAll(written, names[1..], outs[1..])
  }

  /** Writing to distinct files: a file written holds its table, and a file
      nothing is written to is left as it was. */
  lemma {:induction false} WriteAllFiles(files: map<string, Frame>, names: seq<string>, outs: seq<Option<Frame>>)
    requires |names| == |outs| && Distinct(names)
    ensures forall i | 0 <= i < |names| && outs[i].Some? ::
      names[i] in WriteAll(files, names, outs) && WriteAll(files, names, outs)[names[i]] == outs[i].value
    ensures forall name | (forall i | 0 <= i < |names| :: names[i] != name || outs[i].None?) ::
      (name in WriteAll(files, names, outs) <==> name in files) &&
      (name in files ==> WriteAll(files, names, outs)[name] == files[name])
    decreases |names|
  {
    if names != [] {
      var written := if outs[0].Some? then files[names[0] := outs[0].value] else files;
      var rest, restOuts := names[1..], outs[1..];
      assert Distinct(rest) by {
        forall i, k | 0 <= i < k < |rest| ensures rest[i] != rest[k] {
          assert rest[i] == names[i + 1] && rest[k] == names[k + 1];
        }
      }
      WriteAllFiles(written, rest, restOuts);
      var r := WriteAll(files, names, outs);
      assert r == WriteAll(written, rest, restOuts);
      forall i | 0 <= i < |names| && outs[i].Some?
        ensures names[i] in r && r[names[i]] == outs[i].value
      {
        if i > 0 {
          assert names[i] == rest[i - 1] && outs[i] == restOuts[i - 1];
        } else {
          forall k | 0 <= k < |rest| ensures rest[k] != names[0] || restOuts[k].None? {
            assert rest[k] == names[k + 1];
          }
        }
      }
      forall name | (forall i | 0 <= i < |names| :: names[i] != name || outs[i].None?)
        ensures (name in r <==> name in files) && (name in files ==> r[name] == files[name])
      {
        forall k | 0 <= k < |rest| ensures rest[k] != name || restOuts[k].None? {
          assert rest[k] == names[k + 1] && restOuts[k] == outs[k + 1];
        }
      }
    }
  }

  /** `clean_data(add_indicators(df), min_rolling=30, min_rows=30)` on the
      one-minute history. */
  function OneMinuteClean(history: seq<Bar>): Frame {
    IndicatorShape(history);
    CleanSpec(IndicatorsSpec(history), MinRolling, MinRowsOneMinute)
  }

  /** The one-minute table is written exactly when the history holds 60
      candles (30 cold rows plus the 30 it needs), and it is then the
      history with its indicators, without its first 30 rows, with no cell
      missing. */
  lemma OneMinuteTable(history: seq<Bar>)
    ensures !OneMinuteClean(history).IsEmpty() <==> |history| >= MinRolling + MinRowsOneMinute
    ensures |history| >= MinRolling + MinRowsOneMinute ==>
      var t := OneMinuteClean(history);
      t == DropFirst(IndicatorsSpec(history), MinRolling) &&
      PricesComplete(t) && FrameBars(t) == history[MinRolling..] &&
      (forall j | 0 <= j < |t.inds| :: AllSome(t.inds[j]))
  {
    CleanOfIndicators(history, MinRowsOneMinute);
    if |history| >= MinRolling + MinRowsOneMinute {
      FrameBarsOfWarmRows(history);
      WarmRowsComplete(history);
    }
  }

  /** The files after the one-minute table `clean` is written and then each
      timeframe's present output `outs[i]`, in order. */
  function WriteOutputs(files: map<string, Frame>, clean: Frame, outs: seq<Option<Frame>>): map<string, Frame>
    requires |outs| == |Timeframes|
  {
    WriteAll(files[FileName(OneMinuteKey) := clean], TimeframeFiles(), outs)
  }

  /** After the writes, the one-minute file holds `clean`; each timeframe's
      file holds its output, or is left as it was when there is none; no
      other file changes. */
  lemma OutputFiles(files: map<string, Frame>, clean: Frame, outs: seq<Option<Frame>>)
    requires |outs| == |Timeframes|
    ensures FileName(OneMinuteKey) in WriteOutputs(files, clean, outs)
    ensures WriteOutputs(files, clean, outs)[FileName(OneMinuteKey)] == clean
    ensures forall i | 0 <= i < |Timeframes| && outs[i].Some? ::
      FileName(Timeframes[i].key) in WriteOutputs(files, clean, outs) &&
      WriteOutputs(files, clean, outs)[FileName(Timeframes[i].key)] == outs[i].value
    ensures forall i | 0 <= i < |Timeframes| && outs[i].None? ::
      var name := FileName(Timeframes[i].key);
      (name in WriteOutputs(files, clean, outs) <==> name in files) &&
      (name in files ==> WriteOutputs(files, clean, outs)[name] == files[name])
    ensures forall name | name != FileName(OneMinuteKey) && name !in TimeframeFiles() ::
      (name in WriteOutputs(files, clean, outs) <==> name in files) &&
      (name in files ==> WriteOutputs(files, clean, outs)[name] == files[name])
  {
    FilesDistinct();
    var start := files[FileName(OneMinuteKey) := clean];
    var names := TimeframeFiles();
    WriteAllFiles(start, names, outs);
    assert WriteOutputs(files, clean, outs) == WriteAll(start, names, outs);
    assert forall k | 0 <= k < |names| :: names[k] != FileName(OneMinuteKey);
    forall i | 0 <= i < |Timeframes| && outs[i].None?
      ensures forall k | 0 <= k < |names| :: names[k] != names[i] || outs[k].None?
    {
      forall k | 0 <= k < |names| ensures names[k] != names[i] || outs[k].None? {
      }
    }
    forall name | name != FileName(OneMinuteKey) && name !in names
      ensures forall k | 0 <= k < |names| :: names[k] != name || outs[k].None?
    {
    }
  }

  /** The files after one closed candle, given the history after the append
      and the eviction: nothing is written until the history holds 30 rows
      and cleaning it gives a non-empty table; then that table goes to the
      one-minute file and every timeframe is aggregated from it. */
  function Persist(files: map<string, Frame>, history: seq<Bar>): map<string, Frame> {
    if |history| < MinRolling then files
    else
      var clean := OneMinuteClean(history);
      if clean.IsEmpty() then files
      else
        OneMinuteTable(history);
        WriteOutputs(files, clean, Aggregates(clean))
  }

  /** Nothing is written before the history holds 60 candles; from then on
      the one-minute file holds `OneMinuteClean` of the history. */
  lemma OneMinuteFile(files: map<string, Frame>, history: seq<Bar>)
    ensures |history| < MinRolling + MinRowsOneMinute ==> Persist(files, history) == files
    ensures |history| >= MinRolling + MinRowsOneMinute ==>
      FileName(OneMinuteKey) in Persist(files, history) &&
      Persist(files, history)[FileName(OneMinuteKey)] == OneMinuteClean(history)
  {
    OneMinuteTable(history);
    if |history| >= MinRolling + MinRowsOneMinute {
      var clean := OneMinuteClean(history);
      OutputFiles(files, clean, Aggregates(clean));
    }
  }

  /** Once the one-minute file is written, a timeframe's file is rewritten
      exactly when resampling the one-minute candles after the first 30 gives
      at least 40 bars, and then holds the newest `RollWindow` of those bars
      after their first 30, with their indicators; otherwise it is left as
      it was. */
  lemma TimeframeFile(files: map<string, Frame>, history: seq<Bar>, i: nat)
    requires |history| >= MinRolling + MinRowsOneMinute && i < |Timeframes|
    ensures var name := FileName(Timeframes[i].key);
      var agg := Resample(history[MinRolling..], Timeframes[i].minutes * MinuteMs);
      var r := Persist(files, history);
      (|agg| >= MinRolling + MinRowsTimeframe ==>
         name in r && r[name] == TakeLast(DropFirst(IndicatorsSpec(agg), MinRolling), RollWindow)) &&
      (|agg| < MinRolling + MinRowsTimeframe ==>
         (name in r <==> name in files) && (name in files ==> r[name] == files[name]))
  {
    OneMinuteTable(history);
    PeriodsPositive();
    var clean := OneMinuteClean(history);
    OutputFiles(files, clean, Aggregates(clean));
    AggregateWritten(clean, Timeframes[i].minutes);
    assert Aggregates(clean)[i] == AggregateSpec(clean, Timeframes[i].minutes);
  }

  /** Appending a candle to a history that is the newest `RollWindow` of
      everything loaded and received (or just the loaded candles, before
      anything arrived) and cutting it again gives the newest `RollWindow`
      of everything, this candle included, and ends with the candle. */
  lemma HistoryAppend(loaded: seq<Bar>, received: seq<Bar>, history: seq<Bar>, candle: Bar)
    requires history == if received == [] then loaded else Last(loaded + received, RollWindow)
    ensures Last(history + [candle], RollWindow) == Last(loaded + (received + [candle]), RollWindow)
    ensures 0 < |Last(history + [candle], RollWindow)| <= RollWindow
    ensures Last(history + [candle], RollWindow)[|Last(history + [candle], RollWindow)| - 1] == candle
  {
    if received != [] {
      LastAppend(loaded + received, candle, RollWindow);
      assert loaded + received + [candle] == loaded + (received + [candle]);
    }
  }

  /** One pass of the timeframe loop: writing the first output and then
      the rest is writing them all. */
  lemma WriteAllStep(files: map<string, Frame>, names: seq<string>, outs: seq<Option<Frame>>, i: nat)
    requires |names| == |outs| && i < |names|
    ensures WriteAll(files, names[i..], outs[i..]) ==
      WriteAll(if outs[i].Some? then files[names[i] := outs[i].value] else files, names[i + 1..], outs[i + 1..])
  {
    assert names[i..][1..] == names[i + 1..] && outs[i..][1..] == outs[i + 1..];
  }

  /** The candles read at start-up: those of the one-minute file, or none
      when it does not exist. */
  function Loaded(disk: map<string, Frame>): seq<Bar>
    requires FileName(OneMinuteKey) in disk ==> PricesComplete(disk[FileName(OneMinuteKey)])
  {
    if FileName(OneMinuteKey) in disk then FrameBars(disk[FileName(OneMinuteKey)]) else []
  }

  /** Reading back the one-minute file the loop writes gives the history
      after its first 30 candles. */
  lemma ReloadOneMinute(files: map<string, Frame>, history: seq<Bar>)
    requires |history| >= MinRolling + MinRowsOneMinute
    ensures var disk := Persist(files, history);
      FileName(OneMinuteKey) in disk && PricesComplete(disk[FileName(OneMinuteKey)]) &&
      Loaded(disk) == history[MinRolling..]
  {
    OneMinuteFile(files, history);
    OneMinuteTable(history);
  }

  class Collector {
    /** The one-minute candles held in memory, oldest first. */
    var history: seq<Bar>
    /** The tables on disk, by path. */
    var files: map<string, Frame>
    /** The candles read from the one-minute file at start-up. */
    ghost const loaded: seq<Bar>
    /** The closed candles received since start-up. */
    ghost var received: seq<Bar>

    /** The history is what was loaded until a candle arrives, and from then
        on the newest `RollWindow` of everything loaded and received. */
    ghost predicate Valid()
      reads this
    {
      history == if received == [] then loaded else Last(loaded + received, RollWindow)
    }

    /** Start-up: the history is read from the one-minute file, and is
        empty when there is no such file; nothing has been received. */
    constructor (disk: map<string, Frame>)
      requires FileName(OneMinuteKey) in disk ==> PricesComplete(disk[FileName(OneMinuteKey)])
      ensures Valid()
      ensures history == Loaded(disk) && loaded == history && received == [] && files == disk
    {
      var start := [];
      if FileName(OneMinuteKey) in disk {
        start := FrameBars(disk[FileName(OneMinuteKey)]);
      }
      history := start;
      files := disk;
      loaded := start;
      received := [];
    }

    /** One message from the stream. Anything but a closed candle changes
        nothing; a closed candle is appended, the history cut to its newest
        `RollWindow` rows, and the files written as `Persist` says. */
    method Step(msg: Message)
      requires Valid()
      modifies this
      ensures Valid()
      ensures !msg.Closed() ==>
        history == old(history) && files == old(files) && received == old(received)
      ensures msg.Closed() ==>
        received == old(received) + [msg.candle] &&
        history == Last(old(history) + [msg.candle], RollWindow) &&
        |history| <= RollWindow && history[|history| - 1] == msg.candle &&
        files == Persist(old(files), history)
    {
      if !msg.Closed() {
        return;
      }
      var candle := msg.candle;
      var h := history + [candle];
      if |h| > RollWindow {
        h := h[|h| - RollWindow..];
      }
      HistoryAppend(loaded, received, history, candle);
      history := h;
      received := received + [candle];
      Save();
    }

    /** Recomputes the indicators of the history and writes the files, as
        `Persist` says; the history itself is left as it was. */
    method Save()
      requires |history| > 0
      modifies this
      ensures history == old(history) && received == old(received)
      ensures files == Persist(old(files), history)
    {
      var withIndicators := AddIndicators(history);
      IndicatorShape(history);
      if |history| >= MinRolling {
        var clean := CleanData(withIndicators, MinRolling, MinRowsOneMinute);
        if !clean.IsEmpty() {
          OneMinuteTable(history);
          files := files[FileName(OneMinuteKey) := clean];
          SaveTimeframes(clean);
        }
      }
    }

    /** The loop over the timeframes: aggregates each from the one-minute
        table and writes the ones that are not empty, in order. */
    method SaveTimeframes(clean: Frame)
      requires PricesComplete(clean) && clean.Rows() > 0
      modifies this
      ensures history == old(history) && received == old(received)
      ensures files == WriteAll(old(files), TimeframeFiles(), Aggregates(clean))
    {
      PeriodsPositive();
      ghost var names, outs := TimeframeFiles(), Aggregates(clean);
      var i := 0;
      while i < |Timeframes|
        invariant 0 <= i <= |Timeframes|
        invariant history == old(history) && received == old(received)
        invariant WriteAll(files, names[i..], outs[i..]) == WriteAll(old(files), names, outs)
      {
        var tf := Timeframes[i];
        WriteAllStep(files, names, outs, i);
        var saved := AggregateAndSave(clean, tf.minutes);
        assert saved == outs[i];
        if saved.Some? {
          files := files[FileName(tf.key) := saved.value];
        }
        i := i + 1;
      }
    }
  }
}
