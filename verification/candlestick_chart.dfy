/** The 1-second candlestick chart: a historical batch trimmed to the 2000
    seconds before its own latest candle, then live prices folded into
    1-second candles over a 500-second window. */
module CandlestickChart {
  import opened Js
  import opened Series

  /** `TICK_INTERVAL_MS / 1000` */
  const IntervalSeconds: int := 1
  /** `MAX_TICKS` */
  const MaxTicks: nat := 500
  /** `TOTAL_TIME_SPAN_S` */
  const SpanSeconds: int := IntervalSeconds * MaxTicks
  /** `INITIAL_TICKS` */
  const InitialTicks: nat := 2000
  /** `INITIAL_TIME_SPAN_S` */
  const InitialSpanSeconds: int := IntervalSeconds * InitialTicks

  /** Low at or below open and close, which are at or below high; false as
      soon as a price is NaN. */
  predicate WellFormed(c: Candle) {
    LessEq(c.low, c.open) && LessEq(c.low, c.close) && LessEq(c.open, c.high) && LessEq(c.close, c.high)
  }

  // ---------------------------------------------------------------------
  // loadHistoricalData
  // ---------------------------------------------------------------------

  /** `Math.max(...candles.map(c => c.time))` */
  function MaxTime(candles: seq<RawCandle>): (m: Num)
    requires |candles| > 0
    ensures m.Fin? <==> forall i :: 0 <= i < |candles| ==> IsFinite(candles[i].time)
    ensures m.Fin? ==> forall i :: 0 <= i < |candles| ==> LessEq(ToNum(candles[i].time), m)
    ensures m.Fin? ==> exists i :: 0 <= i < |candles| && ToNum(candles[i].time) == m
    decreases |candles|
  {
    if |candles| == 1 then ToNum(candles[0].time)
    else
      var m := MaxTime(candles[..|candles| - 1]);
      var last := ToNum(candles[|candles| - 1].time);
      assert forall i :: 0 <= i < |candles| - 1 ==> candles[..|candles| - 1][i] == candles[i];
      Max(m, last)
  }

  /** `candle.time >= maxTime - INITIAL_TIME_SPAN_S && candle.time <= maxTime` */
  predicate InHistoryWindow(maxTime: Num, c: RawCandle) {
    LessEq(Sub(maxTime, Fin(InitialSpanSeconds as real)), ToNum(c.time)) && LessEq(ToNum(c.time), maxTime)
  }

  /** A fetched candle as the chart keeps it; its time is known to be a
      number, its prices are copied unchecked. */
  function ToCandle(c: RawCandle): Candle
    requires IsFinite(c.time)
  {
    Candle(c.time.n.x, ToNum(c.open), ToNum(c.high), ToNum(c.low), ToNum(c.close))
  }

  /** `candles.filter(inWindow)`: the fetched candles within 2000 seconds of
      the batch's latest time, in fetch order. */
  function HistoryWindow(candles: seq<RawCandle>): (kept: seq<RawCandle>)
    requires |candles| > 0
    ensures forall c :: c in kept <==> c in candles && InHistoryWindow(MaxTime(candles), c)
    ensures forall c :: c in kept ==> IsFinite(c.time)
  {
    Filter(candles, c => InHistoryWindow(MaxTime(candles), c))
  }

  /** The candles `loadHistoricalData` shows after fetching `candles` at clock
      reading `nowMs`, starting from `prev`: an empty batch changes nothing;
      otherwise the last 2000 candles within 2000 seconds of the batch's
      latest time, or, when none is, one flat candle at the current whole
      second at the close of the batch's last candle. */
  function LoadHistory(prev: seq<Candle>, candles: seq<RawCandle>, nowMs: int): (r: seq<Candle>)
    ensures |candles| == 0 ==> r == prev
    ensures |candles| > 0 ==> 1 <= |r| <= InitialTicks
    ensures |candles| > 0 && (exists i :: 0 <= i < |candles| && !IsFinite(candles[i].time)) ==>
      r == [Flat(WholeSeconds(nowMs) as real, ToNum(candles[|candles| - 1].close))]
    ensures |candles| > 0 && (forall i :: 0 <= i < |candles| ==> IsFinite(candles[i].time)) ==>
      forall c :: c in r ==>
        exists i :: 0 <= i < |candles| && InHistoryWindow(MaxTime(candles), candles[i]) && ToCandle(candles[i]) == c
  {
    if |candles| == 0 then prev
    else
      var kept := LastN(HistoryWindow(candles), InitialTicks);
      HistoryFallback(candles);
      if |kept| == 0 then [Flat(WholeSeconds(nowMs) as real, ToNum(candles[|candles| - 1].close))]
      else
        var r := seq(|kept|, i requires 0 <= i < |kept| => ToCandle(kept[i]));
        HistoryProvenance(candles, MaxTime(candles), kept, r);
        r
  }

  lemma HistoryProvenance(candles: seq<RawCandle>, m: Num, kept: seq<RawCandle>, r: seq<Candle>)
    requires forall c :: c in kept ==> c in candles && InHistoryWindow(m, c)
    requires |r| == |kept|
    requires forall k :: 0 <= k < |kept| ==> IsFinite(kept[k].time) && r[k] == ToCandle(kept[k])
    ensures forall c :: c in r ==>
      exists i :: 0 <= i < |candles| && InHistoryWindow(m, candles[i]) && IsFinite(candles[i].time) && ToCandle(candles[i]) == c
  {
    forall c | c in r
      ensures exists i :: 0 <= i < |candles| && InHistoryWindow(m, candles[i]) && IsFinite(candles[i].time) && ToCandle(candles[i]) == c
    {
      var k :| 0 <= k < |r| && r[k] == c;
      assert kept[k] in kept;
      var i :| 0 <= i < |candles| && candles[i] == kept[k];
    }
  }

  /** When every time in the batch is a number, the batch's latest candle
      lies in the window, so the window is never empty; when some time is
      not a number, `Math.max` gives NaN and every comparison with it fails.
      So the fallback candle is used exactly when some time is not a number. */
  lemma HistoryFallback(candles: seq<RawCandle>)
    requires |candles| > 0
    ensures (forall i :: 0 <= i < |candles| ==> IsFinite(candles[i].time)) <==> |HistoryWindow(candles)| > 0
  {
    var m := MaxTime(candles);
    var kept := HistoryWindow(candles);
    WindowMeansFinite(candles);
    if forall i :: 0 <= i < |candles| ==> IsFinite(candles[i].time) {
      var i :| 0 <= i < |candles| && ToNum(candles[i].time) == m;
      assert InHistoryWindow(m, candles[i]);
      assert candles[i] in kept;
    }
  }

  lemma WindowMeansFinite(candles: seq<RawCandle>)
    requires |candles| > 0
    ensures |HistoryWindow(candles)| > 0 ==> forall i :: 0 <= i < |candles| ==> IsFinite(candles[i].time)
  {
    var kept := HistoryWindow(candles);
    if |kept| > 0 {
      assert kept[0] in kept;
    }
  }

  /** The shown candles are the last `min(2000, |W|)` candles of the window
      `W`, converted, in fetch order. */
  lemma LoadHistoryIsWindowTail(prev: seq<Candle>, candles: seq<RawCandle>, nowMs: int)
    requires |candles| > 0 && |HistoryWindow(candles)| > 0
    ensures var r := LoadHistory(prev, candles, nowMs);
      var w := HistoryWindow(candles);
      && |r| == (if |w| <= InitialTicks then |w| else InitialTicks)
      && forall k :: 0 <= k < |r| ==> r[k] == ToCandle(w[|w| - |r| + k])
  {
    LoadHistoryConverts(prev, candles, nowMs);
    TailConverted(HistoryWindow(candles), LastN(HistoryWindow(candles), InitialTicks), LoadHistory(prev, candles, nowMs));
  }

  /** Candles converted from the last 2000 of `w` are the last
      `min(2000, |w|)` of `w`, converted. */
  lemma TailConverted(w: seq<RawCandle>, kept: seq<RawCandle>, r: seq<Candle>)
    requires kept == LastN(w, InitialTicks)
    requires forall c :: c in w ==> IsFinite(c.time)
    requires |r| == |kept| && forall k :: 0 <= k < |r| ==> r[k] == ToCandle(kept[k])
    ensures |r| == (if |w| <= InitialTicks then |w| else InitialTicks)
    ensures forall k :: 0 <= k < |r| ==> r[k] == ToCandle(w[|w| - |r| + k])
  {
    forall k | 0 <= k < |r|
      ensures r[k] == ToCandle(w[|w| - |r| + k])
    {
      assert kept[k] == w[|w| - |kept| + k];
    }
  }

  lemma LoadHistoryConverts(prev: seq<Candle>, candles: seq<RawCandle>, nowMs: int)
    requires |candles| > 0 && |HistoryWindow(candles)| > 0
    ensures var r := LoadHistory(prev, candles, nowMs);
      var kept := LastN(HistoryWindow(candles), InitialTicks);
      |r| == |kept| && forall k :: 0 <= k < |r| ==> r[k] == ToCandle(kept[k])
  {
    HistoryFallback(candles);
  }

  /** As long as the window holds no more than 2000 candles, every candle in
      it is shown. */
  lemma LoadHistoryKeepsWindow(prev: seq<Candle>, candles: seq<RawCandle>, nowMs: int, i: nat)
    requires i < |candles|
    requires InHistoryWindow(MaxTime(candles), candles[i])
    requires |HistoryWindow(candles)| <= InitialTicks
    ensures IsFinite(candles[i].time) && ToCandle(candles[i]) in LoadHistory(prev, candles, nowMs)
  {
    var w := HistoryWindow(candles);
    assert candles[i] in w;
    var k :| 0 <= k < |w| && w[k] == candles[i];
    LoadHistoryIsWindowTail(prev, candles, nowMs);
    var r := LoadHistory(prev, candles, nowMs);
    assert |r| == |w|;
    assert r[k] == ToCandle(w[|w| - |r| + k]);
  }

  /** The last candle shown is the window's last candle in fetch order. */
  lemma LoadHistoryEndsWithLast(prev: seq<Candle>, candles: seq<RawCandle>, nowMs: int, i: nat)
    requires i < |candles|
    requires InHistoryWindow(MaxTime(candles), candles[i])
    requires forall j :: i < j < |candles| ==> !InHistoryWindow(MaxTime(candles), candles[j])
    ensures IsFinite(candles[i].time)
    ensures var r := LoadHistory(prev, candles, nowMs);
      r[|r| - 1] == ToCandle(candles[i])
  {
    var kept := HistoryWindow(candles);
    assert candles[i] in kept;
    FilterLast(candles, c => InHistoryWindow(MaxTime(candles), c), i);
    LoadHistoryIsWindowTail(prev, candles, nowMs);
  }

  // ---------------------------------------------------------------------
  // chartUpdate
  // ---------------------------------------------------------------------

  /** A live `chartUpdate` message `{ time, value }`, fields unchecked; a
      missing message behaves as one whose fields are not numbers. */
  datatype Tick = Tick(time: Field, value: Field)

  /** Both fields are numbers and neither is NaN. */
  predicate Accepted(tick: Tick) {
    IsFinite(tick.time) && IsFinite(tick.value)
  }

  /** `Math.floor(time / TICK_INTERVAL_S) * TICK_INTERVAL_S`: the start of
      the 1-second interval holding `time`. */
  function IntervalKey(t: real): (k: int)
    ensures k as real <= t < k as real + IntervalSeconds as real
  {
    (t / IntervalSeconds as real).Floor * IntervalSeconds
  }

  /** Folding a price into an open candle: high and low widen, close moves. */
  function Absorb(c: Candle, v: real): (r: Candle)
    ensures r.time == c.time && r.open == c.open && r.close == Fin(v)
    ensures WellFormed(c) ==> WellFormed(r) && LessEq(c.high, r.high) && LessEq(r.low, c.low)
    ensures LessEq(Fin(v), r.high) <==> c.high.Fin?
    ensures LessEq(r.low, Fin(v)) <==> c.low.Fin?
    ensures c.high.Fin? ==> LessEq(c.high, r.high)
    ensures c.low.Fin? ==> LessEq(r.low, c.low)
    ensures r.high.Fin? ==> r.high == c.high || r.high == Fin(v)
    ensures r.low.Fin? ==> r.low == c.low || r.low == Fin(v)
  {
    c.(high := Max(c.high, Fin(v)), low := Min(c.low, Fin(v)), close := Fin(v))
  }

  /** The chart's candles after a `chartUpdate` message `tick` at clock
      reading `nowMs`: a rejected message changes nothing; a price in a second
      that already has a candle is folded into it; otherwise a flat candle is
      appended, candles older than 500 seconds are dropped and the newest
      500 of the rest kept in order, so every recent candle survives unless
      500 later ones fill the window. Every candle stays well formed when every candle was. */
  function OnChartUpdate(prev: seq<Candle>, tick: Tick, nowMs: int): (r: seq<Candle>)
    ensures !Accepted(tick) ==> r == prev
    ensures (forall c :: c in prev ==> WellFormed(c)) ==> forall c :: c in r ==> WellFormed(c)
    ensures Accepted(tick) && FindBy(prev, IntervalKey(tick.time.n.x) as real, CandleTime).Some? ==>
      var k := FindBy(prev, IntervalKey(tick.time.n.x) as real, CandleTime).value;
      && |r| == |prev|
      && r[k] == Absorb(prev[k], tick.value.n.x)
      && (forall j :: 0 <= j < |prev| && j != k ==> r[j] == prev[j])
    ensures Accepted(tick) && FindBy(prev, IntervalKey(tick.time.n.x) as real, CandleTime).None? ==>
      var added := Flat(IntervalKey(tick.time.n.x) as real, tick.value.n);
      var start := (WholeSeconds(nowMs) - SpanSeconds) as real;
      && |r| <= MaxTicks
      && (forall c :: c in r ==> (c in prev || c == added) && start <= c.time)
      && (start <= added.time ==> |r| > 0 && r[|r| - 1] == added)
      && (|Filter(prev + [added], Since(start))| <= MaxTicks ==>
            forall c :: c in prev && start <= c.time ==> c in r)
      && (forall c :: c in prev && start <= c.time && c !in r ==> |r| == MaxTicks)
      && Newest(r, Filter(prev + [added], Since(start)), MaxTicks)
  {
    if !Accepted(tick) then prev
    else
      var v := tick.value.n.x;
      var key := IntervalKey(tick.time.n.x);
      match FindBy(prev, key as real, CandleTime)
      case Some(k) => prev[k := Absorb(prev[k], v)]
      case None => AddCandle(prev, Flat(key as real, Fin(v)), (WholeSeconds(nowMs) - SpanSeconds) as real)
  }

  /** `candle => candle.time >= timeWindowStart` */
  function Since(start: real): Candle -> bool {
    (c: Candle) => start <= c.time
  }

  /** `[...prevCandles, newCandle].filter(c => c.time >= start).slice(-MAX_TICKS)`:
      the newest 500 of the recent candles, in order. Every recent candle is
      kept while there are at most 500 of them, and a recent candle can only
      be dropped when 500 later ones are kept. */
  function AddCandle(prev: seq<Candle>, added: Candle, start: real): (r: seq<Candle>)
    ensures |r| <= MaxTicks
    ensures forall c :: c in r ==> (c in prev || c == added) && start <= c.time
    ensures start <= added.time ==> |r| > 0 && r[|r| - 1] == added
    ensures |Filter(prev + [added], Since(start))| <= MaxTicks ==>
      forall c :: c in prev && start <= c.time ==> c in r
    ensures forall c :: c in prev && start <= c.time && c !in r ==> |r| == MaxTicks
    ensures Newest(r, Filter(prev + [added], Since(start)), MaxTicks)
  {
    var kept := Filter(prev + [added], Since(start));
    var r := LastN(kept, MaxTicks);
    NewestRecent(prev, added, start, kept, r);
    r
  }

  /** What the cut to the newest 500 recent candles keeps. */
  lemma NewestRecent(prev: seq<Candle>, added: Candle, start: real, kept: seq<Candle>, r: seq<Candle>)
    requires kept == Filter(prev + [added], Since(start))
    requires Newest(r, kept, MaxTicks)
    ensures |r| <= MaxTicks
    ensures forall c :: c in r ==> (c in prev || c == added) && start <= c.time
    ensures start <= added.time ==> |r| > 0 && r[|r| - 1] == added
    ensures |kept| <= MaxTicks ==> forall c :: c in prev && start <= c.time ==> c in r
    ensures forall c :: c in prev && start <= c.time && c !in r ==> |r| == MaxTicks
  {
    NewestFrom(prev, added, start, kept, r);
    NewestEndsWithAdded(prev, added, start, kept, r);
    NewestRetains(prev, added, start, kept, r);
  }

  /** Every kept candle is recent and came from the series or is the new one. */
  lemma NewestFrom(prev: seq<Candle>, added: Candle, start: real, kept: seq<Candle>, r: seq<Candle>)
    requires kept == Filter(prev + [added], Since(start))
    requires Newest(r, kept, MaxTicks)
    ensures forall c :: c in r ==> (c in prev || c == added) && start <= c.time
  {
    NewestIn(kept, r);
    assert forall c :: c in prev + [added] ==> c in prev || c == added;
  }

  /** A recent new candle is the last one kept. */
  lemma NewestEndsWithAdded(prev: seq<Candle>, added: Candle, start: real, kept: seq<Candle>, r: seq<Candle>)
    requires kept == Filter(prev + [added], Since(start))
    requires Newest(r, kept, MaxTicks)
    ensures start <= added.time ==> |r| > 0 && r[|r| - 1] == added
  {
    if start <= added.time {
      FilterLast(prev + [added], Since(start), |prev|);
      assert r[|r| - 1] == kept[|kept| - 1];
    }
  }

  /** A recent candle is only cut when 500 others are kept. */
  lemma NewestRetains(prev: seq<Candle>, added: Candle, start: real, kept: seq<Candle>, r: seq<Candle>)
    requires kept == Filter(prev + [added], Since(start))
    requires Newest(r, kept, MaxTicks)
    ensures |kept| <= MaxTicks ==> forall c :: c in prev && start <= c.time ==> c in r
    ensures forall c :: c in prev && start <= c.time && c !in r ==> |r| == MaxTicks
  {
    RecentKept(prev, added, start, kept);
  }

  /** Every candle the cut keeps was among those it cut. */
  lemma NewestIn(kept: seq<Candle>, r: seq<Candle>)
    requires Newest(r, kept, MaxTicks)
    ensures forall c :: c in r ==> c in kept
  {
    forall c | c in r
      ensures c in kept
    {
      var j :| 0 <= j < |r| && r[j] == c;
      assert kept[|kept| - |r| + j] == c;
    }
  }

  /** The filter keeps every recent candle of the previous series. */
  lemma RecentKept(prev: seq<Candle>, added: Candle, start: real, kept: seq<Candle>)
    requires kept == Filter(prev + [added], Since(start))
    ensures forall c :: c in prev && start <= c.time ==> c in kept
  {
    assert forall c :: c in prev ==> c in prev + [added];
  }

  /** A `chartUpdate` never gives two candles the same second. */
  lemma OnChartUpdateDistinct(prev: seq<Candle>, tick: Tick, nowMs: int)
    requires DistinctBy(prev, CandleTime)
    ensures DistinctBy(OnChartUpdate(prev, tick, nowMs), CandleTime)
  {
    if Accepted(tick) {
      var key := IntervalKey(tick.time.n.x) as real;
      if FindBy(prev, key, CandleTime).None? {
        var start := (WholeSeconds(nowMs) - SpanSeconds) as real;
        var all := prev + [Flat(key, tick.value.n)];
        assert DistinctBy(all, CandleTime);
        var kept := Filter(all, Since(start));
        var r := OnChartUpdate(prev, tick, nowMs);
        assert Newest(r, kept, MaxTicks);
        FilterDistinct(all, Since(start), CandleTime);
        SuffixOrder(kept, |kept| - |r|, CandleTime);
      }
    }
  }

  /** The candle that a run of prices `vs` builds inside one second, the first
      price opening it. */
  function Build(t: real, v0: real, vs: seq<real>): Candle
    decreases |vs|
  {
    if |vs| == 0 then Flat(t, Fin(v0))
    else Absorb(Build(t, v0, vs[..|vs| - 1]), vs[|vs| - 1])
  }

  /** The candle built from one second's prices opens at the first price,
      closes at the last, and its high and low are the largest and smallest
      price of the second. */
  lemma {:induction false} BuildSummarises(t: real, v0: real, vs: seq<real>)
    ensures var c := Build(t, v0, vs);
      && c.time == t && c.open == Fin(v0)
      && c.close == Fin(if |vs| == 0 then v0 else vs[|vs| - 1])
      && c.high.Fin? && c.low.Fin?
      && (c.high.x == v0 || c.high.x in vs) && (c.low.x == v0 || c.low.x in vs)
      && v0 <= c.high.x && c.low.x <= v0
      && (forall i :: 0 <= i < |vs| ==> c.low.x <= vs[i] <= c.high.x)
    decreases |vs|
  {
    if |vs| > 0 {
      var init := vs[..|vs| - 1];
      BuildSummarises(t, v0, init);
      assert forall i :: 0 <= i < |init| ==> vs[i] == init[i];
      assert forall x :: x in init ==> x in vs;
    }
  }

  /** Prices 5, 2, 8, 3 within one second make the candle open 5, high 8,
      low 2, close 3. */
  lemma BuildExample(t: real)
    ensures Build(t, 5.0, [2.0, 8.0, 3.0]) == Candle(t, Fin(5.0), Fin(8.0), Fin(2.0), Fin(3.0))
  {
    assert [2.0, 8.0, 3.0][..2] == [2.0, 8.0];
    assert [2.0, 8.0][..1] == [2.0];
    assert [2.0][..0] == [];
  }
}
