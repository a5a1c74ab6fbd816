/** The 30-second candlestick chart: fetched candles with every price
    present, then whole candles pushed by the server, merged in time order
    into the last 30 whole seconds. */
module BCandlestickChart {
  import opened Js
  import opened Series

  /** `TOTAL_TIME_SPAN_S` */
  const SpanSeconds: int := 30
  /** The price of the flat candle shown when no fetched candle is usable. */
  const FallbackPrice: real := 96741.0

  /** `currentTime - TOTAL_TIME_SPAN_S` with `currentTime` the current whole
      second. */
  function WindowStart(nowMs: int): int {
    WholeSeconds(nowMs) - SpanSeconds
  }

  /** `Math.floor(ms / 1000)`: NaN stays NaN, and a value that is not a
      number becomes NaN. */
  function MsToSeconds(f: Field): (r: Num)
    ensures r.Fin? <==> IsFinite(f)
    ensures r.Fin? ==> r.x == r.x.Floor as real
    ensures r.Fin? ==> r.x * 1000.0 <= f.n.x < r.x * 1000.0 + 1000.0
  {
    if IsFinite(f) then Fin((f.n.x / 1000.0).Floor as real) else NaN
  }

  /** The second `MsToSeconds` gives is the one whole second `k` whose
      thousand milliseconds contain the time. */
  lemma MsToSecondsIsFloor(f: Field, k: int)
    requires IsFinite(f)
    requires (k * 1000) as real <= f.n.x < (k * 1000 + 1000) as real
    ensures MsToSeconds(f) == Fin(k as real)
  {
    var n := MsToSeconds(f).x.Floor;
    assert MsToSeconds(f).x == n as real;
    assert (n * 1000) as real <= f.n.x < (n * 1000 + 1000) as real;
    assert n * 1000 < k * 1000 + 1000 && k * 1000 < n * 1000 + 1000;
  }

  // ---------------------------------------------------------------------
  // initializeChart
  // ---------------------------------------------------------------------

  /** A fetched candle survives the check that its time, after the cut to
      whole seconds, and its four prices are numbers other than NaN. */
  predicate Usable(c: RawCandle) {
    IsFinite(c.time) && IsFinite(c.open) && IsFinite(c.high) && IsFinite(c.low) && IsFinite(c.close)
  }

  /** A usable fetched candle as the chart keeps it, its time in seconds. */
  function ToCandle(c: RawCandle): Candle
    requires Usable(c)
  {
    Candle(MsToSeconds(c.time).x, c.open.n, c.high.n, c.low.n, c.close.n)
  }

  /** The candles the chart starts from after a successful fetch of
      `history` at clock reading `nowMs`: the usable fetched candles in fetch
      order, or one flat candle at the window start when there are none. */
  function Seed(history: seq<RawCandle>, nowMs: int): (r: seq<Candle>)
    ensures 1 <= |r| <= |history| || r == [Flat(WindowStart(nowMs) as real, Fin(FallbackPrice))]
    ensures forall c :: c in r ==> c.open.Fin? && c.high.Fin? && c.low.Fin? && c.close.Fin?
    ensures (forall i :: 0 <= i < |history| ==> !Usable(history[i])) ==>
      r == [Flat(WindowStart(nowMs) as real, Fin(FallbackPrice))]
    ensures (exists i :: 0 <= i < |history| && Usable(history[i])) ==>
      forall c :: c in r <==> exists i :: 0 <= i < |history| && Usable(history[i]) && ToCandle(history[i]) == c
    ensures (exists i :: 0 <= i < |history| && Usable(history[i])) ==>
      && |r| == |Filter(history, Usable)|
      && forall k :: 0 <= k < |r| ==> r[k] == ToCandle(Filter(history, Usable)[k])
  {
    var kept := Filter(history, Usable);
    if |kept| == 0 then [Flat(WindowStart(nowMs) as real, Fin(FallbackPrice))]
    else
      assert kept[0] in kept;
      var r := seq(|kept|, i requires 0 <= i < |kept| => ToCandle(kept[i]));
      UsableImage(history, kept, r);
      r
  }

  lemma UsableImage(history: seq<RawCandle>, kept: seq<RawCandle>, r: seq<Candle>)
    requires forall c :: c in kept <==> c in history && Usable(c)
    requires |r| == |kept|
    requires forall k :: 0 <= k < |kept| ==> Usable(kept[k]) && r[k] == ToCandle(kept[k])
    ensures forall c :: c in r <==> exists i :: 0 <= i < |history| && Usable(history[i]) && ToCandle(history[i]) == c
  {
    forall c | c in r
      ensures exists i :: 0 <= i < |history| && Usable(history[i]) && ToCandle(history[i]) == c
    {
      var k :| 0 <= k < |r| && r[k] == c;
      assert kept[k] in kept;
      var i :| 0 <= i < |history| && history[i] == kept[k];
    }
    forall i | 0 <= i < |history| && Usable(history[i])
      ensures ToCandle(history[i]) in r
    {
      assert history[i] in kept;
      var k :| 0 <= k < |kept| && kept[k] == history[i];
      assert r[k] == ToCandle(history[i]);
    }
  }

  // ---------------------------------------------------------------------
  // tradeUpdate
  // ---------------------------------------------------------------------

  /** `!!x && typeof x === 'number'`: a number other than 0 and NaN. */
  predicate Truthy(f: Field) {
    IsFinite(f) && f.n.x != 0.0
  }

  /** The message check: the time is a number (NaN passes) and each price
      is a non-zero number. */
  predicate Accepted(m: RawCandle) {
    IsNumber(m.time) && Truthy(m.open) && Truthy(m.high) && Truthy(m.low) && Truthy(m.close)
  }

  /** `p.time >= timeWindowStart && p.time <= currentTime` */
  predicate InWindow(nowMs: int, c: Candle) {
    WindowStart(nowMs) as real <= c.time <= WholeSeconds(nowMs) as real
  }

  /** The window filter `c => InWindow(nowMs, c)` as a value. */
  function Live(nowMs: int): Candle -> bool {
    (c: Candle) => InWindow(nowMs, c)
  }

  /** The candle a message adds: none when its time is NaN, since such a
      candle is dropped by the window filter. */
  function Incoming(m: RawCandle): seq<Candle>
    requires Accepted(m)
  {
    if m.time.n.Fin? then [Candle(MsToSeconds(m.time).x, m.open.n, m.high.n, m.low.n, m.close.n)] else []
  }

  /** `[...prevData, candle].sort(byTime).filter(inWindow)`, or a flat candle
      at the window start at `price` when nothing is left. */
  function Merge(prev: seq<Candle>, incoming: seq<Candle>, price: Num, nowMs: int): (r: seq<Candle>)
    ensures SortedBy(r, CandleTime)
    ensures |r| >= 1
    ensures forall c :: c in r ==> InWindow(nowMs, c)
    ensures (forall c :: c in prev + incoming ==> !InWindow(nowMs, c)) ==>
      r == [Flat(WindowStart(nowMs) as real, price)]
    ensures (exists c :: c in prev + incoming && InWindow(nowMs, c)) ==>
      forall c :: c in r <==> c in prev + incoming && InWindow(nowMs, c)
  {
    var kept := SortKeep(prev + incoming, CandleTime, Live(nowMs));
    KeptInWindow(prev + incoming, nowMs, kept);
    if |kept| == 0 then [Flat(WindowStart(nowMs) as real, price)] else kept
  }

  lemma KeptInWindow(all: seq<Candle>, nowMs: int, kept: seq<Candle>)
    requires kept == SortKeep(all, CandleTime, Live(nowMs))
    ensures forall c :: c in kept <==> c in all && InWindow(nowMs, c)
    ensures |kept| == 0 <==> forall c :: c in all ==> !InWindow(nowMs, c)
  {
    if |kept| > 0 {
      assert kept[0] in kept;
    }
  }

  /** Unless the fallback is used, the merge keeps every candle of the window
      as often as it was there and drops nothing else. */
  lemma MergeCounts(prev: seq<Candle>, incoming: seq<Candle>, price: Num, nowMs: int)
    requires exists c :: c in prev + incoming && InWindow(nowMs, c)
    ensures forall c :: multiset(Merge(prev, incoming, price, nowMs))[c] ==
                        if InWindow(nowMs, c) then multiset(prev + incoming)[c] else 0
  {
    var c :| c in prev + incoming && InWindow(nowMs, c);
    assert c in Merge(prev, incoming, price, nowMs);
  }

  /** The `tradeUpdate` handler together with the delayed state update it
      schedules, run at clock reading `nowMs`: a message failing the check
      changes nothing; otherwise its candle joins the series, which is
      sorted by time and cut to the window, duplicates and all, with the
      fallback candle only when the window is otherwise empty. */
  function OnTrade(prev: seq<Candle>, m: RawCandle, nowMs: int): (r: seq<Candle>)
    ensures !Accepted(m) ==> r == prev
    ensures Accepted(m) ==>
      && SortedBy(r, CandleTime)
      && |r| >= 1
      && (forall c :: c in r ==> InWindow(nowMs, c))
      && (forall c :: c in prev && InWindow(nowMs, c) ==> c in r)
      && (forall c :: c in Incoming(m) && InWindow(nowMs, c) ==> c in r)
      && (forall c :: c in r ==>
            c in prev || c in Incoming(m) || c == Flat(WindowStart(nowMs) as real, m.close.n))
      && r == Merge(prev, Incoming(m), m.close.n, nowMs)
      && ((forall c :: c in prev + Incoming(m) ==> !InWindow(nowMs, c)) ==>
            r == [Flat(WindowStart(nowMs) as real, m.close.n)])
  {
    if !Accepted(m) then prev
    else
      var incoming := Incoming(m);
      assert forall c :: c in prev ==> c in prev + incoming;
      assert forall c :: c in incoming ==> c in prev + incoming;
      Merge(prev, incoming, m.close.n, nowMs)
  }

  /** An accepted message whose window is not empty keeps every candle of the
      window as often as it was there, the message's candle included, and no
      other. */
  lemma OnTradeCounts(prev: seq<Candle>, m: RawCandle, nowMs: int)
    requires Accepted(m)
    requires exists c :: c in prev + Incoming(m) && InWindow(nowMs, c)
    ensures forall c :: multiset(OnTrade(prev, m, nowMs))[c] ==
                        if InWindow(nowMs, c) then multiset(prev + Incoming(m))[c] else 0
  {
    MergeCounts(prev, Incoming(m), m.close.n, nowMs);
  }
}
