/** The millisecond line chart: the last five minutes of history, then live
    trades keyed to the millisecond, buffered and merged into the series in
    batches. */
module LineChart {
  import opened Js
  import opened Series

  /** `MAX_TICKS`: five minutes of 1 ms points. */
  const MaxTicks: nat := 300000
  /** `TOTAL_TIME_SPAN_S` */
  const SpanSeconds: int := 300
  /** The price of the point shown when the fetch returns nothing. */
  const FallbackPrice: real := 94773.84

  // ---------------------------------------------------------------------
  // loadHistoricalData
  // ---------------------------------------------------------------------

  /** `point.time >= currentTime - TOTAL_TIME_SPAN_S && point.time <= currentTime`
      with `currentTime` the current whole second; a time that is not a
      number fails both comparisons. */
  predicate InLoadWindow(nowMs: int, e: RawPoint) {
    LessEq(Fin((WholeSeconds(nowMs) - SpanSeconds) as real), ToNum(e.time))
    && LessEq(ToNum(e.time), Fin(WholeSeconds(nowMs) as real))
  }

  /** The window filter `e => InLoadWindow(nowMs, e)` as a value. */
  function Windowed(nowMs: int): RawPoint -> bool {
    (e: RawPoint) => InLoadWindow(nowMs, e)
  }

  /** A fetched sample `{ time, value: close }` as the chart keeps it. */
  function ToPoint(e: RawPoint): Point
    requires IsFinite(e.time)
  {
    Point(e.time.n.x, ToNum(e.value))
  }

  /** `data.filter(inWindow)` */
  function LoadWindow(history: seq<RawPoint>, nowMs: int): (kept: seq<RawPoint>)
    ensures forall e :: e in kept <==> e in history && InLoadWindow(nowMs, e)
    ensures forall e :: e in kept ==> IsFinite(e.time)
  {
    Filter(history, Windowed(nowMs))
  }

  /** The series `loadHistoricalData` shows for the fetched samples `history`
      at clock reading `nowMs`: the last 300000 samples of the five minutes up
      to the current whole second; the fallback price at the current second
      when nothing was fetched; the last fetched value at the current second
      when nothing fetched lies in those five minutes. */
  function LoadHistory(history: seq<RawPoint>, nowMs: int): (r: seq<Point>)
    ensures 1 <= |r| <= MaxTicks
    ensures |history| == 0 ==> r == [Point(WholeSeconds(nowMs) as real, Fin(FallbackPrice))]
    ensures |history| > 0 && (forall i :: 0 <= i < |history| ==> !InLoadWindow(nowMs, history[i])) ==>
      r == [Point(WholeSeconds(nowMs) as real, ToNum(history[|history| - 1].value))]
    ensures (exists i :: 0 <= i < |history| && InLoadWindow(nowMs, history[i])) ==>
      forall p :: p in r ==>
        exists i :: 0 <= i < |history| && InLoadWindow(nowMs, history[i]) && ToPoint(history[i]) == p
  {
    if |history| == 0 then [Point(WholeSeconds(nowMs) as real, Fin(FallbackPrice))]
    else
      var all := LoadWindow(history, nowMs);
      var kept := LastN(all, MaxTicks);
      if |kept| == 0 then
        [Point(WholeSeconds(nowMs) as real, ToNum(history[|history| - 1].value))]
      else
        var r := Converted(kept);
        LoadProvenance(history, nowMs, kept, r);
        r
  }

  /** The kept samples, each as the chart keeps it, in fetch order. */
  function Converted(kept: seq<RawPoint>): (r: seq<Point>)
    requires forall e :: e in kept ==> IsFinite(e.time)
    ensures |r| == |kept| && forall k :: 0 <= k < |kept| ==> r[k] == ToPoint(kept[k])
  {
    seq(|kept|, i requires 0 <= i < |kept| => ToPoint(kept[i]))
  }

  lemma LoadProvenance(history: seq<RawPoint>, nowMs: int, kept: seq<RawPoint>, r: seq<Point>)
    requires |kept| > 0
    requires forall e :: e in kept ==> e in history && InLoadWindow(nowMs, e)
    requires |r| == |kept|
    requires forall k :: 0 <= k < |kept| ==> IsFinite(kept[k].time) && r[k] == ToPoint(kept[k])
    ensures exists i :: 0 <= i < |history| && InLoadWindow(nowMs, history[i])
    ensures forall p :: p in r ==>
      exists i :: 0 <= i < |history| && InLoadWindow(nowMs, history[i]) && ToPoint(history[i]) == p
  {
    assert kept[0] in kept;
    forall p | p in r
      ensures exists i :: 0 <= i < |history| && InLoadWindow(nowMs, history[i]) && ToPoint(history[i]) == p
    {
      var k :| 0 <= k < |r| && r[k] == p;
      assert kept[k] in kept;
      var i :| 0 <= i < |history| && history[i] == kept[k];
    }
  }

  /** The shown points are the last `min(300000, |W|)` samples of the window
      `W`, converted, in fetch order. */
  lemma LoadHistoryIsWindowTail(history: seq<RawPoint>, nowMs: int)
    requires |LoadWindow(history, nowMs)| > 0
    ensures var r := LoadHistory(history, nowMs);
      var w := LoadWindow(history, nowMs);
      && |r| == (if |w| <= MaxTicks then |w| else MaxTicks)
      && forall k :: 0 <= k < |r| ==> IsFinite(w[|w| - |r| + k].time) && r[k] == ToPoint(w[|w| - |r| + k])
  {
    LoadHistoryConverts(history, nowMs);
    var w := LoadWindow(history, nowMs);
    WindowTailConverted(w, LastN(w, MaxTicks), LoadHistory(history, nowMs));
  }

  /** The shown points are the last 300000 window samples, converted. */
  lemma LoadHistoryConverts(history: seq<RawPoint>, nowMs: int)
    requires |LoadWindow(history, nowMs)| > 0
    ensures var kept := LastN(LoadWindow(history, nowMs), MaxTicks);
      && (forall e :: e in kept ==> IsFinite(e.time))
      && LoadHistory(history, nowMs) == Converted(kept)
  {
    var w := LoadWindow(history, nowMs);
    assert w[0] in w;
  }

  /** Points converted from the last 300000 of `w` are the last
      `min(300000, |w|)` of `w`, converted. */
  lemma WindowTailConverted(w: seq<RawPoint>, kept: seq<RawPoint>, r: seq<Point>)
    requires kept == LastN(w, MaxTicks)
    requires forall e :: e in w ==> IsFinite(e.time)
    requires |r| == |kept| && forall k :: 0 <= k < |r| ==> r[k] == ToPoint(kept[k])
    ensures |r| == (if |w| <= MaxTicks then |w| else MaxTicks)
    ensures forall k :: 0 <= k < |r| ==> IsFinite(w[|w| - |r| + k].time) && r[k] == ToPoint(w[|w| - |r| + k])
  {
    forall k | 0 <= k < |r|
      ensures IsFinite(w[|w| - |r| + k].time) && r[k] == ToPoint(w[|w| - |r| + k])
    {
      assert kept[k] == w[|w| - |kept| + k];
      assert kept[k] in w;
    }
  }

  /** While the five minutes hold no more than 300000 samples, every one of
      them is shown. */
  lemma LoadHistoryKeepsWindow(history: seq<RawPoint>, nowMs: int, i: nat)
    requires i < |history| && InLoadWindow(nowMs, history[i])
    requires |LoadWindow(history, nowMs)| <= MaxTicks
    ensures IsFinite(history[i].time) && ToPoint(history[i]) in LoadHistory(history, nowMs)
  {
    var all := LoadWindow(history, nowMs);
    assert history[i] in all;
    assert LastN(all, MaxTicks) == all;
    var k :| 0 <= k < |all| && all[k] == history[i];
    var r := LoadHistory(history, nowMs);
    assert |r| == |all| && r[k] == ToPoint(all[k]);
  }

  // ---------------------------------------------------------------------
  // tradeUpdate and the 100 ms batch
  // ---------------------------------------------------------------------

  /** A live `tradeUpdate` message `{ time, value }`, fields unchecked. */
  datatype Trade = Trade(time: Field, value: Field)

  /** A buffered update `{ time: currentIntervalS, value: price }`; its time
      is NaN when the trade's time was. */
  datatype Update = Update(time: Num, value: Num)

  /** The displayed series and the buffer of updates waiting for the next
      batch. */
  datatype State = State(data: seq<Point>, pending: seq<Update>)

  /** The point an update writes, if any: one whose time is NaN is appended by
      the batch (no `findIndex` matches NaN) and then removed by its window
      filter, before the `slice`, so it never shows. */
  function Writes(pending: seq<Update>): (r: seq<Point>)
    ensures |r| <= |pending|
    ensures forall p :: p in r <==> Update(Fin(p.time), p.value) in pending
    decreases |pending|
  {
    if |pending| == 0 then []
    else
      var u := pending[|pending| - 1];
      var init := Writes(pending[..|pending| - 1]);
      assert pending == pending[..|pending| - 1] + [u];
      if u.time.Fin? then init + [Point(u.time.x, u.value)] else init
  }

  lemma {:induction false} WritesConcat(a: seq<Update>, b: seq<Update>)
    ensures Writes(a + b) == Writes(a) + Writes(b)
    decreases |b|
  {
    if |b| > 0 {
      assert (a + b)[..|a + b| - 1] == a + b[..|b| - 1];
      WritesConcat(a, b[..|b| - 1]);
    } else {
      assert a + b == a;
    }
  }

  /** The `tradeUpdate` handler: a message whose time or value is not a
      number is ignored; otherwise its time is keyed to the millisecond and
      the update joins the end of the buffer, the series itself unchanged.
      An update with a NaN time still joins the buffer, so the next batch
      runs, although that update writes no point. */
  function Receive(st: State, trade: Trade): (r: State)
    ensures !IsNumber(trade.time) || !IsNumber(trade.value) ==> r == st
    ensures IsNumber(trade.time) && IsNumber(trade.value) ==>
      && r.data == st.data
      && |r.pending| == |st.pending| + 1
      && r.pending[..|st.pending|] == st.pending
      && r.pending[|st.pending|].value == trade.value.n
      && (r.pending[|st.pending|].time.Fin? <==> trade.time.n.Fin?)
      && Writes(r.pending) == Writes(st.pending) +
           if trade.time.n.Fin? then [Point(MsKey(trade.time.n.x), trade.value.n)] else []
  {
    if !IsNumber(trade.time) || !IsNumber(trade.value) then st
    else
      var key := if trade.time.n.Fin? then Fin(MsKey(trade.time.n.x)) else NaN;
      var r := State(st.data, st.pending + [Update(key, trade.value.n)]);
      WritesConcat(st.pending, [Update(key, trade.value.n)]);
      r
  }

  /** `p.time >= Date.now() / 1000 - TOTAL_TIME_SPAN_S` */
  predicate Recent(nowMs: int, p: Point) {
    Seconds(nowMs) - SpanSeconds as real <= p.time
  }

  /** The filter `p => Recent(nowMs, p)` as a value. */
  function Fresh(nowMs: int): Point -> bool {
    (p: Point) => Recent(nowMs, p)
  }

  /** The series a batch leaves before its filter and slice: each buffered
      update, in arrival order, overwrites the value of the point at its
      time, or is appended when there is none. */
  function Applied(st: State): seq<Point> {
    UpsertAll(st.data, Writes(st.pending))
  }

  /** The 100 ms batch at clock reading `nowMs`: with nothing buffered it
      does nothing; otherwise it applies the buffer, empties it, drops points
      older than five minutes and keeps the newest 300000 of the rest, in
      order. */
  function Flush(st: State, nowMs: int): (r: State)
    ensures |st.pending| == 0 ==> r == st
    ensures |st.pending| > 0 ==>
      && r.pending == []
      && |r.data| <= MaxTicks
      && (forall p :: p in r.data ==> Recent(nowMs, p) && (p in st.data || p in Writes(st.pending)))
      && Newest(r.data, Filter(Applied(st), Fresh(nowMs)), MaxTicks)
  {
    if |st.pending| == 0 then st
    else
      var kept := Filter(Applied(st), Fresh(nowMs));
      State(LastN(kept, MaxTicks), [])
  }

  /** Last write wins: after a batch, the point at a recent time `t` is the
      last buffered write at `t`, or the point that was there when the buffer
      wrote nothing at `t`, as long as the five minutes hold no more than
      300000 points. */
  lemma FlushLastWriteWins(st: State, nowMs: int, t: real)
    requires |st.pending| > 0
    requires Seconds(nowMs) - SpanSeconds as real <= t
    requires |Filter(Applied(st), Fresh(nowMs))| <= MaxTicks
    ensures var w := LastWith(Writes(st.pending), t);
      First(Flush(st, nowMs).data, t) == if w.Some? then w else First(st.data, t)
  {
    FilterFirst(Applied(st), Fresh(nowMs), t);
    UpsertAllLastWriteWins(st.data, Writes(st.pending), t);
  }

  /** A batch keeps the series free of repeated times. */
  lemma FlushDistinct(st: State, nowMs: int)
    requires DistinctBy(st.data, PointTime)
    ensures DistinctBy(Flush(st, nowMs).data, PointTime)
  {
    if |st.pending| > 0 {
      UpsertAllDistinct(st.data, Writes(st.pending));
      var kept := Filter(Applied(st), Fresh(nowMs));
      FilterDistinct(Applied(st), Fresh(nowMs), PointTime);
      var r := Flush(st, nowMs).data;
      assert Newest(r, kept, MaxTicks);
      SuffixOrder(kept, |kept| - |r|, PointTime);
    }
  }

  /** The same update buffered twice in a row has the effect of buffering it
      once. */
  lemma FlushRepeat(data: seq<Point>, a: seq<Update>, u: Update, b: seq<Update>, nowMs: int)
    ensures Flush(State(data, a + [u, u] + b), nowMs) == Flush(State(data, a + [u] + b), nowMs)
  {
    AppliedRepeat(data, a, u, b);
  }

  lemma AppliedRepeat(data: seq<Point>, a: seq<Update>, u: Update, b: seq<Update>)
    ensures Applied(State(data, a + [u, u] + b)) == Applied(State(data, a + [u] + b))
  {
    WritesAround(a, [u, u], b);
    WritesAround(a, [u], b);
    WritesTwice(u);
    if u.time.Fin? {
      UpsertAllRepeat(data, Writes(a), Point(u.time.x, u.value), Writes(b));
    }
  }

  lemma WritesAround(a: seq<Update>, m: seq<Update>, b: seq<Update>)
    ensures Writes(a + m + b) == Writes(a) + Writes(m) + Writes(b)
  {
    WritesConcat(a + m, b);
    WritesConcat(a, m);
  }

  lemma WritesTwice(u: Update)
    ensures Writes([u]) == if u.time.Fin? then [Point(u.time.x, u.value)] else []
    ensures Writes([u, u]) == if u.time.Fin? then [Point(u.time.x, u.value), Point(u.time.x, u.value)] else []
  {
    WritesConcat([u], [u]);
    assert [u] + [u] == [u, u];
    assert Writes([]) == [];
    assert [u][..0] == [];
  }

  /** A trade with a numeric time, received and then batched while its
      millisecond is recent, is the point shown at that millisecond, as long
      as nothing else arrives in between. */
  lemma ReceiveThenFlush(st: State, trade: Trade, nowMs: int)
    requires |st.pending| == 0
    requires IsFinite(trade.time) && IsNumber(trade.value)
    requires Seconds(nowMs) - SpanSeconds as real <= MsKey(trade.time.n.x)
    requires |Filter(Applied(Receive(st, trade)), Fresh(nowMs))| <= MaxTicks
    ensures First(Flush(Receive(st, trade), nowMs).data, MsKey(trade.time.n.x))
      == Some(Point(MsKey(trade.time.n.x), trade.value.n))
  {
    var r := Receive(st, trade);
    assert Writes(st.pending) == [];
    FlushLastWriteWins(r, nowMs, MsKey(trade.time.n.x));
  }
}
