/** The baseline line chart: a line series seeded from a historical batch,
    merged with every live trade by append-then-sort, kept to the last 30
    seconds, and drawn together with a 5-point trailing mean. */
module BBaseLineChart {
  import opened Js
  import opened Series

  /** `TOTAL_TIME_SPAN_S` */
  const SpanSeconds: int := 30

  /** The price of the point shown when no historical sample is usable. */
  const FallbackPrice: real := 96741.0

  /** The chart's state: the displayed series and the baseline drawn from it. */
  datatype State = State(data: seq<Point>, baseline: seq<Point>)

  /** A `tradeUpdate` message `{ time, value }`; `time` is in seconds. */
  datatype Trade = Trade(time: Field, value: Field)

  // ---------------------------------------------------------------------
  // calculateBaseline
  // ---------------------------------------------------------------------

  /** `w.reduce((sum, point) => sum + point.value, acc)` */
  function SumValues(acc: Num, w: seq<Point>): Num
    decreases |w|
  {
    if |w| == 0 then acc else SumValues(Add(acc, w[0].value), w[1..])
  }

  /** `calculateBaseline(data)`: for every index from 4 on, the time of that
      point and the reduce-sum of the five values ending there, over 5. */
  function Baseline(data: seq<Point>): seq<Point> {
    if |data| < 5 then []
    else (seq(|data| - 4, j requires 0 <= j < |data| - 4 =>
      Point(data[j + 4].time, Div(SumValues(Fin(0.0), data[j..j + 5]), 5.0))))
  }

  /** The arithmetic mean of the five values `data[j..j + 5]`, written out;
      NaN as soon as one of them is NaN. */
  ghost function MeanOfFive(data: seq<Point>, j: nat): Num
    requires j + 5 <= |data|
  {
    if forall k :: j <= k < j + 5 ==> data[k].value.Fin? then
      Fin((data[j].value.x + data[j + 1].value.x + data[j + 2].value.x
           + data[j + 3].value.x + data[j + 4].value.x) / 5.0)
    else NaN
  }

  /** `b` holds, for every point from the fifth on, that point's time and
      the mean of the five values ending there. */
  ghost predicate IsTrailingMean(b: seq<Point>, data: seq<Point>) {
    && |b| == (if |data| < 5 then 0 else |data| - 4)
    && forall j :: 0 <= j < |b| ==> b[j] == Point(data[j + 4].time, MeanOfFive(data, j))
  }

  lemma {:induction false} SumValuesSnoc(acc: Num, w: seq<Point>, p: Point)
    ensures SumValues(acc, w + [p]) == Add(SumValues(acc, w), p.value)
    decreases |w|
  {
    if |w| == 0 {
      assert (w + [p])[1..] == [];
    } else {
      assert (w + [p])[1..] == w[1..] + [p];
      SumValuesSnoc(Add(acc, w[0].value), w[1..], p);
    }
  }

  /** The reduce-sum of a five-point window, over 5, is the mean of its values. */
  lemma WindowMean(data: seq<Point>, j: nat)
    requires j + 5 <= |data|
    ensures Div(SumValues(Fin(0.0), data[j..j + 5]), 5.0) == MeanOfFive(data, j)
  {
    var w := data[j..j + 5];
    assert w[..0] == [];
    assert w[..1] == w[..0] + [data[j]];
    assert w[..2] == w[..1] + [data[j + 1]];
    assert w[..3] == w[..2] + [data[j + 2]];
    assert w[..4] == w[..3] + [data[j + 3]];
    assert w == w[..4] + [data[j + 4]];
    SumValuesSnoc(Fin(0.0), w[..0], data[j]);
    SumValuesSnoc(Fin(0.0), w[..1], data[j + 1]);
    SumValuesSnoc(Fin(0.0), w[..2], data[j + 2]);
    SumValuesSnoc(Fin(0.0), w[..3], data[j + 3]);
    SumValuesSnoc(Fin(0.0), w[..4], data[j + 4]);
  }

  /** The baseline has one entry per point from the fifth on: entry `j`
      carries the time of point `j + 4` and the mean of points `j..j + 4`. */
  lemma BaselineIsTrailingMean(data: seq<Point>)
    ensures |Baseline(data)| == if |data| < 5 then 0 else |data| - 4
    ensures forall j :: 0 <= j < |Baseline(data)| ==>
      Baseline(data)[j].time == data[j + 4].time
      && Baseline(data)[j].value == MeanOfFive(data, j)
  {
    forall j | 0 <= j < |Baseline(data)|
      ensures Baseline(data)[j].value == MeanOfFive(data, j)
    {
      WindowMean(data, j);
    }
  }

  /** Recomputing the baseline after one more point arrives gives the old
      baseline followed by the mean of the five newest points. */
  lemma BaselineExtends(data: seq<Point>, p: Point)
    requires |data| >= 4
    ensures Baseline(data + [p]) == Baseline(data) + [Point(p.time, MeanOfFive(data + [p], |data| - 4))]
  {
    var lhs := Baseline(data + [p]);
    var rhs := Baseline(data) + [Point(p.time, MeanOfFive(data + [p], |data| - 4))];
    forall j | 0 <= j < |lhs|
      ensures lhs[j] == rhs[j]
    {
      BaselineExtendsAt(data, p, j);
    }
    assert lhs == rhs;
  }

  lemma BaselineExtendsAt(data: seq<Point>, p: Point, j: nat)
    requires |data| >= 4 && j < |data| - 3
    ensures |Baseline(data + [p])| == |Baseline(data)| + 1
    ensures Baseline(data + [p])[j] ==
      (Baseline(data) + [Point(p.time, MeanOfFive(data + [p], |data| - 4))])[j]
  {
    var d := data + [p];
    BaselineIsTrailingMean(d);
    if j < |data| - 4 {
      BaselineIsTrailingMean(data);
      MeanOfFivePrefix(data, p, j);
    }
  }

  /** A window that ends before the new point has the same mean as before. */
  lemma MeanOfFivePrefix(data: seq<Point>, p: Point, j: nat)
    requires j + 5 <= |data|
    ensures MeanOfFive(data + [p], j) == MeanOfFive(data, j)
  {
    var d := data + [p];
    assert d[j] == data[j] && d[j + 1] == data[j + 1] && d[j + 2] == data[j + 2];
    assert d[j + 3] == data[j + 3] && d[j + 4] == data[j + 4];
  }

  // ---------------------------------------------------------------------
  // initializeChart: the historical seed
  // ---------------------------------------------------------------------

  /** `timeWindowStart` of the seed: `Math.floor(Date.now() / 1000) - 30`. */
  function SeedStart(nowMs: int): real {
    (WholeSeconds(nowMs) - SpanSeconds) as real
  }

  /** `typeof d.time === 'number' && !isNaN(d.time) && typeof d.value === 'number' && !isNaN(d.value)` */
  predicate Usable(e: RawPoint) {
    IsFinite(e.time) && IsFinite(e.value)
  }

  function ToPoint(e: RawPoint): Point
    requires Usable(e)
  {
    Point(e.time.n.x, e.value.n)
  }

  /** The series the chart starts from: the usable historical samples in
      fetch order, or the single fallback point at the window start when
      there are none. */
  function Seed(history: seq<RawPoint>, nowMs: int): (r: seq<Point>)
    ensures |r| >= 1
    ensures forall p :: p in r ==> p.value.Fin?
    ensures (forall i :: 0 <= i < |history| ==> !Usable(history[i])) ==>
      r == [Point(SeedStart(nowMs), Fin(FallbackPrice))]
    ensures (exists i :: 0 <= i < |history| && Usable(history[i])) ==>
      forall p :: p in r <==> exists i :: 0 <= i < |history| && Usable(history[i]) && ToPoint(history[i]) == p
    ensures (exists i :: 0 <= i < |history| && Usable(history[i])) ==>
      && |r| == |Filter(history, Usable)|
      && forall k :: 0 <= k < |r| ==> r[k] == ToPoint(Filter(history, Usable)[k])
  {
    var fallback := RawPoint(Number(Fin(SeedStart(nowMs))), Number(Fin(FallbackPrice)));
    var initial := if |history| > 0 then history else [fallback];
    var kept := Filter(initial, Usable);
    if |kept| == 0 then [ToPoint(fallback)]
    else
      assert kept[0] in kept;
      var r := seq(|kept|, i requires 0 <= i < |kept| => ToPoint(kept[i]));
      UsableImage(initial, kept, r);
      r
  }

  lemma UsableImage(history: seq<RawPoint>, kept: seq<RawPoint>, r: seq<Point>)
    requires forall e :: e in kept <==> e in history && Usable(e)
    requires |r| == |kept|
    requires forall k :: 0 <= k < |kept| ==> Usable(kept[k]) && r[k] == ToPoint(kept[k])
    ensures forall p :: p in r <==> exists i :: 0 <= i < |history| && Usable(history[i]) && ToPoint(history[i]) == p
  {
    forall p | p in r
      ensures exists i :: 0 <= i < |history| && Usable(history[i]) && ToPoint(history[i]) == p
    {
      var k :| 0 <= k < |r| && r[k] == p;
      assert kept[k] in kept;
      var i :| 0 <= i < |history| && history[i] == kept[k];
    }
    forall i | 0 <= i < |history| && Usable(history[i])
      ensures ToPoint(history[i]) in r
    {
      assert history[i] in kept;
      var k :| 0 <= k < |kept| && kept[k] == history[i];
      assert r[k] == ToPoint(history[i]);
    }
  }

  /** The chart's state once the historical batch is applied: the seed, and
      its trailing mean as the baseline. */
  function Init(history: seq<RawPoint>, nowMs: int): (st: State)
    ensures st.data == Seed(history, nowMs)
    ensures IsTrailingMean(st.baseline, st.data)
  {
    var data := Seed(history, nowMs);
    BaselineIsTrailingMean(data);
    State(data, Baseline(data))
  }

  // ---------------------------------------------------------------------
  // tradeUpdate: the live merge
  // ---------------------------------------------------------------------

  /** `currentTime - TOTAL_TIME_SPAN_S` of a live update, in fractional seconds. */
  function WindowStart(nowMs: int): real {
    Seconds(nowMs) - SpanSeconds as real
  }

  predicate InWindow(nowMs: int, p: Point) {
    WindowStart(nowMs) <= p.time <= Seconds(nowMs)
  }

  /** The window filter `p => InWindow(nowMs, p)` as a value. */
  function Live(nowMs: int): Point -> bool {
    (p: Point) => InWindow(nowMs, p)
  }

  /** `[...prev, ...incoming].sort(byTime).filter(inWindow)`, or the single
      point `{ timeWindowStart, price }` when nothing is left. */
  function Merge(prev: seq<Point>, incoming: seq<Point>, price: Num, nowMs: int): (r: seq<Point>)
    ensures SortedBy(r, PointTime)
    ensures |r| >= 1
    ensures forall p :: p in r ==> InWindow(nowMs, p)
    ensures (forall p :: p in prev + incoming ==> !InWindow(nowMs, p)) ==>
      r == [Point(WindowStart(nowMs), price)]
    ensures (exists p :: p in prev + incoming && InWindow(nowMs, p)) ==>
      forall p :: p in r <==> p in prev + incoming && InWindow(nowMs, p)
  {
    var kept := SortKeep(prev + incoming, PointTime, Live(nowMs));
    KeptInWindow(prev + incoming, nowMs, kept);
    if |kept| == 0 then [Point(WindowStart(nowMs), price)] else kept
  }

  lemma KeptInWindow(all: seq<Point>, nowMs: int, kept: seq<Point>)
    requires kept == SortKeep(all, PointTime, Live(nowMs))
    ensures forall p :: p in kept <==> p in all && InWindow(nowMs, p)
    ensures |kept| == 0 <==> forall p :: p in all ==> !InWindow(nowMs, p)
  {
    if |kept| > 0 {
      assert kept[0] in kept;
    }
  }

  /** Unless the fallback is used, the merge keeps every point of the window
      as often as it was there and drops nothing else. */
  lemma MergeCounts(prev: seq<Point>, incoming: seq<Point>, price: Num, nowMs: int)
    requires exists p :: p in prev + incoming && InWindow(nowMs, p)
    ensures forall p :: multiset(Merge(prev, incoming, price, nowMs))[p] ==
                        if InWindow(nowMs, p) then multiset(prev + incoming)[p] else 0
  {
    var p :| p in prev + incoming && InWindow(nowMs, p);
    assert p in Merge(prev, incoming, price, nowMs);
  }

  /** The points a trade adds: none when its time is NaN, since such a point
      is dropped by the window filter. */
  function Incoming(trade: Trade): seq<Point>
    requires IsNumber(trade.time) && IsNumber(trade.value)
  {
    if trade.time.n.Fin? then [Point(MsKey(trade.time.n.x), trade.value.n)] else []
  }

  /** The `tradeUpdate` handler together with the delayed state update it
      schedules, run at clock reading `nowMs`: the series becomes the merge
      of the old points and the trade's point, duplicates and all, with the
      fallback point only when the window is otherwise empty; the baseline
      is recomputed from it. */
  function OnTrade(st: State, trade: Trade, nowMs: int): (r: State)
    ensures !IsNumber(trade.time) || !IsNumber(trade.value) ==> r == st
    ensures IsNumber(trade.time) && IsNumber(trade.value) ==>
      && IsTrailingMean(r.baseline, r.data)
      && SortedBy(r.data, PointTime)
      && |r.data| >= 1
      && (forall p :: p in r.data ==> InWindow(nowMs, p))
      && (forall p :: p in st.data && InWindow(nowMs, p) ==> p in r.data)
      && (trade.time.n.Fin? && InWindow(nowMs, Point(MsKey(trade.time.n.x), trade.value.n)) ==>
            Point(MsKey(trade.time.n.x), trade.value.n) in r.data)
      && (forall p :: p in r.data ==>
            p in st.data || p in Incoming(trade) || p == Point(WindowStart(nowMs), trade.value.n))
      && r.data == Merge(st.data, Incoming(trade), trade.value.n, nowMs)
      && ((forall p :: p in st.data + Incoming(trade) ==> !InWindow(nowMs, p)) ==>
            r.data == [Point(WindowStart(nowMs), trade.value.n)])
  {
    if !IsNumber(trade.time) || !IsNumber(trade.value) then st
    else
      var incoming := Incoming(trade);
      var data := Merge(st.data, incoming, trade.value.n, nowMs);
      assert forall p :: p in st.data ==> p in st.data + incoming;
      assert forall p :: p in incoming ==> p in st.data + incoming;
      BaselineIsTrailingMean(data);
      State(data, Baseline(data))
  }

  /** A trade whose window is not empty keeps every point of the window as
      often as it was there, the trade's point included, and no other. */
  lemma OnTradeCounts(st: State, trade: Trade, nowMs: int)
    requires IsNumber(trade.time) && IsNumber(trade.value)
    requires exists p :: p in st.data + Incoming(trade) && InWindow(nowMs, p)
    ensures forall p :: multiset(OnTrade(st, trade, nowMs).data)[p] ==
                        if InWindow(nowMs, p) then multiset(st.data + Incoming(trade))[p] else 0
  {
    MergeCounts(st.data, Incoming(trade), trade.value.n, nowMs);
  }
}
