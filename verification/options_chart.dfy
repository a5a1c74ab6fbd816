/** The options chart: a curve over price rather than time. Each sample's
    `time` field holds a price and its `value` a simulated option premium
    proportional to that price; the series is kept strictly increasing in
    price, at most 200 points, and live prices are throttled to one every
    300 ms. */
module OptionsChart {
  import opened Js
  import opened Series

  /** `TICK_INTERVAL_MS`: the least gap between two live updates. */
  const TickIntervalMs: int := 300
  /** The `slice(-200)` bound on the number of points. */
  const MaxPoints: nat := 200
  /** The premium of a historical close, as a fraction of its price. */
  const HistoryPremium: real := 0.02
  /** The premium of a live price, as a fraction of that price. */
  const LivePremium: real := 0.03
  /** The price of the point shown when no historical close is usable. */
  const FallbackPrice: real := 96741.0

  /** `{ time: candle.close, value: candle.close * 0.02 }` */
  function HistoryPoint(price: real): Point {
    Point(price, Fin(price * HistoryPremium))
  }

  /** `{ time: price, value: price * 0.03 }` */
  function LivePoint(price: real): Point {
    Point(price, Fin(price * LivePremium))
  }

  // ---------------------------------------------------------------------
  // fetchHistoricalData and the initial series
  // ---------------------------------------------------------------------

  /** The usable closes, as points, in fetch order. */
  function HistoryPoints(closes: seq<Field>): (r: seq<Point>)
    ensures forall p :: p in r <==> exists i :: 0 <= i < |closes| && closes[i] == Number(Fin(p.time)) && p == HistoryPoint(p.time)
    decreases |closes|
  {
    if |closes| == 0 then []
    else
      var init := HistoryPoints(closes[..|closes| - 1]);
      var last := closes[|closes| - 1];
      assert forall i :: 0 <= i < |closes| - 1 ==> closes[..|closes| - 1][i] == closes[i];
      if IsFinite(last) then init + [HistoryPoint(last.n.x)] else init
  }

  /** `if (!uniquePrices.has(d.time)) uniquePrices.set(d.time, d)` over `s`,
      then `Array.from(uniquePrices.values())`: the first point at each
      price, in order of first appearance. */
  function KeepFirst(s: seq<Point>): (r: seq<Point>)
    ensures DistinctBy(r, PointTime)
    ensures forall p :: p in r ==> p in s
    ensures forall p :: p in s ==> First(r, p.time).Some?
    decreases |s|
  {
    if |s| == 0 then []
    else
      var init := KeepFirst(s[..|s| - 1]);
      var p := s[|s| - 1];
      assert s == s[..|s| - 1] + [p];
      if First(init, p.time).Some? then init
      else
        var r := init + [p];
        KeepFirstStep(init, p);
        r
  }

  lemma KeepFirstStep(init: seq<Point>, p: Point)
    requires DistinctBy(init, PointTime)
    requires First(init, p.time).None?
    ensures DistinctBy(init + [p], PointTime)
    ensures First(init + [p], p.time).Some?
    ensures forall q :: q in init ==> First(init + [p], q.time).Some?
  {
    FindByIs(init + [p], p.time, PointTime, |init|);
    forall q | q in init
      ensures First(init + [p], q.time).Some?
    {
      var k :| 0 <= k < |init| && init[k] == q;
      assert (init + [p])[k] == q;
    }
  }

  /** The distinct usable closes as points, sorted by price: the history
      before its `slice(-200)`. */
  function SortedHistory(closes: seq<Field>): (r: seq<Point>)
    ensures IncreasingBy(r, PointTime)
    ensures forall p :: p in r ==> p == HistoryPoint(p.time) && Number(Fin(p.time)) in closes
    ensures forall i :: 0 <= i < |closes| && IsFinite(closes[i]) ==> HistoryPoint(closes[i].n.x) in r
  {
    var points := HistoryPoints(closes);
    var unique := KeepFirst(points);
    var sorted := SortBy(unique, PointTime);
    SortedDistinctIncreasing(unique, sorted, PointTime);
    SortedHistoryMembers(closes, points, unique, sorted);
    sorted
  }

  lemma SortedHistoryMembers(closes: seq<Field>, points: seq<Point>, unique: seq<Point>, sorted: seq<Point>)
    requires points == HistoryPoints(closes) && unique == KeepFirst(points)
    requires multiset(sorted) == multiset(unique)
    ensures forall p :: p in sorted ==> p == HistoryPoint(p.time) && Number(Fin(p.time)) in closes
    ensures forall i :: 0 <= i < |closes| && IsFinite(closes[i]) ==> HistoryPoint(closes[i].n.x) in sorted
  {
    forall p | p in sorted
      ensures p == HistoryPoint(p.time) && Number(Fin(p.time)) in closes
    {
      assert p in multiset(unique);
      assert p in points;
    }
    forall i | 0 <= i < |closes| && IsFinite(closes[i])
      ensures HistoryPoint(closes[i].n.x) in sorted
    {
      var c := closes[i].n.x;
      assert HistoryPoint(c) in points;
      var q := First(unique, c).value;
      FindFirst(unique, c);
      assert q in points;
      assert q in multiset(sorted);
    }
  }

  /** The series the chart starts from, given the `close` field of every
      fetched candle: the distinct usable closes, sorted by price, the 200
      highest kept; or the fallback point when no close is usable. */
  function Seed(closes: seq<Field>): (r: seq<Point>)
    ensures IncreasingBy(r, PointTime)
    ensures 1 <= |r| <= MaxPoints
    ensures forall p :: p in r ==> p == HistoryPoint(p.time)
    ensures (forall i :: 0 <= i < |closes| ==> !IsFinite(closes[i])) ==> r == [HistoryPoint(FallbackPrice)]
    ensures (exists i :: 0 <= i < |closes| && IsFinite(closes[i])) ==>
      forall p :: p in r ==> Number(Fin(p.time)) in closes
  {
    var sorted := SortedHistory(closes);
    if |sorted| == 0 then [HistoryPoint(FallbackPrice)]
    else
      var r := LastN(sorted, MaxPoints);
      SuffixOrder(sorted, |sorted| - |r|, PointTime);
      assert sorted[0] in sorted;
      r
  }

  /** Only the highest prices are kept: a usable close missing from the seed
      means 200 points were kept, every one at a higher price. */
  lemma SeedKeepsHighest(closes: seq<Field>, i: nat)
    requires i < |closes| && IsFinite(closes[i])
    ensures HistoryPoint(closes[i].n.x) !in Seed(closes) ==>
      |Seed(closes)| == MaxPoints && forall p :: p in Seed(closes) ==> closes[i].n.x < p.time
  {
    var c := closes[i].n.x;
    var sorted := SortedHistory(closes);
    var r := Seed(closes);
    var j :| 0 <= j < |sorted| && sorted[j] == HistoryPoint(c);
    assert r == LastN(sorted, MaxPoints);
    var k := |sorted| - |r|;
    if HistoryPoint(c) !in r {
      assert j < k;
      SuffixAbove(sorted, k, j, PointTime);
    }
  }

  /** The point `First` reports is in the sequence and at the time asked. */
  lemma FindFirst(s: seq<Point>, t: real)
    requires First(s, t).Some?
    ensures First(s, t).value in s && First(s, t).value.time == t
  {
  }

  // ---------------------------------------------------------------------
  // tradeUpdate
  // ---------------------------------------------------------------------

  /** `Math.min(...prevData.map(d => d.time))` */
  function MinTime(s: seq<Point>): (m: real)
    requires |s| > 0
    ensures exists i :: 0 <= i < |s| && s[i].time == m
    ensures forall i :: 0 <= i < |s| ==> m <= s[i].time
    decreases |s|
  {
    if |s| == 1 then s[0].time
    else
      var m := MinTime(s[1..]);
      assert forall i :: 1 <= i < |s| ==> s[1..][i - 1] == s[i];
      if s[0].time <= m then s[0].time else m
  }

  /** The state update of an accepted live price `np`: the previous points
      and `np` sorted by price, one point per price with the last one written
      winning (`Map.prototype.set`), the 200 highest prices kept, and only
      those at or above the previous lowest price; or the single point at
      that lowest price with `np`'s premium when nothing is left. */
  function Merge(prev: seq<Point>, np: Point): (r: seq<Point>)
    requires |prev| > 0
    ensures IncreasingBy(r, PointTime)
    ensures 1 <= |r| <= MaxPoints
    ensures forall p :: p in r ==> MinTime(prev) <= p.time
    ensures forall p :: p in r ==> p in prev || p == np || p == Point(MinTime(prev), np.value)
    ensures forall i :: 0 <= i < |prev| && First(r, prev[i].time).None? ==>
      |r| == MaxPoints && forall q :: q in r ==> prev[i].time < q.time
    ensures MinTime(prev) <= np.time && First(r, np.time).None? ==>
      |r| == MaxPoints && forall q :: q in r ==> np.time < q.time
  {
    var pws := MinTime(prev);
    var limited := MergeWindow(prev, np);
    DedupedReachesMin(prev, np);
    if |limited| == 0 then [Point(pws, np.value)] else limited
  }

  /** `[...prevData, newPoint].sort(byPrice)` */
  function MergeSorted(prev: seq<Point>, np: Point): (r: seq<Point>)
    ensures SortedBy(r, PointTime)
    ensures multiset(r) == multiset(prev + [np])
  {
    SortBy(prev + [np], PointTime)
  }

  /** `Array.from(uniquePrices.values())` after `uniquePrices.set(d.time, d)`
      over the sorted points: one point per price, strictly increasing. */
  function Deduped(prev: seq<Point>, np: Point): (r: seq<Point>)
    ensures IncreasingBy(r, PointTime)
    ensures forall p :: p in r ==> p in prev || p == np
    ensures First(r, np.time) == Some(np)
    ensures forall i :: 0 <= i < |prev| ==> First(r, prev[i].time).Some?
  {
    var sorted := MergeSorted(prev, np);
    UpsertAllIncreasing([], sorted);
    DedupedFacts(prev, np, sorted);
    UpsertAll([], sorted)
  }

  lemma DedupedFacts(prev: seq<Point>, np: Point, sorted: seq<Point>)
    requires sorted == MergeSorted(prev, np)
    ensures forall p :: p in UpsertAll([], sorted) ==> p in prev || p == np
    ensures First(UpsertAll([], sorted), np.time) == Some(np)
    ensures forall i :: 0 <= i < |prev| ==> First(UpsertAll([], sorted), prev[i].time).Some?
  {
    forall p | p in UpsertAll([], sorted)
      ensures p in prev || p == np
    {
      assert p in multiset(prev + [np]);
    }
    MergeSortedLast(prev, np);
    UpsertAllLastWriteWins([], sorted, np.time);
    forall i | 0 <= i < |prev|
      ensures First(UpsertAll([], sorted), prev[i].time).Some?
    {
      assert prev[i] in multiset(sorted);
      assert LastWith(sorted, prev[i].time).Some?;
      UpsertAllLastWriteWins([], sorted, prev[i].time);
    }
  }

  /** The deduplicated, sliced and filtered series before the fallback. */
  function MergeWindow(prev: seq<Point>, np: Point): (r: seq<Point>)
    requires |prev| > 0
    ensures IncreasingBy(r, PointTime)
    ensures |r| <= MaxPoints
    ensures forall p :: p in r ==> MinTime(prev) <= p.time && (p in prev || p == np)
    ensures var unique := Deduped(prev, np);
      |unique| > 0 && MinTime(prev) <= unique[|unique| - 1].time ==>
        |r| > 0 && r[|r| - 1] == unique[|unique| - 1]
    ensures forall i :: 0 <= i < |prev| && First(r, prev[i].time).None? ==>
      |r| == MaxPoints && forall q :: q in r ==> prev[i].time < q.time
    ensures MinTime(prev) <= np.time && First(r, np.time).None? ==>
      |r| == MaxPoints && forall q :: q in r ==> np.time < q.time
  {
    var unique := Deduped(prev, np);
    var pws := MinTime(prev);
    var r := KeepHighest(unique, pws);
    KeepHighestRetainsPrices(unique, pws, r, prev, np);
    r
  }

  /** A price of the previous series, or the new price when it is at or
      above `pws`, can only be missing after the slice and filter when 200
      higher prices fill it. */
  lemma KeepHighestRetainsPrices(unique: seq<Point>, pws: real, r: seq<Point>, prev: seq<Point>, np: Point)
    requires IncreasingBy(unique, PointTime)
    requires r == KeepHighest(unique, pws)
    requires forall i :: 0 <= i < |prev| ==> First(unique, prev[i].time).Some? && pws <= prev[i].time
    requires First(unique, np.time).Some?
    ensures forall i :: 0 <= i < |prev| && First(r, prev[i].time).None? ==>
      |r| == MaxPoints && forall q :: q in r ==> prev[i].time < q.time
    ensures pws <= np.time && First(r, np.time).None? ==>
      |r| == MaxPoints && forall q :: q in r ==> np.time < q.time
  {
    forall i | 0 <= i < |prev| && First(r, prev[i].time).None?
      ensures |r| == MaxPoints && forall q :: q in r ==> prev[i].time < q.time
    {
      PriceDropped(unique, pws, r, prev[i].time);
    }
    if pws <= np.time && First(r, np.time).None? {
      PriceDropped(unique, pws, r, np.time);
    }
  }

  /** A price present after deduplication and at or above `pws`, but absent
      after the slice and filter, lies below all 200 kept points. */
  lemma PriceDropped(unique: seq<Point>, pws: real, r: seq<Point>, t: real)
    requires IncreasingBy(unique, PointTime)
    requires r == KeepHighest(unique, pws)
    requires First(unique, t).Some? && pws <= t && First(r, t).None?
    ensures |r| == MaxPoints && forall q :: q in r ==> t < q.time
  {
    var u := First(unique, t).value;
    FindFirst(unique, t);
  }

  /** `unique.slice(-MAX_POINTS).filter(d => d.time >= priceWindowStart)`:
      of the 200 highest prices, those at or above `pws`. */
  function KeepHighest(unique: seq<Point>, pws: real): (r: seq<Point>)
    requires IncreasingBy(unique, PointTime)
    ensures IncreasingBy(r, PointTime)
    ensures |r| <= MaxPoints
    ensures forall p :: p in r ==> p in unique && pws <= p.time
    ensures |unique| > 0 && pws <= unique[|unique| - 1].time ==>
      |r| > 0 && r[|r| - 1] == unique[|unique| - 1]
    ensures forall p :: p in unique && pws <= p.time && p !in r ==>
      |r| == MaxPoints && forall q :: q in r ==> p.time < q.time
  {
    var last := LastN(unique, MaxPoints);
    var r := Filter(last, AtOrAbove(pws));
    KeepHighestFacts(unique, pws, last, r);
    KeepHighestRetains(unique, pws, last, r);
    r
  }

  lemma KeepHighestFacts(unique: seq<Point>, pws: real, last: seq<Point>, r: seq<Point>)
    requires IncreasingBy(unique, PointTime)
    requires last == LastN(unique, MaxPoints) && r == Filter(last, AtOrAbove(pws))
    ensures IncreasingBy(r, PointTime)
    ensures forall p :: p in r ==> p in unique && pws <= p.time
    ensures |unique| > 0 && pws <= unique[|unique| - 1].time ==>
      |r| > 0 && r[|r| - 1] == unique[|unique| - 1]
  {
    assert IncreasingBy(r, PointTime) by {
      SuffixOrder(unique, |unique| - |last|, PointTime);
      FilterIncreasing(last, AtOrAbove(pws), PointTime);
    }
    assert forall p :: p in r ==> p in unique && pws <= p.time by {
      assert forall p :: p in last ==> p in unique;
    }
    LastNKeepsLast(unique, MaxPoints);
    FilterKeepsLast(last, AtOrAbove(pws));
  }

  /** Every point at or above `pws` that is dropped lies below all 200 kept
      ones. */
  lemma KeepHighestRetains(unique: seq<Point>, pws: real, last: seq<Point>, r: seq<Point>)
    requires IncreasingBy(unique, PointTime)
    requires last == LastN(unique, MaxPoints) && r == Filter(last, AtOrAbove(pws))
    ensures forall p :: p in unique && pws <= p.time && p !in r ==>
      |r| == MaxPoints && forall q :: q in r ==> p.time < q.time
  {
    forall p | p in unique && pws <= p.time && p !in r
      ensures |r| == MaxPoints && forall q :: q in r ==> p.time < q.time
    {
      SlicedBelow(unique, pws, last, r, p);
    }
  }

  /** A point at or above `pws` that the slice and filter drop lies below
      the 200 points of the slice, all of which pass the filter. */
  lemma SlicedBelow(unique: seq<Point>, pws: real, last: seq<Point>, r: seq<Point>, p: Point)
    requires IncreasingBy(unique, PointTime)
    requires last == LastN(unique, MaxPoints) && r == Filter(last, AtOrAbove(pws))
    requires p in unique && pws <= p.time && p !in r
    ensures |r| == MaxPoints && forall q :: q in r ==> p.time < q.time
  {
    var j :| 0 <= j < |unique| && unique[j] == p;
    var k := |unique| - |last|;
    assert p !in last;
    assert j < k;
    SuffixAbove(unique, k, j, PointTime);
    FilterAll(last, AtOrAbove(pws));
  }

  /** `d => d.time >= priceWindowStart` */
  function AtOrAbove(m: real): Point -> bool {
    (p: Point) => m <= p.time
  }

  /** After the stable sort `np` comes after every previous point at its
      price, so it is the last one written there. */
  lemma MergeSortedLast(prev: seq<Point>, np: Point)
    ensures LastWith(MergeSorted(prev, np), np.time) == Some(np)
  {
    var sorted := SortBy(prev, PointTime);
    SortByAppend(prev, np, PointTime);
    var k :| PlacedAt(MergeSorted(prev, np), sorted, np, PointTime, k);
    InsertLastAtTime(sorted, k, np);
  }

  lemma InsertLastAtTime(s: seq<Point>, k: nat, np: Point)
    requires k <= |s|
    requires forall i :: k <= i < |s| ==> np.time < s[i].time
    ensures LastWith(s[..k] + [np] + s[k..], np.time) == Some(np)
  {
    var before, after := s[..k], s[k..];
    NoneAtTime(s, k, np);
    LastWithConcat(before + [np], after, np.time);
    LastWithConcat(before, [np], np.time);
  }

  lemma NoneAtTime(s: seq<Point>, k: nat, np: Point)
    requires k <= |s|
    requires forall i :: k <= i < |s| ==> np.time < s[i].time
    ensures LastWith(s[k..], np.time).None?
  {
    var after := s[k..];
    forall i | 0 <= i < |after|
      ensures after[i].time != np.time
    {
      assert after[i] == s[k + i];
    }
  }

  /** The fallback is never used: the highest price always survives the
      slice and lies at or above the previous lowest price. */
  lemma MergeNoFallback(prev: seq<Point>, np: Point)
    requires |prev| > 0
    ensures |MergeWindow(prev, np)| > 0
    ensures Merge(prev, np) == MergeWindow(prev, np)
  {
    DedupedReachesMin(prev, np);
  }

  /** The highest price left after deduplication is at or above the previous
      lowest price, which is itself still there. */
  lemma DedupedReachesMin(prev: seq<Point>, np: Point)
    requires |prev| > 0
    ensures |Deduped(prev, np)| > 0
    ensures MinTime(prev) <= Deduped(prev, np)[|Deduped(prev, np)| - 1].time
  {
    var pws := MinTime(prev);
    var unique := Deduped(prev, np);
    var i :| 0 <= i < |prev| && prev[i].time == pws;
    FindFirst(unique, pws);
    var m :| 0 <= m < |unique| && unique[m] == First(unique, pws).value;
    assert unique[m].time <= unique[|unique| - 1].time;
  }

  /** Last write wins: the only point left at the new price is the new one. */
  lemma MergeNewPointWins(prev: seq<Point>, np: Point)
    requires |prev| > 0
    ensures forall q :: q in Merge(prev, np) && q.time == np.time ==> q == np
  {
    MergeNoFallback(prev, np);
    var unique := Deduped(prev, np);
    FirstIsOnly(unique, np);
    var last := LastN(unique, MaxPoints);
    assert forall q :: q in Merge(prev, np) ==> q in last;
    assert forall q :: q in last ==> q in unique;
  }

  /** The new point, when it is at or above the previous lowest price, can
      only be missing when 200 higher prices fill the series. */
  lemma MergeKeepsNew(prev: seq<Point>, np: Point)
    requires |prev| > 0
    ensures MinTime(prev) <= np.time && np !in Merge(prev, np) ==>
      |Merge(prev, np)| == MaxPoints && forall q :: q in Merge(prev, np) ==> np.time < q.time
  {
    var r := Merge(prev, np);
    MergeNewPointWins(prev, np);
    if np !in r && First(r, np.time).Some? {
      FindFirst(r, np.time);
    }
  }

  /** A price above every previous one becomes the last point. */
  lemma MergeNewHigh(prev: seq<Point>, np: Point)
    requires |prev| > 0
    requires forall p :: p in prev ==> p.time < np.time
    ensures Merge(prev, np)[|Merge(prev, np)| - 1] == np
  {
    MergeNoFallback(prev, np);
    DedupedEndsWithNew(prev, np);
    assert prev[0] in prev;
  }

  /** A price above every previous one is the last point after
      deduplication. */
  lemma DedupedEndsWithNew(prev: seq<Point>, np: Point)
    requires forall p :: p in prev ==> p.time < np.time
    ensures |Deduped(prev, np)| > 0 && Deduped(prev, np)[|Deduped(prev, np)| - 1] == np
  {
    var unique := Deduped(prev, np);
    FindFirst(unique, np.time);
    assert np in unique;
    var m :| 0 <= m < |unique| && unique[m] == np;
    assert forall p :: p in unique ==> p.time <= np.time;
    LatestIsLast(unique, m);
  }

  /** In a strictly increasing series, a point no earlier than every point
      is the last one. */
  lemma LatestIsLast(s: seq<Point>, m: nat)
    requires IncreasingBy(s, PointTime) && m < |s|
    requires forall p :: p in s ==> p.time <= s[m].time
    ensures m == |s| - 1
  {
    assert s[|s| - 1] in s;
  }

  /** The chart's series and the time of the last accepted update. */
  datatype State = State(data: seq<Point>, lastUpdateMs: int)

  /** The state once the historical closes are loaded; no live update has
      been accepted yet. */
  function Init(closes: seq<Field>): (st: State)
    ensures st.data == Seed(closes)
    ensures 1 <= |st.data| <= MaxPoints && IncreasingBy(st.data, PointTime)
    ensures st.lastUpdateMs == 0
  {
    State(Seed(closes), 0)
  }

  /** A live `tradeUpdate` message; only its `value` field, the price, is
      read. */
  datatype Trade = Trade(value: Field)

  /** The series after an accepted live price `price`: strictly increasing,
      1 to 200 points at or above the previous lowest price, each an old
      point or the new one; the new point is the only one at its price; and
      an old price, or the new one when it is at or above the previous lowest
      price, is missing only when 200 higher prices fill the series. */
  function Accept(prev: seq<Point>, price: real): (r: seq<Point>)
    requires |prev| > 0
    ensures 1 <= |r| <= MaxPoints
    ensures IncreasingBy(r, PointTime)
    ensures forall p :: p in r ==> MinTime(prev) <= p.time && (p in prev || p == LivePoint(price))
    ensures forall q :: q in r && q.time == price ==> q == LivePoint(price)
    ensures forall i :: 0 <= i < |prev| && First(r, prev[i].time).None? ==>
      |r| == MaxPoints && forall q :: q in r ==> prev[i].time < q.time
    ensures MinTime(prev) <= price && LivePoint(price) !in r ==>
      |r| == MaxPoints && forall q :: q in r ==> price < q.time
  {
    var np := LivePoint(price);
    MergeNoFallback(prev, np);
    MergeKeepsNew(prev, np);
    MergeNewPointWins(prev, np);
    Merge(prev, np)
  }

  /** The `tradeUpdate` handler at clock reading `nowMs`: a message whose
      price is not a number is ignored, as is any message within 300 ms of
      the last accepted one; an accepted price whose value is NaN uses up its
      slot and leaves the series as it was; any other accepted price is
      merged by `Accept`. */
  function OnTrade(st: State, trade: Trade, nowMs: int): (r: State)
    requires |st.data| > 0
    ensures |r.data| > 0
    ensures !IsNumber(trade.value) || nowMs - st.lastUpdateMs < TickIntervalMs ==> r == st
    ensures IsNumber(trade.value) && nowMs - st.lastUpdateMs >= TickIntervalMs ==>
      && r.lastUpdateMs == nowMs
      && (trade.value.n.NaN? ==> r.data == st.data)
      && (trade.value.n.Fin? ==> r.data == Accept(st.data, trade.value.n.x))
  {
    if !IsNumber(trade.value) || nowMs - st.lastUpdateMs < TickIntervalMs then st
    else if trade.value.n.NaN? then State(st.data, nowMs)
    else State(Accept(st.data, trade.value.n.x), nowMs)
  }

  /** Throttling: once a price is accepted, every message in the next
      300 ms is ignored. */
  lemma ThrottleSpacing(st: State, a: Trade, b: Trade, n1: int, n2: int)
    requires |st.data| > 0
    requires IsNumber(a.value) && n1 - st.lastUpdateMs >= TickIntervalMs
    requires n1 <= n2 < n1 + TickIntervalMs
    ensures |OnTrade(st, a, n1).data| > 0
    ensures OnTrade(OnTrade(st, a, n1), b, n2) == OnTrade(st, a, n1)
  {
  }
}
