# Price-series bookkeeping of the trading chart components

This project models, in Dafny, the data handling of five React chart components of a
cryptocurrency trading front end. Each component keeps a series of price samples or
candles. It seeds the series from one historical fetch, then folds in live messages from
a socket. The model covers what each component does to its series. It leaves out how
the series is drawn.

- `Js` (`js.dfy`) gives the JavaScript values the components handle:
  - numbers that may be NaN (`Num`);
  - message fields that may not be numbers at all (`Field`);
  - `+`, `-`, `/`, `Math.max`, `Math.min` and `<=` with JavaScript's NaN rules.
- `Series` (`series.dfy`) holds the operations the components share:
  - samples (`Point`) and candles (`Candle`);
  - the stable `Array.prototype.sort` by time, as a stable insertion sort;
  - `filter` and `slice(-n)`;
  - `findIndex` by time;
  - the overwrite-or-append step used by the live batch and by `Map.prototype.set`;
  - the millisecond key of a trade time.
- `BBaseLineChart` covers the 30-second line with its 5-point trailing mean.
- `CandlestickChart` covers the 1-second candles over 500 seconds, with a 2000-candle history.
- `LineChart` covers the millisecond line over five minutes, fed in 100 ms batches.
- `OptionsChart` covers a curve over price: the `time` field holds a price, and the value is a simulated premium. Live prices are throttled to one every 300 ms.
- `BCandlestickChart` covers whole-second candles that the server pushes complete, kept over a 30-second window.

Every handler is a pure function from the previous series and the message to the next
series. The clock reading `Date.now()` is a parameter `nowMs`. A fetch result is a
parameter too. The `setTimeout` and `setInterval` scheduling becomes the order in which
the caller applies the functions.

Facts about the code that a reader might not expect:

- `BBaseLineChart` and `BCandlestickChart` append, then sort, and deduplicate nothing. In `BBaseLineChart` two trades in the same millisecond give two points. In `BCandlestickChart` two messages in the same second give two candles.
- Only `CandlestickChart` (`findIndex`), `LineChart` (`findIndex` in the batch) and `OptionsChart` (a `Map` by price) fold by key.
- No component interpolates the historical batch. `BBaseLineChart` and `BCandlestickChart` seed from the fetched batch, filtered. `LineChart` and `CandlestickChart` filter it and keep its last 300000 and 2000 entries. `OptionsChart` maps the fetched closes to points, deduplicates them by price, sorts them by price and keeps the last 200.

## Model

| member | source | states |
|---|---|---|
| Series.MsKey | src/components/LineChart.jsx:222-224 | a trade time is keyed to the whole millisecond at or below it: the key is at most the time, less than 1 ms below it, and a whole number of milliseconds |
| Series.SortBy | src/components/BBaseLineChart.jsx:251 | the sort by time returns a permutation of its input (same multiset) ordered by time |
| Series.SortByAppend | src/components/OptionsChart.jsx:246 | sorting the previous points with a new point appended gives the sorted previous points, in their order, with the new point placed at some position `k`: every point before `k` has a time at most the new one's, every point from `k` on a larger time (the sort is stable) |
| Series.Filter | src/components/LineChart.jsx:266 | a filter keeps exactly the elements the predicate accepts, and is no longer than its input |
| Series.FilterCounts | src/components/BBaseLineChart.jsx:252 | a filter keeps each accepted element as often as it occurs, and drops every rejected one |
| Series.FilterLast | src/components/CandlestickChart.jsx:262-263 | the last element a filter keeps is the last input element it accepts |
| Series.SortKeep | src/components/BBaseLineChart.jsx:251-252 | sort-then-filter is ordered by time, keeps each accepted element as often as the input had it, and nothing else |
| Series.LastN | src/components/LineChart.jsx:267 | `slice(-n)` is the suffix of length `min(n, length)`, and the whole sequence when `n` is 0 |
| Series.SuffixOrder | src/components/LineChart.jsx:265-267 | a suffix keeps a sequence sorted, strictly increasing, and free of repeated times |
| Series.SortedDistinctIncreasing | src/components/OptionsChart.jsx:129 | sorting points with no repeated price gives strictly increasing prices |
| Series.FindBy | src/components/CandlestickChart.jsx:249 | `findIndex` gives no index exactly when no element has the time; otherwise it gives the first index at that time |
| Series.FilterAll | src/components/OptionsChart.jsx:253-255 | a filter that accepts every element returns the whole sequence |
| Series.FilterFirst | src/components/LineChart.jsx:266 | a filter that accepts every point at time `t` does not change which point comes first at `t` |
| Series.Upsert | src/components/LineChart.jsx:249-258 | after the step, the point found at the new point's time is the new point. Every other time finds what it found before. The length grows by one only when the time was absent. Points at other times stay in place |
| Series.UpsertIdempotent | src/components/LineChart.jsx:249-258 | applying the same point twice has the effect of applying it once |
| Series.UpsertDistinct | src/components/LineChart.jsx:249-258 | the step keeps a series free of repeated times |
| Series.UpsertAll | src/components/LineChart.jsx:248-259 | applying a list of updates adds at most one point per update, and every resulting point was there before or is one of the updates |
| Series.UpsertAllConcat | src/components/LineChart.jsx:248-259 | applying `a + b` is applying `a` and then `b` |
| Series.UpsertAllRepeat | src/components/LineChart.jsx:248-259 | an update repeated twice in a row counts once |
| Series.UpsertAllLastWriteWins | src/components/OptionsChart.jsx:249-250 | after all updates, the point at time `t` is the last update written at `t`, or the original point when nothing was written there |
| Series.UpsertAllDistinct | src/components/LineChart.jsx:248-259 | applying updates keeps a series free of repeated times |
| Series.UpsertAllIncreasing | src/components/OptionsChart.jsx:246-251 | applying a time-sorted list to an empty map gives strictly increasing times |
| Series.FirstIsOnly | src/components/OptionsChart.jsx:249-251 | in a series without repeated times, the point found at a time is the only point there |
| BBaseLineChart.BaselineIsTrailingMean | src/components/BBaseLineChart.jsx:95-108 | fewer than five points give an empty baseline. Otherwise entry `j` carries the time of point `j + 4` and the mean of values `j..j+4`, or NaN when one of them is NaN |
| BBaseLineChart.BaselineExtends | src/components/BBaseLineChart.jsx:102-108 | when a point is appended, the baseline keeps its entries and gains one: the mean of the five newest values |
| BBaseLineChart.Seed | src/components/BBaseLineChart.jsx:150-159 | the seed is never empty and all its values are numbers. With no usable sample it is the single 96741 point at the window start. Otherwise it holds exactly the usable samples: point `k` is the `k`-th usable sample, in fetch order |
| BBaseLineChart.Init | src/components/BBaseLineChart.jsx:150-163 | the initial series is the seed of the fetched samples, and the baseline holds, for every point from the fifth on, that point's time and the mean of the five values ending there |
| BBaseLineChart.Merge | src/components/BBaseLineChart.jsx:248-257 | the merge is ordered by time, never empty, and within the last 30 seconds. With nothing in the window it is the single point at the window start at the trade's price. Otherwise it holds exactly the window's points |
| BBaseLineChart.MergeCounts | src/components/BBaseLineChart.jsx:251-252 | without the fallback, every point in the window is kept as often as it occurred, and no other point |
| BBaseLineChart.OnTrade | src/components/BBaseLineChart.jsx:232-259 | a trade whose time or value is not a number changes nothing. Otherwise the series stays sorted, non-empty and within the window. It keeps every earlier point still in the window and gains the trade's point when that lies in the window. Every point came from the old series, the trade, or the fallback. The series is exactly `Merge` of the old points and the trade's point, so the fallback appears only when nothing lies in the window. The baseline is the five-value trailing mean of the new data, entry by entry |
| BBaseLineChart.OnTradeCounts | src/components/BBaseLineChart.jsx:248-257 | when something lies in the window, the new series holds every point of the window, the trade's included, exactly as often as it occurred, and nothing else: duplicates are kept and no fallback is added |
| CandlestickChart.MaxTime | src/components/CandlestickChart.jsx:155-156 | `Math.max` of the fetched times is NaN exactly when one time is not a number or is NaN; otherwise it bounds every time and is one of them |
| CandlestickChart.HistoryWindow | src/components/CandlestickChart.jsx:164-172 | the window holds exactly the fetched candles within 2000 seconds of the latest fetched time, and all their times are numbers |
| CandlestickChart.LoadHistory | src/components/CandlestickChart.jsx:145-196 | an empty fetch changes nothing. Otherwise 1 to 2000 candles are shown. When a fetched time is not a number or is NaN, the result is one flat candle at the current second at the last close. Otherwise every shown candle is a fetched candle from the window |
| CandlestickChart.HistoryFallback | src/components/CandlestickChart.jsx:156-178 | the window is empty, so the fallback is used, exactly when some fetched time is not a number or is NaN |
| CandlestickChart.LoadHistoryIsWindowTail | src/components/CandlestickChart.jsx:164-173 | without the fallback, `min(2000, n)` candles are shown for a window of `n`, and shown candle `k` is window candle `n - min(2000, n) + k`, converted: the last 2000 of the window in fetch order |
| CandlestickChart.LoadHistoryKeepsWindow | src/components/CandlestickChart.jsx:164-173 | while the window holds at most 2000 candles, every candle in it is shown |
| CandlestickChart.LoadHistoryEndsWithLast | src/components/CandlestickChart.jsx:164-195 | the last candle shown is the last window candle in fetch order |
| CandlestickChart.IntervalKey | src/components/CandlestickChart.jsx:243 | the key is the whole second containing the tick time |
| CandlestickChart.Absorb | src/components/CandlestickChart.jsx:268-271 | folding a price keeps time and open and sets close to the price. A numeric high becomes the larger of the old high and the price, a numeric low the smaller of the old low and the price, and a NaN high or low stays NaN. A well-formed candle stays well formed |
| CandlestickChart.OnChartUpdate | src/components/CandlestickChart.jsx:225-276 | a tick whose time or price is not a number, or is NaN, changes nothing. A tick in a second that already has a candle folds into it, and every other candle is unchanged. Otherwise the new flat candle is appended, and the result is the newest `min(500, n)` of the `n` recent candles, in order. So the new candle is last when it is recent. Every recent old candle stays while at most 500 candles are recent, and a recent old candle is dropped only when 500 candles are kept. Well-formedness is preserved |
| CandlestickChart.AddCandle | src/components/CandlestickChart.jsx:252-264 | appending then trimming gives the newest `min(500, n)` of the `n` recent candles of the old series plus the new one, in order. All are recent and from the old series or the new candle. The new candle is last when it is recent. Every recent old candle is kept while at most 500 candles are recent, and a recent old candle is dropped only when 500 candles are kept |
| CandlestickChart.OnChartUpdateDistinct | src/components/CandlestickChart.jsx:249-264 | a `chartUpdate` never gives two candles the same second |
| CandlestickChart.BuildSummarises | src/components/CandlestickChart.jsx:243-271 | the candle built from one second's prices opens at the first and closes at the last. Its high and low are the largest and smallest of those prices, and both occur among them |
| CandlestickChart.BuildExample | src/components/CandlestickChart.jsx:266-271 | prices 5, 2, 8, 3 within one second give the candle open 5, high 8, low 2, close 3 |
| LineChart.LoadWindow | src/components/LineChart.jsx:166-167 | the window holds exactly the fetched samples in the five minutes up to the current second; their times are numbers |
| LineChart.LoadHistory | src/components/LineChart.jsx:137-191 | the result has 1 to 300000 points. An empty fetch gives the 94773.84 point at the current second. A fetch with nothing in the window gives the last fetched value at the current second. Otherwise every point is a fetched sample from the window |
| LineChart.LoadHistoryIsWindowTail | src/components/LineChart.jsx:166-168 | when the window holds `n` samples, `min(300000, n)` points are shown, and shown point `k` is window sample `n - min(300000, n) + k`, converted: the last 300000 of the window in fetch order |
| LineChart.LoadHistoryKeepsWindow | src/components/LineChart.jsx:166-168 | while the window holds at most 300000 samples, every one is shown |
| LineChart.Writes | src/components/LineChart.jsx:248-258 | the points a batch writes are exactly the buffered updates with a numeric time |
| LineChart.Receive | src/components/LineChart.jsx:209-228 | a message whose time or value is not a number changes nothing. Otherwise the series is unchanged and the buffer grows by exactly one update at its end, carrying the trade's value, with a numeric time exactly when the trade's time is not NaN; the points written gain the trade keyed to the millisecond |
| LineChart.Flush | src/components/LineChart.jsx:239-271 | an empty buffer changes nothing. Otherwise the buffer is emptied. The series becomes the newest `min(300000, n)` of the `n` recent points after the buffer is applied, in order. All are recent, and each was in the series or written by the buffer |
| LineChart.FlushLastWriteWins | src/components/LineChart.jsx:248-267 | for a non-empty buffer whose applied series holds at most 300000 recent points before the slice, the point after the batch at a recent time is the last buffered write there, or the previous point when nothing was written. Above the cap, that point may be sliced away |
| LineChart.FlushDistinct | src/components/LineChart.jsx:248-267 | a batch keeps the series free of repeated times |
| LineChart.FlushRepeat | src/components/LineChart.jsx:248-259 | an update buffered twice in a row has the effect of buffering it once |
| LineChart.ReceiveThenFlush | src/components/LineChart.jsx:209-267 | a trade received into an empty buffer and then batched while recent is the point shown at its millisecond |
| OptionsChart.HistoryPoints | src/components/OptionsChart.jsx:117-120 | the history points are exactly the numeric closes, each at price `close` with premium `0.02 * close` |
| OptionsChart.KeepFirst | src/components/OptionsChart.jsx:123-128 | set-if-absent keeps one point per price, drawn from its input, and covers every input price |
| OptionsChart.SortedHistory | src/components/OptionsChart.jsx:123-129 | the deduplicated history is strictly increasing in price, and holds the history point of every numeric close and nothing else |
| OptionsChart.Seed | src/components/OptionsChart.jsx:101-142 | the seed is strictly increasing and has 1 to 200 points, each a history point. With no numeric close it is the 96741 point. Otherwise every point is at a fetched close |
| OptionsChart.SeedKeepsHighest | src/components/OptionsChart.jsx:129-131 | a numeric close missing from the seed means 200 points were kept, all at higher prices |
| OptionsChart.MinTime | src/components/OptionsChart.jsx:244 | `Math.min` of the prices is a lower bound that one point attains |
| OptionsChart.MergeSorted | src/components/OptionsChart.jsx:246 | the appended-and-sorted points are a permutation of the old points plus the new one, ordered by price |
| OptionsChart.MergeSortedLast | src/components/OptionsChart.jsx:246-250 | after the stable sort, the new point is the last one at its price |
| OptionsChart.Deduped | src/components/OptionsChart.jsx:248-251 | deduplication is strictly increasing and drawn from the old points and the new one. The new point is the one at its price, and every old price is still present |
| OptionsChart.KeepHighest | src/components/OptionsChart.jsx:253-255 | the slice and filter keep at most 200 increasing points, all at or above the bound. The highest point survives when it is at or above the bound. A point at or above the bound is dropped only when 200 points are kept, all at higher prices |
| OptionsChart.KeepHighestRetains | src/components/OptionsChart.jsx:253-255 | a point at or above the bound that the slice and filter drop lies below all 200 kept points |
| OptionsChart.MergeWindow | src/components/OptionsChart.jsx:253-255 | the sliced and filtered series is increasing, has at most 200 points, all at or above the previous lowest price and drawn from the old points or the new one. An old price, or the new price when at or above the previous lowest, is missing only when 200 higher prices are kept |
| OptionsChart.Merge | src/components/OptionsChart.jsx:243-260 | the merged series is strictly increasing and has 1 to 200 points, all at or above the previous lowest price. Each is an old point, the new point, or the fallback. An old price, or the new price when at or above the previous lowest, is missing only when 200 higher prices are kept |
| OptionsChart.MergeNoFallback | src/components/OptionsChart.jsx:253-260 | with a non-empty previous series, the fallback is never taken |
| OptionsChart.MergeNewPointWins | src/components/OptionsChart.jsx:248-251 | the only point left at the new price is the new point (last write wins) |
| OptionsChart.MergeKeepsNew | src/components/OptionsChart.jsx:244-255 | the new point, when at or above the previous lowest price, is missing only when 200 higher prices are kept |
| OptionsChart.MergeNewHigh | src/components/OptionsChart.jsx:244-255 | a price above every previous one becomes the last point |
| OptionsChart.Init | src/components/OptionsChart.jsx:134-145 | the initial series is the seed of the fetched closes, strictly increasing with 1 to 200 points, and no update has been accepted yet |
| OptionsChart.Accept | src/components/OptionsChart.jsx:232-260 | an accepted price gives 1 to 200 strictly increasing points at or above the previous lowest price, each an old point or the new one; the new point is the only one at its price; an old price, or the new price when at or above the previous lowest, is missing only when 200 higher prices are kept |
| OptionsChart.OnTrade | src/components/OptionsChart.jsx:224-260 | a non-numeric price, or one within 300 ms of the last accepted one, changes nothing. An accepted price records the time. A NaN price leaves the series unchanged. A numeric price gives the series `Accept` describes |
| OptionsChart.ThrottleSpacing | src/components/OptionsChart.jsx:236-242 | once a price is accepted, every message in the next 300 ms is ignored |
| BCandlestickChart.MsToSeconds | src/components/BCandlestickChart.jsx:89 | the whole second of a millisecond time is NaN exactly when the time is not a number or is NaN; otherwise it is a whole number `k` with `1000k <= time < 1000k + 1000` |
| BCandlestickChart.MsToSecondsIsFloor | src/components/BCandlestickChart.jsx:178 | for every whole second `k` whose thousand milliseconds contain the time, the result is `k`: it is `Math.floor(time / 1000)` |
| BCandlestickChart.Seed | src/components/BCandlestickChart.jsx:97-112 | the seed is non-empty with numeric prices. With no candle whose five fields are numbers, it is the flat 96741 candle at the window start. Otherwise it holds exactly the usable candles: candle `k` is the `k`-th usable candle, in fetch order |
| BCandlestickChart.Merge | src/components/BCandlestickChart.jsx:186-203 | the merge is ordered by time, never empty, and within the last 30 whole seconds. With nothing in the window it is one flat candle at the window start at the message's close. Otherwise it holds exactly the window's candles |
| BCandlestickChart.MergeCounts | src/components/BCandlestickChart.jsx:186-193 | without the fallback, every candle in the window is kept as often as it occurred, and no other candle |
| BCandlestickChart.OnTrade | src/components/BCandlestickChart.jsx:170-203 | a message failing the check (time not a number, or a price that is zero, NaN or not a number) changes nothing. Otherwise the series is sorted, non-empty and within the window. It keeps every earlier candle in the window and gains the message's candle when that lies in the window. Every candle came from the old series, the message, or the fallback. The series is exactly `Merge` of the old candles and the message's candle, so the fallback appears only when nothing lies in the window |
| BCandlestickChart.OnTradeCounts | src/components/BCandlestickChart.jsx:186-203 | when something lies in the window, the new series holds every candle of the window, the message's included, exactly as often as it occurred, and nothing else: duplicates are kept and no fallback is added |

## Left out

- Drawing is not modelled: the chart library, `setData` and visible ranges, price lines, resizing and the React effect wiring.
- The socket connection is not modelled. Nor are the fetch requests, their time ranges and limits.
- A failed fetch is modelled only through its effect. In `LineChart` and `CandlestickChart` the fetch function catches the error and returns `[]`, so a failed fetch acts as an empty one: `LineChart.LoadHistory([], nowMs)` shows the 94773.84 point at the current second, and `CandlestickChart.LoadHistory(prev, [], nowMs)` leaves the candles as they were. In `BBaseLineChart`, `OptionsChart` and `BCandlestickChart` the initialisation catches the error and sets nothing, so the series stays as it was; no `Init` is applied.
- Logging is not modelled.
- The `lastCandleTime` and `lastPointTime` refs are not modelled: they are written but never read by the modelled logic.
- The current-price state is not modelled; it only feeds the display.
- In-place mutation is modelled as a pure update returning a new sequence. These are the `updatedCandles[i]` fields in `CandlestickChart` and `updatedData[i].value` in `LineChart`.
- Infinities are not modelled; a JavaScript number is a real or NaN. A `null` or a numeric string, which arithmetic coerces to a number, is treated like any other non-number.
- Floating-point rounding is not modelled. This covers the premiums `0.02 * price` and `0.03 * price` and the millisecond key `Math.floor(t * 1000) / 1000`, which use exact real arithmetic here.
- BBaseLineChart.OnTrade: a trade with a NaN time adds no point instead of entering the sort. Its `a.time - b.time` comparisons give NaN, which leaves the engine free to reorder, and the window filter drops that point anyway.
- BCandlestickChart.OnTrade: a message with a NaN time adds no candle instead of entering the sort, for the same reason.
- OptionsChart.OnTrade: requires a non-empty previous series. An empty one is reachable: the series starts as `[]` (OptionsChart.jsx:14), the socket handler does not wait for the fetch, and a failed fetch never sets data. On an empty series `Math.min()` is +Infinity (line 244), the filter drops every point, and the fallback at lines 257-259 stores one point at price +Infinity. Infinity is not a value of the model, so this case is not covered.
- OptionsChart.Accept: requires a non-empty previous series, for the reason given for `OptionsChart.OnTrade`: the source's empty-series case stores a point at price +Infinity, which the model cannot represent.
- OptionsChart.OnTrade: a NaN price uses up its throttle slot and leaves the series unchanged, rather than entering the sort and the `Map` under a NaN key.
- OptionsChart.Seed: unusable closes are removed before the deduplication, sort and `slice(-200)`. The code filters them after the slice, where they could take slots from numeric closes; their position in a sort with NaN comparisons is engine-defined.
- OptionsChart.Merge: the fallback at lines 257-260 is modelled, and `MergeNoFallback` proves it unreachable for a non-empty previous series.
