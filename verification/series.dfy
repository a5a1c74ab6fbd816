/** The records the chart components keep in state and the sequence
    operations they share: JavaScript's stable `sort` by time, `filter`,
    `slice(-n)`, `findIndex` by time, and the keyed overwrite-or-append
    step that both `findIndex`-then-assign and `Map.prototype.set` perform. */
module Series {
  import opened Js

  datatype Option<T> = None | Some(value: T)

  /** A line-series sample `{ time, value }`; `time` is in seconds. */
  datatype Point = Point(time: real, value: Num)

  /** A candle `{ time, open, high, low, close }`; `time` is in seconds. */
  datatype Candle = Candle(time: real, open: Num, high: Num, low: Num, close: Num)

  /** A historical sample as the fetch hands it over, fields unchecked. */
  datatype RawPoint = RawPoint(time: Field, value: Field)

  /** A historical candle or a live candle message, fields unchecked. */
  datatype RawCandle = RawCandle(time: Field, open: Field, high: Field, low: Field, close: Field)

  /** A candle whose four prices are all `v`. */
  function Flat(t: real, v: Num): Candle {
    Candle(t, v, v, v, v)
  }

  function PointTime(p: Point): real {
    p.time
  }

  function CandleTime(c: Candle): real {
    c.time
  }

  /** `Date.now() / 1000` for a clock reading of `nowMs` milliseconds. */
  function Seconds(nowMs: int): real {
    nowMs as real / 1000.0
  }

  /** `Math.floor(Date.now() / 1000)` */
  function WholeSeconds(nowMs: int): int {
    Seconds(nowMs).Floor
  }

  /** `Math.floor(t * 1000 / TICK_INTERVAL_MS) * TICK_INTERVAL_MS / 1000`
      with a 1 ms interval: the trade time cut down to a whole millisecond,
      in seconds. */
  function MsKey(t: real): (k: real)
    ensures k <= t < k + 0.001
    ensures (k * 1000.0).Floor as real == k * 1000.0
  {
    (t * 1000.0).Floor as real / 1000.0
  }

  /** Nondecreasing by `key`. */
  ghost predicate SortedBy<T>(s: seq<T>, key: T -> real) {
    forall i, j :: 0 <= i < j < |s| ==> key(s[i]) <= key(s[j])
  }

  /** Strictly increasing by `key`. */
  ghost predicate IncreasingBy<T>(s: seq<T>, key: T -> real) {
    forall i, j :: 0 <= i < j < |s| ==> key(s[i]) < key(s[j])
  }

  /** No two elements share a `key`. */
  ghost predicate DistinctBy<T>(s: seq<T>, key: T -> real) {
    forall i, j :: 0 <= i < j < |s| ==> key(s[i]) != key(s[j])
  }

  // ---------------------------------------------------------------------
  // Stable sort: `arr.sort((a, b) => a.time - b.time)`
  // ---------------------------------------------------------------------

  /** Where a stable insertion puts `x` into the sorted `s`: after every
      element whose key is at most `x`'s, before every larger one. */
  function InsertAt<T>(s: seq<T>, x: T, key: T -> real): (k: nat)
    requires SortedBy(s, key)
    ensures k <= |s|
    ensures forall i :: 0 <= i < k ==> key(s[i]) <= key(x)
    ensures forall i :: k <= i < |s| ==> key(x) < key(s[i])
    decreases |s|
  {
    if |s| == 0 || key(s[|s| - 1]) <= key(x) then |s|
    else InsertAt(s[..|s| - 1], x, key)
  }

  function InsertBy<T>(s: seq<T>, x: T, key: T -> real): (r: seq<T>)
    requires SortedBy(s, key)
    ensures SortedBy(r, key)
    ensures multiset(r) == multiset(s) + multiset{x}
  {
    var k := InsertAt(s, x, key);
    assert s == s[..k] + s[k..];
    s[..k] + [x] + s[k..]
  }

  /** JavaScript's `Array.prototype.sort`, which is stable, with a comparator
      that orders by `key`: a stable insertion sort. */
  function SortBy<T>(s: seq<T>, key: T -> real): (r: seq<T>)
    ensures SortedBy(r, key)
    ensures multiset(r) == multiset(s)
    decreases |s|
  {
    if |s| == 0 then []
    else
      assert s == s[..|s| - 1] + [s[|s| - 1]];
      InsertBy(SortBy(s[..|s| - 1], key), s[|s| - 1], key)
  }

  /** `r` is `sorted` with `x` placed at position `k`, after every element
      whose key does not exceed `x`'s and before every larger one. */
  ghost predicate PlacedAt<T>(r: seq<T>, sorted: seq<T>, x: T, key: T -> real, k: int) {
    && 0 <= k <= |sorted|
    && r == sorted[..k] + [x] + sorted[k..]
    && (forall i :: 0 <= i < k ==> key(sorted[i]) <= key(x))
    && (forall i :: k <= i < |sorted| ==> key(x) < key(sorted[i]))
  }

  /** Sorting `s + [x]` leaves the sorted `s` in its order and places `x`
      after every element whose key does not exceed its own and before every
      larger one: the sort is stable. */
  lemma SortByAppend<T>(s: seq<T>, x: T, key: T -> real)
    ensures exists k :: PlacedAt(SortBy(s + [x], key), SortBy(s, key), x, key, k)
  {
    var sorted := SortBy(s, key);
    var k := InsertAt(sorted, x, key);
    assert SortBy(s + [x], key) == InsertBy(sorted, x, key) by {
      assert (s + [x])[..|s|] == s;
    }
    assert PlacedAt(SortBy(s + [x], key), sorted, x, key, k);
  }

  // ---------------------------------------------------------------------
  // filter and slice(-n)
  // ---------------------------------------------------------------------

  /** `s.filter(keep)` */
  function Filter<T(!new)>(s: seq<T>, keep: T -> bool): (r: seq<T>)
    ensures |r| <= |s|
    ensures forall x :: x in r <==> x in s && keep(x)
    ensures forall i :: 0 <= i < |r| ==> keep(r[i])
    decreases |s|
  {
    if |s| == 0 then []
    else
      assert s == [s[0]] + s[1..];
      (if keep(s[0]) then [s[0]] else []) + Filter(s[1..], keep)
  }

  /** A filter keeps each accepted value as often as it occurs. */
  lemma {:induction false} FilterCounts<T(!new)>(s: seq<T>, keep: T -> bool)
    ensures forall x :: multiset(Filter(s, keep))[x] == if keep(x) then multiset(s)[x] else 0
    decreases |s|
  {
    if |s| > 0 {
      FilterCounts(s[1..], keep);
      assert s == [s[0]] + s[1..];
    }
  }

  lemma {:induction false} FilterSorted<T(!new)>(s: seq<T>, keep: T -> bool, key: T -> real)
    requires SortedBy(s, key)
    ensures SortedBy(Filter(s, keep), key)
    decreases |s|
  {
    if |s| > 0 {
      FilterSorted(s[1..], keep, key);
      var rest := Filter(s[1..], keep);
      forall j | 0 <= j < |rest|
        ensures key(s[0]) <= key(rest[j])
      {
        assert rest[j] in s[1..];
      }
    }
  }

  lemma {:induction false} FilterIncreasing<T(!new)>(s: seq<T>, keep: T -> bool, key: T -> real)
    requires IncreasingBy(s, key)
    ensures IncreasingBy(Filter(s, keep), key)
    decreases |s|
  {
    if |s| > 0 {
      FilterIncreasing(s[1..], keep, key);
      var rest := Filter(s[1..], keep);
      forall j | 0 <= j < |rest|
        ensures key(s[0]) < key(rest[j])
      {
        assert rest[j] in s[1..];
      }
    }
  }

  lemma {:induction false} FilterDistinct<T(!new)>(s: seq<T>, keep: T -> bool, key: T -> real)
    requires DistinctBy(s, key)
    ensures DistinctBy(Filter(s, keep), key)
    decreases |s|
  {
    if |s| > 0 {
      FilterDistinct(s[1..], keep, key);
      var rest := Filter(s[1..], keep);
      forall j | 0 <= j < |rest|
        ensures key(s[0]) != key(rest[j])
      {
        assert rest[j] in s[1..];
      }
    }
  }

  /** `s.sort(byKey).filter(keep)`: the kept elements of `s`, each as often
      as in `s`, in key order. */
  function SortKeep<T(!new)>(s: seq<T>, key: T -> real, keep: T -> bool): (r: seq<T>)
    ensures SortedBy(r, key)
    ensures forall x :: multiset(r)[x] == if keep(x) then multiset(s)[x] else 0
    ensures forall x :: x in r <==> x in s && keep(x)
  {
    var sorted := SortBy(s, key);
    FilterSorted(sorted, keep, key);
    FilterCounts(sorted, keep);
    SortKeepMembers(s, sorted, Filter(sorted, keep), keep);
    Filter(sorted, keep)
  }

  lemma SortKeepMembers<T(!new)>(s: seq<T>, sorted: seq<T>, r: seq<T>, keep: T -> bool)
    requires multiset(sorted) == multiset(s)
    requires forall x :: multiset(r)[x] == if keep(x) then multiset(sorted)[x] else 0
    ensures forall x :: multiset(r)[x] == if keep(x) then multiset(s)[x] else 0
    ensures forall x :: x in r <==> x in s && keep(x)
  {
    forall x
      ensures x in r <==> x in s && keep(x)
    {
      assert x in r <==> x in multiset(r);
      assert x in s <==> x in multiset(s);
    }
  }

  /** A filter that accepts every element keeps the whole sequence. */
  lemma {:induction false} FilterAll<T(!new)>(s: seq<T>, keep: T -> bool)
    requires forall x :: x in s ==> keep(x)
    ensures Filter(s, keep) == s
    decreases |s|
  {
    if |s| > 0 {
      assert s == [s[0]] + s[1..];
      assert forall x :: x in s[1..] ==> x in s;
      FilterAll(s[1..], keep);
    }
  }

  /** Filtering `s + [x]` filters `s`, then keeps `x` when `keep` accepts it. */
  lemma {:induction false} FilterSnoc<T(!new)>(s: seq<T>, x: T, keep: T -> bool)
    ensures Filter(s + [x], keep) == Filter(s, keep) + if keep(x) then [x] else []
    decreases |s|
  {
    if |s| > 0 {
      assert (s + [x])[1..] == s[1..] + [x];
      FilterSnoc(s[1..], x, keep);
    }
  }

  /** The last element a filter keeps is the last input element it accepts. */
  lemma {:induction false} FilterLast<T(!new)>(s: seq<T>, keep: T -> bool, i: nat)
    requires i < |s| && keep(s[i])
    requires forall j :: i < j < |s| ==> !keep(s[j])
    ensures |Filter(s, keep)| > 0 && Filter(s, keep)[|Filter(s, keep)| - 1] == s[i]
    decreases |s|
  {
    var init := s[..|s| - 1];
    assert s == init + [s[|s| - 1]];
    FilterSnoc(init, s[|s| - 1], keep);
    if i < |s| - 1 {
      FilterLast(init, keep, i);
    }
  }

  /** A filter that accepts the last element ends with it. */
  lemma FilterKeepsLast<T(!new)>(s: seq<T>, keep: T -> bool)
    ensures |s| > 0 && keep(s[|s| - 1]) ==>
      |Filter(s, keep)| > 0 && Filter(s, keep)[|Filter(s, keep)| - 1] == s[|s| - 1]
  {
    if |s| > 0 && keep(s[|s| - 1]) {
      FilterLast(s, keep, |s| - 1);
    }
  }

  /** `r` is the newest `n` elements of `s` in their order: its last `n`, or
      all of `s` when it has no more than `n`. */
  ghost predicate Newest<T>(r: seq<T>, s: seq<T>, n: nat) {
    |r| == (if |s| <= n then |s| else n) && r == s[|s| - |r|..]
  }

  /** `s.slice(-n)`: the last `n` elements, or all of them when there are no
      more than `n` (and, as `-0` is `0`, all of them when `n` is 0). */
  function LastN<T>(s: seq<T>, n: nat): (r: seq<T>)
    ensures |r| == if n == 0 || |s| <= n then |s| else n
    ensures r == s[|s| - |r|..]
    ensures |s| <= n || n == 0 ==> r == s
    ensures n > 0 && |s| > 0 ==> |r| > 0
    ensures n > 0 ==> Newest(r, s, n)
  {
    if n == 0 || |s| <= n then s else s[|s| - n..]
  }

  /** A non-empty sequence keeps its last element when cut to its last `n`. */
  lemma LastNKeepsLast<T>(s: seq<T>, n: nat)
    ensures |s| > 0 ==> |LastN(s, n)| > 0 && LastN(s, n)[|LastN(s, n)| - 1] == s[|s| - 1]
  {
  }

  /** A sorted permutation of a sequence without repeated keys is strictly
      increasing. */
  lemma SortedDistinctIncreasing<T>(s: seq<T>, r: seq<T>, key: T -> real)
    requires DistinctBy(s, key)
    requires multiset(r) == multiset(s)
    requires SortedBy(r, key)
    ensures IncreasingBy(r, key)
  {
    forall i, j | 0 <= i < j < |r|
      ensures key(r[i]) < key(r[j])
    {
      PermutationKeysDiffer(s, r, i, j, key);
    }
  }

  lemma PermutationKeysDiffer<T>(s: seq<T>, r: seq<T>, i: nat, j: nat, key: T -> real)
    requires DistinctBy(s, key)
    requires multiset(r) == multiset(s)
    requires i < j < |r|
    ensures key(r[i]) != key(r[j])
  {
    assert r[i] in multiset(s) && r[j] in multiset(s);
    var a :| 0 <= a < |s| && s[a] == r[i];
    var b :| 0 <= b < |s| && s[b] == r[j];
    if a == b {
      CountTwice(r, i, j);
      MultisetOfDistinct(s, a, key);
    }
  }

  /** An element found at two positions occurs at least twice. */
  lemma CountTwice<T>(r: seq<T>, i: nat, j: nat)
    requires i < j < |r| && r[i] == r[j]
    ensures multiset(r)[r[i]] >= 2
  {
    assert r == r[..i] + [r[i]] + r[i + 1..j] + [r[j]] + r[j + 1..];
  }

  /** In a sequence without repeated keys, each element occurs once. */
  lemma MultisetOfDistinct<T>(s: seq<T>, a: nat, key: T -> real)
    requires DistinctBy(s, key) && a < |s|
    ensures multiset(s)[s[a]] == 1
  {
    assert s == s[..a] + [s[a]] + s[a + 1..];
    forall k | 0 <= k < a
      ensures s[..a][k] != s[a]
    {
      assert s[..a][k] == s[k];
    }
    var tail := s[a + 1..];
    forall k | 0 <= k < |tail|
      ensures tail[k] != s[a]
    {
      assert tail[k] == s[a + 1 + k];
    }
    assert s[a] !in multiset(s[..a]);
    assert s[a] !in multiset(tail);
  }

  /** In a strictly increasing sequence, an element before position `k` has
      a smaller key than every element from `k` on. */
  lemma SuffixAbove<T>(s: seq<T>, k: nat, j: nat, key: T -> real)
    requires IncreasingBy(s, key) && j < k <= |s|
    ensures forall x :: x in s[k..] ==> key(s[j]) < key(x)
  {
    forall x | x in s[k..]
      ensures key(s[j]) < key(x)
    {
      var m :| 0 <= m < |s| - k && s[k..][m] == x;
      assert s[k + m] == x;
    }
  }

  /** A suffix of a sequence keeps its elements' order and distinctness. */
  lemma SuffixOrder<T>(s: seq<T>, k: nat, key: T -> real)
    requires k <= |s|
    ensures SortedBy(s, key) ==> SortedBy(s[k..], key)
    ensures IncreasingBy(s, key) ==> IncreasingBy(s[k..], key)
    ensures DistinctBy(s, key) ==> DistinctBy(s[k..], key)
  {
    if IncreasingBy(s, key) {
      forall i, j | 0 <= i < j < |s| - k
        ensures key(s[k..][i]) < key(s[k..][j])
      {
        assert s[k..][i] == s[k + i] && s[k..][j] == s[k + j];
      }
    }
    if SortedBy(s, key) {
      forall i, j | 0 <= i < j < |s| - k
        ensures key(s[k..][i]) <= key(s[k..][j])
      {
        assert s[k..][i] == s[k + i] && s[k..][j] == s[k + j];
      }
    }
    if DistinctBy(s, key) {
      forall i, j | 0 <= i < j < |s| - k
        ensures key(s[k..][i]) != key(s[k..][j])
      {
        assert s[k..][i] == s[k + i] && s[k..][j] == s[k + j];
      }
    }
  }

  // ---------------------------------------------------------------------
  // findIndex by time, and the keyed overwrite-or-append step
  // ---------------------------------------------------------------------

  /** `s.findIndex(e => key(e) === t)`, with `None` for `-1`. */
  function FindBy<T>(s: seq<T>, t: real, key: T -> real): (r: Option<nat>)
    ensures r.None? <==> forall i :: 0 <= i < |s| ==> key(s[i]) != t
    ensures r.Some? ==> r.value < |s| && key(s[r.value]) == t
    ensures r.Some? ==> forall i :: 0 <= i < r.value ==> key(s[i]) != t
    decreases |s|
  {
    if |s| == 0 then None
    else if key(s[0]) == t then Some(0)
    else match FindBy(s[1..], t, key)
      case None => None
      case Some(i) => Some(i + 1)
  }

  /** The first index at time `t` is the one `FindBy` reports. */
  lemma FindByIs<T>(s: seq<T>, t: real, key: T -> real, i: nat)
    requires i < |s| && key(s[i]) == t
    requires forall j :: 0 <= j < i ==> key(s[j]) != t
    ensures FindBy(s, t, key) == Some(i)
  {
  }

  /** The first point of `s` at time `t`: the one `findIndex` finds, and the
      value `Map.prototype.get` returns for a map built by `Upsert`. */
  function First(s: seq<Point>, t: real): Option<Point> {
    match FindBy(s, t, PointTime)
    case None => None
    case Some(i) => Some(s[i])
  }

  /** The first point at `t` is the head when the head is at `t`, and
      otherwise the first one in the tail. */
  lemma FirstCons(s: seq<Point>, t: real)
    requires |s| > 0
    ensures First(s, t) == if s[0].time == t then Some(s[0]) else First(s[1..], t)
  {
    if s[0].time != t {
      match FindBy(s[1..], t, PointTime)
      case None =>
      case Some(i) =>
        assert s[1..][i] == s[i + 1];
    }
  }

  /** A filter that keeps every point at `t` does not change which point
      comes first at `t`. */
  lemma {:induction false} FilterFirst(s: seq<Point>, keep: Point -> bool, t: real)
    requires forall p :: p in s && p.time == t ==> keep(p)
    ensures First(Filter(s, keep), t) == First(s, t)
    decreases |s|
  {
    if |s| > 0 {
      var rest := Filter(s[1..], keep);
      assert forall p :: p in s[1..] ==> p in s;
      FilterFirst(s[1..], keep, t);
      FirstCons(s, t);
      if keep(s[0]) {
        assert Filter(s, keep) == [s[0]] + rest;
        assert ([s[0]] + rest)[1..] == rest;
        FirstCons([s[0]] + rest, t);
      } else {
        assert Filter(s, keep) == rest;
      }
    }
  }

  /** Replacing or appending a point at another time does not change which
      point comes first at `t`. */
  lemma FirstUnchanged(s: seq<Point>, s': seq<Point>, t: real)
    requires |s| <= |s'|
    requires forall i :: 0 <= i < |s| && s[i].time == t ==> s'[i] == s[i]
    requires forall i :: 0 <= i < |s| && s[i].time != t ==> s'[i].time != t
    requires forall i :: |s| <= i < |s'| ==> s'[i].time != t
    ensures First(s', t) == First(s, t)
  {
    match FindBy(s, t, PointTime)
    case None =>
      assert forall i :: 0 <= i < |s'| ==> PointTime(s'[i]) != t;
    case Some(i) =>
      FindByIs(s', t, PointTime, i);
  }

  /** One step of `Map.prototype.set(p.time, p)`, or of `findIndex` by time
      followed by an overwrite: the first point at `p`'s time is replaced by
      `p` in place; with no point at that time, `p` is appended. */
  function Upsert(s: seq<Point>, p: Point): (r: seq<Point>)
    ensures First(r, p.time) == Some(p)
    ensures forall t :: t != p.time ==> First(r, t) == First(s, t)
    ensures |r| == if First(s, p.time).Some? then |s| else |s| + 1
    ensures forall i :: 0 <= i < |s| && s[i].time != p.time ==> r[i] == s[i]
    ensures forall q :: q in r ==> q in s || q == p
  {
    match FindBy(s, p.time, PointTime)
    case None =>
      var r := s + [p];
      FindByIs(r, p.time, PointTime, |s|);
      forall t | t != p.time
        ensures First(r, t) == First(s, t)
      {
        FirstUnchanged(s, r, t);
      }
      r
    case Some(i) =>
      var r := s[i := p];
      FindByIs(r, p.time, PointTime, i);
      forall t | t != p.time
        ensures First(r, t) == First(s, t)
      {
        FirstUnchanged(s, r, t);
      }
      r
  }

  /** Applying the same point twice is applying it once. */
  lemma UpsertIdempotent(s: seq<Point>, p: Point)
    ensures Upsert(Upsert(s, p), p) == Upsert(s, p)
  {
    var r := Upsert(s, p);
    match FindBy(r, p.time, PointTime)
    case Some(j) =>
      assert r[j] == p;
      assert r[j := p] == r;
  }

  lemma UpsertDistinct(s: seq<Point>, p: Point)
    requires DistinctBy(s, PointTime)
    ensures DistinctBy(Upsert(s, p), PointTime)
  {
    match FindBy(s, p.time, PointTime)
    case None =>
    case Some(i) =>
      var r := s[i := p];
      assert forall k :: 0 <= k < |s| ==> r[k].time == s[k].time;
  }

  /** `ups.forEach(u => upsert(u))`, in arrival order. */
  function UpsertAll(s: seq<Point>, ups: seq<Point>): (r: seq<Point>)
    ensures |r| <= |s| + |ups|
    ensures forall q :: q in r ==> q in s || q in ups
    decreases |ups|
  {
    if |ups| == 0 then s
    else UpsertAll(Upsert(s, ups[0]), ups[1..])
  }

  /** Upserting `a + b` upserts `a`, then `b`. */
  lemma {:induction false} UpsertAllConcat(s: seq<Point>, a: seq<Point>, b: seq<Point>)
    ensures UpsertAll(s, a + b) == UpsertAll(UpsertAll(s, a), b)
    decreases |a|
  {
    if |a| == 0 {
      assert a + b == b;
    } else {
      assert (a + b)[1..] == a[1..] + b;
      UpsertAllConcat(Upsert(s, a[0]), a[1..], b);
    }
  }

  /** The same point upserted twice in a row counts once. */
  lemma UpsertAllRepeat(s: seq<Point>, a: seq<Point>, p: Point, b: seq<Point>)
    ensures UpsertAll(s, a + [p, p] + b) == UpsertAll(s, a + [p] + b)
  {
    UpsertAllConcat(s, a + [p, p], b);
    UpsertAllConcat(s, a + [p], b);
    UpsertAllConcat(s, a, [p, p]);
    UpsertAllConcat(s, a, [p]);
    var m := UpsertAll(s, a);
    assert [p, p][1..] == [p];
    UpsertIdempotent(m, p);
  }

  /** The last point of `ups` at time `t`. */
  function LastWith(ups: seq<Point>, t: real): (r: Option<Point>)
    ensures r.None? <==> forall i :: 0 <= i < |ups| ==> ups[i].time != t
    ensures r.Some? ==> r.value in ups && r.value.time == t
    decreases |ups|
  {
    if |ups| == 0 then None
    else match LastWith(ups[1..], t)
      case Some(p) => Some(p)
      case None => if ups[0].time == t then Some(ups[0]) else None
  }

  /** The last point at `t` of a concatenation comes from its right part
      whenever that part has one. */
  lemma {:induction false} LastWithConcat(a: seq<Point>, b: seq<Point>, t: real)
    ensures LastWith(a + b, t) == if LastWith(b, t).Some? then LastWith(b, t) else LastWith(a, t)
    decreases |a|
  {
    if |a| == 0 {
      assert a + b == b;
    } else {
      assert (a + b)[1..] == a[1..] + b;
      LastWithConcat(a[1..], b, t);
    }
  }

  /** Last write wins: after a sequence of upserts, the point seen at each
      time is the last one written at that time, or the original one when
      nothing was written there. */
  lemma {:induction false} UpsertAllLastWriteWins(s: seq<Point>, ups: seq<Point>, t: real)
    ensures First(UpsertAll(s, ups), t) == if LastWith(ups, t).Some? then LastWith(ups, t) else First(s, t)
    decreases |ups|
  {
    if |ups| > 0 {
      UpsertAllLastWriteWins(Upsert(s, ups[0]), ups[1..], t);
    }
  }

  lemma {:induction false} UpsertAllDistinct(s: seq<Point>, ups: seq<Point>)
    requires DistinctBy(s, PointTime)
    ensures DistinctBy(UpsertAll(s, ups), PointTime)
    decreases |ups|
  {
    if |ups| > 0 {
      UpsertDistinct(s, ups[0]);
      UpsertAllDistinct(Upsert(s, ups[0]), ups[1..]);
    }
  }

  /** Upserting a point no earlier than every point of a strictly increasing
      series keeps it strictly increasing, and no point of the result is
      later than the one upserted. */
  lemma UpsertAtEndIncreasing(acc: seq<Point>, p: Point)
    requires IncreasingBy(acc, PointTime)
    requires forall a :: a in acc ==> a.time <= p.time
    ensures IncreasingBy(Upsert(acc, p), PointTime)
    ensures forall a :: a in Upsert(acc, p) ==> a.time <= p.time
  {
    match FindBy(acc, p.time, PointTime)
    case None =>
      forall i | 0 <= i < |acc|
        ensures acc[i].time < p.time
      {
        assert acc[i] in acc;
      }
    case Some(k) =>
      assert forall i :: 0 <= i < |acc| ==> acc[k := p][i].time == acc[i].time;
  }

  /** Upserting a time-sorted sequence, one after another, into a strictly
      increasing series whose times do not exceed the first one yields a
      strictly increasing series: the deduplication of a sorted series. */
  lemma {:induction false} UpsertAllIncreasing(acc: seq<Point>, s: seq<Point>)
    requires IncreasingBy(acc, PointTime)
    requires SortedBy(s, PointTime)
    requires |s| > 0 ==> forall a :: a in acc ==> a.time <= s[0].time
    ensures IncreasingBy(UpsertAll(acc, s), PointTime)
    decreases |s|
  {
    if |s| > 0 {
      UpsertAtEndIncreasing(acc, s[0]);
      var next := Upsert(acc, s[0]);
      if |s| > 1 {
        assert s[0].time <= s[1].time;
      }
      UpsertAllIncreasing(next, s[1..]);
    }
  }

  /** In a series without repeated times, the first point at a time is the
      only one there. */
  lemma FirstIsOnly(s: seq<Point>, p: Point)
    requires DistinctBy(s, PointTime)
    requires First(s, p.time) == Some(p)
    ensures forall q :: q in s && q.time == p.time ==> q == p
  {
    var i := FindBy(s, p.time, PointTime).value;
    forall q | q in s && q.time == p.time
      ensures q == p
    {
      var j :| 0 <= j < |s| && s[j] == q;
      assert PointTime(s[i]) == PointTime(s[j]);
    }
  }
}
