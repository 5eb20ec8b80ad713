/** backend/src/middleware/httpMetrics.ts: request counters per method,
    status class and route, with a latency histogram per route and
    percentiles read off the histogram. Latencies are whole milliseconds. */
module HttpMetrics {

  datatype StatusClass = C2xx | C3xx | C4xx | C5xx

  /** A bucket's upper bound `le`; the last bucket's is `+Infinity`. */
  datatype Bound = Le(ms: nat) | Infinity

  datatype Bucket = Bucket(le: Bound, count: nat)

  datatype Histogram = Histogram(buckets: seq<Bucket>, count: nat, sumMs: nat, maxMs: nat)

  datatype RouteMetrics = RouteMetrics(requests: nat, errors: nat, latency: Histogram)

  /** One entry of the `byRoute` map; the sequence keeps the map's insertion order. */
  datatype RouteEntry = RouteEntry(route: string, metrics: RouteMetrics)

  datatype LatencySummary = LatencySummary(p50: nat, p95: nat, p99: nat, max: nat)

  datatype RouteSnapshot = RouteSnapshot(route: string, requests: nat, errors: nat, latencyMs: LatencySummary)

  const LatencyBucketsMs: seq<Bound> :=
    [Le(50), Le(100), Le(250), Le(500), Le(1000), Le(2000), Le(5000), Infinity]

  /** `toStatusClass`: 500 and up, 400 to 499, 300 to 399, and everything
      below 300 (informational codes included) counted as 2xx. */
  function ToStatusClass(statusCode: int): (c: StatusClass)
    ensures c == C5xx <==> statusCode >= 500
    ensures c == C4xx <==> 400 <= statusCode < 500
    ensures c == C3xx <==> 300 <= statusCode < 400
    ensures c == C2xx <==> statusCode < 300
  {
    if statusCode >= 500 then C5xx
    else if statusCode >= 400 then C4xx
    else if statusCode >= 300 then C3xx
    else C2xx
  }

  /** A route's error counter moves exactly for the codes its status class calls errors. */
  lemma ErrorsAreTheErrorClasses(statusCode: int)
    ensures ToStatusClass(statusCode) in {C4xx, C5xx} <==> statusCode >= 400
  {
  }

  function BucketTotal(buckets: seq<Bucket>): nat
  {
    if buckets == [] then 0 else buckets[0].count + BucketTotal(buckets[1..])
  }

  /** A histogram as `createHistogram` lays it out and `observeLatency` keeps
      it: the fixed bounds in order, and bucket counts summing to `count`. */
  predicate Valid(h: Histogram)
  {
    |h.buckets| == |LatencyBucketsMs|
    && (forall i :: 0 <= i < |h.buckets| ==> h.buckets[i].le == LatencyBucketsMs[i])
    && BucketTotal(h.buckets) == h.count
  }

  /** `createHistogram`: one empty bucket per bound, the last one unbounded. */
  function CreateHistogram(): (h: Histogram)
    ensures Valid(h) && h.count == 0 && h.sumMs == 0 && h.maxMs == 0
    ensures forall i :: 0 <= i < |h.buckets| ==> h.buckets[i].count == 0
    ensures h.buckets[|h.buckets| - 1].le == Infinity
  {
    var h := Histogram(seq(|LatencyBucketsMs|, i requires 0 <= i < |LatencyBucketsMs| => Bucket(LatencyBucketsMs[i], 0)), 0, 0, 0);
    assert BucketTotal(h.buckets[7..]) == 0;
    assert BucketTotal(h.buckets[6..]) == 0;
    assert BucketTotal(h.buckets[5..]) == 0;
    assert BucketTotal(h.buckets[4..]) == 0;
    assert BucketTotal(h.buckets[3..]) == 0;
    assert BucketTotal(h.buckets[2..]) == 0;
    assert BucketTotal(h.buckets[1..]) == 0;
    h
  }

  predicate Fits(durationMs: nat, le: Bound)
  {
    le.Infinity? || durationMs <= le.ms
  }

  /** Index of the first bucket whose bound is at least `durationMs`, or `|buckets|`. */
  function FirstFit(buckets: seq<Bucket>, durationMs: nat): (k: nat)
    ensures k <= |buckets|
    ensures k < |buckets| ==> Fits(durationMs, buckets[k].le)
    ensures forall j :: 0 <= j < k ==> !Fits(durationMs, buckets[j].le)
  {
    if buckets == [] then 0
    else if Fits(durationMs, buckets[0].le) then 0
    else 1 + FirstFit(buckets[1..], durationMs)
  }

  /** The index a left-to-right search stops at is the first fit. */
  lemma FirstFitIs(buckets: seq<Bucket>, durationMs: nat, i: nat)
    requires i <= |buckets|
    requires forall j :: 0 <= j < i ==> !Fits(durationMs, buckets[j].le)
    requires i < |buckets| ==> Fits(durationMs, buckets[i].le)
    ensures FirstFit(buckets, durationMs) == i
  {
  }

  lemma {:induction false} BucketTotalUpdate(buckets: seq<Bucket>, k: nat, b: Bucket)
    requires k < |buckets|
    ensures BucketTotal(buckets[k := b]) == BucketTotal(buckets) - buckets[k].count + b.count
  {
    if k > 0 {
      assert buckets[k := b][1..] == buckets[1..][k - 1 := b];
      BucketTotalUpdate(buckets[1..], k - 1, b);
    } else {
      assert buckets[k := b][1..] == buckets[1..];
    }
  }

  /** `observeLatency`: one more observation, added to the sum, raising the
      maximum, and counted in exactly one bucket, the first whose bound covers
      it. The bucket counts keep summing to `count`. */
  method ObserveLatency(h: Histogram, durationMs: nat) returns (r: Histogram)
    ensures r.count == h.count + 1 && r.sumMs == h.sumMs + durationMs
    ensures r.maxMs >= h.maxMs && r.maxMs >= durationMs && (r.maxMs == h.maxMs || r.maxMs == durationMs)
    ensures var k := FirstFit(h.buckets, durationMs);
            if k < |h.buckets| then r.buckets == h.buckets[k := h.buckets[k].(count := h.buckets[k].count + 1)]
            else r.buckets == h.buckets
    ensures Valid(h) ==> Valid(r)
  {
    var buckets := h.buckets;
    var i := 0;
    while i < |buckets|
      invariant 0 <= i <= |h.buckets| && buckets == h.buckets
      invariant forall j :: 0 <= j < i ==> !Fits(durationMs, h.buckets[j].le)
    {
      if Fits(durationMs, buckets[i].le) {
        buckets := buckets[i := buckets[i].(count := buckets[i].count + 1)];
        break;
      }
      i := i + 1;
    }
    FirstFitIs(h.buckets, durationMs, i);
    r := Histogram(buckets, h.count + 1, h.sumMs + durationMs,
                   if h.maxMs >= durationMs then h.maxMs else durationMs);
    if Valid(h) {
      ObservedKeepsValid(h, durationMs, r.sumMs, r.maxMs);
    }
  }

  /** Counting one observation in one bucket keeps a histogram valid. */
  lemma CountedKeepsValid(h: Histogram, k: nat, sumMs: nat, maxMs: nat)
    requires Valid(h) && k < |h.buckets|
    ensures Valid(Histogram(h.buckets[k := h.buckets[k].(count := h.buckets[k].count + 1)], h.count + 1, sumMs, maxMs))
  {
    BucketTotalUpdate(h.buckets, k, h.buckets[k].(count := h.buckets[k].count + 1));
  }

  /** In a valid histogram every duration fits some bucket, and counting it
      there keeps the histogram valid. */
  lemma ObservedKeepsValid(h: Histogram, durationMs: nat, sumMs: nat, maxMs: nat)
    requires Valid(h)
    ensures var k := FirstFit(h.buckets, durationMs);
            k < |h.buckets|
            && Valid(Histogram(h.buckets[k := h.buckets[k].(count := h.buckets[k].count + 1)], h.count + 1, sumMs, maxMs))
  {
    assert Fits(durationMs, h.buckets[|h.buckets| - 1].le);
    CountedKeepsValid(h, FirstFit(h.buckets, durationMs), sumMs, maxMs);
  }

  /** Sum of the first `k` bucket counts. */
  function Prefix(buckets: seq<Bucket>, k: nat): nat
    requires k <= |buckets|
  {
    if k == 0 then 0 else Prefix(buckets, k - 1) + buckets[k - 1].count
  }

  /** The running count of buckets `0..j` reaches `count * num / den`,
      compared without division. */
  predicate Reaches(buckets: seq<Bucket>, j: nat, count: nat, num: nat, den: nat)
    requires j < |buckets|
  {
    Prefix(buckets, j + 1) * den >= count * num
  }

  /** First bucket index, from `i` on, where the running count reaches the
      target; `|buckets|` if none does. */
  function Reach(buckets: seq<Bucket>, i: nat, count: nat, num: nat, den: nat): (k: nat)
    requires i <= |buckets|
    ensures i <= k <= |buckets|
    ensures k < |buckets| ==> Reaches(buckets, k, count, num, den)
    ensures forall j :: i <= j < k ==> !Reaches(buckets, j, count, num, den)
    decreases |buckets| - i
  {
    if i == |buckets| then i
    else if Reaches(buckets, i, count, num, den) then i
    else Reach(buckets, i + 1, count, num, den)
  }

  /** The value `toPercentile` reports for percentile `num / den`: 0 for an
      empty histogram, else the bound of the first bucket that reaches the
      target, with `maxMs` standing in for the unbounded bucket and for a
      target no bucket reaches. */
  function PercentileOf(h: Histogram, num: nat, den: nat): nat
  {
    if h.count == 0 then 0
    else
      var k := Reach(h.buckets, 0, h.count, num, den);
      if k == |h.buckets| then h.maxMs
      else match h.buckets[k].le
        case Le(ms) => ms
        case Infinity => h.maxMs
  }

  /** `toPercentile`, with the percentile given as the ratio `num / den`. */
  method ToPercentile(h: Histogram, num: nat, den: nat) returns (r: nat)
    ensures r == PercentileOf(h, num, den)
  {
    if h.count == 0 {
      return 0;
    }
    var cumulative := 0;
    var i := 0;
    while i < |h.buckets|
      invariant 0 <= i <= |h.buckets| && cumulative == Prefix(h.buckets, i)
      invariant Reach(h.buckets, 0, h.count, num, den) == Reach(h.buckets, i, h.count, num, den)
    {
      cumulative := cumulative + h.buckets[i].count;
      if cumulative * den >= h.count * num {
        return match h.buckets[i].le
          case Le(ms) => ms
          case Infinity => h.maxMs;
      }
      i := i + 1;
    }
    return h.maxMs;
  }

  lemma {:induction false} PrefixAll(buckets: seq<Bucket>)
    ensures Prefix(buckets, |buckets|) == BucketTotal(buckets)
  {
    if buckets != [] {
      PrefixAll(buckets[1..]);
      PrefixShift(buckets, |buckets|);
    }
  }

  lemma {:induction false} PrefixShift(buckets: seq<Bucket>, k: nat)
    requires 1 <= k <= |buckets|
    ensures Prefix(buckets, k) == buckets[0].count + Prefix(buckets[1..], k - 1)
  {
    if k > 1 {
      PrefixShift(buckets, k - 1);
    }
  }

  /** On a valid histogram a percentile of at most 100% is always found in
      some bucket, so the final `return histogram.maxMs` is never reached, and
      the answer is a bucket bound or, in the unbounded bucket, `maxMs`. */
  lemma PercentileFound(h: Histogram, num: nat, den: nat)
    requires Valid(h) && h.count > 0 && 0 < den && num <= den
    ensures Reach(h.buckets, 0, h.count, num, den) < |h.buckets|
    ensures PercentileOf(h, num, den) == h.maxMs
            || exists i :: 0 <= i < |h.buckets| && h.buckets[i].le == Le(PercentileOf(h, num, den))
  {
    var n := |h.buckets|;
    PrefixAll(h.buckets);
    assert h.count * num <= h.count * den;
    MulMonotone(h.count, num, den);
    assert Reaches(h.buckets, n - 1, h.count, num, den);
  }

  lemma MulMonotone(a: nat, b: nat, c: nat)
    requires b <= c
    ensures a * b <= a * c
  {
  }

  /** An empty histogram of the middleware's layout (as `CreateHistogram`
      builds it) that observes one 120 ms request counts it in the 250 ms
      bucket, stays valid, and reports that bound as its median. */
  lemma MedianOfOneObservation(h: Histogram)
    requires Valid(h) && forall i :: 0 <= i < |h.buckets| ==> h.buckets[i].count == 0
    ensures FirstFit(h.buckets, 120) == 2
    ensures var one := Histogram(h.buckets[2 := h.buckets[2].(count := 1)], 1, 120, 120);
            Valid(one) && PercentileOf(one, 1, 2) == 250
  {
    var b := h.buckets;
    assert b[0].le == Le(50) && b[1].le == Le(100) && b[2].le == Le(250);
    FirstFitIs(b, 120, 2);
    assert h.count == 0 by {
      assert h.count == BucketTotal(b);
      TotalOfEmpty(b);
    }
    CountedKeepsValid(h, 2, 120, 120);
    assert b[2].(count := b[2].count + 1) == b[2].(count := 1);
    MedianInThirdBucket(b[2 := b[2].(count := 1)], 120, 120);
  }

  lemma {:induction false} TotalOfEmpty(buckets: seq<Bucket>)
    requires forall i :: 0 <= i < |buckets| ==> buckets[i].count == 0
    ensures BucketTotal(buckets) == 0
  {
    if buckets != [] {
      TotalOfEmpty(buckets[1..]);
    }
  }

  /** One observation, in the third bucket of bound 250 ms, puts the median there. */
  lemma MedianInThirdBucket(c: seq<Bucket>, sumMs: nat, maxMs: nat)
    requires |c| >= 3 && c[0].count == 0 && c[1].count == 0 && c[2] == Bucket(Le(250), 1)
    ensures PercentileOf(Histogram(c, 1, sumMs, maxMs), 1, 2) == 250
  {
    assert Prefix(c, 1) == 0;
    assert Prefix(c, 2) == 0;
    assert Prefix(c, 3) == 1;
    assert Reach(c, 2, 1, 1, 2) == 2;
    assert Reach(c, 1, 1, 1, 2) == 2;
  }

  function RouteIndex(routes: seq<RouteEntry>, key: string): (i: int)
    ensures -1 <= i < |routes|
    ensures i >= 0 ==> routes[i].route == key
    ensures i < 0 ==> forall j :: 0 <= j < |routes| ==> routes[j].route != key
  {
    if routes == [] then -1
    else if routes[0].route == key then 0
    else
      var k := RouteIndex(routes[1..], key);
      if k < 0 then -1 else k + 1
  }

  /** A route's counters as the middleware keeps them: a valid histogram that
      saw every request, and no more errors than requests. */
  predicate RouteValid(m: RouteMetrics)
  {
    Valid(m.latency) && m.latency.count == m.requests && m.errors <= m.requests
  }

  function MapCount<K>(m: map<K, nat>, k: K): nat
  {
    if k in m then m[k] else 0
  }

  /** Descending order by request count. */
  predicate SortedByRequests(s: seq<RouteSnapshot>)
  {
    forall i, j :: 0 <= i < j < |s| ==> s[i].requests >= s[j].requests
  }

  /** Insert `x` before the first entry with no more requests, keeping equal
      entries in their order. */
  function InsertByRequests(x: RouteSnapshot, s: seq<RouteSnapshot>): seq<RouteSnapshot>
  {
    if s == [] || s[0].requests <= x.requests then [x] + s
    else [s[0]] + InsertByRequests(x, s[1..])
  }

  /** `.sort((a, b) => b.requests - a.requests)` as an insertion sort. */
  function SortByRequests(s: seq<RouteSnapshot>): seq<RouteSnapshot>
  {
    if s == [] then [] else InsertByRequests(s[0], SortByRequests(s[1..]))
  }

  lemma {:induction false} InsertKeepsEntries(x: RouteSnapshot, s: seq<RouteSnapshot>)
    ensures multiset(InsertByRequests(x, s)) == multiset(s) + multiset{x}
  {
    if !(s == [] || s[0].requests <= x.requests) {
      InsertKeepsEntries(x, s[1..]);
      assert s == [s[0]] + s[1..];
    }
  }

  lemma {:induction false} InsertKeepsOrder(x: RouteSnapshot, s: seq<RouteSnapshot>)
    requires SortedByRequests(s)
    ensures SortedByRequests(InsertByRequests(x, s))
  {
    if !(s == [] || s[0].requests <= x.requests) {
      var rest := InsertByRequests(x, s[1..]);
      InsertKeepsOrder(x, s[1..]);
      InsertKeepsEntries(x, s[1..]);
      forall e | e in rest
        ensures s[0].requests >= e.requests
      {
        assert e in multiset(rest);
        if e != x {
          assert e in multiset(s[1..]);
        }
      }
    }
  }

  /** The route list comes out busiest first and holds exactly the routes
      that went in. */
  lemma {:induction false} SortByRequestsCorrect(s: seq<RouteSnapshot>)
    ensures SortedByRequests(SortByRequests(s))
    ensures multiset(SortByRequests(s)) == multiset(s)
  {
    if s != [] {
      SortByRequestsCorrect(s[1..]);
      InsertKeepsOrder(s[0], SortByRequests(s[1..]));
      InsertKeepsEntries(s[0], SortByRequests(s[1..]));
      assert s == [s[0]] + s[1..];
    }
  }

  function SummaryOf(entry: RouteEntry): RouteSnapshot
  {
    var h := entry.metrics.latency;
    RouteSnapshot(entry.route, entry.metrics.requests, entry.metrics.errors,
                  LatencySummary(PercentileOf(h, 50, 100), PercentileOf(h, 95, 100),
                                 PercentileOf(h, 99, 100), h.maxMs))
  }

  function Summaries(routes: seq<RouteEntry>): (r: seq<RouteSnapshot>)
    ensures |r| == |routes|
    ensures forall i :: 0 <= i < |routes| ==> r[i] == SummaryOf(routes[i])
  {
    if routes == [] then [] else [SummaryOf(routes[0])] + Summaries(routes[1..])
  }

  /** The counters kept for `key`, or fresh ones when the route is new. */
  function MetricsOf(routes: seq<RouteEntry>, key: string): (m: RouteMetrics)
    ensures (forall i :: 0 <= i < |routes| ==> RouteValid(routes[i].metrics)) ==> RouteValid(m)
  {
    var i := RouteIndex(routes, key);
    if i >= 0 then routes[i].metrics else RouteMetrics(0, 0, CreateHistogram())
  }

  /** `byRoute.set(key, m)`: an existing key keeps its place, a new key goes last. */
  function Upserted(routes: seq<RouteEntry>, key: string, m: RouteMetrics): seq<RouteEntry>
  {
    var i := RouteIndex(routes, key);
    if i >= 0 then routes[i := RouteEntry(key, m)] else routes + [RouteEntry(key, m)]
  }

  predicate UniqueRoutes(routes: seq<RouteEntry>)
  {
    forall i, j :: 0 <= i < j < |routes| ==> routes[i].route != routes[j].route
  }

  /** The route table's invariant: one entry per route, each well formed. */
  predicate RouteTableValid(routes: seq<RouteEntry>)
  {
    UniqueRoutes(routes) && forall i :: 0 <= i < |routes| ==> RouteValid(routes[i].metrics)
  }

  /** Setting a route keeps route names unique, stores `m` under `key`, and
      leaves every other route's entry as it was. */
  lemma UpsertedKeepsValid(routes: seq<RouteEntry>, key: string, m: RouteMetrics)
    requires UniqueRoutes(routes) && RouteValid(m)
    requires forall i :: 0 <= i < |routes| ==> RouteValid(routes[i].metrics)
    ensures var r := Upserted(routes, key, m);
            UniqueRoutes(r) && (forall i :: 0 <= i < |r| ==> RouteValid(r[i].metrics))
            && RouteIndex(r, key) >= 0 && r[RouteIndex(r, key)].metrics == m
            && forall e :: e in routes && e.route != key ==> e in r
  {
    var r := Upserted(routes, key, m);
    var i := RouteIndex(routes, key);
    if i < 0 {
      assert r[|routes|].route == key;
    } else {
      assert r[i].route == key;
    }
    var k := RouteIndex(r, key);
    assert r[k].route == key;
    forall e | e in routes && e.route != key
      ensures e in r
    {
      var j :| 0 <= j < |routes| && routes[j] == e;
      assert r[j] == e;
    }
  }

  /** One response recorded in a route's counters: one more request, one
      more error for a 4xx or 5xx status, and the duration observed in the
      latency histogram: count and sum raised, the maximum raised to it, and
      one more in the first bucket whose bound covers it. */
  predicate Recorded(before: RouteMetrics, after: RouteMetrics, statusCode: int, durationMs: nat)
  {
    var h := before.latency;
    var k := FirstFit(h.buckets, durationMs);
    after.requests == before.requests + 1
    && after.errors == before.errors + (if statusCode >= 400 then 1 else 0)
    && after.latency.count == h.count + 1
    && after.latency.sumMs == h.sumMs + durationMs
    && after.latency.maxMs == (if durationMs > h.maxMs then durationMs else h.maxMs)
    && k < |h.buckets|
    && after.latency.buckets == h.buckets[k := h.buckets[k].(count := h.buckets[k].count + 1)]
  }

  /** The route part of the `finish` handler: the route's counters (fresh
      ones for a new route) record the response; a new route goes last and
      every other route is kept. */
  method RecordRoute(routes: seq<RouteEntry>, key: string, statusCode: int, durationMs: nat)
    returns (r: seq<RouteEntry>)
    requires RouteTableValid(routes)
    ensures RouteTableValid(r)
    ensures |r| == |routes| + (if RouteIndex(routes, key) >= 0 then 0 else 1)
    ensures RouteIndex(r, key) >= 0
    ensures Recorded(MetricsOf(routes, key), MetricsOf(r, key), statusCode, durationMs)
    ensures forall e :: e in routes && e.route != key ==> e in r
  {
    var before := MetricsOf(routes, key);
    var latency := ObserveLatency(before.latency, durationMs);
    ObservedKeepsValid(before.latency, durationMs, latency.sumMs, latency.maxMs);
    var after := RouteMetrics(before.requests + 1,
                              before.errors + (if statusCode >= 400 then 1 else 0),
                              latency);
    assert Recorded(before, after, statusCode, durationMs) by {
      var h := before.latency;
      var k := FirstFit(h.buckets, durationMs);
      assert k < |h.buckets|;
      assert latency.buckets == h.buckets[k := h.buckets[k].(count := h.buckets[k].count + 1)];
    }
    UpsertedKeepsValid(routes, key, after);
    r := Upserted(routes, key, after);
    assert MetricsOf(r, key) == after;
  }

  /** The process-wide `metricsState`. */
  class MetricsState {
    const startedAt: int
    var totalRequests: nat
    var inFlightRequests: nat
    var byMethod: map<string, nat>
    var byStatusClass: map<StatusClass, nat>
    var byRoute: seq<RouteEntry>

    ghost predicate Valid()
      reads this
    {
      (forall c: StatusClass :: c in byStatusClass) && RouteTableValid(byRoute)
    }

    constructor (now: int)
      ensures Valid() && startedAt == now
      ensures totalRequests == 0 && inFlightRequests == 0 && byMethod == map[] && byRoute == []
      ensures byStatusClass == map[C2xx := 0, C3xx := 0, C4xx := 0, C5xx := 0]
    {
      startedAt := now;
      totalRequests := 0;
      inFlightRequests := 0;
      byMethod := map[];
      byStatusClass := map[C2xx := 0, C3xx := 0, C4xx := 0, C5xx := 0];
      byRoute := [];
      new;
      forall c: StatusClass
        ensures c in byStatusClass
      {
        assert c.C2xx? || c.C3xx? || c.C4xx? || c.C5xx?;
      }
    }

    /** The synchronous part of `httpMetricsMiddleware`, run when a request arrives. */
    method OnRequest(httpMethod: string)
      requires Valid()
      modifies this
      ensures Valid()
      ensures totalRequests == old(totalRequests) + 1 && inFlightRequests == old(inFlightRequests) + 1
      ensures byMethod == old(byMethod)[httpMethod := MapCount(old(byMethod), httpMethod) + 1]
      ensures byStatusClass == old(byStatusClass) && byRoute == old(byRoute)
    {
      totalRequests := totalRequests + 1;
      inFlightRequests := inFlightRequests + 1;
      byMethod := byMethod[httpMethod := MapCount(byMethod, httpMethod) + 1];
    }

    /** The `finish` handler: in-flight count down (never below zero), one more
        response in its status class, and the route's requests, errors and
        latency updated. `path` is the request path after `normalizePath`. */
    method OnFinish(httpMethod: string, path: string, statusCode: int, durationMs: nat)
      requires Valid()
      modifies this
      ensures Valid()
      ensures inFlightRequests == if old(inFlightRequests) > 0 then old(inFlightRequests) - 1 else 0
      ensures totalRequests == old(totalRequests) && byMethod == old(byMethod)
      ensures byStatusClass == old(byStatusClass)[ToStatusClass(statusCode) :=
                                                   old(byStatusClass)[ToStatusClass(statusCode)] + 1]
      ensures |byRoute| == |old(byRoute)| + (if RouteIndex(old(byRoute), httpMethod + " " + path) >= 0 then 0 else 1)
      ensures RouteIndex(byRoute, httpMethod + " " + path) >= 0
      ensures Recorded(MetricsOf(old(byRoute), httpMethod + " " + path), MetricsOf(byRoute, httpMethod + " " + path),
                       statusCode, durationMs)
      ensures forall e :: e in old(byRoute) && e.route != httpMethod + " " + path ==> e in byRoute
    {
      var statusClass := ToStatusClass(statusCode);
      var classes := byStatusClass[statusClass := byStatusClass[statusClass] + 1];
      assert forall c: StatusClass :: c in classes;
      assert classes == old(byStatusClass)[ToStatusClass(statusCode) := old(byStatusClass)[ToStatusClass(statusCode)] + 1];
      var key := httpMethod + " " + path;
      var routes := RecordRoute(byRoute, key, statusCode, durationMs);

      inFlightRequests := if inFlightRequests - 1 < 0 then 0 else inFlightRequests - 1;
      byStatusClass, byRoute := classes, routes;
    }

    /** The route list of `getHttpMetricsSnapshot`, busiest route first. */
    function RouteSnapshots(): (r: seq<RouteSnapshot>)
      reads this
      ensures SortedByRequests(r) && multiset(r) == multiset(Summaries(byRoute))
    {
      SortByRequestsCorrect(Summaries(byRoute));
      SortByRequests(Summaries(byRoute))
    }

    /** `uptimeSeconds`: whole seconds since start, rounded down. */
    function UptimeSeconds(now: int): (r: int)
      reads this
      ensures r * 1000 <= now - startedAt < r * 1000 + 1000
    {
      (now - startedAt) / 1000
    }
  }

  predicate ErrorsBounded(s: seq<RouteSnapshot>)
  {
    forall i :: 0 <= i < |s| ==> s[i].errors <= s[i].requests
  }

  lemma {:induction false} InsertKeepsBounded(x: RouteSnapshot, s: seq<RouteSnapshot>)
    requires ErrorsBounded(s) && x.errors <= x.requests
    ensures ErrorsBounded(InsertByRequests(x, s))
  {
    if !(s == [] || s[0].requests <= x.requests) {
      InsertKeepsBounded(x, s[1..]);
    }
  }

  lemma {:induction false} SortKeepsBounded(s: seq<RouteSnapshot>)
    requires ErrorsBounded(s)
    ensures ErrorsBounded(SortByRequests(s))
  {
    if s != [] {
      SortKeepsBounded(s[1..]);
      InsertKeepsBounded(s[0], SortByRequests(s[1..]));
    }
  }

  /** Every route in the snapshot has no more errors than requests, as the
      middleware's counters keep them. */
  lemma SnapshotErrorsBounded(routes: seq<RouteEntry>)
    requires forall i :: 0 <= i < |routes| ==> RouteValid(routes[i].metrics)
    ensures ErrorsBounded(SortByRequests(Summaries(routes)))
  {
    SortKeepsBounded(Summaries(routes));
  }
}
