/** What the anomaly worker queries, the anomaly log it keeps, and what switching flags off does to answers. */
module WorkerModel {
  import opened Wrappers
  import opened Seqs
  import opened FeatureModel

  /** Rows of metrics, function_invocations and anomaly_events; times are in seconds. */
  datatype Metric = Metric(flagKey: string, variant: string, eventType: string, value: real, recordedAt: int)

  datatype Invocation = Invocation(functionId: string, startedAt: int, completed: bool, success: bool,
          executionMs: Option<int>)

  datatype Anomaly = Anomaly(id: string, kind: string, refId: string, severity: string, detectedAt: int,
          resolvedAt: Option<int>)

  // ---- the queries ----

  predicate RecentError(m: Metric, key: string, now: int) {
    m.flagKey == key && m.eventType == "error" && m.recordedAt > now - 300
  }

  function Errors(metrics: seq<Metric>, key: string, now: int): nat {
    if metrics == [] then 0
    else Errors(metrics[..|metrics| - 1], key, now) + if RecentError(metrics[|metrics| - 1], key, now) then 1 else 0
  }

  /** More than 10 errors in the last 5 minutes. */
  predicate Offends(metrics: seq<Metric>, key: string, now: int) {
    Errors(metrics, key, now) > 10
  }

  /** The query counts the error metrics of the flag in the window. */
  lemma {:induction false} ErrorsCount(metrics: seq<Metric>, key: string, now: int)
    ensures Offends(metrics, key, now) <==>
            |set i | 0 <= i < |metrics| && metrics[i].flagKey == key && metrics[i].eventType == "error"
                     && metrics[i].recordedAt > now - 300| > 10
  {
    var bad := i => 0 <= i < |metrics| && RecentError(metrics[i], key, now);
    for n := 0 to |metrics|
      invariant Errors(metrics[..n], key, now) == |Qualifying(n, bad)|
    {
      QualifyingNext(n, bad);
      NextPrefix(metrics, n);
      ErrorsNext(metrics[..n], metrics[n], key, now);
    }
    WholePrefix(metrics);
    assert Qualifying(|metrics|, bad) ==
           set i | 0 <= i < |metrics| && metrics[i].flagKey == key && metrics[i].eventType == "error"
                   && metrics[i].recordedAt > now - 300;
  }

  lemma {:induction false} ErrorsNext(metrics: seq<Metric>, m: Metric, key: string, now: int)
    ensures Errors(metrics + [m], key, now) == Errors(metrics, key, now) + if RecentError(m, key, now) then 1 else 0
  {
    assert (metrics + [m])[..|metrics|] == metrics;
  }

  lemma {:induction false} OffendersHaveMetrics(metrics: seq<Metric>, key: string, now: int)
    requires Errors(metrics, key, now) > 0
    ensures exists i | 0 <= i < |metrics| :: metrics[i].flagKey == key
  {
    var n := |metrics| - 1;
    if metrics[n].flagKey != key {
      OffendersHaveMetrics(metrics[..n], key, now);
      var i :| 0 <= i < n && metrics[..n][i].flagKey == key;
      assert metrics[i].flagKey == key;
    }
  }

  predicate Finished(v: Invocation, id: string, since: int) {
    v.functionId == id && v.startedAt > since && v.completed
  }

  /** Completed invocations since a moment, and how many of them failed. */
  function Finishes(vs: seq<Invocation>, id: string, since: int): (nat, nat) {
    if vs == [] then (0, 0)
    else
      var (total, errors) := Finishes(vs[..|vs| - 1], id, since);
      var v := vs[|vs| - 1];
      if Finished(v, id, since) then (total + 1, if v.success then errors else errors + 1) else (total, errors)
  }

  /** At least 5 completed invocations in the last 10 minutes, more than 20% of them failed. */
  predicate ErrorProne(fl: real -> real, vs: seq<Invocation>, id: string, now: int) {
    var (total, errors) := Finishes(vs, id, now - 600);
    total >= 5 && fl(errors as real / total as real) > fl(0.20)
  }

  predicate Timed(v: Invocation, id: string, since: int) {
    v.functionId == id && v.startedAt > since && v.success && v.executionMs.Some?
  }

  /** Successful timed runs since a moment, and their total time. */
  function Timings(vs: seq<Invocation>, id: string, since: int): (nat, int) {
    if vs == [] then (0, 0)
    else
      var (count, sum) := Timings(vs[..|vs| - 1], id, since);
      var v := vs[|vs| - 1];
      if Timed(v, id, since) then (count + 1, sum + v.executionMs.value) else (count, sum)
  }

  /** The successful timed runs of the function in the window. */
  function Runs(vs: seq<Invocation>, id: string, since: int): set<int> {
    set i | 0 <= i < |vs| && vs[i].functionId == id && vs[i].startedAt > since && vs[i].success
            && vs[i].executionMs.Some?
  }

  lemma {:induction false} TimingsNext(vs: seq<Invocation>, v: Invocation, id: string, since: int)
    ensures Timings(vs + [v], id, since) ==
            if Timed(v, id, since) then (Timings(vs, id, since).0 + 1, Timings(vs, id, since).1 + v.executionMs.value)
            else Timings(vs, id, since)
  {
    assert (vs + [v])[..|vs|] == vs;
  }

  lemma {:induction false} TimingsCount(vs: seq<Invocation>, id: string, since: int)
    ensures Timings(vs, id, since).0 == |Runs(vs, id, since)|
  {
    var timed := i => 0 <= i < |vs| && Timed(vs[i], id, since);
    for n := 0 to |vs|
      invariant Timings(vs[..n], id, since).0 == |Qualifying(n, timed)|
    {
      QualifyingNext(n, timed);
      NextPrefix(vs, n);
      TimingsNext(vs[..n], vs[n], id, since);
    }
    WholePrefix(vs);
    assert Qualifying(|vs|, timed) == Runs(vs, id, since);
  }

  /** The total lies where the single times lie: when each run took from low to high, so did the runs on average. */
  lemma {:induction false} TotalBetween(vs: seq<Invocation>, id: string, since: int, low: int, high: int)
    requires forall i | i in Runs(vs, id, since) :: low <= vs[i].executionMs.value <= high
    ensures low * |Runs(vs, id, since)| <= Timings(vs, id, since).1 <= high * |Runs(vs, id, since)|
  {
    TimingsCount(vs, id, since);
    for n := 0 to |vs|
      invariant low * Timings(vs[..n], id, since).0 <= Timings(vs[..n], id, since).1
      invariant Timings(vs[..n], id, since).1 <= high * Timings(vs[..n], id, since).0
    {
      NextPrefix(vs, n);
      TimingsNext(vs[..n], vs[n], id, since);
      var k := Timings(vs[..n], id, since).0;
      if Timed(vs[n], id, since) {
        assert n in Runs(vs, id, since);
        OneMoreTime(low, k);
        OneMoreTime(high, k);
      }
    }
    WholePrefix(vs);
  }

  lemma {:induction false} OneMoreTime(x: int, k: nat)
    ensures x * (k + 1) == x * k + x
  {}

  /** AVG over runs; only taken over a group with a row. */
  function Average(fl: real -> real, count: nat, sum: int): real
    requires count > 0
  {
    fl(sum as real / count as real)
  }

  /** At least 3 runs in the last 10 minutes, averaging more than 3 times the 24-hour average. */
  predicate Spikes(fl: real -> real, vs: seq<Invocation>, id: string, now: int) {
    var (recent, recentSum) := Timings(vs, id, now - 600);
    var (base, baseSum) := Timings(vs, id, now - 86400);
    recent >= 3 && base > 0 && Average(fl, base, baseSum) > 0.0
    && fl(Average(fl, recent, recentSum) / Average(fl, base, baseSum)) > 3.0
  }

  // ---- what rounding leaves of the thresholds ----

  /** 2 to the power -53: the relative error of rounding to the nearest double. */
  const ROUNDOFF: real := 1.0 / 9007199254740992.0

  /** Neither tiny nor huge. */
  predicate Middling(x: real) {
    0.0000000000001 <= x <= 10000000000000.0
  }

  predicate Near(r: real, x: real) {
    (1.0 - ROUNDOFF) * x <= r <= (1.0 + ROUNDOFF) * x
  }

  /** Zero is exact, and what is neither tiny nor huge is off by at most the relative error. */
  ghost predicate Rounds(fl: real -> real) {
    fl(0.0) == 0.0
    && forall x | 0.000000000000000000000000000001 <= x <= 1000000000000000000000000000000.0 :: Near(fl(x), x)
  }

  /** Below this the counts and sums are far from where rounding could hide a unit. */
  const MANY := 1000000000000

  lemma {:induction false} QuotientBounds(p: real, q: real, low: real, high: real)
    requires q > 0.0 && low * q <= p <= high * q
    ensures low <= p / q <= high
  {
    var r := p / q;
    assert r * q == p;
    if r < low { Scale(low, r, q); }
    if r > high { Scale(r, high, q); }
  }

  lemma {:induction false} Scale(x: real, y: real, k: real)
    requires x > y && k > 0.0
    ensures x * k > y * k
  {}

  lemma {:induction false} RoundedQuotient(fl: real -> real, p: real, q: real)
    requires Rounds(fl) && Middling(p) && Middling(q)
    ensures Near(fl(p / q), p / q) && (p / q) * q == p && p / q > 0.0
  {
    QuotientBounds(p, q, 0.00000000000000000000000001, 100000000000000000000000000.0);
  }

  lemma {:induction false} RoundedAverage(fl: real -> real, count: int, sum: int)
    requires Rounds(fl) && 0 < count < MANY && 0 < sum < MANY
    ensures var x := sum as real / count as real;
            Near(fl(x), x) && x * count as real == sum as real && Middling(fl(x))
  {
    QuotientBounds(sum as real, count as real, 0.000000000001, 1000000000000.0);
    RoundedQuotient(fl, sum as real, count as real);
  }

  /** What the query counts: completed invocations of the function in the window, and the failed ones of them. */
  function Completed(vs: seq<Invocation>, id: string, since: int): set<int> {
    set i | 0 <= i < |vs| && vs[i].functionId == id && vs[i].startedAt > since && vs[i].completed
  }

  function Failures(vs: seq<Invocation>, id: string, since: int): set<int> {
    set i | 0 <= i < |vs| && vs[i].functionId == id && vs[i].startedAt > since && vs[i].completed && !vs[i].success
  }

  lemma {:induction false} FinishesCount(vs: seq<Invocation>, id: string, since: int)
    ensures Finishes(vs, id, since) == (|Completed(vs, id, since)|, |Failures(vs, id, since)|)
  {
    var done := i => 0 <= i < |vs| && Finished(vs[i], id, since);
    var bad := i => 0 <= i < |vs| && Finished(vs[i], id, since) && !vs[i].success;
    for n := 0 to |vs|
      invariant Finishes(vs[..n], id, since) == (|Qualifying(n, done)|, |Qualifying(n, bad)|)
    {
      QualifyingNext(n, done);
      QualifyingNext(n, bad);
      NextPrefix(vs, n);
      FinishesNext(vs[..n], vs[n], id, since);
    }
    WholePrefix(vs);
    assert Qualifying(|vs|, done) == Completed(vs, id, since);
    assert Qualifying(|vs|, bad) == Failures(vs, id, since);
  }

  lemma {:induction false} FinishesNext(vs: seq<Invocation>, v: Invocation, id: string, since: int)
    ensures var (total, errors) := Finishes(vs, id, since);
            Finishes(vs + [v], id, since) ==
              (total + if Finished(v, id, since) then 1 else 0,
               errors + if Finished(v, id, since) && !v.success then 1 else 0)
  {
    assert (vs + [v])[..|vs|] == vs;
  }

  /** Exactly at least 5 completed and more than a fifth of them failed: rounding moves no rate across the threshold. */
  lemma {:induction false} ErrorProneExactly(fl: real -> real, vs: seq<Invocation>, id: string, now: int)
    requires Rounds(fl) && |Completed(vs, id, now - 600)| < MANY
    ensures ErrorProne(fl, vs, id, now) <==>
            |Completed(vs, id, now - 600)| >= 5
            && 5 * |Failures(vs, id, now - 600)| > |Completed(vs, id, now - 600)|
  {
    var (total, errors) := Finishes(vs, id, now - 600);
    FinishesCount(vs, id, now - 600);
    FailuresAmong(vs, id, now - 600);
    if total >= 5 { RateAgainstFifth(fl, errors, total); }
  }

  /** A function whose runs all succeed is never reported, and one whose runs all fail is, from 5 runs on. */
  lemma {:induction false} AllOrNone(fl: real -> real, vs: seq<Invocation>, id: string, now: int)
    requires Rounds(fl) && |Completed(vs, id, now - 600)| < MANY
    ensures (forall i | i in Completed(vs, id, now - 600) :: vs[i].success) ==> !ErrorProne(fl, vs, id, now)
    ensures |Completed(vs, id, now - 600)| >= 5 && (forall i | i in Completed(vs, id, now - 600) :: !vs[i].success) ==>
              ErrorProne(fl, vs, id, now)
  {
    ErrorProneExactly(fl, vs, id, now);
    if forall i | i in Completed(vs, id, now - 600) :: vs[i].success {
      assert Failures(vs, id, now - 600) == {};
    }
    if forall i | i in Completed(vs, id, now - 600) :: !vs[i].success {
      assert Failures(vs, id, now - 600) == Completed(vs, id, now - 600);
    }
  }

  lemma {:induction false} FailuresAmong(vs: seq<Invocation>, id: string, since: int)
    ensures Finishes(vs, id, since).1 <= Finishes(vs, id, since).0
  {
    if vs != [] { FailuresAmong(vs[..|vs| - 1], id, since); }
  }

  lemma {:induction false} RateAgainstFifth(fl: real -> real, errors: int, total: int)
    requires Rounds(fl) && 0 <= errors <= total && 0 < total < MANY
    ensures fl(errors as real / total as real) > fl(0.20) <==> 5 * errors > total
  {
    var e, n := errors as real, total as real;
    assert Near(fl(0.20), 0.20);
    if errors == 0 {
      assert e / n == 0.0;
    } else {
      RoundedQuotient(fl, e, n);
      if 5 * errors > total {
        QuotientBounds(e, n, 0.2000000000001, 1.0);
      } else if 5 * errors < total {
        QuotientBounds(e, n, 0.0, 0.1999999999999);
      } else {
        QuotientBounds(e, n, 0.20, 0.20);
      }
    }
  }

  lemma {:induction false} WindowInside(vs: seq<Invocation>, id: string, early: int, late: int)
    requires early <= late
    requires forall i | 0 <= i < |vs| :: vs[i].executionMs.Some? ==> vs[i].executionMs.value >= 0
    ensures Timings(vs, id, late).0 <= Timings(vs, id, early).0
    ensures 0 <= Timings(vs, id, late).1 <= Timings(vs, id, early).1
  {
    if vs != [] { WindowInside(vs[..|vs| - 1], id, early, late); }
  }

  /** When both windows have the same total, a run that is only in the longer one took no time. */
  lemma {:induction false} OlderTookNothing(vs: seq<Invocation>, id: string, early: int, late: int, i: int)
    requires early <= late && Timings(vs, id, early).1 == Timings(vs, id, late).1
    requires forall j | 0 <= j < |vs| :: vs[j].executionMs.Some? ==> vs[j].executionMs.value >= 0
    requires i in Runs(vs, id, early) && i !in Runs(vs, id, late)
    ensures vs[i].executionMs == Some(0)
  {
    var n := |vs| - 1;
    assert forall j | 0 <= j < n :: vs[..n][j] == vs[j];
    WindowInside(vs[..n], id, early, late);
    if i < n {
      OlderTookNothing(vs[..n], id, early, late, i);
    }
  }

  /** Three times the smaller average, less what the three roundings can hide. */
  const THREE: real := 3.0 * (1.0 - 3.0 * ROUNDOFF)

  lemma {:induction false} TimesDivisor(k: real, z: real, b: real, a: real)
    requires k * z > 3.0 && b > 0.0 && z * b == a
    ensures k * a > 3.0 * b
  {
    Scale(k * z, 3.0, b);
    Regroup(k, z, b);
  }

  /** The roundings of two averages and of their quotient, taken off. */
  lemma {:induction false} RatioUnrounded(x: real, a: real, y: real, b: real, z: real, q: real)
    requires b > 0.0 && z * b == a && Near(a, x) && Near(b, y) && Near(q, z) && q > 3.0
    ensures x > THREE * y
  {
    var up := 1.0 + ROUNDOFF;
    assert y > 0.0;
    TimesDivisor(up, z, b, a);
    assert up * up * x > 3.0 * (1.0 - ROUNDOFF) * y;
  }

  /** The divisions multiplied out. */
  lemma {:induction false} RatioAsProducts(k: real, n: real, s: real, x: real, m: real, t: real, y: real)
    requires n > 0.0 && m > 0.0 && x * n == s && y * m == t && x > k * y
    ensures s * m > k * (t * n)
  {
    Scale(x, k * y, n);
    Scale(x * n, k * y * n, m);
    Reorder(k, y, n, m);
  }

  lemma {:induction false} Reorder(k: real, y: real, n: real, m: real)
    ensures k * y * n * m == k * (y * m * n)
  {}

  /** Counts decide: at most a unit is lost in rounding. */
  lemma {:induction false} CountsFromProducts(n: int, s: int, m: int, t: int)
    requires 0 < n < MANY && 0 < s <= t < MANY && 0 < m < MANY
    requires s as real * m as real > THREE * (t as real * n as real)
    ensures m > 3 * n || (m == 3 * n && s == t)
  {
    MoreThanShare(THREE, s as real, m as real, t as real, n as real);
    assert m >= 3 * n;
    if m == 3 * n {
      assert s as real * m as real == n as real * (3.0 * s as real);
      assert THREE * (t as real * n as real) == n as real * (THREE * t as real);
      Cancel(n as real, 3.0 * s as real, THREE * t as real);
    }
  }

  lemma {:induction false} Regroup(k: real, x: real, y: real)
    ensures k * x * y == k * (x * y)
  {}

  lemma {:induction false} AtLeast(s: real, t: real, n: real)
    requires s <= t && n > 0.0
    ensures s * n <= t * n
  {}

  lemma {:induction false} MoreThanShare(k: real, s: real, m: real, t: real, n: real)
    requires k > 0.0 && 0.0 < s <= t && n > 0.0 && s * m > k * (t * n)
    ensures m > k * n
  {
    AtLeast(s, t, k * n);
    Regroup(t, k, n);
    Regroup(k, t, n);
    Cancel(s, m, k * n);
  }

  lemma {:induction false} Cancel(k: real, x: real, y: real)
    requires k > 0.0 && k * x > k * y
    ensures x > y
  {}

  lemma {:induction false} ZeroRatio(fl: real -> real, n: real, b: real)
    requires Rounds(fl) && n > 0.0 && b > 0.0
    ensures fl(fl(0.0 / n) / b) == 0.0
  {}

  lemma {:induction false} RoundedRatio(fl: real -> real, x: real, y: real)
    requires Rounds(fl) && Near(fl(x), x) && Near(fl(y), y) && Middling(fl(x)) && Middling(fl(y))
    requires fl(fl(x) / fl(y)) > 3.0
    ensures x > THREE * y
  {
    RoundedQuotient(fl, fl(x), fl(y));
    RatioUnrounded(x, fl(x), y, fl(y), fl(x) / fl(y), fl(fl(x) / fl(y)));
  }

  lemma {:induction false} RatioOfSums(fl: real -> real, n: int, s: int, m: int, t: int)
    requires Rounds(fl) && 0 < n < MANY && 0 < m < MANY && 0 < s < MANY && 0 < t < MANY
    requires Average(fl, m, t) > 0.0 && fl(Average(fl, n, s) / Average(fl, m, t)) > 3.0
    ensures s as real * m as real > THREE * (t as real * n as real)
  {
    var x, y := s as real / n as real, t as real / m as real;
    RoundedAverage(fl, n, s);
    RoundedAverage(fl, m, t);
    RoundedRatio(fl, x, y);
    RatioAsProducts(THREE, n as real, s as real, x, m as real, t as real, y);
  }

  lemma {:induction false} SpikeRatio(fl: real -> real, n: int, s: int, m: int, t: int)
    requires Rounds(fl) && 0 < n < MANY && 0 < m < MANY && 0 <= s <= t < MANY
    requires Average(fl, m, t) > 0.0 && fl(Average(fl, n, s) / Average(fl, m, t)) > 3.0
    ensures m > 3 * n || (m == 3 * n && s == t)
  {
    if s == 0 {
      ZeroRatio(fl, n as real, Average(fl, m, t));
      assert false;
    } else {
      RatioOfSums(fl, n, s, m, t);
      CountsFromProducts(n, s, m, t);
    }
  }

  /**
   * A reported latency spike means that the successful runs of the 24-hour baseline outnumber those of the
   * last 10 minutes by more than three to one - or are exactly three times as many, and every older run took
   * 0 ms, so that the exact ratio is 3 and rounding lifts it. There are at least 9 of them.
   */
  lemma {:induction false} SpikeNeedsBaseline(fl: real -> real, vs: seq<Invocation>, id: string, now: int)
    requires Rounds(fl) && Spikes(fl, vs, id, now)
    requires forall i | 0 <= i < |vs| :: vs[i].executionMs.Some? ==> vs[i].executionMs.value >= 0
    requires Timings(vs, id, now - 86400).0 < MANY && Timings(vs, id, now - 86400).1 < MANY
    ensures var (recent, recentSum) := Timings(vs, id, now - 600);
            var (base, baseSum) := Timings(vs, id, now - 86400);
            && base == |Runs(vs, id, now - 86400)| && recent == |Runs(vs, id, now - 600)| && base >= 9
            && (base > 3 * recent
                || (base == 3 * recent
                    && forall i | i in Runs(vs, id, now - 86400) - Runs(vs, id, now - 600) ::
                         vs[i].executionMs == Some(0)))
  {
    var (recent, recentSum) := Timings(vs, id, now - 600);
    var (base, baseSum) := Timings(vs, id, now - 86400);
    WindowInside(vs, id, now - 86400, now - 600);
    SpikeRatio(fl, recent, recentSum, base, baseSum);
    TimingsCount(vs, id, now - 86400);
    TimingsCount(vs, id, now - 600);
    if recentSum == baseSum {
      forall i | i in Runs(vs, id, now - 86400) - Runs(vs, id, now - 600) ensures vs[i].executionMs == Some(0) {
        OlderTookNothing(vs, id, now - 86400, now - 600, i);
      }
    }
  }

  /** Three times the smaller average, and more than the three roundings can take away. */
  const OVER_THREE: real := 3.0 * (1.0 + 4.0 * ROUNDOFF)

  lemma {:induction false} ProductsAsRatio(k: real, n: real, s: real, x: real, m: real, t: real, y: real)
    requires n > 0.0 && m > 0.0 && x * n == s && y * m == t && s * m > k * (t * n)
    ensures x > k * y
  {
    if x <= k * y {
      AtLeast(x, k * y, n);
      AtLeast(x * n, k * y * n, m);
      Reorder(k, y, n, m);
    }
  }

  lemma {:induction false} DivisorOut(k: real, z: real, b: real, a: real)
    requires k * a > 3.0 * b && b > 0.0 && z * b == a
    ensures k * z > 3.0
  {
    if k * z <= 3.0 {
      AtLeast(k * z, 3.0, b);
      Regroup(k, z, b);
    }
  }

  lemma {:induction false} RatioRounded(fl: real -> real, x: real, y: real)
    requires Rounds(fl) && Near(fl(x), x) && Near(fl(y), y) && Middling(fl(x)) && Middling(fl(y))
    requires x > OVER_THREE * y
    ensures fl(fl(x) / fl(y)) > 3.0
  {
    RoundedQuotient(fl, fl(x), fl(y));
    assert y > 0.0;
    DivisorOut(1.0 - ROUNDOFF, fl(x) / fl(y), fl(y), fl(x));
  }

  lemma {:induction false} SumsOfRatio(fl: real -> real, n: int, s: int, m: int, t: int)
    requires Rounds(fl) && 0 < n < MANY && 0 < m < MANY && 0 < s < MANY && 0 < t < MANY
    requires s as real * m as real > OVER_THREE * (t as real * n as real)
    ensures Average(fl, m, t) > 0.0 && fl(Average(fl, n, s) / Average(fl, m, t)) > 3.0
  {
    var x, y := s as real / n as real, t as real / m as real;
    RoundedAverage(fl, n, s);
    RoundedAverage(fl, m, t);
    ProductsAsRatio(OVER_THREE, n as real, s as real, x, m as real, t as real, y);
    RatioRounded(fl, x, y);
  }

  /** A ratio that is clearly above 3, counted exactly, is reported. */
  lemma {:induction false} ClearSpikeIsReported(fl: real -> real, vs: seq<Invocation>, id: string, now: int)
    requires Rounds(fl) && Timings(vs, id, now - 600).0 >= 3
    requires forall i | 0 <= i < |vs| :: vs[i].executionMs.Some? ==> vs[i].executionMs.value >= 0
    requires Timings(vs, id, now - 86400).0 < MANY && 0 < Timings(vs, id, now - 86400).1 < MANY
    requires var (recent, recentSum) := Timings(vs, id, now - 600);
             var (base, baseSum) := Timings(vs, id, now - 86400);
             recentSum as real * base as real > OVER_THREE * (baseSum as real * recent as real)
    ensures Spikes(fl, vs, id, now)
  {
    var (recent, recentSum) := Timings(vs, id, now - 600);
    var (base, baseSum) := Timings(vs, id, now - 86400);
    WindowInside(vs, id, now - 86400, now - 600);
    AtLeast(0.0, baseSum as real, recent as real);
    SumsOfRatio(fl, recent, recentSum, base, baseSum);
  }

  // ---- a spike at exactly three to one ----

  /** The doubles nearest to 17/3 and to 17/9. */
  const SEVENTEEN_THIRDS: real := 6380099472108203.0 / 1125899906842624.0
  const SEVENTEEN_NINTHS: real := 4253399648072135.0 / 2251799813685248.0

  /** The nearest double, at these two and at the quotient of the two, which is the double after 3. */
  function NearestDouble(x: real): real {
    if x == 17.0 / 3.0 then SEVENTEEN_THIRDS
    else if x == 17.0 / 9.0 then SEVENTEEN_NINTHS
    else if x == SEVENTEEN_THIRDS / SEVENTEEN_NINTHS then 6755399441055745.0 / 2251799813685248.0
    else x
  }

  lemma {:induction false} NearestDoubleRounds()
    ensures Rounds(NearestDouble)
  {
    forall x | 0.000000000000000000000000000001 <= x <= 1000000000000000000000000000000.0
      ensures Near(NearestDouble(x), x)
    {}
  }

  function Success(id: string, at: int, ms: int): Invocation {
    Invocation(id, at, true, true, Some(ms))
  }

  /** k successful runs of 0 ms. */
  function Instant(id: string, at: int, k: nat): seq<Invocation> {
    if k == 0 then [] else Instant(id, at, k - 1) + [Success(id, at, 0)]
  }

  lemma {:induction false} InstantTimings(id: string, at: int, k: nat, since: int)
    ensures Timings(Instant(id, at, k), id, since) == (if at > since then k else 0, 0)
  {
    if k > 0 {
      InstantTimings(id, at, k - 1, since);
      TimingsNext(Instant(id, at, k - 1), Success(id, at, 0), id, since);
    }
  }

  /** Six runs of 0 ms an hour ago, then 5, 5 and 7 ms in the last minutes. */
  function ThreeToOne(id: string, now: int): seq<Invocation> {
    Instant(id, now - 3600, 6) + [Success(id, now - 60, 5)] + [Success(id, now - 60, 5)] + [Success(id, now - 60, 7)]
  }

  lemma {:induction false} ThreeToOneTimings(id: string, now: int, since: int)
    requires since < now - 60
    ensures Timings(ThreeToOne(id, now), id, since) == (if now - 3600 > since then 9 else 3, 17)
  {
    var older, five := Instant(id, now - 3600, 6), Success(id, now - 60, 5);
    InstantTimings(id, now - 3600, 6, since);
    TimingsNext(older, five, id, since);
    TimingsNext(older + [five], five, id, since);
    TimingsNext(older + [five] + [five], Success(id, now - 60, 7), id, since);
  }

  /** A spike is reported with exactly nine baseline successes for three recent ones. */
  lemma {:induction false} SpikeAtThreeToOne(id: string, now: int)
    ensures Rounds(NearestDouble) && Spikes(NearestDouble, ThreeToOne(id, now), id, now)
    ensures Timings(ThreeToOne(id, now), id, now - 600) == (3, 17)
    ensures Timings(ThreeToOne(id, now), id, now - 86400) == (9, 17)
  {
    NearestDoubleRounds();
    ThreeToOneTimings(id, now, now - 600);
    ThreeToOneTimings(id, now, now - 86400);
  }

  // ---- the anomaly log ----

  predicate Open(a: Anomaly, kind: string, refId: string) {
    a.kind == kind && a.refId == refId && a.resolvedAt.None?
  }

  /** The deduplication query: an unresolved anomaly detected in the last 30 minutes. */
  predicate Active(log: seq<Anomaly>, kind: string, refId: string, now: int) {
    exists i | 0 <= i < |log| :: Open(log[i], kind, refId) && log[i].detectedAt > now - 1800
  }

  /** INSERT INTO anomaly_events; an id already there makes it a silent no-op. */
  function Inserted(log: seq<Anomaly>, a: Anomaly): seq<Anomaly> {
    if exists i | 0 <= i < |log| :: log[i].id == a.id then log else log + [a]
  }

  /** ResolveAnomaly */
  function Resolved(log: seq<Anomaly>, id: string, now: int): (r: seq<Anomaly>)
    ensures |r| == |log|
  {
    seq(|log|, i requires 0 <= i < |log| =>
      if log[i].id == id && log[i].resolvedAt.None? then log[i].(resolvedAt := Some(now)) else log[i])
  }

  /** Resolving dates exactly the unresolved anomalies with that id, and changes nothing else. */
  lemma {:induction false} ResolvedMeans(log: seq<Anomaly>, id: string, now: int, i: nat)
    requires i < |log|
    ensures var before, after := log[i], Resolved(log, id, now)[i];
            && after.id == before.id && after.kind == before.kind && after.refId == before.refId
            && after.severity == before.severity && after.detectedAt == before.detectedAt
            && after.resolvedAt ==
               if before.id == id && before.resolvedAt == None then Some(now) else before.resolvedAt
  {}

  /** recordAnomaly has asked and is about to insert. */
  datatype Pending = Pending(kind: string, refId: string, severity: string, asked: int)

  datatype Watch = Watch(log: seq<Anomaly>, pending: Option<Pending>, now: int)

  datatype LogEvent =
    | Ask(kind: string, refId: string, severity: string, at: int)
    | Insert(id: string, at: int)
    | Resolve(id: string, at: int)

  /** The worker is one goroutine: it asks, then inserts. Resolving may fall in between. The clock never goes back. */
  predicate CanHappen(w: Watch, e: LogEvent) {
    e.at >= w.now && (e.Ask? ==> w.pending.None?) && (e.Insert? ==> w.pending.Some?)
  }

  function Happened(w: Watch, e: LogEvent): Watch
    requires CanHappen(w, e)
  {
    match e
    case Ask(kind, refId, severity, at) =>
      Watch(w.log, if Active(w.log, kind, refId, at) then None else Some(Pending(kind, refId, severity, at)), at)
    case Insert(id, at) =>
      var p := w.pending.value;
      Watch(Inserted(w.log, Anomaly(id, p.kind, p.refId, p.severity, at, None)), None, at)
    case Resolve(id, at) => Watch(Resolved(w.log, id, at), w.pending, at)
  }

  predicate IsHistory(ws: seq<Watch>, es: seq<LogEvent>) {
    |ws| == |es| + 1 && forall i | 0 <= i < |es| :: CanHappen(ws[i], es[i]) && ws[i + 1] == Happened(ws[i], es[i])
  }

  /** Both unresolved, of the same type and reference. */
  predicate SameCase(a: Anomaly, b: Anomaly) {
    a.kind == b.kind && a.refId == b.refId && a.resolvedAt.None? && b.resolvedAt.None?
  }

  predicate Apart(a: Anomaly, b: Anomaly) {
    SameCase(a, b) ==> b.detectedAt - a.detectedAt >= 1800
  }

  predicate Spaced(log: seq<Anomaly>) {
    forall i, j | 0 <= i < j < |log| :: Apart(log[i], log[j])
  }

  predicate Past(log: seq<Anomaly>, now: int) {
    forall i | 0 <= i < |log| :: log[i].detectedAt <= now
  }

  predicate WatchInv(w: Watch) {
    && Spaced(w.log) && Past(w.log, w.now)
    && (w.pending.Some? ==>
          var p := w.pending.value; p.asked <= w.now && !Active(w.log, p.kind, p.refId, p.asked))
  }

  lemma {:induction false} HappenedKeeps(w: Watch, e: LogEvent)
    requires WatchInv(w) && CanHappen(w, e)
    ensures WatchInv(Happened(w, e))
  {}

  lemma {:induction false} HistoryKeeps(ws: seq<Watch>, es: seq<LogEvent>)
    requires IsHistory(ws, es) && ws[0].log == [] && ws[0].pending.None?
    ensures WatchInv(ws[|es|])
    decreases |es|
  {
    if es != [] {
      var n := |es| - 1;
      var before := ws[..n + 1];
      assert forall i | 0 <= i < n ::
            CanHappen(before[i], es[..n][i]) && before[i + 1] == Happened(before[i], es[..n][i]);
      HistoryKeeps(before, es[..n]);
      HappenedKeeps(ws[n], es[n]);
    }
  }

  /**
   * In every history of recording and resolving under a clock that never goes back, two unresolved
   * anomalies with the same type and reference were detected at least 30 minutes apart.
   */
  lemma {:induction false} UnresolvedAreSpaced(ws: seq<Watch>, es: seq<LogEvent>, i: nat, j: nat)
    requires IsHistory(ws, es) && ws[0].log == [] && ws[0].pending.None?
    requires i < j < |ws[|es|].log|
    requires SameCase(ws[|es|].log[i], ws[|es|].log[j])
    ensures ws[|es|].log[j].detectedAt - ws[|es|].log[i].detectedAt >= 1800
  {
    HistoryKeeps(ws, es);
    assert Apart(ws[|es|].log[i], ws[|es|].log[j]);
  }

  // ---- recordAnomaly as one call ----

  /** The log with the counts of clock readings and ids taken so far. */
  datatype Journal = Journal(log: seq<Anomaly>, ticks: nat, ids: nat)

  function Ticked(j: Journal): Journal {
    j.(ticks := j.ticks + 1)
  }

  /** recordAnomaly: one clock reading to ask and, when nothing is active, one to insert. */
  function Noted(clock: nat -> int, newId: nat -> string, j: Journal, kind: string, refId: string,
          severity: string): Journal {
    if Active(j.log, kind, refId, clock(j.ticks)) then Ticked(j)
    else
      var a := Anomaly(newId(j.ids), kind, refId, severity, clock(j.ticks + 1), None);
      Journal(Inserted(j.log, a), j.ticks + 2, j.ids + 1)
  }

  function NotedAll(clock: nat -> int, newId: nat -> string, j: Journal, kind: string, refs: seq<string>,
          severity: string): Journal {
    if refs == [] then j
    else Noted(clock, newId, NotedAll(clock, newId, j, kind, refs[..|refs| - 1], severity), kind, refs[|refs| - 1],
          severity)
  }

  ghost predicate NeverBack(clock: nat -> int) {
    forall i: nat, j: nat | i <= j :: clock(i) <= clock(j)
  }

  /** The call is an Ask and, when it comes to that, an Insert. */
  lemma {:induction false} NotedIsAskInsert(clock: nat -> int, newId: nat -> string, j: Journal, kind: string,
          refId: string, severity: string, now: int)
    requires NeverBack(clock) && now <= clock(j.ticks)
    ensures var w, ask := Watch(j.log, None, now), Ask(kind, refId, severity, clock(j.ticks));
            && CanHappen(w, ask)
            && var asked := Happened(w, ask);
               if asked.pending.None? then asked.log == Noted(clock, newId, j, kind, refId, severity).log
               else CanHappen(asked, Insert(newId(j.ids), clock(j.ticks + 1)))
                    && Happened(asked, Insert(newId(j.ids), clock(j.ticks + 1))).log
                          == Noted(clock, newId, j, kind, refId, severity).log
  {}

  /**
   * After recordAnomaly, unless the generated id was taken, an unresolved anomaly of the last 30 minutes
   * is on record.
   */
  lemma {:induction false} NotedIsActive(clock: nat -> int, newId: nat -> string, j: Journal, kind: string,
          refId: string, severity: string)
    requires NeverBack(clock) && forall i | 0 <= i < |j.log| :: j.log[i].id != newId(j.ids)
    ensures Active(Noted(clock, newId, j, kind, refId, severity).log, kind, refId, clock(j.ticks))
  {
    if !Active(j.log, kind, refId, clock(j.ticks)) {
      var log := Noted(clock, newId, j, kind, refId, severity).log;
      assert clock(j.ticks) <= clock(j.ticks + 1);
      assert Open(log[|j.log|], kind, refId) && log[|j.log|].detectedAt == clock(j.ticks + 1);
    }
  }

  /** The log has an unresolved anomaly of that kind and reference, detected after a moment. */
  ghost predicate OnRecord(log: seq<Anomaly>, kind: string, refId: string, since: int) {
    exists a | a in log :: a.kind == kind && a.refId == refId && a.resolvedAt == None && a.detectedAt > since
  }

  /**
   * recordAnomaly adds one unresolved anomaly, dated by the second clock reading, exactly when none of its kind and
   * reference from the 30 minutes before the first is unresolved and the generated id is free.
   */
  lemma {:induction false} NotedMeans(clock: nat -> int, newId: nat -> string, j: Journal, kind: string,
          refId: string, severity: string)
    ensures var log := Noted(clock, newId, j, kind, refId, severity).log;
            if !OnRecord(j.log, kind, refId, clock(j.ticks) - 1800) && forall a | a in j.log :: a.id != newId(j.ids)
            then log == j.log + [Anomaly(newId(j.ids), kind, refId, severity, clock(j.ticks + 1), None)]
            else log == j.log
  {
    ActiveIsOnRecord(j.log, kind, refId, clock(j.ticks));
    if exists i | 0 <= i < |j.log| :: j.log[i].id == newId(j.ids) {
      assert exists a | a in j.log :: a.id == newId(j.ids);
    }
  }

  lemma {:induction false} ActiveIsOnRecord(log: seq<Anomaly>, kind: string, refId: string, now: int)
    ensures Active(log, kind, refId, now) <==> OnRecord(log, kind, refId, now - 1800)
  {
    if i :| 0 <= i < |log| && Open(log[i], kind, refId) && log[i].detectedAt > now - 1800 {
      assert log[i] in log;
    }
    if a :| a in log && a.kind == kind && a.refId == refId && a.resolvedAt == None && a.detectedAt > now - 1800 {
      var i :| 0 <= i < |log| && log[i] == a;
      assert Open(log[i], kind, refId);
    }
  }

  /** The generated ids do not repeat, and the log has none of those to come. */
  ghost predicate FreshIds(newId: nat -> string, j: Journal) {
    && (forall m: nat, n: nat | m != n :: newId(m) != newId(n))
    && (forall a, n: nat | a in j.log && n >= j.ids :: a.id != newId(n))
  }

  /** The log only grew, by unresolved anomalies of that kind for some of the references. */
  predicate Grew(log: seq<Anomaly>, more: seq<Anomaly>, kind: string, refs: seq<string>, severity: string) {
    |more| >= |log| && more[..|log|] == log
    && forall i | |log| <= i < |more| ::
         more[i].kind == kind && more[i].refId in refs && more[i].severity == severity && more[i].resolvedAt == None
  }

  ghost predicate AllOnRecord(log: seq<Anomaly>, kind: string, refs: seq<string>, since: int) {
    forall k | 0 <= k < |refs| :: OnRecord(log, kind, refs[k], since)
  }

  lemma {:induction false} NotedKeepsFresh(clock: nat -> int, newId: nat -> string, j: Journal, kind: string,
          refId: string, severity: string)
    requires FreshIds(newId, j)
    ensures FreshIds(newId, Noted(clock, newId, j, kind, refId, severity))
  {}

  /**
   * A whole check: afterwards every reported reference is on record, whatever was on record before still is as it
   * was, and everything added is an unresolved anomaly of this kind for a reported reference.
   */
  lemma {:induction false} AllNoted(clock: nat -> int, newId: nat -> string, j: Journal, kind: string,
          refs: seq<string>, severity: string)
    requires NeverBack(clock) && FreshIds(newId, j)
    ensures var after := NotedAll(clock, newId, j, kind, refs, severity);
            && FreshIds(newId, after) && after.ticks >= j.ticks
            && Grew(j.log, after.log, kind, refs, severity)
            && AllOnRecord(after.log, kind, refs, clock(j.ticks) - 1800)
  {
    if refs == [] {
      assert j.log[..|j.log|] == j.log;
    } else {
      var n := |refs| - 1;
      var before := NotedAll(clock, newId, j, kind, refs[..n], severity);
      AllNoted(clock, newId, j, kind, refs[..n], severity);
      NotedKeepsFresh(clock, newId, before, kind, refs[n], severity);
      OneNoted(clock, newId, before, kind, refs[n], severity);
      var after := Noted(clock, newId, before, kind, refs[n], severity);
      GrewMore(j.log, before.log, after.log, kind, refs, severity);
      AllStayOnRecord(before.log, after.log, kind, refs, clock(j.ticks) - 1800);
      SinceEarlier(after.log, kind, refs[n], clock(before.ticks) - 1800, clock(j.ticks) - 1800);
    }
  }

  lemma {:induction false} GrewMore(log: seq<Anomaly>, before: seq<Anomaly>, after: seq<Anomaly>, kind: string,
          refs: seq<string>, severity: string)
    requires refs != [] && Grew(log, before, kind, refs[..|refs| - 1], severity)
    requires Grew(before, after, kind, [refs[|refs| - 1]], severity)
    ensures Grew(log, after, kind, refs, severity)
  {
    assert after[..|log|] == before[..|log|] by { assert after[..|before|][..|log|] == after[..|log|]; }
    forall i | |log| <= i < |after| ensures after[i].refId in refs {
      if i < |before| {
        assert after[i] == after[..|before|][i];
        assert before[i].refId in refs[..|refs| - 1];
      }
    }
    forall i | |log| <= i < |before| ensures after[i] == before[i] {
      assert after[i] == after[..|before|][i];
    }
  }

  lemma {:induction false} AllStayOnRecord(log: seq<Anomaly>, more: seq<Anomaly>, kind: string, refs: seq<string>,
          since: int)
    requires refs != [] && AllOnRecord(log, kind, refs[..|refs| - 1], since)
    requires |more| >= |log| && more[..|log|] == log
    ensures forall k | 0 <= k < |refs| - 1 :: OnRecord(more, kind, refs[k], since)
  {
    forall k | 0 <= k < |refs| - 1 ensures OnRecord(more, kind, refs[k], since) {
      assert OnRecord(log, kind, refs[..|refs| - 1][k], since);
      StaysOnRecord(log, more, kind, refs[k], since);
    }
  }

  lemma {:induction false} SinceEarlier(log: seq<Anomaly>, kind: string, refId: string, since: int, earlier: int)
    requires OnRecord(log, kind, refId, since) && earlier <= since
    ensures OnRecord(log, kind, refId, earlier)
  {}

  lemma {:induction false} OneNoted(clock: nat -> int, newId: nat -> string, j: Journal, kind: string,
          refId: string, severity: string)
    requires NeverBack(clock) && FreshIds(newId, j)
    ensures var after := Noted(clock, newId, j, kind, refId, severity);
            && after.ticks >= j.ticks
            && OnRecord(after.log, kind, refId, clock(j.ticks) - 1800)
            && Grew(j.log, after.log, kind, [refId], severity)
  {
    NotedMeans(clock, newId, j, kind, refId, severity);
    if !OnRecord(j.log, kind, refId, clock(j.ticks) - 1800) {
      var a := Anomaly(newId(j.ids), kind, refId, severity, clock(j.ticks + 1), None);
      assert clock(j.ticks) <= clock(j.ticks + 1) && a in j.log + [a];
    }
  }

  lemma {:induction false} StaysOnRecord(log: seq<Anomaly>, more: seq<Anomaly>, kind: string, refId: string,
          since: int)
    requires OnRecord(log, kind, refId, since) && |more| >= |log| && more[..|log|] == log
    ensures OnRecord(more, kind, refId, since)
  {
    var a :| a in log && a.kind == kind && a.refId == refId && a.resolvedAt == None && a.detectedAt > since;
    var i :| 0 <= i < |log| && log[i] == a;
    assert more[i] == a;
  }

  // ---- switching flags off ----

  function Off(row: FlagRow): FlagRow {
    Normal(row).(enabled := false)
  }

  /** The listed flags whose write succeeds are off; everything else is as it was, but that "" may have become "ga". */
  predicate TurnedOff(before: Db, after: Db, keys: seq<string>, up: string -> bool) {
    && after.rules == before.rules && after.variants == before.variants && after.overrides == before.overrides
    && after.flags.Keys == before.flags.Keys
    && forall k | k in before.flags ::
         after.flags[k] == if k in keys && up(k) && before.flags[k].enabled then Off(before.flags[k])
               else before.flags[k]
  }

  /**
   * With every write succeeding, the listed flags answer "false" to every context and all other flags
   * answer as before.
   */
  lemma {:induction false} TurnedOffAnswers(before: Db, after: Db, keys: seq<string>, up: string -> bool, k: string,
          ctx: Ctx, answer: string)
    requires TurnedOff(before, after, keys, up) && forall key | key in keys :: up(key)
    ensures k in keys ==> (Allowed(after, k, ctx, answer) <==> answer == "false")
    ensures k !in keys ==> (Allowed(after, k, ctx, answer) <==> Allowed(before, k, ctx, answer))
  {}

  function SwitchedOff(v: FlagView): FlagView {
    v.(row := v.row.(enabled := false))
  }

  /** The cache is the intact one but for the flipped flags, which are on there and off here. */
  predicate SameBut(cache: map<string, FlagView>, intact: map<string, FlagView>, flipped: set<string>) {
    && cache.Keys == intact.Keys && flipped <= intact.Keys
    && (forall k | k in flipped :: intact[k].row.enabled && cache[k] == SwitchedOff(intact[k]))
    && (forall k | k in intact && k !in flipped :: cache[k] == intact[k])
  }

  /** A flag whose write failed still answers "false" until the next reload; the rest answer as the tables allow. */
  lemma {:induction false} FlippedAnswers(cache: map<string, FlagView>, intact: map<string, FlagView>, db: Db,
          flipped: set<string>, k: string, ctx: Ctx)
    requires SameBut(cache, intact, flipped) && Agrees(intact, db)
    ensures if k in flipped then EvaluateCached(cache, k, ctx) == "false"
          else Allowed(db, k, ctx, EvaluateCached(cache, k, ctx))
  {
    if k !in flipped {
      CacheAnswersAllowed(intact, db, k, ctx);
    }
  }

  // ---- the auto-disable loop ----

  /** The database, the flags that are on there but off in the cache, and what was announced. */
  datatype Guard = Guard(db: Db, flipped: set<string>, published: seq<string>)

  function SetOff(db: Db, key: string): Db
    requires key in db.flags
  {
    db.(flags := db.flags[key := Off(db.flags[key])])
  }

  /** The cached flag is on. */
  predicate OnInCache(db: Db, flipped: set<string>, key: string) {
    key in db.flags && db.flags[key].enabled && key !in flipped
  }

  /** One turn: a flag that is off in the cache is skipped; a write that succeeds reloads the whole cache. */
  function Guarded(g: Guard, key: string, up: bool): Guard {
    if !OnInCache(g.db, g.flipped, key) then g
    else if up then Guard(SetOff(g.db, key), {}, g.published + [key])
    else g.(flipped := g.flipped + {key})
  }

  function GuardedAll(g: Guard, keys: seq<string>, up: string -> bool): Guard {
    if keys == [] then g
    else Guarded(GuardedAll(g, keys[..|keys| - 1], up), keys[|keys| - 1], up(keys[|keys| - 1]))
  }

  predicate NoRepeats(keys: seq<string>) {
    forall i, j | 0 <= i < j < |keys| :: keys[i] != keys[j]
  }

  /**
   * From an agreeing cache the loop switches off exactly the listed flags whose write succeeds, and
   * announces those that were on.
   */
  lemma {:induction false} LoopTurnsOff(db: Db, published: seq<string>, keys: seq<string>, up: string -> bool)
    requires NoRepeats(keys)
    ensures var g := GuardedAll(Guard(db, {}, published), keys, up);
            && TurnedOff(db, g.db, keys, up)
            && (forall k | k in g.flipped :: k in keys && !up(k))
            && (forall k :: k in g.published <==>
                  k in published || (k in keys && up(k) && k in db.flags && db.flags[k].enabled))
  {
    if keys != [] {
      var n := |keys| - 1;
      LoopTurnsOff(db, published, keys[..n], up);
      assert keys == keys[..n] + [keys[n]];
      assert keys[n] !in keys[..n];
    }
  }

  /** Off as callers see it: off in the database or in the cache. */
  predicate IsOff(g: Guard, key: string) {
    !OnInCache(g.db, g.flipped, key)
  }

  predicate Fresh(g: Guard, keys: seq<string>, i: int)
    requires 0 <= i < |keys|
  {
    OnInCache(g.db, g.flipped, keys[i])
  }

  /** A flag left behind by an earlier failed write, skipped, and switched on again by the reload behind a later one. */
  predicate LeftOn(g: Guard, keys: seq<string>, i: int)
    requires 0 <= i < |keys|
  {
    && keys[i] in g.flipped && keys[i] in g.db.flags && g.db.flags[keys[i]].enabled
    && (forall j | 0 <= j < i :: !Fresh(g, keys, j))
    && (exists j | i < j < |keys| :: Fresh(g, keys, j))
  }

  predicate AnyFresh(g: Guard, keys: seq<string>) {
    exists j | 0 <= j < |keys| :: Fresh(g, keys, j)
  }

  lemma {:induction false} FrontFresh(g: Guard, keys: seq<string>)
    requires NoRepeats(keys) && keys != []
    ensures var n := |keys| - 1;
            && NoRepeats(keys[..n]) && keys[n] !in keys[..n]
            && (forall j | 0 <= j < n :: keys[..n][j] == keys[j] && Fresh(g, keys[..n], j) == Fresh(g, keys, j))
  {}

  lemma {:induction false} AnyFreshNext(g: Guard, keys: seq<string>)
    requires NoRepeats(keys) && keys != []
    ensures AnyFresh(g, keys) <==> AnyFresh(g, keys[..|keys| - 1]) || Fresh(g, keys, |keys| - 1)
  {
    FrontFresh(g, keys);
  }

  /** Until some listed flag is on in the cache nothing happens; then nothing is flipped any more. */
  lemma {:induction false} LoopSoFar(g: Guard, keys: seq<string>, up: string -> bool)
    requires NoRepeats(keys) && forall k | k in keys :: up(k)
    ensures var h := GuardedAll(g, keys, up);
            && (if AnyFresh(g, keys) then h.flipped == {} else h == g)
            && h.db.flags.Keys == g.db.flags.Keys
            && (forall k | k in g.db.flags && k !in keys :: h.db.flags[k] == g.db.flags[k])
  {
    if keys != [] {
      var n := |keys| - 1;
      FrontFresh(g, keys);
      LoopSoFar(g, keys[..n], up);
      AnyFreshNext(g, keys);
    }
  }

  /** Adding a key to the list matters to an earlier one only when the key is the first fresh one. */
  lemma {:induction false} LeftOnNext(g: Guard, keys: seq<string>, i: nat)
    requires NoRepeats(keys) && i < |keys| - 1
    ensures var front := keys[..|keys| - 1];
            LeftOn(g, keys, i) <==>
              if AnyFresh(g, front) || !Fresh(g, keys, |keys| - 1) then LeftOn(g, front, i)
              else keys[i] in g.flipped && keys[i] in g.db.flags && g.db.flags[keys[i]].enabled
  {
    FrontFresh(g, keys);
    var front := keys[..|keys| - 1];
    if LeftOn(g, keys, i) && AnyFresh(g, front) {
      var j :| 0 <= j < |front| && Fresh(g, front, j);
      assert Fresh(g, keys, j) && j != i;
    }
    if LeftOn(g, front, i) {
      var j :| i < j < |front| && Fresh(g, front, j);
      assert Fresh(g, keys, j);
    }
  }

  lemma {:induction false} LastEndsOff(g: Guard, keys: seq<string>, up: string -> bool)
    requires NoRepeats(keys) && keys != [] && forall k | k in keys :: up(k)
    ensures IsOff(GuardedAll(g, keys, up), keys[|keys| - 1])
  {}

  /**
   * With every write succeeding, a listed flag ends off if and only if it is not left on: flipped by an
   * earlier failed write and listed before the first flag that is on in the cache.
   */
  lemma {:induction false} EndsOffUnlessLeftOn(g: Guard, keys: seq<string>, up: string -> bool, i: nat)
    requires NoRepeats(keys) && i < |keys| && forall k | k in keys :: up(k)
    ensures IsOff(GuardedAll(g, keys, up), keys[i]) <==> !LeftOn(g, keys, i)
  {
    var n := |keys| - 1;
    if i == n {
      LastEndsOff(g, keys, up);
    } else {
      FrontFresh(g, keys);
      EndsOffUnlessLeftOn(g, keys[..n], up, i);
      LeftOnNext(g, keys, i);
      LastTurn(g, keys, up, i);
    }
  }

  lemma {:induction false} LastTurn(g: Guard, keys: seq<string>, up: string -> bool, i: nat)
    requires NoRepeats(keys) && i < |keys| - 1 && forall k | k in keys :: up(k)
    ensures var h, n := GuardedAll(g, keys[..|keys| - 1], up), |keys| - 1;
            IsOff(GuardedAll(g, keys, up), keys[i]) ==
              if AnyFresh(g, keys[..n]) || !Fresh(g, keys, n) then IsOff(h, keys[i])
              else !(keys[i] in g.flipped && keys[i] in g.db.flags && g.db.flags[keys[i]].enabled)
  {
    FrontFresh(g, keys);
    LoopSoFar(g, keys[..|keys| - 1], up);
    if !AnyFresh(g, keys[..|keys| - 1]) { assert !Fresh(g, keys[..|keys| - 1], i); }
  }

  function TwoFlags(): Db {
    var row := FlagRow("1", "", "", true, true, GA);
    Db(map["a" := row, "b" := row.(id := "2")], [], [], [])
  }

  /** Flag a fails and its write fails; at the next check a and b fail, b's write succeeds, and a is on again. */
  lemma {:induction false} SkippedThenSwitchedOn()
    ensures var first := GuardedAll(Guard(TwoFlags(), {}, []), ["a"], (_: string) => false);
            var second := GuardedAll(first, ["a", "b"], (_: string) => true);
            IsOff(first, "a") && OnInCache(second.db, second.flipped, "a")
  {
    var start := Guard(TwoFlags(), {}, []);
    var first := GuardedAll(start, ["a"], (_: string) => false);
    assert ["a"][..0] == [] && GuardedAll(start, [], (_: string) => false) == start;
    assert first == start.(flipped := {"a"});
    assert Fresh(first, ["a", "b"], 1) && "a" != "b";
    EndsOffUnlessLeftOn(first, ["a", "b"], (_: string) => true, 0);
  }
}
