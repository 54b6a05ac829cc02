/**
  The latency summary (store.go, LatencySummary): one pass over the rows of a window with running minimum,
  maximum and sum. Reals stand for the floating-point numbers.
 */
module LatencyStats {
  import opened Basics

  datatype Check = Check(latency: Option<real>, success: int)

  datatype Stats = Stats(min: real, avg: real, max: real)

  datatype Summary = Summary(count: nat, packetLoss: real, stats: Option<Stats>)

  // A check whose latency enters the statistics; a successful one without a latency does not.
  predicate Timed(c: Check) { c.success != 0 && c.latency.Some? }

  function Total(checks: seq<Check>, weight: Check -> real): real {
    if checks == [] then 0.0 else Total(checks[..|checks| - 1], weight) + weight(checks[|checks| - 1])
  }

  function IsFailed(c: Check): real { if c.success == 0 then 1.0 else 0.0 }

  function IsTimed(c: Check): real { if Timed(c) then 1.0 else 0.0 }

  function LatencyOf(c: Check): real { if Timed(c) then c.latency.value else 0.0 }

  predicate AtMostAll(x: real, checks: seq<Check>) { forall c :: c in checks && Timed(c) ==> x <= c.latency.value }

  predicate AtLeastAll(x: real, checks: seq<Check>) { forall c :: c in checks && Timed(c) ==> x >= c.latency.value }

  predicate Occurs(x: real, checks: seq<Check>) { exists c :: c in checks && Timed(c) && c.latency.value == x }

  predicate SomeTimed(checks: seq<Check>) { exists c :: c in checks && Timed(c) }

  // A quotient, or nothing of nothing.
  function Over(x: real, n: real): real { if n == 0.0 then 0.0 else x / n }

  // What a summary of the checks is, without an order of visiting them.
  predicate Summarizes(s: Summary, checks: seq<Check>) {
    && s.count == |checks|
    && s.packetLoss == Over(Total(checks, IsFailed), |checks| as real) * 100.0
    && (s.stats.Some? <==> SomeTimed(checks))
    && (s.stats.Some? ==>
          && Occurs(s.stats.value.min, checks) && AtMostAll(s.stats.value.min, checks)
          && Occurs(s.stats.value.max, checks) && AtLeastAll(s.stats.value.max, checks)
          && s.stats.value.avg == Over(Total(checks, LatencyOf), Total(checks, IsTimed)))
  }

  lemma TotalOneMore(checks: seq<Check>, c: Check, weight: Check -> real)
    ensures Total(checks + [c], weight) == Total(checks, weight) + weight(c)
  {
    assert (checks + [c])[..|checks|] == checks;
  }

  lemma OneMore(seen: seq<Check>, c: Check)
    ensures Total(seen + [c], IsFailed) == Total(seen, IsFailed) + IsFailed(c)
    ensures Total(seen + [c], IsTimed) == Total(seen, IsTimed) + IsTimed(c)
    ensures Total(seen + [c], LatencyOf) == Total(seen, LatencyOf) + LatencyOf(c)
    ensures SomeTimed(seen + [c]) <==> SomeTimed(seen) || Timed(c)
  {
    TotalOneMore(seen, c, IsFailed);
    TotalOneMore(seen, c, IsTimed);
    TotalOneMore(seen, c, LatencyOf);
    assert forall d :: d in seen ==> d in seen + [c];
    assert c in seen + [c];
  }

  // What the loop has computed from the checks seen.
  predicate Running(seen: seq<Check>, failed: nat, okCount: nat, min: real, max: real, sum: real) {
    && failed as real == Total(seen, IsFailed)
    && okCount as real == Total(seen, IsTimed)
    && sum == Total(seen, LatencyOf)
    && (okCount > 0 <==> SomeTimed(seen))
    && (okCount > 0 ==> Occurs(min, seen) && AtMostAll(min, seen) && Occurs(max, seen) && AtLeastAll(max, seen))
  }

  // The bounds after one more timed check.
  lemma OneMoreBound(seen: seq<Check>, c: Check, min: real, max: real)
    requires Timed(c) && SomeTimed(seen) ==> Occurs(min, seen) && AtMostAll(min, seen)
    requires Timed(c) && SomeTimed(seen) ==> Occurs(max, seen) && AtLeastAll(max, seen)
    ensures Timed(c) ==> var x := c.latency.value;
      var low, high := if SomeTimed(seen) && min <= x then min else x, if SomeTimed(seen) && max >= x then max else x;
      Occurs(low, seen + [c]) && AtMostAll(low, seen + [c]) && Occurs(high, seen + [c]) && AtLeastAll(high, seen + [c])
  {
    assert forall d :: d in seen ==> d in seen + [c];
    assert c in seen + [c];
  }

  lemma UntimedKeepsBounds(seen: seq<Check>, c: Check, min: real, max: real)
    requires !Timed(c) && Occurs(min, seen) && AtMostAll(min, seen) && Occurs(max, seen) && AtLeastAll(max, seen)
    ensures Occurs(min, seen + [c]) && AtMostAll(min, seen + [c]) && Occurs(max, seen + [c])
      && AtLeastAll(max, seen + [c])
  {
    assert forall d :: d in seen ==> d in seen + [c];
  }

  lemma RunningOn(seen: seq<Check>, c: Check, failed: nat, okCount: nat, min: real, max: real, sum: real)
    requires Running(seen, failed, okCount, min, max, sum)
    ensures c.success == 0 ==> Running(seen + [c], failed + 1, okCount, min, max, sum)
    ensures c.success != 0 && c.latency.None? ==> Running(seen + [c], failed, okCount, min, max, sum)
    ensures Timed(c) ==> var x := c.latency.value;
      Running(seen + [c], failed, okCount + 1,
              if okCount == 0 || x < min then x else min, if okCount == 0 || x > max then x else max, sum + x)
  {
    OneMore(seen, c);
    OneMoreBound(seen, c, min, max);
    if okCount > 0 && !Timed(c) { UntimedKeepsBounds(seen, c, min, max); }
  }

  lemma Finish(checks: seq<Check>, failed: nat, okCount: nat, min: real, max: real, sum: real, s: Summary)
    requires Running(checks, failed, okCount, min, max, sum)
    requires s.count == |checks|
    requires s.packetLoss == if s.count > 0 then failed as real / s.count as real * 100.0 else 0.0
    requires s.stats == if okCount > 0 then Some(Stats(min, sum / okCount as real, max)) else None
    ensures Summarizes(s, checks)
  {
  }

  method LatencySummary(checks: seq<Check>) returns (s: Summary)
    ensures Summarizes(s, checks)
  {
    var count, failed, okCount: nat := 0, 0, 0;
    var min, max, sum := 0.0, 0.0, 0.0;
    for i := 0 to |checks|
      invariant count == i
      invariant Running(checks[..i], failed, okCount, min, max, sum)
    {
      var c := checks[i];
      RunningOn(checks[..i], c, failed, okCount, min, max, sum);
      assert checks[..i + 1] == checks[..i] + [c];
      count := count + 1;
      if c.success == 0 {
        failed := failed + 1;
        continue;
      }
      if c.latency.Some? {
        if okCount == 0 || c.latency.value < min {
          min := c.latency.value;
        }
        if okCount == 0 || c.latency.value > max {
          max := c.latency.value;
        }
        sum := sum + c.latency.value;
        okCount := okCount + 1;
      }
    }
    assert checks[..|checks|] == checks;
    s := Summary(count, 0.0, None);
    if count > 0 {
      s := s.(packetLoss := failed as real / count as real * 100.0);
    }
    if okCount > 0 {
      var avg := sum / okCount as real;
      s := s.(stats := Some(Stats(min, avg, max)));
    }
    Finish(checks, failed, okCount, min, max, sum, s);
  }

  // ----- The order of the rows does not matter, and a summary is determined by its description. -----

  lemma DropFromFront(checks: seq<Check>, k: nat)
    requires k < |checks| - 1
    ensures var front, last := checks[..|checks| - 1], checks[|checks| - 1];
      checks[..k] + checks[k + 1..] == (front[..k] + front[k + 1..]) + [last]
  {
    var front, last := checks[..|checks| - 1], checks[|checks| - 1];
    assert checks[..k] == front[..k];
    assert checks[k + 1..] == front[k + 1..] + [last];
  }

  lemma {:induction false} TotalWithout(checks: seq<Check>, k: nat, weight: Check -> real)
    requires k < |checks|
    ensures Total(checks, weight) == Total(checks[..k] + checks[k + 1..], weight) + weight(checks[k])
    decreases |checks|
  {
    var front, last := checks[..|checks| - 1], checks[|checks| - 1];
    if k == |checks| - 1 {
      assert checks[..k] + checks[k + 1..] == front;
    } else {
      TotalWithout(front, k, weight);
      DropFromFront(checks, k);
      TotalOneMore(front[..k] + front[k + 1..], last, weight);
    }
  }

  lemma SameElementsWithout(front: seq<Check>, left: seq<Check>, right: seq<Check>, c: Check)
    requires multiset(front + [c]) == multiset(left + [c] + right)
    ensures multiset(front) == multiset(left + right)
  {
    assert multiset(front) == multiset(front + [c]) - multiset{c};
    assert multiset(left + right) == multiset(left + [c] + right) - multiset{c};
  }

  lemma {:induction false} TotalIgnoresOrder(a: seq<Check>, b: seq<Check>, weight: Check -> real)
    requires multiset(a) == multiset(b)
    ensures Total(a, weight) == Total(b, weight)
    decreases |a|
  {
    if a == [] {
      assert |multiset(b)| == 0;
    } else {
      var front, last := a[..|a| - 1], a[|a| - 1];
      assert a == front + [last];
      assert last in multiset(b);
      var k :| 0 <= k < |b| && b[k] == last;
      var rest := b[..k] + b[k + 1..];
      assert b == b[..k] + [last] + b[k + 1..];
      SameElementsWithout(front, b[..k], b[k + 1..], last);
      TotalIgnoresOrder(front, rest, weight);
      TotalWithout(b, k, weight);
    }
  }

  lemma {:induction false} TimedIsPositive(checks: seq<Check>)
    ensures Total(checks, IsTimed) >= if SomeTimed(checks) then 1.0 else 0.0
  {
    if checks != [] {
      var front, last := checks[..|checks| - 1], checks[|checks| - 1];
      TimedIsPositive(front);
      assert checks == front + [last];
    }
  }

  lemma SameChecksMembers(a: seq<Check>, b: seq<Check>)
    requires multiset(a) == multiset(b)
    ensures |a| == |b| && forall c :: c in a <==> c in b
  {
    assert |multiset(a)| == |a| && |multiset(b)| == |b|;
    forall c ensures c in a <==> c in b {
      assert c in multiset(a) <==> c in multiset(b);
    }
  }

  // Whatever order the rows come in, there is just one summary of them.
  lemma SummaryIgnoresOrder(a: seq<Check>, b: seq<Check>, s: Summary, t: Summary)
    requires multiset(a) == multiset(b) && Summarizes(s, a) && Summarizes(t, b)
    ensures s == t
  {
    SameChecksMembers(a, b);
    TotalIgnoresOrder(a, b, IsFailed);
    TotalIgnoresOrder(a, b, IsTimed);
    TotalIgnoresOrder(a, b, LatencyOf);
    if s.stats.Some? {
      SameBounds(a, b, s.stats.value, t.stats.value);
    }
  }

  lemma SameBounds(a: seq<Check>, b: seq<Check>, x: Stats, y: Stats)
    requires forall c :: c in a <==> c in b
    requires Occurs(x.min, a) && AtMostAll(x.min, a) && Occurs(y.min, b) && AtMostAll(y.min, b)
    requires Occurs(x.max, a) && AtLeastAll(x.max, a) && Occurs(y.max, b) && AtLeastAll(y.max, b)
    ensures x.min == y.min && x.max == y.max
  {
  }

  // A failed check counts, and leaves the statistics alone, whatever latency its row has.
  lemma FailedCheckAddsNoLatency(checks: seq<Check>, c: Check, s: Summary, t: Summary)
    requires c.success == 0 && Summarizes(s, checks) && Summarizes(t, checks + [c])
    ensures t.count == s.count + 1 && t.stats == s.stats
  {
    OneMore(checks, c);
    if s.stats.Some? {
      UntimedKeepsBounds(checks, c, s.stats.value.min, s.stats.value.max);
      assert forall d :: d in checks + [c] <==> d in checks || d == c;
      assert t.stats.value.min == s.stats.value.min && t.stats.value.max == s.stats.value.max;
    }
  }

  // ----- Means and percentages. -----

  function CountTimed(checks: seq<Check>): nat {
    if checks == [] then 0 else CountTimed(checks[..|checks| - 1]) + if Timed(checks[|checks| - 1]) then 1 else 0
  }

  lemma {:induction false} TimedTotalIsCount(checks: seq<Check>)
    ensures Total(checks, IsTimed) == CountTimed(checks) as real
  {
    if checks != [] { TimedTotalIsCount(checks[..|checks| - 1]); }
  }

  // x added up n times.
  function Times(x: real, n: nat): real { if n == 0 then 0.0 else Times(x, n - 1) + x }

  lemma {:induction false} TimesIsProduct(x: real, n: nat)
    ensures Times(x, n) == x * n as real
  {
    if n > 0 {
      TimesIsProduct(x, n - 1);
      assert x * n as real == x * (n - 1) as real + x;
    }
  }

  lemma {:induction false} TotalsBounded(checks: seq<Check>, low: real, high: real)
    requires AtMostAll(low, checks) && AtLeastAll(high, checks)
    ensures Times(low, CountTimed(checks)) <= Total(checks, LatencyOf) <= Times(high, CountTimed(checks))
  {
    if checks != [] {
      var front, last := checks[..|checks| - 1], checks[|checks| - 1];
      assert checks == front + [last];
      TotalsBounded(front, low, high);
    }
  }

  lemma {:induction false} FailedBounded(checks: seq<Check>)
    ensures 0.0 <= Total(checks, IsFailed) <= |checks| as real
  {
    if checks != [] { FailedBounded(checks[..|checks| - 1]); }
  }

  lemma QuotientBetween(low: real, x: real, high: real, n: real)
    requires n > 0.0 && low * n <= x <= high * n
    ensures low <= x / n <= high
  {
  }

  lemma MeanOfBounded(low: real, x: real, high: real, n: nat)
    requires n > 0 && Times(low, n) <= x <= Times(high, n)
    ensures low <= Over(x, n as real) <= high
  {
    TimesIsProduct(low, n);
    TimesIsProduct(high, n);
    QuotientBetween(low, x, high, n as real);
  }

  lemma MeanIsBetween(checks: seq<Check>, s: Summary)
    requires Summarizes(s, checks) && s.stats.Some?
    ensures s.stats.value.min <= s.stats.value.avg <= s.stats.value.max
  {
    var x, n := s.stats.value, CountTimed(checks);
    TimedIsPositive(checks);
    TimedTotalIsCount(checks);
    TotalsBounded(checks, x.min, x.max);
    MeanOfBounded(x.min, Total(checks, LatencyOf), x.max, n);
  }

  lemma ShareOfAll(x: real, n: real)
    requires n > 0.0 && 0.0 <= x <= n
    ensures 0.0 <= x / n <= 1.0 && (x / n == 0.0 <==> x == 0.0) && (x / n == 1.0 <==> x == n)
  {
  }

  // The loss is a percentage, and all or nothing exactly when every check failed or none did.
  lemma LossIsAPercentage(checks: seq<Check>, s: Summary)
    requires Summarizes(s, checks)
    ensures 0.0 <= s.packetLoss <= 100.0
    ensures s.packetLoss == 0.0 <==> Total(checks, IsFailed) == 0.0
    ensures s.packetLoss == 100.0 <==> checks != [] && Total(checks, IsFailed) == |checks| as real
  {
    FailedBounded(checks);
    if checks != [] { ShareOfAll(Total(checks, IsFailed), |checks| as real); }
  }
}
