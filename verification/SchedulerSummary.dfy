/** The latency percentiles and the delivery gate of a finished run. */
module SchedulerSummary {
  import opened Counting
  import opened Sorting
  import opened SchedulerModel

  // Nearest-rank percentiles.

  function CeilDiv(a: int, b: int): int
    requires b > 0
  {
    (a + b - 1) / b
  }

  function Percentile(sortedValues: seq<int>, pct: int): int
  {
    if sortedValues == [] then 0 else
    var rank := CeilDiv(pct * |sortedValues|, 100) - 1;
    var rank := if rank < |sortedValues| - 1 then rank else |sortedValues| - 1;
    sortedValues[if rank < 0 then 0 else rank]
  }

  function AtMost(v: int): int -> bool { (x: int) => x <= v }

  function Below(v: int): int -> bool { (x: int) => x < v }

  lemma {:induction false} SortedSplit(xs: seq<int>, i: nat)
    requires SortedBy(xs, IntKey(), IntLe()) && i < |xs|
    ensures CountIf(xs, AtMost(xs[i])) >= i + 1
    ensures CountIf(xs, Below(xs[i])) <= i
  {
    var front, back := xs[..i + 1], xs[i..];
    assert xs == front + xs[i + 1..] && xs == xs[..i] + back;
    CountAppend(front, xs[i + 1..], AtMost(xs[i]));
    CountAppend(xs[..i], back, Below(xs[i]));
    forall j | 0 <= j < |xs| ensures (j < i ==> xs[j] <= xs[i]) && (i < j ==> xs[i] <= xs[j]) {
      assert j < i ==> IntLe()(IntKey()(xs[j]), IntKey()(xs[i]));
      assert i < j ==> IntLe()(IntKey()(xs[i]), IntKey()(xs[j]));
    }
    AllCounted(front, AtMost(xs[i]));
    CountPositive(back, Below(xs[i]));
    CountPositive(xs[..i], Below(xs[i]));
  }

  lemma {:induction false} AllCounted<T>(xs: seq<T>, p: T -> bool)
    requires forall j :: 0 <= j < |xs| ==> p(xs[j])
    ensures CountIf(xs, p) == |xs|
  {
    if xs != [] {
      AllCounted(xs[1..], p);
    }
  }

  lemma RankBounds(n: nat, pct: int)
    requires n > 0 && 0 < pct <= 100
    ensures
      var rank := CeilDiv(pct * n, 100) - 1;
      0 <= rank < n && 100 * rank < pct * n <= 100 * (rank + 1)
  {
    assert pct * n <= 100 * n;
    assert pct * n >= n;
  }

  /** One of the values, with at least `pct` percent of them at or below it and fewer than `pct` percent below it. */
  ghost predicate NearestRank(values: seq<int>, pct: int, v: int)
  {
    && v in values
    && 100 * CountIf(values, AtMost(v)) >= pct * |values|
    && 100 * CountIf(values, Below(v)) < pct * |values|
  }

  lemma PercentileIsNearestRank(values: seq<int>, pct: int)
    requires values != [] && 0 < pct <= 100
    ensures NearestRank(values, pct, Percentile(Sort(values, IntKey(), IntLe()), pct))
  {
    hide CountIf, Sort, SortedBy, CeilDiv;
    IntOrder();
    SortSorts(values, IntKey(), IntLe());
    var xs := Sort(values, IntKey(), IntLe());
    var rank := CeilDiv(pct * |values|, 100) - 1;
    RankBounds(|values|, pct);
    SortedSplit(xs, rank);
    var v := xs[rank];
    CountOfMultiset(xs, values, AtMost(v));
    CountOfMultiset(xs, values, Below(v));
    assert v in multiset(xs);
  }

  lemma {:induction false} CountStronger<T>(xs: seq<T>, p: T -> bool, q: T -> bool)
    requires forall x :: p(x) ==> q(x)
    ensures CountIf(xs, p) <= CountIf(xs, q)
  {
    if xs != [] {
      CountStronger(xs[1..], p, q);
    }
  }

  /** A nearest rank stays within a limit exactly when enough of the values do; so there is only one. */
  lemma NearestRankWithin(values: seq<int>, pct: int, v: int, limit: int)
    requires NearestRank(values, pct, v)
    ensures v <= limit <==> 100 * CountIf(values, AtMost(limit)) >= pct * |values|
  {
    if v <= limit {
      CountStronger(values, AtMost(v), AtMost(limit));
    } else {
      CountStronger(values, AtMost(limit), Below(v));
    }
  }

  // The block of latency figures; the average is kept exact where the runner rounds it to six digits.

  datatype LatencyBlock = LatencyBlock(min: int, p50: int, p95: int, p99: int, max: int, avg: real)

  function LatencySummary(values: seq<int>): LatencyBlock
  {
    var sorted := Sort(values, IntKey(), IntLe());
    if sorted == [] then LatencyBlock(0, 0, 0, 0, 0, 0.0) else
    LatencyBlock(sorted[0], Percentile(sorted, 50), Percentile(sorted, 95), Percentile(sorted, 99), sorted[|sorted| - 1],
                 SumBy(sorted, IntKey()) as real / |sorted| as real)
  }

  /** The place of a percentile in a sorted sequence of `n` values. */
  function RankOf(n: nat, pct: int): (i: nat)
    requires n > 0
    ensures i < n
  {
    var rank := CeilDiv(pct * n, 100) - 1;
    if rank < 0 then 0 else if rank < n - 1 then rank else n - 1
  }

  lemma RankMonotone(n: nat, p: int, q: int)
    requires n > 0 && p <= q
    ensures RankOf(n, p) <= RankOf(n, q)
  {
    MulMonotone(p, q, n);
    CeilMonotone(p * n, q * n);
  }

  lemma CeilMonotone(a: int, b: int)
    requires a <= b
    ensures CeilDiv(a, 100) <= CeilDiv(b, 100)
  {
  }

  lemma PercentileMonotone(xs: seq<int>, p: int, q: int)
    requires xs != [] && SortedBy(xs, IntKey(), IntLe()) && p <= q
    ensures xs[0] <= Percentile(xs, p) <= Percentile(xs, q) <= xs[|xs| - 1]
  {
    var i, j := RankOf(|xs|, p), RankOf(|xs|, q);
    RankMonotone(|xs|, p, q);
    InOrder(xs, 0, i);
    InOrder(xs, i, j);
    InOrder(xs, j, |xs| - 1);
  }

  lemma InOrder(xs: seq<int>, i: nat, j: nat)
    requires SortedBy(xs, IntKey(), IntLe()) && i <= j < |xs|
    ensures xs[i] <= xs[j]
  {
    assert i < j ==> IntLe()(IntKey()(xs[i]), IntKey()(xs[j]));
  }

  lemma SortedBounds(values: seq<int>)
    requires values != []
    ensures
      var xs := Sort(values, IntKey(), IntLe());
      && xs != [] && SortedBy(xs, IntKey(), IntLe()) && multiset(xs) == multiset(values) && |xs| == |values|
      && xs[0] in values && xs[|xs| - 1] in values && (forall v :: v in values ==> xs[0] <= v <= xs[|xs| - 1])
  {
    hide Sort, SortedBy;
    IntOrder();
    SortSorts(values, IntKey(), IntLe());
    var xs := Sort(values, IntKey(), IntLe());
    assert xs[0] in multiset(values) && xs[|xs| - 1] in multiset(values);
    forall v | v in values ensures xs[0] <= v <= xs[|xs| - 1] {
      assert v in multiset(xs);
      var i :| 0 <= i < |xs| && xs[i] == v;
      InOrder(xs, 0, i);
      InOrder(xs, i, |xs| - 1);
    }
  }

  lemma QuotientTimes(a: real, n: real)
    requires n != 0.0
    ensures a / n * n == a
  {
  }

  /** The least, the greatest and the average of the values, and three of their percentiles. */
  ghost predicate Describes(b: LatencyBlock, values: seq<int>)
  {
    && b.min in values && b.max in values && (forall v :: v in values ==> b.min <= v <= b.max)
    && NearestRank(values, 50, b.p50) && NearestRank(values, 95, b.p95) && NearestRank(values, 99, b.p99)
    && b.avg * |values| as real == SumBy(values, IntKey()) as real
  }

  /** Every figure of the block is the one that its name says; the percentiles are in order. */
  lemma LatencyBlockMeans(values: seq<int>)
    requires values != []
    ensures Describes(LatencySummary(values), values)
    ensures
      var b := LatencySummary(values);
      b.min <= b.p50 <= b.p95 <= b.p99 <= b.max
  {
    hide Sort, SortedBy, Percentile, SumBy, NearestRank;
    PercentileIsNearestRank(values, 50);
    PercentileIsNearestRank(values, 95);
    PercentileIsNearestRank(values, 99);
    SortedBounds(values);
    var xs := Sort(values, IntKey(), IntLe());
    PercentileMonotone(xs, 50, 95);
    PercentileMonotone(xs, 95, 99);
    SumOfMultiset(xs, values, IntKey());
    QuotientTimes(SumBy(xs, IntKey()) as real, |xs| as real);
  }

  /** Without values every figure is zero. */
  lemma NothingMeasured()
    ensures
      var b := LatencySummary([]);
      b.min == b.p50 == b.p95 == b.p99 == b.max == 0 && b.avg == 0.0
  {
  }

  // The gate.

  datatype Reason =
    | FromViolation(violation: Violation)
    | FailureRateTooHigh
    | P95TooHigh
    | NoHotReplacement
    | StillDraining(count: nat)
    | NoCompletedJobs(tenant: nat)

  function Rate(failed: int, finished: int): real
  {
    if finished != 0 then failed as real / finished as real else 0.0
  }

  /** What the summary says of one tenant. */
  datatype TenantReport = TenantReport(
    jobsStarted: int,
    jobsFinished: int,
    jobsFailed: int,
    failureRate: real,
    maxInFlight: int,
    containersCreated: int,
    hotReplacements: int)

  function ReportOf(m: Tenant): TenantReport
  {
    TenantReport(m.jobsStarted, m.jobsFinished, m.jobsFailed, Rate(m.jobsFailed, m.jobsFinished),
                 m.maxInFlight, m.containersCreated, m.hotReplacements)
  }

  function Reports(tenants: seq<Tenant>): (r: seq<TenantReport>)
    ensures |r| == |tenants| && forall t :: 0 <= t < |tenants| ==> r[t] == ReportOf(tenants[t])
  {
    seq(|tenants|, t requires 0 <= t < |tenants| => ReportOf(tenants[t]))
  }

  datatype Summary = Summary(
    jobsFinished: int,
    jobsFailed: int,
    containersCreated: int,
    activeContainers: int,
    warmingContainers: int,
    drainingContainers: int,
    retiredContainers: int,
    hotReplacements: int,
    makespanMs: int,
    throughput: real,
    latency: LatencyBlock,
    tenants: seq<TenantReport>,
    reasons: seq<Reason>)
  {
    predicate Passed() { reasons == [] }
  }

  function FinishedOf(): Tenant -> int { (m: Tenant) => m.jobsFinished }

  function FailuresOf(): Tenant -> int { (m: Tenant) => m.jobsFailed }

  predicate RateExceeds(failed: int, finished: int, limit: real)
  {
    Rate(failed, finished) > limit
  }

  /** The rate exceeds a limit exactly when more jobs failed than the limit allows. */
  lemma RateExceedsMeans(failed: int, finished: int, limit: real)
    requires finished > 0
    ensures RateExceeds(failed, finished, limit) <==> failed as real > limit * finished as real
  {
    var q, n := Rate(failed, finished), finished as real;
    QuotientTimes(failed as real, n);
    assert (q - limit) * n == q * n - limit * n;
    if q > limit { assert (q - limit) * n > 0.0; } else { assert (limit - q) * n >= 0.0; }
  }

  /** Finished jobs per second of simulated time. */
  function Throughput(finished: int, makespanMs: int): (r: real)
    ensures makespanMs != 0 ==> r * makespanMs as real == 1000.0 * finished as real
    ensures makespanMs == 0 ==> r == finished as real
  {
    if makespanMs != 0 then finished as real / (makespanMs as real / 1000.0) else finished as real
  }

  function ViolationReasons(vs: seq<Violation>): (r: seq<Reason>)
    ensures |r| == |vs| && forall i :: 0 <= i < |vs| ==> r[i] == FromViolation(vs[i])
  {
    if vs == [] then [] else [FromViolation(vs[0])] + ViolationReasons(vs[1..])
  }

  /** One reason for each of the first `n` tenants that finished nothing. */
  function IdleTenants(tenants: seq<Tenant>, n: nat): seq<Reason>
    requires n <= |tenants|
  {
    if n == 0 then []
    else IdleTenants(tenants, n - 1) + (if tenants[n - 1].jobsFinished == 0 then [NoCompletedJobs(n - 1)] else [])
  }

  /** Why the gate refuses, in the order in which the reasons are listed. */
  function GateReasons(c: Config, s: State, failed: int, finished: int, p95: int, draining: nat): seq<Reason>
  {
    ViolationReasons(s.violations)
    + (if RateExceeds(failed, finished, c.maxFailureRate) then [FailureRateTooHigh] else [])
    + (if c.maxP95Ms != 0 && p95 > c.maxP95Ms then [P95TooHigh] else [])
    + (if c.requireHotReplacement && s.hotReplacements == 0 then [NoHotReplacement] else [])
    + (if draining != 0 then [StillDraining(draining)] else [])
    + IdleTenants(s.tenants, |s.tenants|)
  }

  predicate ReasonHolds(c: Config, s: State, failed: int, finished: int, p95: int, draining: nat, r: Reason)
  {
    match r
    case FromViolation(v) => v in s.violations
    case FailureRateTooHigh => RateExceeds(failed, finished, c.maxFailureRate)
    case P95TooHigh => c.maxP95Ms != 0 && p95 > c.maxP95Ms
    case NoHotReplacement => c.requireHotReplacement && s.hotReplacements == 0
    case StillDraining(n) => n == draining != 0
    case NoCompletedJobs(t) => t < |s.tenants| && s.tenants[t].jobsFinished == 0
  }

  lemma ReasonsExact(c: Config, s: State, failed: int, finished: int, p95: int, draining: nat, r: Reason)
    ensures r in GateReasons(c, s, failed, finished, p95, draining) <==> ReasonHolds(c, s, failed, finished, p95, draining, r)
  {
    hide RateExceeds, IdleTenants;
    IdleTenantsExact(s.tenants, |s.tenants|, r);
    if r.FromViolation? && r.violation in s.violations {
      var i :| 0 <= i < |s.violations| && s.violations[i] == r.violation;
      assert ViolationReasons(s.violations)[i] == r;
    }
  }

  function Summarize(c: Config, s: State): Summary
  {
    var finished := SumBy(s.tenants, FinishedOf());
    var failed := SumBy(s.tenants, FailuresOf());
    var draining := CountIf(s.containers, HasPhase(Draining));
    var latency := LatencySummary(s.latencies);
    Summary(finished, failed, |s.containers|,
            CountIf(s.containers, HasPhase(Active)), CountIf(s.containers, HasPhase(Warming)),
            draining, CountIf(s.containers, HasPhase(Retired)),
            s.hotReplacements, s.nowMs, Throughput(finished, s.nowMs), latency, Reports(s.tenants),
            GateReasons(c, s, failed, finished, latency.p95, draining))
  }

  lemma {:induction false} IdleTenantsExact(tenants: seq<Tenant>, n: nat, r: Reason)
    requires n <= |tenants|
    ensures r in IdleTenants(tenants, n) <==> r.NoCompletedJobs? && r.tenant < n && tenants[r.tenant].jobsFinished == 0
  {
    if n > 0 {
      IdleTenantsExact(tenants, n - 1, r);
    }
  }
}
