/** Results about whole runs, for every valid configuration and all draws. */
module SchedulerTheorems {
  import opened Counting
  import opened Sorting
  import opened SchedulerModel
  import opened SchedulerInvariant
  import opened SchedulerRun
  import opened SchedulerReplacements
  import opened SchedulerSummary

  // Every job starts and finishes exactly once.

  function IsJob(j: nat): Completion -> bool { (e: Completion) => e.job == j }

  lemma {:induction false} NumberedOnce(log: seq<Completion>, j: nat, n: nat)
    requires n <= |log| && forall i :: 0 <= i < |log| ==> log[i].job == i
    ensures CountIf(log[..n], IsJob(j)) == if j < n then 1 else 0
  {
    if n > 0 {
      NumberedOnce(log, j, n - 1);
      assert log[..n] == log[..n - 1] + [log[n - 1]];
      CountSnoc(log[..n - 1], log[n - 1], IsJob(j));
    } else {
      assert log[..0] == [];
    }
  }

  lemma EveryJobFinishesOnce(c: Config, draws: seq<Draw>)
    requires ValidConfig(c) && ValidDraws(c, draws)
    ensures
      var f := Simulated(c, draws);
      && f.heap == [] && f.inFlight == 0
      && multiset(f.finishedLog) == multiset(f.startedLog) && |f.finishedLog| == |f.startedLog| == c.jobs
      && (forall j: nat :: j < c.jobs ==> CountIf(f.finishedLog, IsJob(j)) == 1)
      && (forall j :: 0 <= j < c.jobs ==> StartedFrom(c, draws[j], f.startedLog[j], j))
      && (forall i :: 0 <= i < c.jobs ==> RanAtHome(f, f.finishedLog[i]))
  {
    hide Simulated, ContainerOk, TenantOk, Settled, Distinct;
    var f := Simulated(c, draws);
    assert |multiset(f.startedLog)| == |f.startedLog| && |multiset(f.finishedLog)| == |f.finishedLog|;
    assert forall j :: 0 <= j < c.jobs ==> StartedFrom(c, draws[j], f.startedLog[j], j);
    assert forall i :: 0 <= i < c.jobs ==> RanAtHome(f, f.finishedLog[i]);
    forall j: nat | j < c.jobs ensures CountIf(f.finishedLog, IsJob(j)) == 1 {
      assert f.startedLog[..c.jobs] == f.startedLog;
      NumberedOnce(f.startedLog, j, c.jobs);
      CountOfMultiset(f.startedLog, f.finishedLog, IsJob(j));
    }
  }

  // Round-robin shares of the tenants.

  /** How many of the jobs `0 .. n - 1` belong to tenant `t`. */
  function Share(n: int, t: int, tenants: int): int
    requires tenants > 0
  {
    (n - t + tenants - 1) / tenants
  }

  lemma ShareStep(n: nat, t: nat, tenants: nat)
    requires t < tenants
    ensures Share(n + 1, t, tenants) == Share(n, t, tenants) + (if n % tenants == t then 1 else 0)
    ensures Share(0, t, tenants) == 0
  {
    var m := n - t + tenants;
    DivStep(m, tenants);
    var q, r := n / tenants, n % tenants;
    assert n == q * tenants + r;
    if r < t {
      DivUnique(m, tenants, q, r - t + tenants);
    } else {
      assert (q + 1) * tenants == q * tenants + tenants;
      DivUnique(m, tenants, q + 1, r - t);
    }
    DivUnique(tenants - t - 1, tenants, 0, tenants - t - 1);
  }

  lemma {:induction false} SharesCounted(c: Config, draws: seq<Draw>, log: seq<Completion>, t: nat, n: nat)
    requires t < c.tenants && n <= |log| <= |draws|
    requires forall j :: 0 <= j < |log| ==> StartedFrom(c, draws[j], log[j], j)
    ensures CountIf(log[..n], OfTenant(t)) == Share(n, t, c.tenants)
  {
    if n > 0 {
      SharesCounted(c, draws, log, t, n - 1);
      assert log[..n] == log[..n - 1] + [log[n - 1]];
      CountSnoc(log[..n - 1], log[n - 1], OfTenant(t));
      ShareStep(n - 1, t, c.tenants);
      assert StartedFrom(c, draws[n - 1], log[n - 1], n - 1);
    } else {
      assert log[..0] == [];
      ShareStep(0, t, c.tenants);
    }
  }

  /** How many of the first `n` jobs belong to tenant `t` and were drawn to fail. */
  function FailingShare(draws: seq<Draw>, n: nat, t: int, tenants: int): nat
    requires n <= |draws| && tenants > 0
  {
    if n == 0 then 0
    else FailingShare(draws, n - 1, t, tenants) + (if (n - 1) % tenants == t && draws[n - 1].failed then 1 else 0)
  }

  lemma {:induction false} FailuresCounted(c: Config, draws: seq<Draw>, log: seq<Completion>, t: nat, n: nat)
    requires t < c.tenants && n <= |log| <= |draws|
    requires forall j :: 0 <= j < |log| ==> StartedFrom(c, draws[j], log[j], j)
    ensures CountIf(log[..n], FailedOf(t)) == FailingShare(draws, n, t, c.tenants)
  {
    if n > 0 {
      FailuresCounted(c, draws, log, t, n - 1);
      CountPrefix(log, n - 1, FailedOf(t));
      assert StartedFrom(c, draws[n - 1], log[n - 1], n - 1);
    } else {
      assert log[..0] == [];
    }
  }

  lemma TenantShares(c: Config, draws: seq<Draw>, t: nat)
    requires ValidConfig(c) && ValidDraws(c, draws) && t < c.tenants
    ensures
      var m := Simulated(c, draws).tenants[t];
      && m.currentInFlight == 0
      && m.jobsFinished == m.jobsStarted == (c.jobs - t + c.tenants - 1) / c.tenants
      && m.jobsFailed == FailingShare(draws, c.jobs, t, c.tenants)
      && m.maxInFlight <= c.concurrency
      && m.containersCreated == c.containersPerTenant + m.hotReplacements
  {
    hide Simulated, Inv;
    var f := Simulated(c, draws);
    EveryJobFinishesOnce(c, draws);
    InvOfTenant(c, draws, f, t);
    CountOfMultiset(f.startedLog, f.finishedLog, OfTenant(t));
    CountOfMultiset(f.startedLog, f.finishedLog, FailedOf(t));
    FailuresCounted(c, draws, f.startedLog, t, c.jobs);
    assert f.startedLog[..c.jobs] == f.startedLog;
    SharesCounted(c, draws, f.startedLog, t, c.jobs);
    CountSplit(f.containers, InTenant(t), LiveIn(t), ReplacedIn(t));
  }

  lemma InvOfTenant(c: Config, draws: seq<Draw>, s: State, t: nat)
    requires Inv(c, draws, s) && t < c.tenants
    ensures |s.tenants| == |s.generations| == c.tenants && TenantOk(c, s, t)
    ensures CountIf(s.containers, LiveIn(t)) == c.containersPerTenant
  {
  }

  lemma InvBounds(c: Config, draws: seq<Draw>, s: State)
    requires Inv(c, draws, s)
    ensures WorkOk(c, s) && MakespanOk(c, s) && s.hotReplacements == CountIf(s.containers, IsReplacement())
  {
  }

  // Containers at the end.

  lemma PoolsAtTheEnd(c: Config, draws: seq<Draw>)
    requires ValidConfig(c) && ValidDraws(c, draws)
    ensures
      var f := Simulated(c, draws);
      && CountIf(f.containers, HasPhase(Draining)) == 0
      && CountIf(f.containers, HasPhase(Retired)) == f.hotReplacements
      && CountIf(f.containers, HasPhase(Active)) + CountIf(f.containers, HasPhase(Warming)) == c.tenants * c.containersPerTenant
      && |f.containers| == c.tenants * c.containersPerTenant + f.hotReplacements
      && f.violations == []
      && f.hotReplacements == if c.hotReplaceEvery > 0 then (c.jobs - 1) / c.hotReplaceEvery else 0
  {
    hide Simulated, Inv, CountIf;
    var f := Simulated(c, draws);
    NoViolations(c, draws);
    InvPools(c, draws, f);
    PhasesCounted(f.containers);
    NoneCounted(f.containers, HasPhase(Draining));
    CountSplit(f.containers, IsReplaced(), HasPhase(Draining), HasPhase(Retired));
  }

  lemma InvPools(c: Config, draws: seq<Draw>, s: State)
    requires Inv(c, draws, s) && s.heap == []
    ensures s.hotReplacements == CountIf(s.containers, IsReplaced())
    ensures |s.containers| == c.tenants * c.containersPerTenant + s.hotReplacements
    ensures forall k :: 0 <= k < |s.containers| ==> !s.containers[k].phase.Draining?
  {
    forall k | 0 <= k < |s.containers| ensures !s.containers[k].phase.Draining? {
      assert ContainerOk(c, s, k);
    }
  }

  lemma {:induction false} PhasesCounted(xs: seq<Container>)
    ensures CountIf(xs, HasPhase(Warming)) + CountIf(xs, HasPhase(Active))
            + CountIf(xs, HasPhase(Draining)) + CountIf(xs, HasPhase(Retired)) == |xs|
  {
    if xs != [] {
      PhasesCounted(xs[1..]);
    }
  }

  // Bounds on the makespan.

  function DrawnLatency(): Draw -> int { (d: Draw) => d.latencyMs }

  lemma {:induction false} SumPointwise<S, T>(xs: seq<S>, ys: seq<T>, f: S -> int, g: T -> int)
    requires |xs| == |ys| && forall i :: 0 <= i < |xs| ==> f(xs[i]) == g(ys[i])
    ensures SumBy(xs, f) == SumBy(ys, g)
  {
    if xs != [] {
      assert forall i :: 0 <= i < |xs[1..]| ==> xs[1..][i] == xs[i + 1] && ys[1..][i] == ys[i + 1];
      SumPointwise(xs[1..], ys[1..], f, g);
    }
  }

  /** The lanes bound: all drawn latencies together fit into `concurrency` times the makespan. */
  lemma WorkBound(c: Config, draws: seq<Draw>)
    requires ValidConfig(c) && ValidDraws(c, draws)
    ensures SumBy(draws, DrawnLatency()) == SumBy(Simulated(c, draws).finishedLog, Latency())
    ensures SumBy(draws, DrawnLatency()) <= c.concurrency * Simulated(c, draws).nowMs
  {
    hide Simulated, Inv;
    var f := Simulated(c, draws);
    EveryJobFinishesOnce(c, draws);
    InvBounds(c, draws, f);
    SumOfMultiset(f.startedLog, f.finishedLog, Latency());
    forall j | 0 <= j < |draws| ensures DrawnLatency()(draws[j]) == Latency()(f.startedLog[j]) {
      assert StartedFrom(c, draws[j], f.startedLog[j], j);
    }
    SumPointwise(draws, f.startedLog, DrawnLatency(), Latency());
  }

  lemma MakespanBound(c: Config, draws: seq<Draw>)
    requires ValidConfig(c) && ValidDraws(c, draws)
    ensures Simulated(c, draws).nowMs <= c.jobs * c.compileMaxMs + Simulated(c, draws).hotReplacements * c.warmupMs
  {
    hide Simulated, Inv;
    var f := Simulated(c, draws);
    EveryJobFinishesOnce(c, draws);
    InvBounds(c, draws, f);
    ActivatedAreReplacements(f.containers);
    MulMonotone(CountIf(f.containers, IsActivatedReplacement()), f.hotReplacements, c.warmupMs);
  }

  /** The makespan is the time at which the last job finished. */
  lemma MakespanIsLastFinish(c: Config, draws: seq<Draw>)
    requires ValidConfig(c) && ValidDraws(c, draws)
    ensures IsLastFinish(Simulated(c, draws).finishedLog, Simulated(c, draws).nowMs)
  {
    hide Simulated, Inv;
    var f := Simulated(c, draws);
    EveryJobFinishesOnce(c, draws);
    forall i | 0 <= i < |f.finishedLog| ensures f.finishedLog[i].finishedAtMs <= f.nowMs {
      assert RanAtHome(f, f.finishedLog[i]);
    }
    assert f.finishedLog[|f.finishedLog| - 1] in f.finishedLog;
  }

  predicate IsLastFinish(log: seq<Completion>, t: int)
  {
    && (exists e :: e in log && e.finishedAtMs == t)
    && (forall e :: e in log ==> e.finishedAtMs <= t)
  }

  lemma {:induction false} ActivatedAreReplacements(xs: seq<Container>)
    ensures CountIf(xs, IsActivatedReplacement()) <= CountIf(xs, IsReplacement())
  {
    if xs != [] {
      ActivatedAreReplacements(xs[1..]);
    }
  }

  // The gate.

  function TookAtMost(limit: int): Draw -> bool { (d: Draw) => d.latencyMs <= limit }

  function HasFailed(): Completion -> bool { (e: Completion) => e.failed }

  function DrawFailed(): Draw -> bool { (d: Draw) => d.failed }

  function BelowTenant(n: nat): Completion -> bool { (e: Completion) => e.tenant < n }

  function FailedBelow(n: nat): Completion -> bool { (e: Completion) => e.tenant < n && e.failed }

  lemma {:induction false} TenantTotals(c: Config, s: State, n: nat)
    requires n <= |s.tenants| == |s.generations| == c.tenants
    requires forall t :: 0 <= t < c.tenants ==> TenantOk(c, s, t)
    ensures SumBy(s.tenants[..n], FinishedOf()) == CountIf(s.finishedLog, BelowTenant(n))
    ensures SumBy(s.tenants[..n], FailuresOf()) == CountIf(s.finishedLog, FailedBelow(n))
  {
    if n == 0 {
      assert s.tenants[..0] == [];
      NoneCounted(s.finishedLog, BelowTenant(0));
      NoneCounted(s.finishedLog, FailedBelow(0));
    } else {
      TenantTotals(c, s, n - 1);
      assert s.tenants[..n] == s.tenants[..n - 1] + [s.tenants[n - 1]];
      SumAppend(s.tenants[..n - 1], [s.tenants[n - 1]], FinishedOf());
      SumAppend(s.tenants[..n - 1], [s.tenants[n - 1]], FailuresOf());
      assert TenantOk(c, s, n - 1);
      CountSplit(s.finishedLog, BelowTenant(n), BelowTenant(n - 1), OfTenant(n - 1));
      CountSplit(s.finishedLog, FailedBelow(n), FailedBelow(n - 1), FailedOf(n - 1));
    }
  }

  lemma {:induction false} CountPointwise<S, T>(xs: seq<S>, ys: seq<T>, p: S -> bool, q: T -> bool)
    requires |xs| == |ys| && forall i :: 0 <= i < |xs| ==> p(xs[i]) == q(ys[i])
    ensures CountIf(xs, p) == CountIf(ys, q)
  {
    if xs != [] {
      assert forall i :: 0 <= i < |xs[1..]| ==> xs[1..][i] == xs[i + 1] && ys[1..][i] == ys[i + 1];
      CountPointwise(xs[1..], ys[1..], p, q);
    }
  }

  lemma InvTenants(c: Config, draws: seq<Draw>, s: State)
    requires Inv(c, draws, s)
    ensures |s.tenants| == |s.generations| == c.tenants && |s.latencies| == |s.finishedLog|
    ensures forall t :: 0 <= t < c.tenants ==> TenantOk(c, s, t)
    ensures forall i :: 0 <= i < |s.finishedLog| ==> s.finishedLog[i].latencyMs == s.latencies[i]
  {
  }

  /** The totals of the summary are determined by the configuration and the draws. */
  lemma TotalsOfDraws(c: Config, draws: seq<Draw>)
    requires ValidConfig(c) && ValidDraws(c, draws)
    ensures
      var r := Summarize(c, Simulated(c, draws));
      r.jobsFinished == c.jobs && r.jobsFailed == CountIf(draws, DrawFailed())
  {
    hide Simulated, Inv;
    var f := Simulated(c, draws);
    EveryJobFinishesOnce(c, draws);
    InvTenants(c, draws, f);
    TenantTotals(c, f, c.tenants);
    assert f.tenants[..c.tenants] == f.tenants;
    forall i | 0 <= i < |f.finishedLog| ensures f.finishedLog[i].tenant < c.tenants {
      assert f.finishedLog[i] in multiset(f.startedLog);
      var j :| 0 <= j < |f.startedLog| && f.startedLog[j] == f.finishedLog[i];
      assert StartedFrom(c, draws[j], f.startedLog[j], j);
    }
    AllCounted(f.finishedLog, BelowTenant(c.tenants));
    CountPointwise(f.finishedLog, f.finishedLog, FailedBelow(c.tenants), HasFailed());
    CountOfMultiset(f.finishedLog, f.startedLog, HasFailed());
    forall j | 0 <= j < |draws| ensures HasFailed()(f.startedLog[j]) == DrawFailed()(draws[j]) {
      assert StartedFrom(c, draws[j], f.startedLog[j], j);
    }
    CountPointwise(f.startedLog, draws, HasFailed(), DrawFailed());
  }

  function Latencies(log: seq<Completion>): (r: seq<int>)
    ensures |r| == |log| && forall i :: 0 <= i < |log| ==> r[i] == log[i].latencyMs
  {
    seq(|log|, i requires 0 <= i < |log| => log[i].latencyMs)
  }

  function DrawLatencies(draws: seq<Draw>): (r: seq<int>)
    ensures |r| == |draws| && forall i :: 0 <= i < |draws| ==> r[i] == draws[i].latencyMs
  {
    seq(|draws|, i requires 0 <= i < |draws| => draws[i].latencyMs)
  }

  function TookMs(v: int): Completion -> bool { (e: Completion) => e.latencyMs == v }

  lemma {:induction false} LatencyMultiplicity(log: seq<Completion>, v: int)
    ensures multiset(Latencies(log))[v] == CountIf(log, TookMs(v))
  {
    if log != [] {
      LatencyMultiplicity(log[1..], v);
      assert Latencies(log) == [log[0].latencyMs] + Latencies(log[1..]);
    }
  }

  lemma LatenciesOfMultiset(xs: seq<Completion>, ys: seq<Completion>)
    requires multiset(xs) == multiset(ys)
    ensures multiset(Latencies(xs)) == multiset(Latencies(ys))
  {
    forall v: int ensures multiset(Latencies(xs))[v] == multiset(Latencies(ys))[v] {
      LatencyMultiplicity(xs, v);
      LatencyMultiplicity(ys, v);
      CountOfMultiset(xs, ys, TookMs(v));
    }
  }

  /** All latency figures are those of the drawn latencies, whatever order the jobs finished in. */
  lemma LatencyOfDraws(c: Config, draws: seq<Draw>)
    requires ValidConfig(c) && ValidDraws(c, draws)
    ensures Summarize(c, Simulated(c, draws)).latency == LatencySummary(DrawLatencies(draws))
  {
    hide Simulated, Inv, Sort, Percentile;
    var f := Simulated(c, draws);
    EveryJobFinishesOnce(c, draws);
    InvTenants(c, draws, f);
    assert f.latencies == Latencies(f.finishedLog);
    LatenciesOfMultiset(f.finishedLog, f.startedLog);
    forall j | 0 <= j < |draws| ensures Latencies(f.startedLog)[j] == DrawLatencies(draws)[j] {
      assert StartedFrom(c, draws[j], f.startedLog[j], j);
    }
    assert Latencies(f.startedLog) == DrawLatencies(draws);
    IntOrder();
    SortIgnoresOrder(f.latencies, DrawLatencies(draws), IntKey(), IntLe());
  }

  /** Exactly the tenants behind the last job finish nothing. */
  lemma IdleBehindLastJob(c: Config, draws: seq<Draw>, t: nat)
    requires ValidConfig(c) && ValidDraws(c, draws) && t < c.tenants
    ensures |Simulated(c, draws).tenants| == c.tenants
    ensures Simulated(c, draws).tenants[t].jobsFinished == 0 <==> c.jobs <= t
  {
    hide Simulated, Inv;
    InvTenants(c, draws, Simulated(c, draws));
    TenantShares(c, draws, t);
    if c.jobs <= t {
      DivUnique(c.jobs - t + c.tenants - 1, c.tenants, 0, c.jobs - t + c.tenants - 1);
    } else {
      PositiveQuotient(c.jobs - t + c.tenants - 1, c.tenants);
    }
  }

  lemma PositiveQuotient(n: int, m: int)
    requires 0 < m <= n
    ensures n / m > 0
  {
  }

  /** The drawn latencies are described by the latency block of the run's summary. */
  lemma LatencyDescribed(c: Config, draws: seq<Draw>)
    requires ValidConfig(c) && ValidDraws(c, draws)
    ensures Describes(Summarize(c, Simulated(c, draws)).latency, DrawLatencies(draws))
  {
    hide Simulated, Summarize, LatencySummary, Describes;
    LatencyOfDraws(c, draws);
    LatencyBlockMeans(DrawLatencies(draws));
  }

  lemma LatenciesAtMost(draws: seq<Draw>, limit: int)
    ensures CountIf(DrawLatencies(draws), AtMost(limit)) == CountIf(draws, TookAtMost(limit))
  {
    hide CountIf;
    CountPointwise(DrawLatencies(draws), draws, AtMost(limit), TookAtMost(limit));
  }

  /** The 95th percentile keeps a limit exactly when at least 95 percent of the drawn latencies do. */
  lemma P95Within(draws: seq<Draw>, b: LatencyBlock, limit: int)
    requires Describes(b, DrawLatencies(draws))
    ensures b.p95 <= limit <==> 100 * CountIf(draws, TookAtMost(limit)) >= 95 * |draws|
  {
    hide CountIf, DrawLatencies, SumBy;
    NearestRankWithin(DrawLatencies(draws), 95, b.p95, limit);
    LatenciesAtMost(draws, limit);
  }

  /** What the summary says of tenant `t` is what its round-robin share of the draws makes of it. */
  ghost predicate ReportsShare(c: Config, draws: seq<Draw>, t: nat, m: TenantReport)
    requires ValidConfig(c) && ValidDraws(c, draws)
  {
    && m.jobsFinished == m.jobsStarted == Share(c.jobs, t, c.tenants)
    && m.jobsFailed == FailingShare(draws, c.jobs, t, c.tenants)
    && m.failureRate * m.jobsFinished as real == m.jobsFailed as real
    && (m.jobsFinished == 0 ==> m.failureRate == 0.0)
    && (if m.jobsStarted == 0 then m.maxInFlight == 0 else 1 <= m.maxInFlight <= c.concurrency)
    && m.containersCreated == c.containersPerTenant + m.hotReplacements
  }

  lemma SharesReported(c: Config, draws: seq<Draw>, t: nat)
    requires ValidConfig(c) && ValidDraws(c, draws) && t < c.tenants
    ensures |Summarize(c, Simulated(c, draws)).tenants| == c.tenants
    ensures ReportsShare(c, draws, t, Summarize(c, Simulated(c, draws)).tenants[t])
  {
    hide Simulated, Inv, LatencySummary, FailingShare, CountIf, SumBy, GateReasons;
    var f := Simulated(c, draws);
    InvTenants(c, draws, f);
    TenantShares(c, draws, t);
    var m := f.tenants[t];
    assert TenantOk(c, f, t);
    if m.jobsFinished != 0 {
      QuotientTimes(m.jobsFailed as real, m.jobsFinished as real);
    } else {
      CountStronger(f.finishedLog, FailedOf(t), OfTenant(t));
    }
  }

  /** What refuses a run, in terms of the configuration and the draws. */
  predicate Refuses(c: Config, draws: seq<Draw>, r: Reason)
  {
    match r
    case FailureRateTooHigh => CountIf(draws, DrawFailed()) as real > c.maxFailureRate * c.jobs as real
    case P95TooHigh => c.maxP95Ms != 0 && 100 * CountIf(draws, TookAtMost(c.maxP95Ms)) < 95 * c.jobs
    case NoHotReplacement => c.requireHotReplacement && !(0 < c.hotReplaceEvery < c.jobs)
    case NoCompletedJobs(t) => c.jobs <= t < c.tenants
    case FromViolation(_) => false
    case StillDraining(_) => false
  }

  /** The gate's reasons are decided by the configuration and the draws alone. */
  lemma GateVerdict(c: Config, draws: seq<Draw>, r: Reason)
    requires ValidConfig(c) && ValidDraws(c, draws)
    ensures r in Summarize(c, Simulated(c, draws)).reasons <==> Refuses(c, draws, r)
  {
    hide Simulated, Inv, LatencySummary, DrawLatencies, RateExceeds, CountIf, SumBy, Describes, GateReasons, IdleTenants;
    var f := Simulated(c, draws);
    var summary := Summarize(c, f);
    ReasonsExact(c, f, summary.jobsFailed, summary.jobsFinished, summary.latency.p95, summary.drainingContainers, r);
    TotalsOfDraws(c, draws);
    PoolsAtTheEnd(c, draws);
    InvTenants(c, draws, f);
    match r
    case P95TooHigh =>
      LatencyDescribed(c, draws);
      P95Within(draws, summary.latency, c.maxP95Ms);
    case FailureRateTooHigh => RateExceedsMeans(CountIf(draws, DrawFailed()), c.jobs, c.maxFailureRate);
    case NoHotReplacement => ReplacementsPositive(c);
    case NoCompletedJobs(t) => if t < c.tenants { IdleBehindLastJob(c, draws, t); }
    case _ =>
  }

  /** The gate passes exactly when rate, percentile, replacements and tenants are as the configuration asks. */
  predicate GateHolds(c: Config, draws: seq<Draw>)
  {
    && CountIf(draws, DrawFailed()) as real <= c.maxFailureRate * c.jobs as real
    && (c.maxP95Ms == 0 || 100 * CountIf(draws, TookAtMost(c.maxP95Ms)) >= 95 * c.jobs)
    && (c.requireHotReplacement ==> 0 < c.hotReplaceEvery < c.jobs)
    && c.jobs >= c.tenants
  }

  lemma GatePasses(c: Config, draws: seq<Draw>, reasons: seq<Reason>)
    requires ValidConfig(c)
    requires forall r :: r in reasons <==> Refuses(c, draws, r)
    ensures reasons == [] <==> GateHolds(c, draws)
  {
    if reasons == [] {
      assert !Refuses(c, draws, FailureRateTooHigh) && !Refuses(c, draws, P95TooHigh) && !Refuses(c, draws, NoHotReplacement);
      assert !Refuses(c, draws, NoCompletedJobs(c.jobs));
    } else {
      assert Refuses(c, draws, reasons[0]);
    }
  }

  lemma ReplacementsPositive(c: Config)
    requires ValidConfig(c)
    ensures (if c.hotReplaceEvery > 0 then (c.jobs - 1) / c.hotReplaceEvery else 0) == 0 <==> !(0 < c.hotReplaceEvery < c.jobs)
  {
    if c.hotReplaceEvery >= c.jobs {
      DivUnique(c.jobs - 1, c.hotReplaceEvery, 0, c.jobs - 1);
    } else if c.hotReplaceEvery > 0 {
      PositiveQuotient(c.jobs - 1, c.hotReplaceEvery);
    }
  }
}
