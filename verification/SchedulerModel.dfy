/**
 The container scheduler of the cloud compile stress run, as functions on its whole state.

 Containers are named by their position in creation order, which is the iteration order of the
 runner's dictionary. `random` is replaced by one draw per job: any latency in the configured
 range and any failure bit. The two logs record the completion event of every started and every
 finished job.
 */
module SchedulerModel {
  import opened Wrappers

  datatype Config = Config(
    tenants: int,
    containersPerTenant: int,
    slotsPerContainer: int,
    jobs: int,
    concurrency: int,
    hotReplaceEvery: int,
    warmupMs: int,
    compileMinMs: int,
    compileMaxMs: int,
    maxFailureRate: real,
    maxP95Ms: int,
    requireHotReplacement: bool)

  predicate ValidConfig(c: Config)
  {
    && c.tenants >= 1
    && c.containersPerTenant >= 1
    && c.slotsPerContainer >= 1
    && c.jobs >= 1
    && c.concurrency >= 1
    && c.hotReplaceEvery >= 0
    && c.warmupMs >= 0
    && c.compileMinMs >= 0
    && c.compileMaxMs >= c.compileMinMs
    && 0.0 <= c.maxFailureRate <= 1.0
    && c.maxP95Ms >= 0
  }

  /** What a configuration can be refused for, one constructor per check. */
  datatype ConfigError =
    | FewTenants | FewContainers | FewSlots | FewJobs | FewLanes
    | NegativeReplacement | NegativeWarmup | NegativeLatency | LatencyRangeEmpty
    | FailureRateOutOfRange | NegativeLimit

  predicate Breaks(c: Config, e: ConfigError)
  {
    match e
    case FewTenants => c.tenants <= 0
    case FewContainers => c.containersPerTenant <= 0
    case FewSlots => c.slotsPerContainer <= 0
    case FewJobs => c.jobs <= 0
    case FewLanes => c.concurrency <= 0
    case NegativeReplacement => c.hotReplaceEvery <= -1
    case NegativeWarmup => c.warmupMs <= -1
    case NegativeLatency => c.compileMinMs <= -1
    case LatencyRangeEmpty => c.compileMinMs > c.compileMaxMs
    case FailureRateOutOfRange => c.maxFailureRate < 0.0 || c.maxFailureRate > 1.0
    case NegativeLimit => c.maxP95Ms <= -1
  }

  datatype Draw = Draw(latencyMs: int, failed: bool)

  predicate ValidDraw(c: Config, d: Draw)
  {
    c.compileMinMs <= d.latencyMs <= c.compileMaxMs
  }

  predicate ValidDraws(c: Config, draws: seq<Draw>)
  {
    |draws| == c.jobs && forall j :: 0 <= j < |draws| ==> ValidDraw(c, draws[j])
  }

  datatype Phase = Warming | Active | Draining | Retired

  datatype Container = Container(
    tenant: nat,
    generation: nat,
    phase: Phase,
    activeAfterMs: int,
    createdAtMs: int,
    replacementOf: Option<nat>,
    activeJobs: int,
    acceptedJobs: int,
    completedJobs: int)

  datatype Tenant = Tenant(
    jobsStarted: int,
    jobsFinished: int,
    jobsFailed: int,
    currentInFlight: int,
    maxInFlight: int,
    containersCreated: int,
    hotReplacements: int)

  const NEW_TENANT := Tenant(0, 0, 0, 0, 0, 0, 0)

  datatype Completion = Completion(
    finishedAtMs: int,
    sequence: int,
    job: nat,
    tenant: nat,
    container: nat,
    latencyMs: int,
    failed: bool)

  datatype Violation =
    | ReplacementRejected(tenant: nat)
    | IsolationBroken(job: nat, tenant: nat, container: nat)
    | CapacityOverflow(job: nat, container: nat)

  datatype State = State(
    containers: seq<Container>,
    tenants: seq<Tenant>,
    generations: seq<nat>,
    heap: seq<Completion>,
    nowMs: int,
    inFlight: int,
    latencies: seq<int>,
    violations: seq<Violation>,
    hotReplacements: int,
    sequence: int,
    startedLog: seq<Completion>,
    finishedLog: seq<Completion>)

  // Predicates over containers and completion events that the invariants count.

  function InTenant(t: nat): Container -> bool { (x: Container) => x.tenant == t }

  function LiveIn(t: nat): Container -> bool { (x: Container) => x.tenant == t && (x.phase.Warming? || x.phase.Active?) }

  function ReplacedIn(t: nat): Container -> bool { (x: Container) => x.tenant == t && (x.phase.Draining? || x.phase.Retired?) }

  function ActiveIn(t: nat): Container -> bool { (x: Container) => x.tenant == t && x.phase.Active? }

  function FreeIn(t: nat, slots: int): Container -> bool
  {
    (x: Container) => x.tenant == t && x.phase.Active? && x.activeJobs < slots
  }

  function IsWarming(): Container -> bool { (x: Container) => x.phase.Warming? }

  function IsReplaced(): Container -> bool { (x: Container) => x.phase.Draining? || x.phase.Retired? }

  function IsReplacement(): Container -> bool { (x: Container) => x.replacementOf.Some? }

  function IsActivatedReplacement(): Container -> bool { (x: Container) => x.replacementOf.Some? && !x.phase.Warming? }

  function HasPhase(p: Phase): Container -> bool { (x: Container) => x.phase == p }

  function OnContainer(k: nat): Completion -> bool { (e: Completion) => e.container == k }

  function OfTenant(t: nat): Completion -> bool { (e: Completion) => e.tenant == t }

  function FailedOf(t: nat): Completion -> bool { (e: Completion) => e.tenant == t && e.failed }

  function Latency(): Completion -> int { (e: Completion) => e.latencyMs }

  function Elapsed(now: int): Completion -> int { (e: Completion) => now - (e.finishedAtMs - e.latencyMs) }

  // The completion heap, kept in the order in which it is popped.

  predicate Before(a: Completion, b: Completion)
  {
    a.finishedAtMs < b.finishedAtMs || (a.finishedAtMs == b.finishedAtMs && a.sequence < b.sequence)
  }

  /** Order of completion times, and at equal times the order of the starts. */
  ghost predicate DueFirst(a: Completion, b: Completion)
  {
    a.finishedAtMs <= b.finishedAtMs && (a.finishedAtMs == b.finishedAtMs ==> a.sequence < b.sequence)
  }

  /** The place at which `e` enters a heap: in front of the first event that it precedes. */
  function PushIndex(heap: seq<Completion>, e: Completion): (i: nat)
    ensures i <= |heap|
  {
    if heap == [] || Before(e, heap[0]) then 0 else 1 + PushIndex(heap[1..], e)
  }

  lemma {:induction false} PushIndexSeparates(heap: seq<Completion>, e: Completion)
    ensures forall j :: 0 <= j < PushIndex(heap, e) ==> !DueFirst(e, heap[j])
    ensures PushIndex(heap, e) < |heap| ==> DueFirst(e, heap[PushIndex(heap, e)])
  {
    if heap != [] && !Before(e, heap[0]) {
      PushIndexSeparates(heap[1..], e);
    }
  }

  function Push(heap: seq<Completion>, e: Completion): seq<Completion>
  {
    var i := PushIndex(heap, e);
    heap[..i] + [e] + heap[i..]
  }

  // Selection of a container: least `(active_jobs, accepted_jobs, generation)`, first one wins.

  predicate Lighter(a: Container, b: Container)
  {
    || a.activeJobs < b.activeJobs
    || (a.activeJobs == b.activeJobs && a.acceptedJobs < b.acceptedJobs)
    || (a.activeJobs == b.activeJobs && a.acceptedJobs == b.acceptedJobs && a.generation < b.generation)
  }

  function Lightest(xs: seq<Container>, n: nat, want: Container -> bool): (r: Option<nat>)
    requires n <= |xs|
    ensures r.Some? ==> r.value < n && want(xs[r.value])
  {
    if n == 0 then None else
    var best := Lightest(xs, n - 1, want);
    if !want(xs[n - 1]) then best
    else if best.None? || Lighter(xs[n - 1], xs[best.value]) then Some(n - 1)
    else best
  }

  /** `a` has at most the active jobs of `b`, at equally many it accepted at most as many, and at both equal it is no younger. */
  ghost predicate NoHeavier(a: Container, b: Container)
  {
    && a.activeJobs <= b.activeJobs
    && (a.activeJobs == b.activeJobs ==> a.acceptedJobs <= b.acceptedJobs)
    && (a.activeJobs == b.activeJobs && a.acceptedJobs == b.acceptedJobs ==> a.generation <= b.generation)
  }

  /** A container is found whenever one is wanted; it is no heavier than any wanted one, and comes first of its equals. */
  lemma {:induction false} LightestIsLeast(xs: seq<Container>, n: nat, want: Container -> bool)
    requires n <= |xs|
    ensures Lightest(xs, n, want).Some? <==> exists j :: 0 <= j < n && want(xs[j])
    ensures Lightest(xs, n, want).Some? ==>
              var k := Lightest(xs, n, want).value;
              && want(xs[k])
              && (forall j :: 0 <= j < n && want(xs[j]) ==> NoHeavier(xs[k], xs[j]))
              && (forall j :: 0 <= j < k && want(xs[j]) ==> !NoHeavier(xs[j], xs[k]))
  {
    if n > 0 {
      LightestIsLeast(xs, n - 1, want);
    }
  }

  function NextWarmup(xs: seq<Container>, n: nat, now: int): (r: Option<int>)
    requires n <= |xs|
  {
    if n == 0 then None else
    var best := NextWarmup(xs, n - 1, now);
    var x := xs[n - 1];
    if x.phase.Warming? && x.activeAfterMs > now && (best.None? || x.activeAfterMs < best.value)
    then Some(x.activeAfterMs)
    else best
  }

  predicate WarmsLater(x: Container, now: int)
  {
    x.phase.Warming? && x.activeAfterMs > now
  }

  /** The next warm-up exists exactly when a container is still to warm up, and is the earliest one. */
  lemma {:induction false} NextWarmupIsEarliest(xs: seq<Container>, n: nat, now: int)
    requires n <= |xs|
    ensures NextWarmup(xs, n, now).Some? <==> exists j :: 0 <= j < n && WarmsLater(xs[j], now)
    ensures NextWarmup(xs, n, now).Some? ==>
              var r := NextWarmup(xs, n, now).value;
              && (exists j :: 0 <= j < n && WarmsLater(xs[j], now) && xs[j].activeAfterMs == r)
              && (forall j :: 0 <= j < n && WarmsLater(xs[j], now) ==> r <= xs[j].activeAfterMs)
  {
    if n > 0 {
      NextWarmupIsEarliest(xs, n - 1, now);
      if NextWarmup(xs, n, now) == Some(xs[n - 1].activeAfterMs) && WarmsLater(xs[n - 1], now) {
        assert WarmsLater(xs[n - 1], now);
      }
    }
  }

  // The steps of the runner.

  function TenantCount(c: Config): nat { if c.tenants < 0 then 0 else c.tenants }

  function Start(c: Config): State
  {
    State([], seq(TenantCount(c), _ => NEW_TENANT), seq(TenantCount(c), _ => 0), [], 0, 0, [], [], 0, 0, [], [])
  }

  function Created(s: State, t: nat, activeAfterMs: int, replacementOf: Option<nat>): State
    requires t < |s.tenants| == |s.generations|
  {
    var generation := s.generations[t] + 1;
    var phase := if activeAfterMs > s.nowMs then Warming else Active;
    s.(containers := s.containers + [Container(t, generation, phase, activeAfterMs, s.nowMs, replacementOf, 0, 0, 0)],
       generations := s.generations[t := generation],
       tenants := s.tenants[t := s.tenants[t].(containersCreated := s.tenants[t].containersCreated + 1)])
  }

  function Warmed(x: Container, now: int): Container
  {
    if x.phase.Warming? && x.activeAfterMs <= now then x.(phase := Active) else x
  }

  function WarmedAll(xs: seq<Container>, now: int): (ys: seq<Container>)
    ensures |ys| == |xs| && forall i :: 0 <= i < |xs| ==> ys[i] == Warmed(xs[i], now)
  {
    seq(|xs|, i requires 0 <= i < |xs| => Warmed(xs[i], now))
  }

  function Warm(s: State): State
  {
    s.(containers := WarmedAll(s.containers, s.nowMs))
  }

  function Drained(s: State, k: nat): State
    requires k < |s.containers| && s.containers[k].tenant < |s.tenants|
  {
    var t := s.containers[k].tenant;
    s.(containers := s.containers[k := s.containers[k].(phase := Draining)],
       hotReplacements := s.hotReplacements + 1,
       tenants := s.tenants[t := s.tenants[t].(hotReplacements := s.tenants[t].hotReplacements + 1)])
  }

  function RetiredIfIdle(s: State, k: nat): State
    requires k < |s.containers|
  {
    var x := s.containers[k];
    if x.phase.Draining? && x.activeJobs == 0
    then s.(containers := s.containers[k := x.(phase := Retired)])
    else s
  }

  /** Replaces one container of tenant `t` after warm-ups have been processed. */
  function Replaced(c: Config, s: State, t: nat, k: nat): State
    requires k < |s.containers| && s.containers[k].tenant == t < |s.tenants| == |s.generations|
  {
    RetiredIfIdle(Created(Drained(s, k), t, s.nowMs + c.warmupMs, Some(k)), k)
  }

  function Rejected(s: State, t: nat): State
  {
    s.(violations := s.violations + [ReplacementRejected(t)])
  }

  predicate TenantsInRange(s: State)
  {
    |s.tenants| == |s.generations| && forall k :: 0 <= k < |s.containers| ==> s.containers[k].tenant < |s.tenants|
  }

  function HotReplace(c: Config, s: State, t: nat): State
    requires TenantsInRange(s) && t < |s.tenants|
  {
    var w := Warm(s);
    match Lightest(w.containers, |w.containers|, ActiveIn(t))
    case None => Rejected(w, t)
    case Some(k) => Replaced(c, w, t, k)
  }

  function MaxInt(a: int, b: int): (r: int)
    ensures r >= a && r >= b && (r == a || r == b)
  {
    if a < b then b else a
  }

  function StartViolations(c: Config, s: State, job: nat, t: nat, k: nat): seq<Violation>
    requires k < |s.containers|
  {
    (if s.containers[k].tenant != t then [IsolationBroken(job, t, k)] else []) +
    (if s.containers[k].activeJobs >= c.slotsPerContainer then [CapacityOverflow(job, k)] else [])
  }

  function StartEvent(s: State, job: nat, t: nat, k: nat, d: Draw): Completion
  {
    Completion(s.nowMs + d.latencyMs, s.sequence + 1, job, t, k, d.latencyMs, d.failed)
  }

  /** The container and the tenant of a new job, with the job counted in. */
  function StartBooked(s: State, t: nat, k: nat): State
    requires k < |s.containers| && t < |s.tenants|
  {
    var x := s.containers[k];
    var m := s.tenants[t];
    s.(containers := s.containers[k := x.(activeJobs := x.activeJobs + 1, acceptedJobs := x.acceptedJobs + 1)],
       tenants := s.tenants[t := m.(jobsStarted := m.jobsStarted + 1,
                                    currentInFlight := m.currentInFlight + 1,
                                    maxInFlight := MaxInt(m.maxInFlight, m.currentInFlight + 1))])
  }

  function Started(c: Config, s: State, job: nat, t: nat, k: nat, d: Draw): State
    requires k < |s.containers| && t < |s.tenants|
  {
    var e := StartEvent(s, job, t, k, d);
    StartBooked(s, t, k).(violations := s.violations + StartViolations(c, s, job, t, k),
                          inFlight := s.inFlight + 1,
                          sequence := s.sequence + 1,
                          heap := Push(s.heap, e),
                          startedLog := s.startedLog + [e])
  }

  predicate EventInRange(s: State, e: Completion)
  {
    e.container < |s.containers| && e.tenant < |s.tenants|
  }

  /** The bookkeeping of `finish_job`, before the container is retired. */
  function Finished(s: State, e: Completion): State
    requires EventInRange(s, e)
  {
    var x := s.containers[e.container];
    var m := s.tenants[e.tenant];
    s.(containers := s.containers[e.container := x.(activeJobs := x.activeJobs - 1, completedJobs := x.completedJobs + 1)],
       tenants := s.tenants[e.tenant := m.(jobsFinished := m.jobsFinished + 1,
                                           currentInFlight := m.currentInFlight - 1,
                                           jobsFailed := m.jobsFailed + (if e.failed then 1 else 0))],
       inFlight := s.inFlight - 1,
       latencies := s.latencies + [e.latencyMs],
       finishedLog := s.finishedLog + [e])
  }

  function FinishJob(s: State, e: Completion): State
    requires EventInRange(s, e)
  {
    RetiredIfIdle(Finished(s, e), e.container)
  }

  function PopAndFinish(s: State): State
    requires s.heap != [] && EventInRange(s, s.heap[0])
  {
    var e := s.heap[0];
    FinishJob(s.(heap := s.heap[1..], nowMs := MaxInt(s.nowMs, e.finishedAtMs)), e)
  }

  predicate HasEvent(s: State)
  {
    s.heap != [] || NextWarmup(s.containers, |s.containers|, s.nowMs).Some?
  }

  /** One event: the earliest completion, or the earliest warm-up when that comes strictly first. */
  function Advance(s: State): State
    requires HasEvent(s)
    requires s.heap != [] ==> EventInRange(s, s.heap[0])
  {
    var warmup := NextWarmup(s.containers, |s.containers|, s.nowMs);
    if s.heap != [] && (warmup.None? || s.heap[0].finishedAtMs <= warmup.value)
    then Warm(PopAndFinish(s))
    else Warm(s.(nowMs := MaxInt(s.nowMs, warmup.value)))
  }
}
