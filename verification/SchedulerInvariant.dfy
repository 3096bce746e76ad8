/** What every step of the scheduler keeps: the coupling of containers, tenants, heap and logs. */
module SchedulerInvariant {
  import opened Wrappers
  import opened Counting
  import opened SchedulerModel

  ghost predicate ContainerOk(c: Config, s: State, k: nat)
    requires k < |s.containers| && |s.generations| == c.tenants
  {
    var x := s.containers[k];
    && x.tenant < c.tenants
    && 1 <= x.generation <= s.generations[x.tenant]
    && x.activeJobs == CountIf(s.heap, OnContainer(k)) <= c.slotsPerContainer
    && x.completedJobs == CountIf(s.finishedLog, OnContainer(k))
    && x.acceptedJobs == x.activeJobs + x.completedJobs
    && x.createdAtMs <= s.nowMs
    && x.activeAfterMs <= x.createdAtMs + c.warmupMs
    && (x.phase.Warming? ==> x.replacementOf.Some? && x.acceptedJobs == 0)
    && (!x.phase.Warming? ==> x.activeAfterMs <= s.nowMs)
    && (x.phase.Retired? ==> x.activeJobs == 0)
    && (x.replacementOf.Some? ==> ReplacesOk(c, s, k, x.replacementOf.value))
  }

  /** Container `k` took the place of `j`: same tenant, `j` out of service, a full warm-up in between. */
  ghost predicate ReplacesOk(c: Config, s: State, k: nat, j: nat)
    requires k < |s.containers|
  {
    && j < k
    && s.containers[j].tenant == s.containers[k].tenant
    && (s.containers[j].phase.Draining? || s.containers[j].phase.Retired?)
    && s.containers[k].activeAfterMs == s.containers[k].createdAtMs + c.warmupMs
  }

  ghost predicate TenantOk(c: Config, s: State, t: nat)
    requires t < |s.tenants| == |s.generations|
  {
    var m := s.tenants[t];
    && m.currentInFlight == CountIf(s.heap, OfTenant(t))
    && m.jobsFinished == CountIf(s.finishedLog, OfTenant(t))
    && m.jobsFailed == CountIf(s.finishedLog, FailedOf(t))
    && m.jobsStarted == m.jobsFinished + m.currentInFlight
    && m.currentInFlight <= m.maxInFlight <= c.concurrency
    && (m.maxInFlight == 0 <==> m.jobsStarted == 0)
    && m.containersCreated == s.generations[t] == CountIf(s.containers, InTenant(t))
    && m.hotReplacements == CountIf(s.containers, ReplacedIn(t))
  }

  ghost predicate EntryOk(c: Config, s: State, e: Completion)
  {
    && e.container < |s.containers|
    && s.containers[e.container].tenant == e.tenant < c.tenants
    && e.finishedAtMs - e.latencyMs <= s.nowMs <= e.finishedAtMs
    && c.compileMinMs <= e.latencyMs <= c.compileMaxMs
    && e.sequence <= s.sequence
  }

  ghost predicate HeapOk(c: Config, s: State)
  {
    && (forall i, j :: 0 <= i < j < |s.heap| ==> DueFirst(s.heap[i], s.heap[j]))
    && (forall i :: 0 <= i < |s.heap| ==> EntryOk(c, s, s.heap[i]))
    && |s.heap| == s.inFlight <= c.concurrency
  }

  ghost predicate LogsOk(c: Config, draws: seq<Draw>, s: State)
    requires c.tenants >= 1
  {
    && |s.startedLog| == s.sequence <= |draws|
    && (forall j :: 0 <= j < |s.startedLog| ==> StartedFrom(c, draws[j], s.startedLog[j], j))
    && multiset(s.startedLog) == multiset(s.heap) + multiset(s.finishedLog)
    && |s.latencies| == |s.finishedLog|
    && (forall i :: 0 <= i < |s.latencies| ==> s.latencies[i] == s.finishedLog[i].latencyMs)
    && (forall i :: 0 <= i < |s.finishedLog| ==> RanAtHome(s, s.finishedLog[i]))
  }

  /** The job of event `e` ran on a container of its own tenant, and is over. */
  predicate RanAtHome(s: State, e: Completion)
  {
    e.container < |s.containers| && s.containers[e.container].tenant == e.tenant && e.finishedAtMs <= s.nowMs
  }

  /** Event `e` is the `j`-th start: job `j`, on the tenant that job `j` belongs to, as drawn. */
  predicate StartedFrom(c: Config, d: Draw, e: Completion, j: nat)
    requires c.tenants >= 1
  {
    e.job == j && e.sequence == j + 1 && e.tenant == j % c.tenants && e.latencyMs == d.latencyMs && e.failed == d.failed
  }

  ghost predicate Distinct(s: State)
  {
    forall i, j :: 0 <= i < j < |s.containers| ==>
                     s.containers[i].tenant != s.containers[j].tenant || s.containers[i].generation != s.containers[j].generation
  }

  ghost predicate Core(c: Config, draws: seq<Draw>, s: State)
  {
    && ValidConfig(c) && ValidDraws(c, draws)
    && |s.tenants| == |s.generations| == c.tenants
    && s.nowMs >= 0
    && (forall k :: 0 <= k < |s.containers| ==> ContainerOk(c, s, k))
    && (forall t :: 0 <= t < c.tenants ==> TenantOk(c, s, t))
    && HeapOk(c, s)
    && LogsOk(c, draws, s)
    && Distinct(s)
    && s.hotReplacements == CountIf(s.containers, IsReplaced())
    && (forall i :: 0 <= i < |s.violations| ==> s.violations[i].ReplacementRejected?)
  }

  /** Between two operations of the runner nothing is overdue and every pool has its full size. */
  ghost predicate Settled(c: Config, s: State)
  {
    && (forall k :: 0 <= k < |s.containers| ==> s.containers[k].phase.Warming? ==> s.containers[k].activeAfterMs > s.nowMs)
    && (forall k :: 0 <= k < |s.containers| ==> s.containers[k].phase.Draining? ==> s.containers[k].activeJobs > 0)
    && s.hotReplacements == CountIf(s.containers, IsReplacement())
    && |s.containers| == c.tenants * c.containersPerTenant + s.hotReplacements
    && (forall t: nat :: t < c.tenants ==> CountIf(s.containers, LiveIn(t)) == c.containersPerTenant)
  }

  /** The finished latencies and the running time of what is in flight fit under `concurrency` lanes. */
  ghost predicate WorkOk(c: Config, s: State)
  {
    SumBy(s.finishedLog, Latency()) + SumBy(s.heap, Elapsed(s.nowMs)) <= c.concurrency * s.nowMs
  }

  ghost predicate MakespanOk(c: Config, s: State)
  {
    s.nowMs <= |s.finishedLog| * c.compileMaxMs + CountIf(s.containers, IsActivatedReplacement()) * c.warmupMs
  }

  ghost predicate Inv(c: Config, draws: seq<Draw>, s: State)
  {
    Core(c, draws, s) && Settled(c, s) && WorkOk(c, s) && MakespanOk(c, s)
  }

  // Warm-ups.

  lemma WarmKeepsCore(c: Config, draws: seq<Draw>, s: State)
    requires Core(c, draws, s)
    ensures Core(c, draws, Warm(s))
  {
    hide LogsOk, HeapOk, CountIf;
    var w := Warm(s);
    SameLogs(c, draws, s, w);
    forall k | 0 <= k < |w.containers| ensures ContainerOk(c, w, k) {
      assert ContainerOk(c, s, k);
      if w.containers[k].replacementOf.Some? {
        assert w.containers[w.containers[k].replacementOf.value] == s.containers[w.containers[k].replacementOf.value];
      }
    }
    forall t | 0 <= t < c.tenants ensures TenantOk(c, w, t) {
      assert TenantOk(c, s, t);
      CountSame(s.containers, w.containers, InTenant(t));
      CountSame(s.containers, w.containers, ReplacedIn(t));
    }
    CountSame(s.containers, w.containers, IsReplaced());
  }

  lemma WarmKeepsCounts(c: Config, s: State)
    ensures CountIf(Warm(s).containers, IsReplacement()) == CountIf(s.containers, IsReplacement())
    ensures forall t: nat :: CountIf(Warm(s).containers, LiveIn(t)) == CountIf(s.containers, LiveIn(t))
    ensures CountIf(Warm(s).containers, IsActivatedReplacement()) >= CountIf(s.containers, IsActivatedReplacement())
    ensures CountIf(Warm(s).containers, IsWarming()) <= CountIf(s.containers, IsWarming())
  {
    var w := Warm(s);
    CountSame(s.containers, w.containers, IsReplacement());
    forall t: nat ensures CountIf(w.containers, LiveIn(t)) == CountIf(s.containers, LiveIn(t)) {
      CountSame(s.containers, w.containers, LiveIn(t));
    }
    CountMonotone(s.containers, w.containers, IsActivatedReplacement());
    CountMonotone(w.containers, s.containers, IsWarming());
  }

  // Creation.

  lemma NoneOnNewContainer(c: Config, draws: seq<Draw>, s: State)
    requires c.tenants >= 1 && HeapOk(c, s) && LogsOk(c, draws, s)
    ensures CountIf(s.heap, OnContainer(|s.containers|)) == 0
    ensures CountIf(s.finishedLog, OnContainer(|s.containers|)) == 0
  {
    CountPositive(s.heap, OnContainer(|s.containers|));
    CountPositive(s.finishedLog, OnContainer(|s.containers|));
    assert forall i :: 0 <= i < |s.heap| ==> EntryOk(c, s, s.heap[i]);
    assert forall i :: 0 <= i < |s.finishedLog| ==> RanAtHome(s, s.finishedLog[i]);
  }

  lemma CreatedKeepsCore(c: Config, draws: seq<Draw>, s: State, t: nat, activeAfterMs: int, replacementOf: Option<nat>)
    requires Core(c, draws, s) && t < c.tenants
    requires activeAfterMs <= s.nowMs + c.warmupMs
    requires replacementOf.None? ==> activeAfterMs <= s.nowMs
    requires replacementOf.Some? ==>
               && replacementOf.value < |s.containers|
               && s.containers[replacementOf.value].tenant == t
               && s.containers[replacementOf.value].phase.Draining?
               && activeAfterMs == s.nowMs + c.warmupMs
    ensures Core(c, draws, Created(s, t, activeAfterMs, replacementOf))
  {
    hide CountIf, SumBy;
    var n := |s.containers|;
    var r := Created(s, t, activeAfterMs, replacementOf);
    NoneOnNewContainer(c, draws, s);
    assert 0 <= CountIf(s.containers, InTenant(t)) == s.generations[t] by { assert TenantOk(c, s, t); }
    forall k | 0 <= k < |r.containers| ensures ContainerOk(c, r, k) {
      if k < n { assert ContainerOk(c, s, k); }
    }
    forall u | 0 <= u < c.tenants ensures TenantOk(c, r, u) {
      assert TenantOk(c, s, u);
      CountSnoc(s.containers, r.containers[n], InTenant(u));
      CountSnoc(s.containers, r.containers[n], ReplacedIn(u));
    }
    SameLogs(c, draws, s, r);
    CreatedDistinct(c, s, t, activeAfterMs, replacementOf);
    CountSnoc(s.containers, r.containers[n], IsReplaced());
  }

  lemma CreatedDistinct(c: Config, s: State, t: nat, activeAfterMs: int, replacementOf: Option<nat>)
    requires |s.tenants| == |s.generations| == c.tenants && t < c.tenants
    requires forall k :: 0 <= k < |s.containers| ==> ContainerOk(c, s, k)
    requires Distinct(s)
    ensures Distinct(Created(s, t, activeAfterMs, replacementOf))
  {
    var r := Created(s, t, activeAfterMs, replacementOf);
    forall i, j | 0 <= i < j < |r.containers|
      ensures r.containers[i].tenant != r.containers[j].tenant || r.containers[i].generation != r.containers[j].generation
    {
      assert ContainerOk(c, s, i);
    }
  }

  lemma CreatedCounts(s: State, t: nat, activeAfterMs: int, replacementOf: Option<nat>)
    requires t < |s.tenants| == |s.generations|
    ensures
      var r := Created(s, t, activeAfterMs, replacementOf);
      && CountIf(r.containers, IsReplacement()) == CountIf(s.containers, IsReplacement()) + (if replacementOf.Some? then 1 else 0)
      && CountIf(r.containers, IsActivatedReplacement()) >= CountIf(s.containers, IsActivatedReplacement())
      && forall u: nat :: CountIf(r.containers, LiveIn(u)) == CountIf(s.containers, LiveIn(u)) + (if u == t then 1 else 0)
  {
    var r := Created(s, t, activeAfterMs, replacementOf);
    var x := r.containers[|s.containers|];
    CountSnoc(s.containers, x, IsReplacement());
    CountSnoc(s.containers, x, IsActivatedReplacement());
    forall u: nat
      ensures CountIf(r.containers, LiveIn(u)) == CountIf(s.containers, LiveIn(u)) + (if u == t then 1 else 0)
    {
      CountSnoc(s.containers, x, LiveIn(u));
    }
  }

  // Draining and retiring.

  lemma DrainedKeepsCore(c: Config, draws: seq<Draw>, s: State, k: nat)
    requires Core(c, draws, s)
    requires k < |s.containers| && s.containers[k].phase.Active? && s.containers[k].tenant < c.tenants
    ensures Core(c, draws, Drained(s, k))
  {
    var r := Drained(s, k);
    var y := r.containers[k];
    forall j | 0 <= j < |r.containers| ensures ContainerOk(c, r, j) { assert ContainerOk(c, s, j); }
    forall u | 0 <= u < c.tenants ensures TenantOk(c, r, u) {
      assert TenantOk(c, s, u);
      CountUpdate(s.containers, k, y, InTenant(u));
      CountUpdate(s.containers, k, y, ReplacedIn(u));
    }
    SameLogs(c, draws, s, r);
    CountUpdate(s.containers, k, y, IsReplaced());
  }

  /** Heap and logs stay right when only the state of containers changes. */
  lemma SameLogs(c: Config, draws: seq<Draw>, s: State, r: State)
    requires c.tenants >= 1 && HeapOk(c, s) && LogsOk(c, draws, s)
    requires r.heap == s.heap && r.nowMs == s.nowMs && r.sequence == s.sequence && r.inFlight == s.inFlight
    requires r.startedLog == s.startedLog && r.finishedLog == s.finishedLog && r.latencies == s.latencies
    requires |r.containers| >= |s.containers|
    requires forall j :: 0 <= j < |s.containers| ==> r.containers[j].tenant == s.containers[j].tenant
    ensures HeapOk(c, r) && LogsOk(c, draws, r)
  {
    assert forall i :: 0 <= i < |r.heap| ==> EntryOk(c, s, s.heap[i]) && EntryOk(c, r, r.heap[i]);
    assert forall i :: 0 <= i < |r.finishedLog| ==> RanAtHome(s, s.finishedLog[i]) && RanAtHome(r, r.finishedLog[i]);
    assert forall j :: 0 <= j < |r.startedLog| ==> StartedFrom(c, draws[j], s.startedLog[j], j);
  }

  lemma RetiredKeepsCore(c: Config, draws: seq<Draw>, s: State, k: nat)
    requires Core(c, draws, s) && k < |s.containers|
    ensures Core(c, draws, RetiredIfIdle(s, k))
  {
    var r := RetiredIfIdle(s, k);
    var y := r.containers[k];
    assert r.containers == s.containers[k := y];
    forall j | 0 <= j < |r.containers| ensures ContainerOk(c, r, j) { assert ContainerOk(c, s, j); }
    forall u | 0 <= u < c.tenants ensures TenantOk(c, r, u) {
      assert TenantOk(c, s, u);
      CountUpdate(s.containers, k, y, InTenant(u));
      CountUpdate(s.containers, k, y, ReplacedIn(u));
    }
    SameLogs(c, draws, s, r);
    CountUpdate(s.containers, k, y, IsReplaced());
  }

  /** An update of container `k` that leaves these counts alone. */
  lemma UpdateKeepsCounts(s: State, k: nat, y: Container)
    requires k < |s.containers|
    requires y.tenant == s.containers[k].tenant && y.replacementOf == s.containers[k].replacementOf
    requires y.phase.Warming? <==> s.containers[k].phase.Warming?
    requires y.phase.Active? <==> s.containers[k].phase.Active?
    ensures
      var cs := s.containers[k := y];
      && CountIf(cs, IsReplacement()) == CountIf(s.containers, IsReplacement())
      && CountIf(cs, IsActivatedReplacement()) == CountIf(s.containers, IsActivatedReplacement())
      && CountIf(cs, IsWarming()) == CountIf(s.containers, IsWarming())
      && forall u: nat :: CountIf(cs, LiveIn(u)) == CountIf(s.containers, LiveIn(u))
  {
    CountUpdate(s.containers, k, y, IsReplacement());
    CountUpdate(s.containers, k, y, IsActivatedReplacement());
    CountUpdate(s.containers, k, y, IsWarming());
    forall u: nat ensures CountIf(s.containers[k := y], LiveIn(u)) == CountIf(s.containers, LiveIn(u)) {
      CountUpdate(s.containers, k, y, LiveIn(u));
    }
  }

  // Hot replacement.

  /** The makespan bound survives a step that keeps the clock and retracts no activation. */
  lemma MakespanSurvives(c: Config, s: State, r: State)
    requires c.warmupMs >= 0 && MakespanOk(c, s)
    requires r.nowMs == s.nowMs && r.finishedLog == s.finishedLog
    requires CountIf(r.containers, IsActivatedReplacement()) >= CountIf(s.containers, IsActivatedReplacement())
    ensures MakespanOk(c, r)
  {
    var a := CountIf(s.containers, IsActivatedReplacement());
    var b := CountIf(r.containers, IsActivatedReplacement());
    MulMonotone(a, b, c.warmupMs);
  }

  /** Settled up to warm-ups that are due. */
  ghost predicate Poised(c: Config, s: State)
  {
    && (forall k :: 0 <= k < |s.containers| ==> s.containers[k].phase.Draining? ==> s.containers[k].activeJobs > 0)
    && s.hotReplacements == CountIf(s.containers, IsReplacement())
    && |s.containers| == c.tenants * c.containersPerTenant + s.hotReplacements
    && (forall t: nat :: t < c.tenants ==> CountIf(s.containers, LiveIn(t)) == c.containersPerTenant)
  }

  lemma WarmSettles(c: Config, s: State)
    requires Poised(c, s)
    ensures Settled(c, Warm(s))
  {
    WarmKeepsCounts(c, s);
  }

  lemma WarmKeepsInv(c: Config, draws: seq<Draw>, s: State)
    requires Core(c, draws, s) && WorkOk(c, s) && MakespanOk(c, s) && Poised(c, s)
    ensures Inv(c, draws, Warm(s))
  {
    WarmKeepsCore(c, draws, s);
    WarmSettles(c, s);
    WarmKeepsCounts(c, s);
    MakespanSurvives(c, s, Warm(s));
  }

  lemma DrainedCounts(s: State, k: nat)
    requires k < |s.containers| && s.containers[k].phase.Active? && s.containers[k].tenant < |s.tenants|
    ensures
      var d := Drained(s, k).containers;
      && CountIf(d, IsReplacement()) == CountIf(s.containers, IsReplacement())
      && CountIf(d, IsActivatedReplacement()) == CountIf(s.containers, IsActivatedReplacement())
      && forall u: nat :: CountIf(d, LiveIn(u)) == CountIf(s.containers, LiveIn(u)) - (if u == s.containers[k].tenant then 1 else 0)
  {
    var y := s.containers[k].(phase := Draining);
    CountUpdate(s.containers, k, y, IsReplacement());
    CountUpdate(s.containers, k, y, IsActivatedReplacement());
    forall u: nat
      ensures CountIf(s.containers[k := y], LiveIn(u)) == CountIf(s.containers, LiveIn(u)) - (if u == s.containers[k].tenant then 1 else 0)
    {
      CountUpdate(s.containers, k, y, LiveIn(u));
    }
  }

  lemma ReplacedKeepsCore(c: Config, draws: seq<Draw>, s: State, t: nat, k: nat)
    requires Core(c, draws, s) && t < c.tenants
    requires k < |s.containers| && s.containers[k].tenant == t && s.containers[k].phase.Active?
    ensures Core(c, draws, Replaced(c, s, t, k))
  {
    hide ContainerOk, TenantOk, HeapOk, LogsOk, Distinct;
    var d := Drained(s, k);
    DrainedKeepsCore(c, draws, s, k);
    var n := Created(d, t, s.nowMs + c.warmupMs, Some(k));
    CreatedKeepsCore(c, draws, d, t, s.nowMs + c.warmupMs, Some(k));
    RetiredKeepsCore(c, draws, n, k);
  }

  lemma ReplacedSettles(c: Config, s: State, t: nat, k: nat)
    requires |s.tenants| == |s.generations| == c.tenants && t < c.tenants
    requires Settled(c, s) && MakespanOk(c, s) && WorkOk(c, s) && c.warmupMs >= 0
    requires k < |s.containers| && s.containers[k].tenant == t && s.containers[k].phase.Active? && s.containers[k].activeJobs >= 0
    ensures Settled(c, Replaced(c, s, t, k)) && MakespanOk(c, Replaced(c, s, t, k)) && WorkOk(c, Replaced(c, s, t, k))
  {
    hide CountIf, SumBy, MakespanOk, IsReplacement, IsActivatedReplacement, LiveIn, Latency, Elapsed;
    var d := Drained(s, k);
    DrainedCounts(s, k);
    var n := Created(d, t, s.nowMs + c.warmupMs, Some(k));
    CreatedCounts(d, t, s.nowMs + c.warmupMs, Some(k));
    var r := RetiredIfIdle(n, k);
    assert r.containers == n.containers[k := r.containers[k]];
    UpdateKeepsCounts(n, k, r.containers[k]);
    MakespanSurvives(c, s, r);
  }

  lemma RejectedKeepsInv(c: Config, draws: seq<Draw>, s: State, t: nat)
    requires Inv(c, draws, s)
    ensures Inv(c, draws, Rejected(s, t))
  {
    var r := Rejected(s, t);
    forall k | 0 <= k < |r.containers| ensures ContainerOk(c, r, k) { assert ContainerOk(c, s, k); }
    forall u | 0 <= u < c.tenants ensures TenantOk(c, r, u) { assert TenantOk(c, s, u); }
    SameLogs(c, draws, s, r);
  }

  lemma CoreInRange(c: Config, draws: seq<Draw>, s: State)
    requires Core(c, draws, s)
    ensures TenantsInRange(s) && |s.tenants| == c.tenants
    ensures s.heap != [] ==> EventInRange(s, s.heap[0])
  {
    forall k | 0 <= k < |s.containers| ensures s.containers[k].tenant < |s.tenants| {
      assert ContainerOk(c, s, k);
    }
    assert s.heap != [] ==> EntryOk(c, s, s.heap[0]);
  }

  lemma HotReplaceKeepsInv(c: Config, draws: seq<Draw>, s: State, t: nat)
    requires Inv(c, draws, s) && t < c.tenants
    ensures TenantsInRange(s) && |s.tenants| == c.tenants
    ensures Inv(c, draws, HotReplace(c, s, t))
  {
    CoreInRange(c, draws, s);
    WarmKeepsInv(c, draws, s);
    var w := Warm(s);
    match Lightest(w.containers, |w.containers|, ActiveIn(t))
    case None => RejectedKeepsInv(c, draws, w, t);
    case Some(k) =>
      assert ContainerOk(c, w, k);
      ReplacedKeepsCore(c, draws, w, t, k);
      ReplacedSettles(c, w, t, k);
  }

  /** A request for a hot replacement is either carried out or recorded as rejected. */
  lemma HotReplaceAnswers(c: Config, s: State, t: nat)
    requires TenantsInRange(s) && t < |s.tenants|
    ensures
      var r := HotReplace(c, s, t);
      && |r.violations| + r.hotReplacements == |s.violations| + s.hotReplacements + 1
      && r.sequence == s.sequence && r.heap == s.heap && r.nowMs == s.nowMs
  {
  }

  // Starting a job.

  predicate CanStart(c: Config, draws: seq<Draw>, s: State, job: nat, t: nat, k: nat)
    requires c.tenants >= 1
  {
    && job == s.sequence < |draws|
    && t == job % c.tenants
    && s.inFlight < c.concurrency
    && k < |s.containers| && s.containers[k].tenant == t && s.containers[k].phase.Active?
    && s.containers[k].activeJobs < c.slotsPerContainer
  }

  lemma PushKeepsEntries(c: Config, draws: seq<Draw>, s: State, job: nat, t: nat, k: nat)
    requires Core(c, draws, s) && CanStart(c, draws, s, job, t, k)
    ensures forall a :: 0 <= a < |s.heap| ==> EntryOk(c, Started(c, s, job, t, k, draws[job]), s.heap[a])
    ensures EntryOk(c, Started(c, s, job, t, k, draws[job]), StartEvent(s, job, t, k, draws[job]))
  {
    hide LogsOk, ContainerOk, TenantOk, Distinct, Push;
    assert ValidDraw(c, draws[job]);
    forall a | 0 <= a < |s.heap| ensures EntryOk(c, Started(c, s, job, t, k, draws[job]), s.heap[a]) {
      assert EntryOk(c, s, s.heap[a]);
    }
  }

  /** A push keeps the pop order when the new event comes later in sequence than all others. */
  lemma PushKeepsOrder(heap: seq<Completion>, e: Completion)
    requires forall a, b :: 0 <= a < b < |heap| ==> DueFirst(heap[a], heap[b])
    requires forall a :: 0 <= a < |heap| ==> heap[a].sequence < e.sequence
    ensures forall a, b :: 0 <= a < b < |heap| + 1 ==> DueFirst(Push(heap, e)[a], Push(heap, e)[b])
  {
    var i, r := PushIndex(heap, e), Push(heap, e);
    PushIndexSeparates(heap, e);
    forall a, b | 0 <= a < b < |r| ensures DueFirst(r[a], r[b]) {
      if a < i {
        assert r[a] == heap[a];
        assert b != i ==> r[b] == heap[if b < i then b else b - 1];
      } else {
        assert r[b] == heap[b - 1];
        assert a > i ==> r[a] == heap[a - 1];
      }
    }
  }

  lemma PushKeepsHeapOk(c: Config, draws: seq<Draw>, s: State, job: nat, t: nat, k: nat)
    requires Core(c, draws, s) && CanStart(c, draws, s, job, t, k)
    ensures HeapOk(c, Started(c, s, job, t, k, draws[job]))
  {
    hide LogsOk, ContainerOk, TenantOk, Distinct, DueFirst, StartBooked;
    var r := Started(c, s, job, t, k, draws[job]);
    var e := StartEvent(s, job, t, k, draws[job]);
    var i := PushIndex(s.heap, e);
    PushKeepsEntries(c, draws, s, job, t, k);
    forall a | 0 <= a < |s.heap| ensures s.heap[a].sequence < e.sequence { assert EntryOk(c, s, s.heap[a]); }
    PushKeepsOrder(s.heap, e);
    forall a | 0 <= a < |r.heap| ensures EntryOk(c, r, r.heap[a]) {
      if a < i { assert r.heap[a] == s.heap[a]; } else if a > i { assert r.heap[a] == s.heap[a - 1]; }
    }
  }

  lemma PushAdds(heap: seq<Completion>, e: Completion)
    ensures multiset(Push(heap, e)) == multiset(heap) + multiset{e}
  {
    var i := PushIndex(heap, e);
    assert heap == heap[..i] + heap[i..];
  }

  lemma StartedKeepsLogs(c: Config, draws: seq<Draw>, s: State, job: nat, t: nat, k: nat)
    requires c.tenants >= 1 && |s.tenants| == c.tenants
    requires LogsOk(c, draws, s) && CanStart(c, draws, s, job, t, k)
    ensures LogsOk(c, draws, Started(c, s, job, t, k, draws[job]))
  {
    hide Push;
    var r := Started(c, s, job, t, k, draws[job]);
    var e := StartEvent(s, job, t, k, draws[job]);
    PushAdds(s.heap, e);
    assert multiset(r.startedLog) == multiset(r.heap) + multiset(r.finishedLog);
    forall j | 0 <= j < |r.startedLog| ensures StartedFrom(c, draws[j], r.startedLog[j], j) {
      if j < |s.startedLog| { assert StartedFrom(c, draws[j], s.startedLog[j], j); }
    }
    forall j | 0 <= j < |r.finishedLog| ensures RanAtHome(r, r.finishedLog[j]) {
      assert RanAtHome(s, s.finishedLog[j]);
    }
  }

  lemma StartedKeepsCore(c: Config, draws: seq<Draw>, s: State, job: nat, t: nat, k: nat)
    requires Core(c, draws, s) && CanStart(c, draws, s, job, t, k)
    ensures Core(c, draws, Started(c, s, job, t, k, draws[job]))
  {
    hide LogsOk, CountIf;
    var r := Started(c, s, job, t, k, draws[job]);
    var e := StartEvent(s, job, t, k, draws[job]);
    var i := PushIndex(s.heap, e);
    PushKeepsHeapOk(c, draws, s, job, t, k);
    StartedKeepsLogs(c, draws, s, job, t, k);
    forall j | 0 <= j < |r.containers| ensures ContainerOk(c, r, j) {
      assert ContainerOk(c, s, j);
      CountInsert(s.heap, i, e, OnContainer(j));
    }
    forall u | 0 <= u < c.tenants ensures TenantOk(c, r, u) {
      assert TenantOk(c, s, u);
      CountInsert(s.heap, i, e, OfTenant(u));
      CountPositive(r.heap, OfTenant(u));
      CountUpdate(s.containers, k, r.containers[k], InTenant(u));
      CountUpdate(s.containers, k, r.containers[k], ReplacedIn(u));
    }
    CountUpdate(s.containers, k, r.containers[k], IsReplaced());
  }

  lemma StartedKeepsInv(c: Config, draws: seq<Draw>, s: State, job: nat, t: nat, k: nat)
    requires Inv(c, draws, s) && CanStart(c, draws, s, job, t, k)
    ensures Inv(c, draws, Started(c, s, job, t, k, draws[job]))
  {
    StartedKeepsCore(c, draws, s, job, t, k);
    var r := Started(c, s, job, t, k, draws[job]);
    var e := StartEvent(s, job, t, k, draws[job]);
    UpdateKeepsCounts(s, k, r.containers[k]);
    SumInsert(s.heap, PushIndex(s.heap, e), e, Elapsed(s.nowMs));
    assert ContainerOk(c, s, k);
    MakespanSurvives(c, s, r);
  }

  // Advancing to the next event.

  lemma {:induction false} ElapsedShift(heap: seq<Completion>, a: int, b: int)
    ensures SumBy(heap, Elapsed(b)) == SumBy(heap, Elapsed(a)) + |heap| * (b - a)
  {
    if heap != [] {
      ElapsedShift(heap[1..], a, b);
    }
  }

  /** Letting time pass, with at most `concurrency` jobs running, keeps the work bound. */
  lemma TickKeepsWork(c: Config, s: State, now: int)
    requires WorkOk(c, s) && s.nowMs <= now && |s.heap| <= c.concurrency
    ensures WorkOk(c, s.(nowMs := now))
  {
    ElapsedShift(s.heap, s.nowMs, now);
    MulMonotone(|s.heap|, c.concurrency, now - s.nowMs);
    assert c.concurrency * now == c.concurrency * s.nowMs + c.concurrency * (now - s.nowMs);
  }

  /** The clock moved to the heap's first completion and that completion taken off. */
  function Popped(s: State): State
    requires s.heap != []
  {
    s.(heap := s.heap[1..], nowMs := MaxInt(s.nowMs, s.heap[0].finishedAtMs))
  }

  lemma FinishedKeepsHeap(c: Config, draws: seq<Draw>, s: State)
    requires Core(c, draws, s) && s.heap != []
    ensures EventInRange(s, s.heap[0])
    ensures HeapOk(c, Finished(Popped(s), s.heap[0]))
  {
    hide LogsOk, ContainerOk, TenantOk, Distinct;
    var e := s.heap[0];
    assert EntryOk(c, s, e);
    var r := Finished(Popped(s), e);
    forall i | 0 <= i < |r.heap| ensures EntryOk(c, r, r.heap[i]) {
      assert EntryOk(c, s, s.heap[i + 1]);
      assert DueFirst(e, s.heap[i + 1]);
    }
  }

  lemma FinishedKeepsLogs(c: Config, draws: seq<Draw>, s: State)
    requires Core(c, draws, s) && s.heap != [] && EventInRange(s, s.heap[0])
    ensures LogsOk(c, draws, Finished(Popped(s), s.heap[0]))
  {
    hide CountIf, SumBy, ContainerOk, TenantOk, Distinct, DueFirst;
    var e := s.heap[0];
    assert EntryOk(c, s, e);
    var r := Finished(Popped(s), e);
    assert s.heap == [e] + r.heap;
    assert multiset(s.heap) == multiset{e} + multiset(r.heap);
    forall i | 0 <= i < |r.finishedLog| ensures RanAtHome(r, r.finishedLog[i]) {
      if i < |s.finishedLog| { assert RanAtHome(s, s.finishedLog[i]); }
    }
    assert forall j :: 0 <= j < |r.startedLog| ==> StartedFrom(c, draws[j], s.startedLog[j], j);
  }

  lemma FinishedContainer(c: Config, draws: seq<Draw>, s: State, j: nat)
    requires Core(c, draws, s) && s.heap != [] && EventInRange(s, s.heap[0]) && j < |s.containers|
    ensures ContainerOk(c, Finished(Popped(s), s.heap[0]), j)
  {
    hide LogsOk, TenantOk, Distinct;
    assert EntryOk(c, s, s.heap[0]);
    assert ContainerOk(c, s, j);
    CountSnoc(s.finishedLog, s.heap[0], OnContainer(j));
  }

  lemma FinishedTenant(c: Config, draws: seq<Draw>, s: State, u: nat)
    requires Core(c, draws, s) && s.heap != [] && EventInRange(s, s.heap[0]) && u < c.tenants
    ensures TenantOk(c, Finished(Popped(s), s.heap[0]), u)
  {
    hide LogsOk, ContainerOk, Distinct;
    var e := s.heap[0];
    var k, r := e.container, Finished(Popped(s), e);
    assert EntryOk(c, s, e);
    assert TenantOk(c, s, u);
    CountSnoc(s.finishedLog, e, OfTenant(u));
    CountSnoc(s.finishedLog, e, FailedOf(u));
    CountUpdate(s.containers, k, r.containers[k], InTenant(u));
    CountUpdate(s.containers, k, r.containers[k], ReplacedIn(u));
  }

  lemma FinishedKeepsCore(c: Config, draws: seq<Draw>, s: State)
    requires Core(c, draws, s) && s.heap != []
    ensures EventInRange(s, s.heap[0])
    ensures Core(c, draws, Finished(Popped(s), s.heap[0]))
  {
    hide LogsOk, HeapOk, ContainerOk, TenantOk, CountIf;
    FinishedKeepsHeap(c, draws, s);
    FinishedKeepsLogs(c, draws, s);
    var k := s.heap[0].container;
    var r := Finished(Popped(s), s.heap[0]);
    forall j | 0 <= j < |r.containers| ensures ContainerOk(c, r, j) {
      FinishedContainer(c, draws, s, j);
    }
    forall u | 0 <= u < c.tenants ensures TenantOk(c, r, u) {
      FinishedTenant(c, draws, s, u);
    }
    CountUpdate(s.containers, k, r.containers[k], IsReplaced());
  }

  lemma FinishedKeepsBounds(c: Config, s: State)
    requires s.heap != [] && EntryOk(c, s, s.heap[0]) && EventInRange(s, s.heap[0])
    requires WorkOk(c, s) && MakespanOk(c, s) && |s.heap| <= c.concurrency && c.warmupMs >= 0
    ensures WorkOk(c, Finished(Popped(s), s.heap[0])) && MakespanOk(c, Finished(Popped(s), s.heap[0]))
  {
    var e := s.heap[0];
    var r := Finished(Popped(s), e);
    TickKeepsWork(c, s, r.nowMs);
    SumAppend(s.finishedLog, [e], Latency());
    UpdateKeepsCounts(s, e.container, r.containers[e.container]);
    assert (|s.finishedLog| + 1) * c.compileMaxMs == |s.finishedLog| * c.compileMaxMs + c.compileMaxMs;
  }

  lemma PopAndFinishKeeps(c: Config, draws: seq<Draw>, s: State)
    requires Inv(c, draws, s) && s.heap != []
    ensures EventInRange(s, s.heap[0])
    ensures
      var r := PopAndFinish(s);
      && Core(c, draws, r) && WorkOk(c, r) && MakespanOk(c, r) && Poised(c, r)
      && CountIf(r.containers, IsWarming()) == CountIf(s.containers, IsWarming())
  {
    hide CountIf, SumBy, MakespanOk, LogsOk, Distinct, TenantOk;
    var e := s.heap[0];
    assert EntryOk(c, s, e);
    var k := e.container;
    var f := Finished(Popped(s), e);
    FinishedKeepsCore(c, draws, s);
    FinishedKeepsBounds(c, s);
    UpdateKeepsCounts(s, k, f.containers[k]);
    var r := RetiredIfIdle(f, k);
    RetiredKeepsCore(c, draws, f, k);
    assert r.containers == f.containers[k := r.containers[k]];
    UpdateKeepsCounts(f, k, r.containers[k]);
    MakespanSurvives(c, f, r);
    assert ContainerOk(c, f, k);
  }

  /** Moving the clock to the earliest pending warm-up activates at least one replacement. */
  lemma WarmupAdvanceKeeps(c: Config, draws: seq<Draw>, s: State, now: int)
    requires Inv(c, draws, s)
    requires NextWarmup(s.containers, |s.containers|, s.nowMs) == Some(now)
    requires forall i :: 0 <= i < |s.heap| ==> now <= s.heap[i].finishedAtMs
    ensures now > s.nowMs && Inv(c, draws, Warm(s.(nowMs := now)))
    ensures CountIf(Warm(s.(nowMs := now)).containers, IsWarming()) < CountIf(s.containers, IsWarming())
  {
    var m := s.(nowMs := now);
    NextWarmupIsEarliest(s.containers, |s.containers|, s.nowMs);
    var k :| 0 <= k < |s.containers| && WarmsLater(s.containers[k], s.nowMs) && s.containers[k].activeAfterMs == now;
    assert ContainerOk(c, s, k);
    TickKeepsCore(c, draws, s, now);
    WarmKeepsCore(c, draws, m);
    assert Poised(c, m);
    WarmSettles(c, m);
    TickKeepsWork(c, s, now);
    WarmupAdvanceBounds(c, s, now, k);
  }

  lemma WarmupAdvanceBounds(c: Config, s: State, now: int, k: nat)
    requires MakespanOk(c, s) && c.warmupMs >= 0
    requires k < |s.containers| && s.containers[k].phase.Warming? && s.containers[k].replacementOf.Some?
    requires s.nowMs < s.containers[k].activeAfterMs == now <= s.nowMs + c.warmupMs
    ensures MakespanOk(c, Warm(s.(nowMs := now)))
    ensures CountIf(Warm(s.(nowMs := now)).containers, IsWarming()) < CountIf(s.containers, IsWarming())
  {
    var w := Warm(s.(nowMs := now));
    assert IsActivatedReplacement()(w.containers[k]) && !IsActivatedReplacement()(s.containers[k]);
    CountMonotone(s.containers, w.containers, IsActivatedReplacement());
    assert IsWarming()(s.containers[k]) && !IsWarming()(w.containers[k]);
    CountMonotone(w.containers, s.containers, IsWarming());
    var a := CountIf(s.containers, IsActivatedReplacement());
    var b := CountIf(w.containers, IsActivatedReplacement());
    MulMonotone(a + 1, b, c.warmupMs);
    assert (a + 1) * c.warmupMs == a * c.warmupMs + c.warmupMs;
  }

  lemma HeapHeadFirst(c: Config, draws: seq<Draw>, s: State)
    requires Core(c, draws, s)
    ensures forall i :: 0 <= i < |s.heap| ==> s.heap[0].finishedAtMs <= s.heap[i].finishedAtMs
  {
    assert forall i :: 0 < i < |s.heap| ==> DueFirst(s.heap[0], s.heap[i]);
  }

  lemma TickKeepsCore(c: Config, draws: seq<Draw>, s: State, now: int)
    requires Core(c, draws, s) && s.nowMs <= now
    requires forall i :: 0 <= i < |s.heap| ==> now <= s.heap[i].finishedAtMs
    ensures Core(c, draws, s.(nowMs := now))
  {
    var m := s.(nowMs := now);
    forall k | 0 <= k < |m.containers| ensures ContainerOk(c, m, k) { assert ContainerOk(c, s, k); }
    forall u | 0 <= u < c.tenants ensures TenantOk(c, m, u) { assert TenantOk(c, s, u); }
    forall i | 0 <= i < |m.heap| ensures EntryOk(c, m, m.heap[i]) { assert EntryOk(c, s, s.heap[i]); }
    assert forall i :: 0 <= i < |m.finishedLog| ==> RanAtHome(s, s.finishedLog[i]) && RanAtHome(m, m.finishedLog[i]);
    assert forall j :: 0 <= j < |m.startedLog| ==> StartedFrom(c, draws[j], s.startedLog[j], j);
  }

  /** What is still to happen: running jobs and containers that have yet to warm up. */
  function Pending(s: State): nat
  {
    |s.heap| + CountIf(s.containers, IsWarming())
  }

  lemma AdvanceKeepsInv(c: Config, draws: seq<Draw>, s: State)
    requires Inv(c, draws, s) && HasEvent(s)
    ensures s.heap != [] ==> EventInRange(s, s.heap[0])
    ensures Inv(c, draws, Advance(s)) && Pending(Advance(s)) < Pending(s)
  {
    hide Core, Settled, WorkOk, MakespanOk, Poised;
    CoreInRange(c, draws, s);
    var warmup := NextWarmup(s.containers, |s.containers|, s.nowMs);
    if s.heap != [] && (warmup.None? || s.heap[0].finishedAtMs <= warmup.value) {
      PopAndFinishKeeps(c, draws, s);
      WarmKeepsInv(c, draws, PopAndFinish(s));
      WarmKeepsCounts(c, PopAndFinish(s));
    } else {
      HeapHeadFirst(c, draws, s);
      WarmupAdvanceKeeps(c, draws, s, warmup.value);
    }
  }

  /** One event moves the clock forward and starts, rejects or replaces nothing. */
  lemma AdvanceFrame(s: State)
    requires HasEvent(s) && (s.heap != [] ==> EventInRange(s, s.heap[0]))
    ensures Advance(s).nowMs >= s.nowMs && Advance(s).sequence == s.sequence && Advance(s).inFlight <= s.inFlight
    ensures Advance(s).violations == s.violations && Advance(s).hotReplacements == s.hotReplacements
  {
  }

  /**
   No deadlock: when tenant `t` has no container to take a job, or the concurrency limit is
   reached, some event is still to come.
   */
  lemma SomeEventRemains(c: Config, draws: seq<Draw>, s: State, t: nat)
    requires Inv(c, draws, s) && t < c.tenants
    requires Lightest(s.containers, |s.containers|, FreeIn(t, c.slotsPerContainer)).None? || s.inFlight >= c.concurrency
    ensures HasEvent(s)
  {
    if s.inFlight < c.concurrency {
      LightestIsLeast(s.containers, |s.containers|, FreeIn(t, c.slotsPerContainer));
      NextWarmupIsEarliest(s.containers, |s.containers|, s.nowMs);
      CountPositive(s.containers, LiveIn(t));
      var k :| 0 <= k < |s.containers| && LiveIn(t)(s.containers[k]);
      assert ContainerOk(c, s, k);
      if s.containers[k].phase.Active? {
        assert !FreeIn(t, c.slotsPerContainer)(s.containers[k]);
        CountPositive(s.heap, OnContainer(k));
      } else {
        assert WarmsLater(s.containers[k], s.nowMs);
      }
    }
  }
}
