/** The stress runner itself: mutable containers, tenants and counters, step by step. */
module StressRunner {
  import opened Wrappers
  import opened Counting
  import opened SchedulerModel
  import opened SchedulerInvariant
  import opened SchedulerRun
  import opened SchedulerSummary
  import opened SchedulerTheorems

  class ContainerState {
    const tenant: nat
    const generation: nat
    const activeAfterMs: int
    const createdAtMs: int
    const replacementOf: Option<nat>
    var phase: Phase
    var activeJobs: int
    var acceptedJobs: int
    var completedJobs: int

    constructor (tenant: nat, generation: nat, phase: Phase, activeAfterMs: int, createdAtMs: int, replacementOf: Option<nat>)
      ensures Value() == Container(tenant, generation, phase, activeAfterMs, createdAtMs, replacementOf, 0, 0, 0)
    {
      this.tenant, this.generation := tenant, generation;
      this.activeAfterMs, this.createdAtMs, this.replacementOf := activeAfterMs, createdAtMs, replacementOf;
      this.phase := phase;
      activeJobs, acceptedJobs, completedJobs := 0, 0, 0;
    }

    method AcceptJob()
      modifies this
      ensures Value() == old(Value()).(activeJobs := old(activeJobs) + 1, acceptedJobs := old(acceptedJobs) + 1)
    {
      activeJobs := activeJobs + 1;
      acceptedJobs := acceptedJobs + 1;
    }

    method CompleteJob()
      modifies this
      ensures Value() == old(Value()).(activeJobs := old(activeJobs) - 1, completedJobs := old(completedJobs) + 1)
    {
      activeJobs := activeJobs - 1;
      completedJobs := completedJobs + 1;
    }

    function Value(): Container
      reads this
    {
      Container(tenant, generation, phase, activeAfterMs, createdAtMs, replacementOf, activeJobs, acceptedJobs, completedJobs)
    }
  }

  class TenantStats {
    var jobsStarted: int
    var jobsFinished: int
    var jobsFailed: int
    var currentInFlight: int
    var maxInFlight: int
    var containersCreated: int
    var hotReplacements: int

    constructor ()
      ensures Value() == NEW_TENANT
    {
      jobsStarted, jobsFinished, jobsFailed, currentInFlight := 0, 0, 0, 0;
      maxInFlight, containersCreated, hotReplacements := 0, 0, 0;
    }

    method AddContainer()
      modifies this
      ensures Value() == old(Value()).(containersCreated := old(containersCreated) + 1)
    {
      containersCreated := containersCreated + 1;
    }

    method BeginJob()
      modifies this
      ensures Value() == old(Value()).(jobsStarted := old(jobsStarted) + 1,
                                       currentInFlight := old(currentInFlight) + 1,
                                       maxInFlight := MaxInt(old(maxInFlight), old(currentInFlight) + 1))
    {
      jobsStarted := jobsStarted + 1;
      currentInFlight := currentInFlight + 1;
      maxInFlight := MaxInt(maxInFlight, currentInFlight);
    }

    method EndJob(failed: bool)
      modifies this
      ensures Value() == old(Value()).(jobsFinished := old(jobsFinished) + 1,
                                       currentInFlight := old(currentInFlight) - 1,
                                       jobsFailed := old(jobsFailed) + (if failed then 1 else 0))
    {
      jobsFinished := jobsFinished + 1;
      currentInFlight := currentInFlight - 1;
      if failed {
        jobsFailed := jobsFailed + 1;
      }
    }

    function Value(): Tenant
      reads this
    {
      Tenant(jobsStarted, jobsFinished, jobsFailed, currentInFlight, maxInFlight, containersCreated, hotReplacements)
    }
  }

  /** The checks of a configuration in their order: it is valid exactly when none fails. */
  method Validate(c: Config) returns (errors: seq<ConfigError>)
    ensures errors == [] <==> ValidConfig(c)
    ensures forall e :: e in errors <==> Breaks(c, e)
  {
    errors := CheckCounts(c);
    var more := CheckTimes(c);
    if errors == [] && more == [] {
      assert forall e :: !Breaks(c, e);
      assert !Breaks(c, FewTenants) && !Breaks(c, FewContainers) && !Breaks(c, FewSlots) && !Breaks(c, FewJobs);
      assert !Breaks(c, FewLanes) && !Breaks(c, NegativeReplacement) && !Breaks(c, NegativeWarmup);
      assert !Breaks(c, NegativeLatency) && !Breaks(c, LatencyRangeEmpty) && !Breaks(c, FailureRateOutOfRange);
      assert !Breaks(c, NegativeLimit);
    } else {
      var e := (errors + more)[0];
      assert Breaks(c, e);
    }
    errors := errors + more;
  }

  method CheckCounts(c: Config) returns (errors: seq<ConfigError>)
    ensures forall e :: e in errors <==>
              Breaks(c, e) && (e.FewTenants? || e.FewContainers? || e.FewSlots? || e.FewJobs? || e.FewLanes? || e.NegativeReplacement?)
  {
    errors := [];
    if c.tenants < 1 { errors := errors + [FewTenants]; }
    if c.containersPerTenant < 1 { errors := errors + [FewContainers]; }
    if c.slotsPerContainer < 1 { errors := errors + [FewSlots]; }
    if c.jobs < 1 { errors := errors + [FewJobs]; }
    if c.concurrency < 1 { errors := errors + [FewLanes]; }
    if c.hotReplaceEvery < 0 { errors := errors + [NegativeReplacement]; }
  }

  method CheckTimes(c: Config) returns (errors: seq<ConfigError>)
    ensures forall e :: e in errors <==>
              Breaks(c, e) && (e.NegativeWarmup? || e.NegativeLatency? || e.LatencyRangeEmpty? || e.FailureRateOutOfRange? || e.NegativeLimit?)
  {
    errors := [];
    if c.warmupMs < 0 { errors := errors + [NegativeWarmup]; }
    if c.compileMinMs < 0 { errors := errors + [NegativeLatency]; }
    if c.compileMaxMs < c.compileMinMs { errors := errors + [LatencyRangeEmpty]; }
    if !(0.0 <= c.maxFailureRate <= 1.0) { errors := errors + [FailureRateOutOfRange]; }
    if c.maxP95Ms < 0 { errors := errors + [NegativeLimit]; }
  }

  class Runner {
    const config: Config
    const draws: seq<Draw>
    var containers: seq<ContainerState>
    var tenants: seq<TenantStats>
    var generations: seq<nat>
    var heap: seq<Completion>
    var nowMs: int
    var inFlight: int
    var latencies: seq<int>
    var violations: seq<Violation>
    var hotReplacements: int
    var sequence: int
    /** The runner's whole state as one value, with the logs of started and finished jobs. */
    ghost var model: State

    /** Containers and tenants are separate objects, and every field agrees with `model`. */
    ghost predicate Valid()
      reads this, containers, tenants
    {
      && (forall i, j :: 0 <= i < j < |containers| ==> containers[i] != containers[j])
      && (forall i, j :: 0 <= i < j < |tenants| ==> tenants[i] != tenants[j])
      && |containers| == |model.containers|
      && |tenants| == |model.tenants| == |generations|
      && (forall i :: 0 <= i < |containers| ==> containers[i].Value() == model.containers[i])
      && (forall i :: 0 <= i < |tenants| ==> tenants[i].Value() == model.tenants[i])
      && model == State(model.containers, model.tenants, generations, heap, nowMs, inFlight, latencies, violations,
                        hotReplacements, sequence, model.startedLog, model.finishedLog)
    }

    constructor (config: Config, draws: seq<Draw>)
      ensures Valid() && model == Start(config)
      ensures this.config == config && this.draws == draws
      ensures fresh(tenants)
    {
      this.config, this.draws := config, draws;
      containers, generations, heap := [], seq(TenantCount(config), _ => 0), [];
      nowMs, inFlight, hotReplacements, sequence := 0, 0, 0, 0;
      latencies, violations, tenants := [], [], [];
      model := Start(config);
      new;
      var i := 0;
      while i < TenantCount(config)
        invariant 0 <= i == |tenants| <= TenantCount(config)
        invariant fresh(tenants)
        invariant forall a, b :: 0 <= a < b < |tenants| ==> tenants[a] != tenants[b]
        invariant forall a :: 0 <= a < |tenants| ==> tenants[a].Value() == NEW_TENANT
        invariant containers == [] && model == Start(config)
        invariant model == State([], model.tenants, generations, heap, nowMs, inFlight, latencies, violations,
                                 hotReplacements, sequence, [], [])
      {
        var t := new TenantStats();
        tenants := tenants + [t];
        i := i + 1;
      }
    }

    /** Frame of the steps that keep the set of containers. */
    twostate predicate SameObjects()
      reads this
    {
      tenants == old(tenants) && containers == old(containers)
    }

    /** Frame of every step: no tenant is exchanged and containers are only added. */
    twostate predicate Extends()
      reads this
    {
      && tenants == old(tenants)
      && |old(containers)| <= |containers| && containers[..|old(containers)|] == old(containers)
      && forall i :: |old(containers)| <= i < |containers| ==> fresh(containers[i])
    }

    method AddContainer(t: nat, generation: nat, phase: Phase, activeAfterMs: int, replacementOf: Option<nat>)
      requires Valid()
      modifies `containers, `model
      ensures Valid() && Extends()
      ensures
        var s := old(model);
        model == s.(containers := s.containers + [Container(t, generation, phase, activeAfterMs, s.nowMs, replacementOf, 0, 0, 0)])
    {
      var container := new ContainerState(t, generation, phase, activeAfterMs, nowMs, replacementOf);
      containers := containers + [container];
      model := model.(containers := model.containers + [container.Value()]);
    }

    method CountContainer(t: nat)
      requires Valid() && t < |tenants|
      modifies `model, tenants[t]
      ensures Valid() && SameObjects()
      ensures
        var s := old(model);
        model == s.(tenants := s.tenants[t := s.tenants[t].(containersCreated := s.tenants[t].containersCreated + 1)])
    {
      tenants[t].AddContainer();
      model := model.(tenants := model.tenants[t := tenants[t].Value()]);
    }

    method CreateContainer(t: nat, activeAfterMs: int, replacementOf: Option<nat>)
      requires Valid() && t < |tenants|
      modifies this, tenants[t]
      ensures Valid() && Extends()
      ensures model == Created(old(model), t, activeAfterMs, replacementOf)
    {
      var generation := generations[t] + 1;
      generations := generations[t := generation];
      model := model.(generations := generations);
      var phase := if activeAfterMs > nowMs then Warming else Active;
      AddContainer(t, generation, phase, activeAfterMs, replacementOf);
      CountContainer(t);
    }

    method ProcessWarmups()
      requires Valid()
      modifies this`model, containers
      ensures Valid() && SameObjects()
      ensures model == Warm(old(model))
    {
      var i := 0;
      while i < |containers|
        invariant 0 <= i <= |containers|
        invariant forall j :: 0 <= j < i ==> containers[j].Value() == Warmed(old(containers[j].Value()), nowMs)
        invariant forall j :: i <= j < |containers| ==> containers[j].Value() == old(containers[j].Value())
        invariant model == old(model)
      {
        if containers[i].phase.Warming? && containers[i].activeAfterMs <= nowMs {
          containers[i].phase := Active;
        }
        i := i + 1;
      }
      model := Warm(model);
    }

    method NextWarmupTime() returns (r: Option<int>)
      requires Valid()
      ensures r == NextWarmup(model.containers, |model.containers|, model.nowMs)
    {
      r := None;
      var i := 0;
      while i < |containers|
        invariant 0 <= i <= |containers|
        invariant r == NextWarmup(model.containers, i, model.nowMs)
      {
        var x := containers[i];
        assert x.Value() == model.containers[i];
        if x.phase.Warming? && x.activeAfterMs > nowMs && (r.None? || x.activeAfterMs < r.value) {
          r := Some(x.activeAfterMs);
        }
        i := i + 1;
      }
    }

    method FindLightest(want: Container -> bool) returns (r: Option<nat>)
      requires Valid()
      ensures r == Lightest(model.containers, |model.containers|, want)
    {
      r := None;
      var i := 0;
      while i < |containers|
        invariant 0 <= i <= |containers|
        invariant r == Lightest(model.containers, i, want)
      {
        var x := containers[i].Value();
        if want(x) && (r.None? || Lighter(x, containers[r.value].Value())) {
          r := Some(i);
        }
        i := i + 1;
      }
    }

    method RetireIfIdle(k: nat)
      requires Valid() && k < |containers|
      modifies this`model, containers[k]
      ensures Valid() && SameObjects()
      ensures model == RetiredIfIdle(old(model), k)
    {
      assert containers[k].Value() == model.containers[k];
      if containers[k].phase.Draining? && containers[k].activeJobs == 0 {
        containers[k].phase := Retired;
      }
      model := RetiredIfIdle(model, k);
    }

    method DrainContainer(k: nat)
      requires Valid() && k < |containers| && containers[k].tenant < |tenants|
      modifies this`model, this`hotReplacements, containers[k], tenants[containers[k].tenant]
      ensures Valid() && SameObjects()
      ensures model == Drained(old(model), k)
    {
      var retiring := containers[k];
      assert retiring.Value() == model.containers[k];
      var t := retiring.tenant;
      assert tenants[t].Value() == model.tenants[t];
      retiring.phase := Draining;
      hotReplacements := hotReplacements + 1;
      tenants[t].hotReplacements := tenants[t].hotReplacements + 1;
      model := Drained(model, k);
    }

    method ReplaceContainer(t: nat, k: nat)
      requires Valid() && k < |containers| && containers[k].tenant == t < |tenants|
      modifies this, containers[k], tenants[t]
      ensures Valid() && Extends()
      ensures model.containers[k].tenant == t && model == Replaced(config, old(model), t, k)
    {
      assert containers[k].Value() == model.containers[k];
      DrainContainer(k);
      CreateContainer(t, nowMs + config.warmupMs, Some(k));
      RetireIfIdle(k);
    }

    method HotReplaceTenant(t: nat)
      requires Valid() && t < |tenants| && TenantsInRange(model)
      modifies this, containers, tenants
      ensures Valid() && Extends()
      ensures model == HotReplace(config, old(model), t)
    {
      hide Replaced, Lightest, Warm;
      ProcessWarmups();
      var active := FindLightest(ActiveIn(t));
      match active
      case None =>
        violations := violations + [ReplacementRejected(t)];
        model := Rejected(model, t);
      case Some(k) =>
        assert containers[k].Value() == model.containers[k];
        ReplaceContainer(t, k);
    }

    method CheckAssignment(job: nat, t: nat, k: nat) returns (broken: seq<Violation>)
      requires Valid() && k < |containers|
      ensures broken == StartViolations(config, model, job, t, k)
    {
      broken := [];
      var container := containers[k];
      assert container.Value() == model.containers[k];
      if container.tenant != t {
        broken := broken + [IsolationBroken(job, t, k)];
      }
      if container.activeJobs >= config.slotsPerContainer {
        broken := broken + [CapacityOverflow(job, k)];
      }
    }

    method BookStart(t: nat, k: nat)
      requires Valid() && t < |tenants| && k < |containers|
      modifies this`model, containers[k], tenants[t]
      ensures Valid() && SameObjects()
      ensures model == StartBooked(old(model), t, k)
    {
      containers[k].AcceptJob();
      tenants[t].BeginJob();
      model := StartBooked(model, t, k);
    }

    method Launch(e: Completion, broken: seq<Violation>)
      requires Valid()
      modifies `violations, `inFlight, `sequence, `heap, `model
      ensures Valid()
      ensures
        var s := old(model);
        model == s.(violations := s.violations + broken, inFlight := s.inFlight + 1, sequence := s.sequence + 1,
                    heap := Push(s.heap, e), startedLog := s.startedLog + [e])
    {
      hide Push;
      violations := violations + broken;
      inFlight := inFlight + 1;
      sequence := sequence + 1;
      heap := Push(heap, e);
      model := model.(violations := violations, inFlight := inFlight, sequence := sequence, heap := heap,
                      startedLog := model.startedLog + [e]);
    }

    method StartJob(job: nat, t: nat, k: nat)
      requires Valid() && t < |tenants| && k < |containers| && job < |draws|
      modifies this, containers[k], tenants[t]
      ensures Valid() && SameObjects()
      ensures model == Started(config, old(model), job, t, k, draws[job])
    {
      hide Push, StartViolations, Valid;
      FieldsAgree();
      var broken := CheckAssignment(job, t, k);
      var latencyMs, failed := draws[job].latencyMs, draws[job].failed;
      BookStart(t, k);
      FieldsAgree();
      Launch(Completion(nowMs + latencyMs, sequence + 1, job, t, k, latencyMs, failed), broken);
    }

    method BookFinish(e: Completion)
      requires Valid() && e.container < |containers| && e.tenant < |tenants|
      modifies this, containers[e.container], tenants[e.tenant]
      ensures Valid() && SameObjects()
      ensures model == Finished(old(model), e)
    {
      containers[e.container].CompleteJob();
      tenants[e.tenant].EndJob(e.failed);
      inFlight := inFlight - 1;
      latencies := latencies + [e.latencyMs];
      model := Finished(model, e);
    }

    method FinishJob(e: Completion)
      requires Valid() && e.container < |containers| && e.tenant < |tenants|
      modifies this, containers[e.container], tenants[e.tenant]
      ensures Valid() && SameObjects()
      ensures model == SchedulerModel.FinishJob(old(model), e)
    {
      hide RetiredIfIdle, Finished;
      BookFinish(e);
      RetireIfIdle(e.container);
    }

    /** Takes the next event; without one, which the program answers with an exception, nothing happens. */
    method AdvanceToNextEvent() returns (ok: bool)
      requires Valid()
      requires heap != [] ==> EventInRange(model, heap[0])
      modifies this, containers, tenants
      ensures Valid() && SameObjects()
      ensures ok <==> HasEvent(old(model))
      ensures model == if ok then Advance(old(model)) else old(model)
    {
      hide NextWarmup, SchedulerModel.FinishJob, Warm;
      var warmup := NextWarmupTime();
      ok := heap != [] || warmup.Some?;
      if !ok {
        return;
      }
      if heap != [] && (warmup.None? || heap[0].finishedAtMs <= warmup.value) {
        var e := heap[0];
        heap := heap[1..];
        nowMs := MaxInt(nowMs, e.finishedAtMs);
        model := Popped(model);
        FinishJob(e);
      } else {
        nowMs := MaxInt(nowMs, warmup.value);
        model := model.(nowMs := nowMs);
      }
      ProcessWarmups();
    }

    /** Waits until tenant `t` has a container with a free slot and picks the least loaded one. */
    method AcquireContainer(t: nat) returns (k: nat)
      requires Valid() && Inv(config, draws, model) && t < config.tenants
      modifies this, containers, tenants
      ensures Valid() && SameObjects()
      ensures (model, k) == Acquired(config, draws, old(model), t)
    {
      hide Inv, Acquired, Pending, Warm, Advance, Lightest, Valid;
      while true
        invariant Valid() && SameObjects()
        invariant Inv(config, draws, model)
        invariant Acquired(config, draws, old(model), t) == Acquired(config, draws, model, t)
        decreases Pending(model)
      {
        ghost var s := model;
        FieldsAgree();
        ProcessWarmups();
        var candidate := FindLightest(FreeIn(t, config.slotsPerContainer));
        AcquiredStep(config, draws, s, t);
        if candidate.Some? {
          return candidate.value;
        }
        FieldsAgree();
        var ok := AdvanceToNextEvent();
      }
    }

    method CreatePools()
      requires Valid() && ValidConfig(config) && model == Start(config)
      modifies this, tenants
      ensures Valid() && Extends()
      ensures model == Initial(config)
    {
      for t := 0 to config.tenants
        invariant Valid() && Extends() && model == CreatedPools(config, t)
      {
        FieldsAgree();
        CreatePool(t);
      }
      ProcessWarmups();
    }

    method CreatePool(t: nat)
      requires Valid() && t < |tenants| && config.containersPerTenant >= 0
      modifies this, tenants[t]
      ensures Valid() && Extends()
      ensures model == CreatedFor(config, old(model), t, config.containersPerTenant)
    {
      for i := 0 to config.containersPerTenant
        invariant Valid() && Extends() && model == CreatedFor(config, old(model), t, i)
      {
        CreateContainer(t, 0, None);
      }
    }

    method WaitForFreeLane()
      requires Valid() && Inv(config, draws, model)
      modifies this, containers, tenants
      ensures Valid() && SameObjects()
      ensures model == WaitForLane(config, draws, old(model))
    {
      hide Inv, Advance, Pending, HasEvent, EventInRange, Valid;
      while inFlight >= config.concurrency
        invariant Valid() && SameObjects()
        invariant Inv(config, draws, model)
        invariant WaitForLane(config, draws, old(model)) == WaitForLane(config, draws, model)
        decreases Pending(model)
      {
        FieldsAgree();
        WaitForLaneStep(config, draws, model);
        var ok := AdvanceToNextEvent();
        FieldsAgree();
      }
      FieldsAgree();
    }

    lemma FieldsAgree()
      requires Valid()
      ensures heap == model.heap && inFlight == model.inFlight && nowMs == model.nowMs && sequence == model.sequence
      ensures |containers| == |model.containers| && |tenants| == |model.tenants|
      ensures latencies == model.latencies && violations == model.violations && hotReplacements == model.hotReplacements
    {
    }

    method DrainHeap()
      requires Valid() && Inv(config, draws, model)
      modifies this, containers, tenants
      ensures Valid() && SameObjects()
      ensures model == HeapDrained(config, draws, old(model))
    {
      hide Inv, Advance, Pending, HasEvent, EventInRange, Valid;
      while heap != []
        invariant Valid() && SameObjects()
        invariant Inv(config, draws, model)
        invariant HeapDrained(config, draws, old(model)) == HeapDrained(config, draws, model)
        decreases Pending(model)
      {
        FieldsAgree();
        HeapDrainedStep(config, draws, model);
        var ok := AdvanceToNextEvent();
        FieldsAgree();
      }
      FieldsAgree();
    }

    /** The hot replacement that job `job` triggers, if any. */
    method PrepareJob(job: nat)
      requires Valid() && Inv(config, draws, model)
      modifies this, containers, tenants
      ensures Valid() && Extends()
      ensures model == Prepared(config, draws, old(model), job)
    {
      hide Inv, Valid, HotReplace, TenantsInRange, ValidConfig;
      InvInRange(config, draws, model);
      FieldsAgree();
      if config.hotReplaceEvery > 0 && job > 0 && job % config.hotReplaceEvery == 0 {
        HotReplaceTenant((job / config.hotReplaceEvery - 1) % |tenants|);
      }
    }

    method RunJob(job: nat)
      requires Valid() && Inv(config, draws, model) && model.sequence == job < config.jobs
      modifies this, containers, tenants
      ensures Valid() && Extends()
      ensures model == JobRun(config, draws, old(model), job)
    {
      hide Inv, Prepared, WaitForLane, Acquired, Valid;
      InvInRange(config, draws, model);
      PrepareJob(job);
      WaitForFreeLane();
      var t := job % config.tenants;
      var k := AcquireContainer(t);
      FieldsAgree();
      InvInRange(config, draws, model);
      StartJob(job, t, k);
    }

    /** The whole run; a configuration that does not validate is refused before anything happens. */
    method Run() returns (ok: bool)
      requires Valid() && model == Start(config)
      requires ValidConfig(config) ==> ValidDraws(config, draws)
      modifies this, tenants
      ensures Valid() && Extends()
      ensures ok == ValidConfig(config)
      ensures model == if ok then Simulated(config, draws) else old(model)
    {
      hide ValidConfig, ValidDraws, Valid, Inv, Initial, JobRun, JobsRun, HeapDrained, Warm, CreatedPools;
      FieldsAgree();
      var errors := Validate(config);
      ok := errors == [];
      if !ok {
        return;
      }
      CreatePools();
      RunJobs();
      DrainHeap();
      ProcessWarmups();
    }

    method RunJobs()
      requires Valid() && ValidConfig(config) && ValidDraws(config, draws) && model == Initial(config)
      modifies this, containers, tenants
      ensures Valid() && Extends()
      ensures model == JobsRun(config, draws, config.jobs)
    {
      hide Valid, Inv, Initial, JobRun;
      var job := 0;
      while job < config.jobs
        invariant 0 <= job <= config.jobs
        invariant Valid() && Extends() && model == JobsRun(config, draws, job)
      {
        RunJob(job);
        job := job + 1;
      }
    }

    method CountPhase(p: Phase) returns (n: nat)
      requires Valid()
      ensures n == CountIf(model.containers, HasPhase(p))
    {
      n := 0;
      for i := 0 to |containers|
        invariant n == CountIf(model.containers[..i], HasPhase(p))
      {
        CountPrefix(model.containers, i, HasPhase(p));
        assert containers[i].Value() == model.containers[i];
        if containers[i].phase == p {
          n := n + 1;
        }
      }
      assert model.containers[..|containers|] == model.containers;
    }

    method TenantTotalsNow() returns (finished: int, failed: int, idle: seq<Reason>)
      requires Valid()
      ensures finished == SumBy(model.tenants, FinishedOf())
      ensures failed == SumBy(model.tenants, FailuresOf())
      ensures idle == IdleTenants(model.tenants, |model.tenants|)
    {
      finished, failed, idle := 0, 0, [];
      for i := 0 to |tenants|
        invariant finished == SumBy(model.tenants[..i], FinishedOf())
        invariant failed == SumBy(model.tenants[..i], FailuresOf())
        invariant idle == IdleTenants(model.tenants, i)
      {
        SumPrefix(model.tenants, i, FinishedOf());
        SumPrefix(model.tenants, i, FailuresOf());
        assert tenants[i].Value() == model.tenants[i];
        finished := finished + tenants[i].jobsFinished;
        failed := failed + tenants[i].jobsFailed;
        if tenants[i].jobsFinished == 0 {
          idle := idle + [NoCompletedJobs(i)];
        }
      }
      assert model.tenants[..|tenants|] == model.tenants;
    }

    method TenantPayload() returns (reports: seq<TenantReport>)
      requires Valid()
      ensures reports == Reports(model.tenants)
    {
      reports := [];
      for i := 0 to |tenants|
        invariant |reports| == i && forall t :: 0 <= t < i ==> reports[t] == ReportOf(model.tenants[t])
      {
        var stats := tenants[i];
        assert stats.Value() == model.tenants[i];
        var failureRate := if stats.jobsFinished != 0 then stats.jobsFailed as real / stats.jobsFinished as real else 0.0;
        reports := reports + [TenantReport(stats.jobsStarted, stats.jobsFinished, stats.jobsFailed, failureRate,
                                           stats.maxInFlight, stats.containersCreated, stats.hotReplacements)];
      }
    }

    method Reasons(failed: int, finished: int, p95: int, draining: nat, idle: seq<Reason>) returns (reasons: seq<Reason>)
      requires Valid() && idle == IdleTenants(model.tenants, |model.tenants|)
      ensures reasons == GateReasons(config, model, failed, finished, p95, draining)
    {
      hide Valid, IdleTenants, ViolationReasons, RateExceeds;
      FieldsAgree();
      reasons := ViolationReasons(violations);
      if RateExceeds(failed, finished, config.maxFailureRate) {
        reasons := reasons + [FailureRateTooHigh];
      }
      if config.maxP95Ms != 0 && p95 > config.maxP95Ms {
        reasons := reasons + [P95TooHigh];
      }
      if config.requireHotReplacement && hotReplacements == 0 {
        reasons := reasons + [NoHotReplacement];
      }
      if draining != 0 {
        reasons := reasons + [StillDraining(draining)];
      }
      reasons := reasons + idle;
    }

    method BuildSummary() returns (r: Summary)
      requires Valid()
      ensures r == Summarize(config, model)
    {
      hide Valid, CountIf, SumBy, LatencySummary, IdleTenants, Throughput, Reports, GateReasons;
      FieldsAgree();
      var finished, failed, idle := TenantTotalsNow();
      var active := CountPhase(Active);
      var warming := CountPhase(Warming);
      var draining := CountPhase(Draining);
      var retired := CountPhase(Retired);
      var latency := LatencySummary(latencies);
      var reasons := Reasons(failed, finished, latency.p95, draining, idle);
      var reports := TenantPayload();
      r := Summary(finished, failed, |containers|, active, warming, draining, retired, hotReplacements, nowMs,
                   Throughput(finished, nowMs), latency, reports, reasons);
    }
  }

  /** One stress run from configuration to summary. */
  method RunStress(config: Config, draws: seq<Draw>) returns (r: Option<Summary>)
    requires ValidConfig(config) ==> ValidDraws(config, draws)
    ensures r.Some? <==> ValidConfig(config)
    ensures r.Some? ==> r.value == Summarize(config, Simulated(config, draws))
    ensures r.Some? ==>
              && r.value.jobsFinished == config.jobs
              && r.value.jobsFailed == CountIf(draws, DrawFailed())
              && r.value.drainingContainers == 0
              && r.value.retiredContainers == r.value.hotReplacements
              && r.value.activeContainers + r.value.warmingContainers == config.tenants * config.containersPerTenant
              && SumBy(draws, DrawnLatency()) <= config.concurrency * r.value.makespanMs
              && IsLastFinish(Simulated(config, draws).finishedLog, r.value.makespanMs)
              && r.value.makespanMs <= config.jobs * config.compileMaxMs + r.value.hotReplacements * config.warmupMs
              && r.value.hotReplacements == ReplacementsAsked(config, config.jobs)
              && r.value.containersCreated == config.tenants * config.containersPerTenant + r.value.hotReplacements
              && r.value.activeContainers == CountIf(Simulated(config, draws).containers, HasPhase(Active))
              && (r.value.makespanMs != 0 ==> r.value.throughput * r.value.makespanMs as real == 1000.0 * config.jobs as real)
              && Describes(r.value.latency, DrawLatencies(draws))
              && (r.value.Passed() <==> GateHolds(config, draws))
    ensures r.Some? ==> forall reason :: reason in r.value.reasons <==> Refuses(config, draws, reason)
    ensures r.Some? ==> |r.value.tenants| == config.tenants
    ensures r.Some? ==> forall t :: 0 <= t < config.tenants ==> ReportsShare(config, draws, t, r.value.tenants[t])
  {
    hide Simulated, Inv, LatencySummary, GateHolds, Refuses, ReportsShare, Describes, IsLastFinish, GateReasons, CountIf, SumBy, Throughput;
    var runner := new Runner(config, draws);
    var ok := runner.Run();
    if !ok {
      return None;
    }
    var summary := runner.BuildSummary();
    TotalsOfDraws(config, draws);
    PoolsAtTheEnd(config, draws);
    WorkBound(config, draws);
    MakespanBound(config, draws);
    MakespanIsLastFinish(config, draws);
    LatencyDescribed(config, draws);
    forall reason ensures reason in summary.reasons <==> Refuses(config, draws, reason) {
      GateVerdict(config, draws, reason);
    }
    GatePasses(config, draws, summary.reasons);
    forall t | 0 <= t < config.tenants
      ensures |summary.tenants| == config.tenants && ReportsShare(config, draws, t, summary.tenants[t])
    {
      SharesReported(config, draws, t);
    }
    return Some(summary);
  }
}
