/** Whole runs of the scheduler: they finish, and what holds when they do. */
module SchedulerRun {
  import opened Wrappers
  import opened Counting
  import opened SchedulerModel
  import opened SchedulerInvariant

  // The initial pools.

  function CreatedFor(c: Config, s: State, t: nat, n: nat): (r: State)
    requires t < |s.tenants| == |s.generations|
    ensures |r.tenants| == |s.tenants| && |r.generations| == |s.generations|
  {
    if n == 0 then s else Created(CreatedFor(c, s, t, n - 1), t, 0, None)
  }

  function CreatedPools(c: Config, t: nat): (r: State)
    requires ValidConfig(c) && t <= c.tenants
    ensures |r.tenants| == |r.generations| == c.tenants
  {
    if t == 0 then Start(c) else CreatedFor(c, CreatedPools(c, t - 1), t - 1, c.containersPerTenant)
  }

  /** The state before any job: `full` pools complete, `extra` containers in the next one. */
  ghost predicate Filling(c: Config, draws: seq<Draw>, s: State, full: nat, extra: nat)
  {
    && Core(c, draws, s)
    && s == Start(c).(containers := s.containers, tenants := s.tenants, generations := s.generations)
    && |s.containers| == full * c.containersPerTenant + extra
    && (forall k :: 0 <= k < |s.containers| ==> s.containers[k].phase.Active? && s.containers[k].replacementOf.None?)
    && (forall t: nat :: CountIf(s.containers, LiveIn(t)) ==
                           if t < full then c.containersPerTenant else if t == full then extra else 0)
  }

  lemma StartFilling(c: Config, draws: seq<Draw>)
    requires ValidConfig(c) && ValidDraws(c, draws)
    ensures Filling(c, draws, Start(c), 0, 0)
  {
    var s := Start(c);
    assert forall t :: 0 <= t < c.tenants ==> TenantOk(c, s, t);
  }

  lemma {:induction false} CreatedForFills(c: Config, draws: seq<Draw>, s: State, t: nat, n: nat)
    requires Filling(c, draws, s, t, 0) && t < c.tenants
    ensures Filling(c, draws, CreatedFor(c, s, t, n), t, n)
  {
    if n > 0 {
      CreatedForFills(c, draws, s, t, n - 1);
      var p := CreatedFor(c, s, t, n - 1);
      CreatedKeepsCore(c, draws, p, t, 0, None);
      CreatedCounts(p, t, 0, None);
    }
  }

  lemma {:induction false} CreatedPoolsFill(c: Config, draws: seq<Draw>, t: nat)
    requires ValidConfig(c) && ValidDraws(c, draws) && t <= c.tenants
    ensures Filling(c, draws, CreatedPools(c, t), t, 0)
  {
    if t == 0 {
      StartFilling(c, draws);
    } else {
      CreatedPoolsFill(c, draws, t - 1);
      CreatedForFills(c, draws, CreatedPools(c, t - 1), t - 1, c.containersPerTenant);
      assert t * c.containersPerTenant == (t - 1) * c.containersPerTenant + c.containersPerTenant;
    }
  }

  function Initial(c: Config): State
    requires ValidConfig(c)
  {
    Warm(CreatedPools(c, c.tenants))
  }

  lemma InitialInv(c: Config, draws: seq<Draw>)
    requires ValidConfig(c) && ValidDraws(c, draws)
    ensures Inv(c, draws, Initial(c)) && Initial(c).sequence == 0 && Initial(c).heap == []
    ensures Initial(c).violations == [] && Initial(c).hotReplacements == 0
  {
    CreatedPoolsFill(c, draws, c.tenants);
    var s := CreatedPools(c, c.tenants);
    NoneCounted(s.containers, IsReplacement());
    NoneCounted(s.containers, IsActivatedReplacement());
    WarmKeepsInv(c, draws, s);
  }

  lemma NoneCounted<T>(xs: seq<T>, p: T -> bool)
    requires forall k :: 0 <= k < |xs| ==> !p(xs[k])
    ensures CountIf(xs, p) == 0
  {
    CountPositive(xs, p);
  }

  // The loop over jobs. Termination of the waiting loops is the absence of deadlock.

  ghost function WaitForLane(c: Config, draws: seq<Draw>, s: State): (r: State)
    requires Inv(c, draws, s)
    ensures Inv(c, draws, r) && r.inFlight < c.concurrency && r.sequence == s.sequence
    ensures r.violations == s.violations && r.hotReplacements == s.hotReplacements
    decreases Pending(s)
  {
    if s.inFlight < c.concurrency then s else
    SomeEventRemains(c, draws, s, 0);
    AdvanceKeepsInv(c, draws, s);
    AdvanceFrame(s);
    WaitForLane(c, draws, Advance(s))
  }

  lemma WaitForLaneStep(c: Config, draws: seq<Draw>, s: State)
    requires Inv(c, draws, s) && s.inFlight >= c.concurrency
    ensures HasEvent(s) && (s.heap != [] ==> EventInRange(s, s.heap[0]))
    ensures Inv(c, draws, Advance(s)) && Pending(Advance(s)) < Pending(s)
    ensures WaitForLane(c, draws, s) == WaitForLane(c, draws, Advance(s))
  {
    SomeEventRemains(c, draws, s, 0);
    AdvanceKeepsInv(c, draws, s);
  }

  lemma InvInRange(c: Config, draws: seq<Draw>, s: State)
    requires Inv(c, draws, s)
    ensures ValidConfig(c) && |draws| == c.jobs
    ensures TenantsInRange(s) && |s.tenants| == c.tenants
  {
    CoreInRange(c, draws, s);
  }

  lemma SettledPoised(c: Config, draws: seq<Draw>, s: State)
    requires Inv(c, draws, s)
    ensures Inv(c, draws, Warm(s)) && Pending(Warm(s)) <= Pending(s)
  {
    WarmKeepsInv(c, draws, s);
    WarmKeepsCounts(c, s);
  }

  /** An active container of tenant `t` that runs fewer jobs than it has slots. */
  ghost predicate HasRoom(c: Config, t: nat, x: Container)
  {
    x.phase == Active && x.tenant == t && x.activeJobs + 1 <= c.slotsPerContainer
  }

  lemma LightestHasRoom(c: Config, xs: seq<Container>, t: nat)
    ensures
      var best := Lightest(xs, |xs|, FreeIn(t, c.slotsPerContainer));
      best.Some? ==>
        && best.value < |xs| && HasRoom(c, t, xs[best.value])
        && forall j :: 0 <= j < |xs| && HasRoom(c, t, xs[j]) ==> NoHeavier(xs[best.value], xs[j])
  {
    hide Lightest, NoHeavier;
    LightestIsLeast(xs, |xs|, FreeIn(t, c.slotsPerContainer));
  }

  /** Waiting for a container with room; of those with room the lightest is taken. */
  ghost function Acquired(c: Config, draws: seq<Draw>, s: State, t: nat): (r: (State, nat))
    requires Inv(c, draws, s) && t < c.tenants
    ensures Inv(c, draws, r.0) && r.0.sequence == s.sequence && r.0.inFlight <= s.inFlight
    ensures r.0.violations == s.violations && r.0.hotReplacements == s.hotReplacements
    ensures r.1 < |r.0.containers| && HasRoom(c, t, r.0.containers[r.1])
    ensures forall j | 0 <= j < |r.0.containers| && HasRoom(c, t, r.0.containers[j]) ::
              NoHeavier(r.0.containers[r.1], r.0.containers[j])
    decreases Pending(s)
  {
    hide Inv, Lightest, Advance, Pending, NoHeavier, HasRoom;
    SettledPoised(c, draws, s);
    var w := Warm(s);
    LightestHasRoom(c, w.containers, t);
    match Lightest(w.containers, |w.containers|, FreeIn(t, c.slotsPerContainer))
    case Some(k) => (w, k)
    case None =>
      SomeEventRemains(c, draws, w, t);
      AdvanceKeepsInv(c, draws, w);
      AdvanceFrame(w);
      Acquired(c, draws, Advance(w), t)
  }

  /** One round of the waiting loop of `acquire_container`. */
  lemma AcquiredStep(c: Config, draws: seq<Draw>, s: State, t: nat)
    requires Inv(c, draws, s) && t < c.tenants
    ensures
      var w := Warm(s);
      var candidate := Lightest(w.containers, |w.containers|, FreeIn(t, c.slotsPerContainer));
      && (candidate.Some? ==> Acquired(c, draws, s, t) == (w, candidate.value))
      && (candidate.None? ==>
            && HasEvent(w) && (w.heap != [] ==> EventInRange(w, w.heap[0]))
            && Inv(c, draws, Advance(w)) && Pending(Advance(w)) < Pending(s)
            && Acquired(c, draws, s, t) == Acquired(c, draws, Advance(w), t))
  {
    SettledPoised(c, draws, s);
    var w := Warm(s);
    if Lightest(w.containers, |w.containers|, FreeIn(t, c.slotsPerContainer)).None? {
      SomeEventRemains(c, draws, w, t);
      AdvanceKeepsInv(c, draws, w);
    }
  }

  predicate ReplacementDue(c: Config, job: nat)
  {
    c.hotReplaceEvery > 0 && job > 0 && job % c.hotReplaceEvery == 0
  }

  function ReplacedTenant(c: Config, job: nat): (t: nat)
    requires ValidConfig(c) && ReplacementDue(c, job)
    ensures t < c.tenants
  {
    (job / c.hotReplaceEvery - 1) % c.tenants
  }

  /** How many replacements the jobs before `n` asked for. */
  function ReplacementsAsked(c: Config, n: nat): int
  {
    if c.hotReplaceEvery > 0 && n > 0 then (n - 1) / c.hotReplaceEvery else 0
  }

  lemma ReplacementsAskedStep(c: Config, n: nat)
    requires ValidConfig(c)
    ensures ReplacementsAsked(c, n + 1) == ReplacementsAsked(c, n) + (if ReplacementDue(c, n) then 1 else 0)
  {
    if c.hotReplaceEvery > 0 && n > 0 {
      DivStep(n, c.hotReplaceEvery);
    }
  }

  lemma NoneAsked(c: Config)
    ensures ReplacementsAsked(c, 0) == 0
  {
  }

  lemma DivStep(n: nat, m: nat)
    requires n > 0 && m > 0
    ensures n / m == (n - 1) / m + (if n % m == 0 then 1 else 0)
  {
    var q := (n - 1) / m;
    assert n - 1 == q * m + (n - 1) % m;
    if (n - 1) % m == m - 1 {
      assert n == (q + 1) * m;
      DivUnique(n, m, q + 1, 0);
    } else {
      DivUnique(n, m, q, (n - 1) % m + 1);
    }
  }

  ghost function Prepared(c: Config, draws: seq<Draw>, s: State, job: nat): (r: State)
    requires Inv(c, draws, s)
    ensures Inv(c, draws, r) && r.sequence == s.sequence
    ensures |r.violations| + r.hotReplacements == |s.violations| + s.hotReplacements + (if ReplacementDue(c, job) then 1 else 0)
  {
    if ReplacementDue(c, job) then
      HotReplaceKeepsInv(c, draws, s, ReplacedTenant(c, job));
      HotReplaceAnswers(c, s, ReplacedTenant(c, job));
      HotReplace(c, s, ReplacedTenant(c, job))
    else s
  }

  ghost function JobRun(c: Config, draws: seq<Draw>, s: State, job: nat): (r: State)
    requires Inv(c, draws, s) && s.sequence == job < c.jobs
    ensures Inv(c, draws, r) && r.sequence == job + 1 && r.heap != []
    ensures |r.violations| + r.hotReplacements == |s.violations| + s.hotReplacements + (if ReplacementDue(c, job) then 1 else 0)
  {
    var t := job % c.tenants;
    var w := WaitForLane(c, draws, Prepared(c, draws, s, job));
    var (a, k) := Acquired(c, draws, w, t);
    StartedKeepsInv(c, draws, a, job, t, k);
    Started(c, a, job, t, k, draws[job])
  }

  ghost function JobsRun(c: Config, draws: seq<Draw>, n: nat): (r: State)
    requires ValidConfig(c) && ValidDraws(c, draws) && n <= c.jobs
    ensures Inv(c, draws, r) && r.sequence == n && (n > 0 ==> r.heap != [])
    ensures |r.violations| + r.hotReplacements == ReplacementsAsked(c, n)
  {
    hide Inv, Initial, JobRun, ReplacementsAsked;
    if n == 0 then
      InitialInv(c, draws);
      NoneAsked(c);
      Initial(c)
    else
      ReplacementsAskedStep(c, n - 1);
      JobRun(c, draws, JobsRun(c, draws, n - 1), n - 1)
  }

  /** When an event empties the heap, it is a completion, and it is then. */
  lemma LastCompletion(c: Config, draws: seq<Draw>, s: State)
    requires Inv(c, draws, s) && s.heap != []
    ensures HasEvent(s) && EventInRange(s, s.heap[0])
    ensures Advance(s).heap == [] ==> EndsWithCompletion(Advance(s))
  {
    hide ContainerOk, TenantOk, LogsOk, Settled, WorkOk, MakespanOk, CountIf;
    assert EntryOk(c, s, s.heap[0]);
  }

  /** The clock stands where the last job finished. */
  ghost predicate EndsWithCompletion(s: State)
  {
    s.finishedLog != [] && s.nowMs == s.finishedLog[|s.finishedLog| - 1].finishedAtMs
  }

  ghost function HeapDrained(c: Config, draws: seq<Draw>, s: State): (r: State)
    requires Inv(c, draws, s)
    ensures Inv(c, draws, r) && r.heap == [] && r.sequence == s.sequence
    ensures r.violations == s.violations && r.hotReplacements == s.hotReplacements
    ensures s.heap != [] ==> EndsWithCompletion(r)
    decreases Pending(s)
  {
    if s.heap == [] then s else
    AdvanceKeepsInv(c, draws, s);
    AdvanceFrame(s);
    LastCompletion(c, draws, s);
    HeapDrained(c, draws, Advance(s))
  }

  lemma HeapDrainedStep(c: Config, draws: seq<Draw>, s: State)
    requires Inv(c, draws, s) && s.heap != []
    ensures HasEvent(s) && EventInRange(s, s.heap[0])
    ensures Inv(c, draws, Advance(s)) && Pending(Advance(s)) < Pending(s)
    ensures HeapDrained(c, draws, s) == HeapDrained(c, draws, Advance(s))
  {
    AdvanceKeepsInv(c, draws, s);
  }

  /** The final state of a run: total for every valid configuration and all draws. */
  ghost function Simulated(c: Config, draws: seq<Draw>): (r: State)
    requires ValidConfig(c) && ValidDraws(c, draws)
    ensures Inv(c, draws, r) && r.heap == [] && r.sequence == c.jobs && EndsWithCompletion(r)
    ensures |r.violations| + r.hotReplacements == ReplacementsAsked(c, c.jobs)
  {
    var d := HeapDrained(c, draws, JobsRun(c, draws, c.jobs));
    SettledPoised(c, draws, d);
    Warm(d)
  }
}
