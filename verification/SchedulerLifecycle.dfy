/** How a run moves: every run is a chain of single steps, and what therefore never changes back. */
module SchedulerLifecycle {
  import opened Wrappers
  import opened SchedulerModel
  import opened SchedulerInvariant
  import opened SchedulerRun

  // Single steps.

  /**
   What one step may do to a container: nothing, one of the three moves
   warming -> active -> draining -> retired (the last one without jobs), or one job more or less.
   */
  predicate ContainerStep(x: Container, y: Container)
  {
    || y == x
    || (x.phase.Warming? && y == x.(phase := Active))
    || (x.phase.Active? && y == x.(phase := Draining))
    || (x.phase.Draining? && x.activeJobs == 0 && y == x.(phase := Retired))
    || (x.phase.Active? && y == x.(activeJobs := x.activeJobs + 1, acceptedJobs := x.acceptedJobs + 1))
    || (&& (x.phase.Active? || x.phase.Draining?) && x.activeJobs > 0
        && y == x.(activeJobs := x.activeJobs - 1, completedJobs := x.completedJobs + 1))
  }

  predicate NewReplacement(x: Container)
  {
    && x.replacementOf.Some? && (x.phase.Warming? || x.phase.Active?)
    && x.activeJobs == x.acceptedJobs == x.completedJobs == 0
  }

  ghost predicate Step(s: State, r: State)
  {
    && s.nowMs <= r.nowMs
    && |s.containers| <= |r.containers| <= |s.containers| + 1
    && (forall k :: 0 <= k < |s.containers| ==> ContainerStep(s.containers[k], r.containers[k]))
    && (|r.containers| > |s.containers| ==> NewReplacement(r.containers[|s.containers|]))
    && s.startedLog <= r.startedLog && s.finishedLog <= r.finishedLog && s.violations <= r.violations
  }

  // What the runner does to its state, change by change.

  datatype Move =
    | Tick
    | WarmUp
    | Reject(tenant: nat)
    | Drain(container: nat)
    | Replace(container: nat)
    | Retire(container: nat)
    | StartOn(container: nat)
    | FinishFirst

  /** The earliest completion is not later than any pending warm-up. */
  predicate CompletionFirst(s: State)
  {
    var warmup := NextWarmup(s.containers, |s.containers|, s.nowMs);
    s.heap != [] && (warmup.None? || s.heap[0].finishedAtMs <= warmup.value)
  }

  /** When the runner makes a move. */
  ghost predicate Enabled(c: Config, draws: seq<Draw>, s: State, m: Move)
  {
    && c.tenants >= 1 && TenantsInRange(s) && |s.tenants| == c.tenants
    && match m
       case Tick => !CompletionFirst(s) && NextWarmup(s.containers, |s.containers|, s.nowMs).Some?
       case WarmUp => true
       case Reject(t) => t < c.tenants && Lightest(s.containers, |s.containers|, ActiveIn(t)).None?
       case Drain(k) =>
         k < |s.containers| && Lightest(s.containers, |s.containers|, ActiveIn(s.containers[k].tenant)) == Some(k)
       case Replace(k) =>
         && k < |s.containers| && s.containers[k].phase.Draining?
         && forall j :: 0 <= j < |s.containers| ==> s.containers[j].replacementOf != Some(k)
       case Retire(k) => k < |s.containers| && s.containers[k].phase.Draining? && s.containers[k].activeJobs == 0
       case StartOn(k) => s.sequence >= 0 && CanStart(c, draws, s, s.sequence, s.sequence % c.tenants, k)
       case FinishFirst => CompletionFirst(s) && EventInRange(s, s.heap[0]) && Running(s.containers[s.heap[0].container])
  }

  /** A container with a job to finish. */
  predicate Running(x: Container)
  {
    x.activeJobs > 0 && (x.phase.Active? || x.phase.Draining?)
  }

  ghost function Moved(c: Config, draws: seq<Draw>, s: State, m: Move): State
    requires Enabled(c, draws, s, m)
  {
    match m
    case Tick => s.(nowMs := MaxInt(s.nowMs, NextWarmup(s.containers, |s.containers|, s.nowMs).value))
    case WarmUp => Warm(s)
    case Reject(t) => Rejected(s, t)
    case Drain(k) => Drained(s, k)
    case Replace(k) => Created(s, s.containers[k].tenant, s.nowMs + c.warmupMs, Some(k))
    case Retire(k) => RetiredIfIdle(s, k)
    case StartOn(k) => Started(c, s, s.sequence, s.sequence % c.tenants, k, draws[s.sequence])
    case FinishFirst => Finished(Popped(s), s.heap[0])
  }

  /** Each move is a single step: a container goes at most one phase on. */
  lemma MoveIsStep(c: Config, draws: seq<Draw>, s: State, m: Move)
    requires Enabled(c, draws, s, m) && c.warmupMs >= 0
    ensures Step(s, Moved(c, draws, s, m))
  {
  }

  /** Which move makes which phase change, and on which container. */
  lemma PhaseChanges(c: Config, draws: seq<Draw>, s: State, m: Move, k: nat)
    requires Enabled(c, draws, s, m) && k < |s.containers|
    ensures
      var x, y := s.containers[k], Moved(c, draws, s, m).containers[k];
      && (x.phase.Warming? && y.phase.Active? <==> m.WarmUp? && x.phase.Warming? && x.activeAfterMs <= s.nowMs)
      && (x.phase.Active? && y.phase.Draining? <==> m == Drain(k))
      && (x.phase.Draining? && y.phase.Retired? <==> m == Retire(k))
      && (y.phase != x.phase ==> m.WarmUp? || m == Drain(k) || m == Retire(k))
      && (y.acceptedJobs != x.acceptedJobs <==> m == StartOn(k))
      && (y.completedJobs != x.completedJobs <==> m.FinishFirst? && s.heap[0].container == k)
  {
  }

  ghost predicate Leads(c: Config, draws: seq<Draw>, s: State, moves: seq<Move>, r: State)
    decreases moves
  {
    if moves == [] then s == r
    else Enabled(c, draws, s, moves[0]) && Leads(c, draws, Moved(c, draws, s, moves[0]), moves[1..], r)
  }

  /** Moves of the runner lead from one state to the other. */
  ghost predicate Evolves(c: Config, draws: seq<Draw>, s: State, r: State)
  {
    exists moves: seq<Move> :: Leads(c, draws, s, moves, r)
  }

  lemma MoveEvolves(c: Config, draws: seq<Draw>, s: State, m: Move)
    requires Enabled(c, draws, s, m)
    ensures Evolves(c, draws, s, Moved(c, draws, s, m))
  {
    hide Enabled, Moved;
    assert [m][1..] == [];
    assert Leads(c, draws, s, [m], Moved(c, draws, s, m));
  }

  lemma EvolvesReflexive(c: Config, draws: seq<Draw>, s: State)
    ensures Evolves(c, draws, s, s)
  {
    assert Leads(c, draws, s, [], s);
  }

  lemma {:induction false} LeadsOn(c: Config, draws: seq<Draw>, s: State, moves: seq<Move>, r: State, further: seq<Move>, q: State)
    requires Leads(c, draws, s, moves, r) && Leads(c, draws, r, further, q)
    ensures Leads(c, draws, s, moves + further, q)
    decreases moves
  {
    hide Enabled, Moved;
    if moves == [] {
      assert moves + further == further;
    } else {
      LeadsOn(c, draws, Moved(c, draws, s, moves[0]), moves[1..], r, further, q);
      assert (moves + further)[1..] == moves[1..] + further;
    }
  }

  lemma EvolvesTransitive(c: Config, draws: seq<Draw>, s: State, r: State, q: State)
    requires Evolves(c, draws, s, r) && Evolves(c, draws, r, q)
    ensures Evolves(c, draws, s, q)
  {
    hide Leads;
    var moves :| Leads(c, draws, s, moves, r);
    var further :| Leads(c, draws, r, further, q);
    LeadsOn(c, draws, s, moves, r, further, q);
  }

  // What any chain of moves keeps.

  function Rank(p: Phase): nat
  {
    match p
    case Warming => 0
    case Active => 1
    case Draining => 2
    case Retired => 3
  }

  /** No phase is revisited, nothing is renamed, and a container out of service accepts no more jobs. */
  predicate ContainerLater(x: Container, y: Container)
  {
    && y.tenant == x.tenant && y.generation == x.generation && y.replacementOf == x.replacementOf
    && y.activeAfterMs == x.activeAfterMs && y.createdAtMs == x.createdAtMs
    && Rank(x.phase) <= Rank(y.phase)
    && x.acceptedJobs <= y.acceptedJobs && x.completedJobs <= y.completedJobs
    && (x.phase.Draining? || x.phase.Retired? ==> y.acceptedJobs == x.acceptedJobs)
    && (x.phase.Retired? ==> y == x)
  }

  ghost predicate Later(s: State, r: State)
  {
    && s.nowMs <= r.nowMs
    && |s.containers| <= |r.containers|
    && (forall k :: 0 <= k < |s.containers| ==> ContainerLater(s.containers[k], r.containers[k]))
    && (forall k :: |s.containers| <= k < |r.containers| ==> r.containers[k].replacementOf.Some?)
    && s.startedLog <= r.startedLog && s.finishedLog <= r.finishedLog && s.violations <= r.violations
  }

  lemma StepLater(s: State, r: State, q: State)
    requires Step(s, r) && Later(r, q)
    ensures Later(s, q)
  {
    forall k | 0 <= k < |s.containers| ensures ContainerLater(s.containers[k], q.containers[k]) {
      assert ContainerStep(s.containers[k], r.containers[k]) && ContainerLater(r.containers[k], q.containers[k]);
    }
    forall k | |s.containers| <= k < |q.containers| ensures q.containers[k].replacementOf.Some? {
      if k < |r.containers| {
        assert NewReplacement(r.containers[k]) && ContainerLater(r.containers[k], q.containers[k]);
      }
    }
  }

  lemma {:induction false} LeadsLater(c: Config, draws: seq<Draw>, s: State, moves: seq<Move>, r: State)
    requires c.warmupMs >= 0 && Leads(c, draws, s, moves, r)
    ensures Later(s, r)
    decreases moves
  {
    if moves != [] {
      hide Step, Later, Enabled, Moved;
      var next := Moved(c, draws, s, moves[0]);
      LeadsLater(c, draws, next, moves[1..], r);
      MoveIsStep(c, draws, s, moves[0]);
      StepLater(s, next, r);
    }
  }

  lemma EvolvesLater(c: Config, draws: seq<Draw>, s: State, r: State)
    requires c.warmupMs >= 0 && Evolves(c, draws, s, r)
    ensures Later(s, r)
  {
    hide Later, Leads;
    var moves :| Leads(c, draws, s, moves, r);
    LeadsLater(c, draws, s, moves, r);
  }

  // The operations of the runner as chains of moves.

  ghost predicate InRange(c: Config, s: State)
  {
    c.tenants >= 1 && TenantsInRange(s) && |s.tenants| == c.tenants
  }

  lemma WarmEvolves(c: Config, draws: seq<Draw>, s: State)
    requires InRange(c, s)
    ensures Evolves(c, draws, s, Warm(s)) && InRange(c, Warm(s))
  {
    hide Evolves;
    MoveEvolves(c, draws, s, WarmUp);
  }

  lemma RetiredEvolves(c: Config, draws: seq<Draw>, s: State, k: nat)
    requires InRange(c, s) && k < |s.containers|
    ensures Evolves(c, draws, s, RetiredIfIdle(s, k)) && InRange(c, RetiredIfIdle(s, k))
  {
    hide Evolves;
    if s.containers[k].phase.Draining? && s.containers[k].activeJobs == 0 {
      MoveEvolves(c, draws, s, Retire(k));
    } else {
      EvolvesReflexive(c, draws, s);
    }
  }

  /** Nothing has been put in the place of an active container yet. */
  lemma NotYetReplaced(c: Config, draws: seq<Draw>, s: State, k: nat)
    requires Core(c, draws, s) && k < |s.containers| && s.containers[k].phase.Active?
    ensures forall j :: 0 <= j < |s.containers| ==> s.containers[j].replacementOf != Some(k)
  {
    forall j | 0 <= j < |s.containers| ensures s.containers[j].replacementOf != Some(k) {
      assert ContainerOk(c, s, j);
    }
  }

  lemma ReplacedEvolves(c: Config, draws: seq<Draw>, s: State, t: nat, k: nat)
    requires InRange(c, s) && t < c.tenants && Lightest(s.containers, |s.containers|, ActiveIn(t)) == Some(k)
    requires forall j :: 0 <= j < |s.containers| ==> s.containers[j].replacementOf != Some(k)
    ensures Evolves(c, draws, s, Replaced(c, s, t, k))
  {
    hide Evolves, RetiredIfIdle, Lightest;
    var d := Drained(s, k);
    var n := Created(d, t, s.nowMs + c.warmupMs, Some(k));
    MoveEvolves(c, draws, s, Drain(k));
    MoveEvolves(c, draws, d, Move.Replace(k));
    RetiredEvolves(c, draws, n, k);
    EvolvesTransitive(c, draws, s, d, n);
    EvolvesTransitive(c, draws, s, n, Replaced(c, s, t, k));
  }

  lemma HotReplaceEvolves(c: Config, draws: seq<Draw>, s: State, t: nat)
    requires Inv(c, draws, s) && t < c.tenants
    ensures TenantsInRange(s) && |s.tenants| == c.tenants && Evolves(c, draws, s, HotReplace(c, s, t))
  {
    hide Evolves, Replaced, Core, MakespanOk, WorkOk, Settled;
    var w := Warm(s);
    InvInRange(c, draws, s);
    SettledPoised(c, draws, s);
    WarmEvolves(c, draws, s);
    match Lightest(w.containers, |w.containers|, ActiveIn(t))
    case None =>
      MoveEvolves(c, draws, w, Reject(t));
      EvolvesTransitive(c, draws, s, w, Rejected(w, t));
    case Some(k) =>
      NotYetReplaced(c, draws, w, k);
      ReplacedEvolves(c, draws, w, t, k);
      EvolvesTransitive(c, draws, s, w, Replaced(c, w, t, k));
  }

  lemma StartedEvolves(c: Config, draws: seq<Draw>, s: State, t: nat, k: nat)
    requires InRange(c, s) && s.sequence >= 0 && CanStart(c, draws, s, s.sequence, t, k)
    ensures Evolves(c, draws, s, Started(c, s, s.sequence, t, k, draws[s.sequence]))
  {
    hide Evolves;
    MoveEvolves(c, draws, s, StartOn(k));
  }

  /** The container of the earliest completion has a job to finish, and is in service or draining. */
  lemma HeadIsRunning(c: Config, draws: seq<Draw>, s: State)
    requires Inv(c, draws, s) && s.heap != []
    ensures EventInRange(s, s.heap[0]) && Running(s.containers[s.heap[0].container])
  {
    var k := s.heap[0].container;
    assert EntryOk(c, s, s.heap[0]);
    assert ContainerOk(c, s, k);
    assert OnContainer(k)(s.heap[0]);
  }

  lemma PopAndFinishEvolves(c: Config, draws: seq<Draw>, s: State)
    requires Inv(c, draws, s) && CompletionFirst(s)
    ensures EventInRange(s, s.heap[0]) && Evolves(c, draws, s, PopAndFinish(s)) && InRange(c, PopAndFinish(s))
  {
    hide Evolves, Inv, NextWarmup;
    InvInRange(c, draws, s);
    HeadIsRunning(c, draws, s);
    var f := Finished(Popped(s), s.heap[0]);
    MoveEvolves(c, draws, s, FinishFirst);
    RetiredEvolves(c, draws, f, s.heap[0].container);
    EvolvesTransitive(c, draws, s, f, PopAndFinish(s));
  }

  lemma AdvanceEvolves(c: Config, draws: seq<Draw>, s: State)
    requires Inv(c, draws, s) && HasEvent(s) && (s.heap != [] ==> EventInRange(s, s.heap[0]))
    ensures Evolves(c, draws, s, Advance(s))
  {
    hide Evolves, Inv, PopAndFinish, NextWarmup;
    InvInRange(c, draws, s);
    if CompletionFirst(s) {
      var p := PopAndFinish(s);
      PopAndFinishEvolves(c, draws, s);
      WarmEvolves(c, draws, p);
      EvolvesTransitive(c, draws, s, p, Warm(p));
    } else {
      var m := Moved(c, draws, s, Tick);
      MoveEvolves(c, draws, s, Tick);
      WarmEvolves(c, draws, m);
      EvolvesTransitive(c, draws, s, m, Warm(m));
    }
  }

  lemma {:induction false} WaitForLaneEvolves(c: Config, draws: seq<Draw>, s: State)
    requires Inv(c, draws, s)
    ensures Evolves(c, draws, s, WaitForLane(c, draws, s))
    decreases Pending(s)
  {
    hide Inv, Advance, Pending, HasEvent, EventInRange, Evolves;
    if s.inFlight < c.concurrency {
      EvolvesReflexive(c, draws, s);
    } else {
      WaitForLaneStep(c, draws, s);
      AdvanceEvolves(c, draws, s);
      WaitForLaneEvolves(c, draws, Advance(s));
      EvolvesTransitive(c, draws, s, Advance(s), WaitForLane(c, draws, s));
    }
  }

  lemma {:induction false} AcquiredEvolves(c: Config, draws: seq<Draw>, s: State, t: nat)
    requires Inv(c, draws, s) && t < c.tenants
    ensures Evolves(c, draws, s, Acquired(c, draws, s, t).0)
    decreases Pending(s)
  {
    hide Inv, Advance, Pending, HasEvent, EventInRange, Evolves, Acquired;
    AcquiredStep(c, draws, s, t);
    InvInRange(c, draws, s);
    var w := Warm(s);
    WarmEvolves(c, draws, s);
    if Lightest(w.containers, |w.containers|, FreeIn(t, c.slotsPerContainer)).None? {
      SettledPoised(c, draws, s);
      AdvanceEvolves(c, draws, w);
      AcquiredEvolves(c, draws, Advance(w), t);
      EvolvesTransitive(c, draws, s, w, Advance(w));
      EvolvesTransitive(c, draws, s, Advance(w), Acquired(c, draws, s, t).0);
    }
  }

  lemma {:induction false} HeapDrainedEvolves(c: Config, draws: seq<Draw>, s: State)
    requires Inv(c, draws, s)
    ensures Evolves(c, draws, s, HeapDrained(c, draws, s))
    decreases Pending(s)
  {
    hide Inv, Advance, Pending, HasEvent, EventInRange, Evolves;
    if s.heap == [] {
      EvolvesReflexive(c, draws, s);
    } else {
      HeapDrainedStep(c, draws, s);
      AdvanceEvolves(c, draws, s);
      HeapDrainedEvolves(c, draws, Advance(s));
      EvolvesTransitive(c, draws, s, Advance(s), HeapDrained(c, draws, s));
    }
  }

  lemma PreparedEvolves(c: Config, draws: seq<Draw>, s: State, job: nat)
    requires Inv(c, draws, s)
    ensures Evolves(c, draws, s, Prepared(c, draws, s, job))
  {
    hide Inv, HotReplace, Evolves;
    EvolvesReflexive(c, draws, s);
    InvInRange(c, draws, s);
    if ReplacementDue(c, job) {
      HotReplaceEvolves(c, draws, s, ReplacedTenant(c, job));
    }
  }

  lemma JobRunEvolves(c: Config, draws: seq<Draw>, s: State, job: nat)
    requires Inv(c, draws, s) && s.sequence == job < c.jobs
    ensures Evolves(c, draws, s, JobRun(c, draws, s, job))
  {
    hide Inv, Prepared, WaitForLane, Acquired, Started, Evolves;
    var p := Prepared(c, draws, s, job);
    PreparedEvolves(c, draws, s, job);
    var w := WaitForLane(c, draws, p);
    WaitForLaneEvolves(c, draws, p);
    EvolvesTransitive(c, draws, s, p, w);
    InvInRange(c, draws, w);
    var t := job % c.tenants;
    var (a, k) := Acquired(c, draws, w, t);
    AcquiredEvolves(c, draws, w, t);
    EvolvesTransitive(c, draws, s, w, a);
    InvInRange(c, draws, a);
    StartedEvolves(c, draws, a, t, k);
    EvolvesTransitive(c, draws, s, a, JobRun(c, draws, s, job));
  }

  /** From the state after `m` jobs to the state after any later job, and to the end of the run. */
  lemma {:induction false} RunEvolves(c: Config, draws: seq<Draw>, m: nat, n: nat)
    requires ValidConfig(c) && ValidDraws(c, draws) && m <= n <= c.jobs
    ensures Evolves(c, draws, JobsRun(c, draws, m), JobsRun(c, draws, n))
    ensures Evolves(c, draws, JobsRun(c, draws, m), Simulated(c, draws))
    decreases n
  {
    hide Inv, JobRun, Evolves;
    if m == n {
      EvolvesReflexive(c, draws, JobsRun(c, draws, m));
    } else {
      RunEvolves(c, draws, m, n - 1);
      JobRunEvolves(c, draws, JobsRun(c, draws, n - 1), n - 1);
      EvolvesTransitive(c, draws, JobsRun(c, draws, m), JobsRun(c, draws, n - 1), JobsRun(c, draws, n));
    }
    RunEvolvesToEnd(c, draws, m);
  }

  lemma {:induction false} RunEvolvesToEnd(c: Config, draws: seq<Draw>, m: nat)
    requires ValidConfig(c) && ValidDraws(c, draws) && m <= c.jobs
    ensures Evolves(c, draws, JobsRun(c, draws, m), Simulated(c, draws))
    decreases c.jobs - m
  {
    hide Inv, JobRun, HeapDrained, Evolves;
    var s := JobsRun(c, draws, m);
    if m < c.jobs {
      RunEvolvesToEnd(c, draws, m + 1);
      JobRunEvolves(c, draws, s, m);
      EvolvesTransitive(c, draws, s, JobsRun(c, draws, m + 1), Simulated(c, draws));
    } else {
      HeapDrainedEvolves(c, draws, s);
      InvInRange(c, draws, HeapDrained(c, draws, s));
      WarmEvolves(c, draws, HeapDrained(c, draws, s));
      EvolvesTransitive(c, draws, s, HeapDrained(c, draws, s), Simulated(c, draws));
    }
  }
}
