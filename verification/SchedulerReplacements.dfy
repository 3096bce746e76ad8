/** Hot replacements: when the runner would refuse one, and why no run ever does. */
module SchedulerReplacements {
  import opened Counting
  import opened SchedulerModel
  import opened SchedulerInvariant
  import opened SchedulerRun

  function WarmingIn(t: nat): Container -> bool { (x: Container) => x.tenant == t && x.phase.Warming? }

  /** Between two operations a request for tenant `t` is refused exactly when its whole pool is warming up. */
  lemma RejectedIffAllWarming(c: Config, draws: seq<Draw>, s: State, t: nat)
    requires Inv(c, draws, s) && t < c.tenants
    ensures TenantsInRange(s) && |s.tenants| == c.tenants
    ensures HotReplace(c, s, t).violations != s.violations <==> CountIf(s.containers, WarmingIn(t)) == c.containersPerTenant
    ensures c.warmupMs == 0 ==> HotReplace(c, s, t).violations == s.violations
  {
    hide NoHeavier, ContainerOk, TenantOk, HeapOk, LogsOk, Distinct, WorkOk, MakespanOk;
    CoreInRange(c, draws, s);
    NothingDue(c, s);
    LightestIsLeast(s.containers, |s.containers|, ActiveIn(t));
    CountPositive(s.containers, ActiveIn(t));
    CountSplit(s.containers, LiveIn(t), WarmingIn(t), ActiveIn(t));
    if c.warmupMs == 0 {
      NoneWarmsUp(c, draws, s);
      CountPositive(s.containers, WarmingIn(t));
    }
  }

  lemma NoneWarmsUp(c: Config, draws: seq<Draw>, s: State)
    requires Inv(c, draws, s) && c.warmupMs == 0
    ensures forall k :: 0 <= k < |s.containers| ==> !s.containers[k].phase.Warming?
  {
    forall k | 0 <= k < |s.containers| ensures !s.containers[k].phase.Warming? {
      assert ContainerOk(c, s, k);
    }
  }

  lemma NothingDue(c: Config, s: State)
    requires Settled(c, s)
    ensures Warm(s) == s
  {
    assert Warm(s).containers == s.containers;
  }

  // A container in service stays so until its own tenant is asked for a replacement.

  ghost predicate InService(s: State, t: nat)
  {
    exists k :: 0 <= k < |s.containers| && ActiveIn(t)(s.containers[k])
  }

  ghost predicate KeepsActive(s: State, r: State)
  {
    && |s.containers| <= |r.containers|
    && (forall k :: 0 <= k < |s.containers| && s.containers[k].phase.Active? ==>
          r.containers[k].phase.Active? && r.containers[k].tenant == s.containers[k].tenant)
  }

  lemma StaysInService(s: State, r: State, t: nat)
    requires KeepsActive(s, r) && InService(s, t)
    ensures InService(r, t)
  {
    var k :| 0 <= k < |s.containers| && ActiveIn(t)(s.containers[k]);
    assert ActiveIn(t)(r.containers[k]);
  }

  lemma AdvanceKeepsActive(s: State)
    requires HasEvent(s) && (s.heap != [] ==> EventInRange(s, s.heap[0]))
    ensures KeepsActive(s, Advance(s))
  {
  }

  lemma {:induction false} WaitForLaneKeepsActive(c: Config, draws: seq<Draw>, s: State)
    requires Inv(c, draws, s)
    ensures KeepsActive(s, WaitForLane(c, draws, s))
    decreases Pending(s)
  {
    hide Inv, Advance, Pending, HasEvent, EventInRange;
    if s.inFlight >= c.concurrency {
      WaitForLaneStep(c, draws, s);
      AdvanceKeepsActive(s);
      WaitForLaneKeepsActive(c, draws, Advance(s));
    }
  }

  lemma {:induction false} AcquiredKeepsActive(c: Config, draws: seq<Draw>, s: State, t: nat)
    requires Inv(c, draws, s) && t < c.tenants
    ensures KeepsActive(s, Acquired(c, draws, s, t).0)
    decreases Pending(s)
  {
    hide Inv, Advance, Pending, HasEvent, EventInRange, Acquired;
    AcquiredStep(c, draws, s, t);
    var w := Warm(s);
    if Lightest(w.containers, |w.containers|, FreeIn(t, c.slotsPerContainer)).None? {
      AdvanceKeepsActive(w);
      AcquiredKeepsActive(c, draws, Advance(w), t);
    }
  }

  /** A replacement takes a container out of service for its own tenant alone. */
  lemma HotReplaceSpares(c: Config, s: State, t: nat, u: nat)
    requires TenantsInRange(s) && t < |s.tenants| && u != t && InService(s, u)
    ensures InService(HotReplace(c, s, t), u)
  {
    var k :| 0 <= k < |s.containers| && ActiveIn(u)(s.containers[k]);
    assert ActiveIn(u)(HotReplace(c, s, t).containers[k]);
  }

  predicate AskedFor(c: Config, job: nat, t: nat)
    requires ValidConfig(c)
  {
    ReplacementDue(c, job) && ReplacedTenant(c, job) == t
  }

  lemma PreparedSpares(c: Config, draws: seq<Draw>, s: State, job: nat, t: nat)
    requires Inv(c, draws, s) && InService(s, t) && !AskedFor(c, job, t)
    ensures InService(Prepared(c, draws, s, job), t)
  {
    hide Inv, HotReplace, InService;
    if ReplacementDue(c, job) {
      InvInRange(c, draws, s);
      HotReplaceSpares(c, s, ReplacedTenant(c, job), t);
    }
  }

  /** A job leaves its own tenant in service, and so every other tenant that was not asked for a replacement. */
  lemma JobRunServes(c: Config, draws: seq<Draw>, s: State, job: nat, t: nat)
    requires Inv(c, draws, s) && s.sequence == job < c.jobs && t < c.tenants
    requires job % c.tenants == t || (InService(s, t) && !AskedFor(c, job, t))
    ensures InService(JobRun(c, draws, s, job), t)
  {
    hide Inv, Prepared, WaitForLane, Acquired, KeepsActive, AskedFor;
    var p := Prepared(c, draws, s, job);
    var w := WaitForLane(c, draws, p);
    var (a, k) := Acquired(c, draws, w, job % c.tenants);
    InvInRange(c, draws, a);
    if job % c.tenants == t {
      assert ActiveIn(t)(JobRun(c, draws, s, job).containers[k]);
    } else {
      PreparedSpares(c, draws, s, job, t);
      WaitForLaneKeepsActive(c, draws, p);
      StaysInService(p, w, t);
      AcquiredKeepsActive(c, draws, w, job % c.tenants);
      StaysInService(w, a, t);
      StartedKeepsActive(c, a, job, job % c.tenants, k, draws[job]);
      StaysInService(a, JobRun(c, draws, s, job), t);
    }
  }

  lemma StartedKeepsActive(c: Config, s: State, job: nat, t: nat, k: nat, d: Draw)
    requires k < |s.containers| && t < |s.tenants|
    ensures KeepsActive(s, Started(c, s, job, t, k, d))
  {
  }

  // Between two requests for a tenant the round robin serves a job of that tenant.

  /** Tenant `t` was asked for a replacement before job `m` and got no job from `m` up to `n`. */
  ghost predicate Unserved(c: Config, t: nat, m: nat, n: nat)
    requires ValidConfig(c)
  {
    m < n && AskedFor(c, m, t) && forall j :: m <= j < n ==> j % c.tenants != t
  }

  lemma {:induction false} InServiceOrUnserved(c: Config, draws: seq<Draw>, t: nat, n: nat) returns (m: nat)
    requires ValidConfig(c) && ValidDraws(c, draws) && n <= c.jobs && t < c.tenants
    ensures InService(JobsRun(c, draws, n), t) || Unserved(c, t, m, n)
    decreases n
  {
    hide Inv, JobRun, InService, AskedFor;
    m := 0;
    if n == 0 {
      InitialInService(c, draws, t);
    } else {
      m := InServiceOrUnserved(c, draws, t, n - 1);
      var s := JobsRun(c, draws, n - 1);
      if (n - 1) % c.tenants == t || (InService(s, t) && !AskedFor(c, n - 1, t)) {
        JobRunServes(c, draws, s, n - 1, t);
      } else if AskedFor(c, n - 1, t) {
        m := n - 1;
      }
    }
  }

  lemma InitialInService(c: Config, draws: seq<Draw>, t: nat)
    requires ValidConfig(c) && ValidDraws(c, draws) && t < c.tenants
    ensures InService(Initial(c), t)
  {
    hide Inv, CreatedPools;
    CreatedPoolsFill(c, draws, c.tenants);
    var s := CreatedPools(c, c.tenants);
    CountPositive(s.containers, LiveIn(t));
    var k :| 0 <= k < |s.containers| && LiveIn(t)(s.containers[k]);
    assert ActiveIn(t)(Initial(c).containers[k]);
  }

  /** Some job among any `tenants` consecutive ones belongs to tenant `t`. */
  lemma RoundRobinServes(m: nat, t: nat, tenants: nat) returns (j: nat)
    requires t < tenants
    ensures m <= j < m + tenants && j % tenants == t
  {
    var q, r := m / tenants, m % tenants;
    assert m == q * tenants + r;
    if r <= t {
      j := q * tenants + t;
      DivUnique(j, tenants, q, t);
    } else {
      assert (q + 1) * tenants == q * tenants + tenants;
      j := (q + 1) * tenants + t;
      DivUnique(j, tenants, q + 1, t);
    }
  }

  /** A request is made at a positive multiple of the interval. */
  lemma AskedAt(c: Config, t: nat, m: nat) returns (a: nat)
    requires ValidConfig(c) && AskedFor(c, m, t)
    ensures a >= 1 && m == a * c.hotReplaceEvery && (a - 1) % c.tenants == t
  {
    a := m / c.hotReplaceEvery;
    assert m == a * c.hotReplaceEvery + m % c.hotReplaceEvery;
  }

  /** Two requests for one tenant are at least a full round of jobs apart. */
  lemma RequestsApart(c: Config, t: nat, m: nat, n: nat)
    requires ValidConfig(c) && m < n && AskedFor(c, m, t) && AskedFor(c, n, t)
    ensures n >= m + c.tenants
  {
    var a := AskedAt(c, t, m);
    var b := AskedAt(c, t, n);
    RoundsApart(a, b, c.hotReplaceEvery, c.tenants);
  }

  lemma RoundsApart(a: nat, b: nat, e: nat, tenants: nat)
    requires a >= 1 && b >= 1 && e >= 1 && tenants >= 1 && a * e < b * e && (a - 1) % tenants == (b - 1) % tenants
    ensures b * e >= a * e + tenants
  {
    if b <= a { MulMonotone(b, a, e); }
    SameRemainder(a - 1, b - 1, tenants);
    MulMonotone(tenants, b - a, e);
    MulMonotone(1, e, tenants);
    assert b * e - a * e == (b - a) * e && tenants * e == e * tenants;
  }

  lemma SameRemainder(a: nat, b: nat, m: nat)
    requires 0 < m && a < b && a % m == b % m
    ensures b - a >= m
  {
    var p, q := a / m, b / m;
    assert a == p * m + a % m && b == q * m + b % m;
    if q <= p { MulMonotone(q, p, m); }
    MulMonotone(p + 1, q, m);
    assert (p + 1) * m == p * m + m;
  }

  lemma ServedBetween(c: Config, t: nat, m: nat, n: nat)
    requires ValidConfig(c) && t < c.tenants && AskedFor(c, n, t)
    ensures !Unserved(c, t, m, n)
  {
    hide AskedFor;
    if Unserved(c, t, m, n) {
      RequestsApart(c, t, m, n);
      var j := RoundRobinServes(m, t, c.tenants);
    }
  }

  /** Whenever a replacement is asked for, its tenant has an active container. */
  lemma AskedInService(c: Config, draws: seq<Draw>, t: nat, n: nat)
    requires ValidConfig(c) && ValidDraws(c, draws) && n <= c.jobs && t < c.tenants && AskedFor(c, n, t)
    ensures InService(JobsRun(c, draws, n), t)
  {
    hide InService, Unserved, AskedFor;
    var m := InServiceOrUnserved(c, draws, t, n);
    ServedBetween(c, t, m, n);
  }

  lemma PreparedAccepts(c: Config, draws: seq<Draw>, s: State, job: nat)
    requires Inv(c, draws, s) && (ReplacementDue(c, job) ==> InService(s, ReplacedTenant(c, job)))
    ensures Prepared(c, draws, s, job).violations == s.violations
  {
    hide Inv;
    InvInRange(c, draws, s);
    if ReplacementDue(c, job) {
      var t := ReplacedTenant(c, job);
      var w := Warm(s);
      StaysInService(s, w, t);
      LightestIsLeast(w.containers, |w.containers|, ActiveIn(t));
    }
  }

  lemma JobRunViolations(c: Config, draws: seq<Draw>, s: State, job: nat)
    requires Inv(c, draws, s) && s.sequence == job < c.jobs
    ensures JobRun(c, draws, s, job).violations == Prepared(c, draws, s, job).violations
  {
    hide Inv, Prepared, WaitForLane, Acquired;
  }

  lemma {:induction false} NoneRefusedYet(c: Config, draws: seq<Draw>, n: nat)
    requires ValidConfig(c) && ValidDraws(c, draws) && n <= c.jobs
    ensures JobsRun(c, draws, n).violations == []
    decreases n
  {
    hide Inv, Initial, JobRun, Prepared, InService;
    if n == 0 {
      InitialInv(c, draws);
    } else {
      var s := JobsRun(c, draws, n - 1);
      NoneRefusedYet(c, draws, n - 1);
      if ReplacementDue(c, n - 1) {
        AskedInService(c, draws, ReplacedTenant(c, n - 1), n - 1);
      }
      PreparedAccepts(c, draws, s, n - 1);
      JobRunViolations(c, draws, s, n - 1);
    }
  }

  /**
   No run ever refuses a hot replacement, or breaks isolation or capacity: there are no violations, and
   every replacement that was asked for is carried out.
   */
  lemma NoViolations(c: Config, draws: seq<Draw>)
    requires ValidConfig(c) && ValidDraws(c, draws)
    ensures Simulated(c, draws).violations == []
    ensures Simulated(c, draws).hotReplacements == ReplacementsAsked(c, c.jobs)
  {
    hide Inv, JobsRun, HeapDrained;
    NoneRefusedYet(c, draws, c.jobs);
  }
}
