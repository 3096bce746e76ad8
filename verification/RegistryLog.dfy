/** When every published release is in the transparency log, and when one never gets there. */
module RegistryLog {
  import opened PackageNames
  import opened RegistryModel
  import opened RegistrySafety
  import opened RegistryPublish
  import opened RegistryHistory

  ghost predicate Logged(r: Root, p: string, v: string)
  {
    exists n :: n in r.leaves && r.leaves[n].package == p && r.leaves[n].version == v
  }

  ghost predicate FullyLogged(r: Root)
  {
    forall p, v :: HasVersion(RecordsOf(r, p), v) ==> Logged(r, p, v)
  }

  /** The writes of a completed publish up to its index line. */
  ghost function Prelude(c: Codec, r: Root, q: Request): seq<Write>
  {
    var init := InitPlan(c, r).writes;
    var d := c.hash(q.blob);
    init + if d in ApplyAll(r, init).artifacts then [] else [PutArtifact(d, q.blob)]
  }

  /** The crash window: the index line is written, the leaf is not. */
  ghost predicate CutBeforeLeaf(c: Codec, r: Root, a: Attempt)
  {
    Planned(c, r, a).error.None? && a.cut == |Prelude(c, r, a.request)| + 1
  }

  predicate LeavesLogAlone(w: Write)
  {
    !w.AppendIndex? && !w.PutLeaf?
  }

  lemma FirstUntouched(r: Root, w: Write)
    requires LeavesLogAlone(w)
    ensures Apply(r, w).index == r.index && Apply(r, w).leaves == r.leaves
  {
  }

  lemma {:induction false} LogUntouched(r: Root, ws: seq<Write>)
    requires forall i :: 0 <= i < |ws| ==> LeavesLogAlone(ws[i])
    ensures ApplyAll(r, ws).index == r.index && ApplyAll(r, ws).leaves == r.leaves
    decreases |ws|
  {
    hide Apply, LeavesLogAlone;
    if ws != [] {
      assert LeavesLogAlone(ws[0]);
      var rest := ws[1..];
      forall i | 0 <= i < |rest| ensures LeavesLogAlone(rest[i]) {
        assert rest[i] == ws[i + 1];
      }
      FirstUntouched(r, ws[0]);
      LogUntouched(Apply(r, ws[0]), rest);
    }
  }

  ghost function LeafOf(c: Codec, r: Root, q: Request): Leaf
  {
    LeafFor(c, RecordFor(c, q), |r.leaves| + 1)
  }

  /** A publish without errors writes its prelude, the index line, the leaf, and then only metadata. */
  lemma PlanShape(c: Codec, r: Root, a: Attempt) returns (tail: seq<Write>)
    requires Inv(c, r) && Planned(c, r, a).error.None?
    ensures Planned(c, r, a).writes == Prelude(c, r, a.request)
              + [AppendIndex(RecordFor(c, a.request)), PutLeaf(|r.leaves| + 1, LeafOf(c, r, a.request))] + tail
    ensures forall i :: 0 <= i < |tail| ==> LeavesLogAlone(tail[i])
    ensures forall i :: 0 <= i < |Prelude(c, r, a.request)| ==> LeavesLogAlone(Prelude(c, r, a.request)[i])
  {
    hide Inv, Planned, ReleasePlan, RefreshPlan, HasVersion, InitPlan, LeavesLogAlone, LeafFor, RecordFor, ApplyAll;
    PlanParts(c, r, a);
    PreludeAlone(c, r, a.request);
    InitKeepsIndex(c, r);
    InitPlanSafe(c, r);
    var init := InitPlan(c, r);
    var r1 := ApplyAll(r, init.writes);
    SafeKeepsInv(c, r, init.writes);
    ReleaseShape(c, r1, a.request);
    var release := ReleasePlan(c, r1, a.request);
    tail := RefreshPlan(c, ApplyAll(r1, release.writes), a.order).writes;
    RefreshAlone(c, ApplyAll(r1, release.writes), a.order);
    var d := c.hash(a.request.blob);
    var store := if d in r1.artifacts then [] else [PutArtifact(d, a.request.blob)];
    var two := [AppendIndex(RecordFor(c, a.request)), PutLeaf(|r1.leaves| + 1, LeafOf(c, r1, a.request))];
    assert init.writes + (store + two) + tail == (init.writes + store) + two + tail;
  }

  lemma PlanParts(c: Codec, r: Root, a: Attempt)
    requires Inv(c, r) && Planned(c, r, a).error.None?
    ensures
      var init := InitPlan(c, r);
      var r1 := ApplyAll(r, init.writes);
      var release := ReleasePlan(c, r1, a.request);
      && init.error.None? && release.error.None?
      && Planned(c, r, a).writes == init.writes + release.writes + RefreshPlan(c, ApplyAll(r1, release.writes), a.order).writes
  {
    hide Inv, ReleasePlan, RefreshPlan, InitPlan, ApplyAll;
  }

  lemma ReleaseShape(c: Codec, r: Root, q: Request)
    requires Inv(c, r) && r.hasConfig && r.hasRootMeta && ReleasePlan(c, r, q).error.None?
    ensures ReleasePlan(c, r, q).writes ==
              (if c.hash(q.blob) in r.artifacts then [] else [PutArtifact(c.hash(q.blob), q.blob)])
              + [AppendIndex(RecordFor(c, q)), PutLeaf(|r.leaves| + 1, LeafOf(c, r, q))]
  {
    hide Inv, ValidPackageName, HasVersion, Contiguous;
    InvLeaves(c, r);
  }

  lemma InitAlone(c: Codec, r: Root)
    ensures forall i :: 0 <= i < |InitPlan(c, r).writes| ==> LeavesLogAlone(InitPlan(c, r).writes[i])
  {
  }

  lemma PreludeAlone(c: Codec, r: Root, q: Request)
    ensures forall i :: 0 <= i < |Prelude(c, r, q)| ==> LeavesLogAlone(Prelude(c, r, q)[i])
  {
    hide InitPlan;
    InitAlone(c, r);
  }

  lemma RefreshAlone(c: Codec, r: Root, order: seq<string>)
    ensures forall i :: 0 <= i < |RefreshPlan(c, r, order).writes| ==> LeavesLogAlone(RefreshPlan(c, r, order).writes[i])
  {
    hide ReadableIndex, Contiguous, NextCheckpoint, NextSnapshot, NextTimestamp, TargetsFor;
  }

  /** What one attempt does to index and log, by where it is cut. */
  lemma AttemptEffect(c: Codec, r: Root, a: Attempt)
    requires Inv(c, r)
    ensures
      var s := After(c, r, a);
      var k := |Prelude(c, r, a.request)|;
      var e := RecordFor(c, a.request);
      if Planned(c, r, a).error.Some? || a.cut <= k then s.index == r.index && s.leaves == r.leaves
      else
        && s.index == r.index[e.package := RecordsOf(r, e.package) + [e]]
        && s.leaves == (if a.cut == k + 1 then r.leaves else r.leaves[|r.leaves| + 1 := LeafOf(c, r, a.request)])
  {
    hide Inv, PublishPlan, Prelude, LeafOf, LeavesLogAlone;
    if Planned(c, r, a).error.Some? {
      FailedPlanLeavesLogAlone(c, r, a);
      var ws := Executed(c, r, a);
      assert forall i :: 0 <= i < |ws| ==> ws[i] == Planned(c, r, a).writes[i];
      LogUntouched(r, ws);
    } else {
      var tail := PlanShape(c, r, a);
      var pre := Prelude(c, r, a.request);
      var e := RecordFor(c, a.request);
      CutEffect(r, pre, AppendIndex(e), PutLeaf(|r.leaves| + 1, LeafOf(c, r, a.request)), tail, Executed(c, r, a));
    }
  }

  lemma CutEffect(r: Root, pre: seq<Write>, x: Write, y: Write, tail: seq<Write>, ws: seq<Write>)
    requires x.AppendIndex? && y.PutLeaf?
    requires ws <= pre + [x, y] + tail
    requires forall i :: 0 <= i < |pre| ==> LeavesLogAlone(pre[i])
    requires forall i :: 0 <= i < |tail| ==> LeavesLogAlone(tail[i])
    ensures
      var s := ApplyAll(r, ws);
      if |ws| <= |pre| then s.index == r.index && s.leaves == r.leaves
      else
        && s.index == r.index[x.record.package := RecordsOf(r, x.record.package) + [x.record]]
        && s.leaves == (if |ws| == |pre| + 1 then r.leaves else r.leaves[y.number := y.leaf])
  {
    hide LeavesLogAlone, ApplyAll, Apply;
    if |ws| <= |pre| {
      assert forall i :: 0 <= i < |ws| ==> ws[i] == pre[i];
      LogUntouched(r, ws);
    } else {
      LogUntouched(r, pre);
      var s := ApplyAll(r, pre);
      LogWritten(s, x, y);
      if |ws| == |pre| + 1 {
        assert ws == pre + [x];
        ApplyAllAppend(r, pre, [x]);
      } else {
        var rest := ws[|pre| + 2..];
        assert ws == pre + [x, y] + rest;
        ApplyAllAppend(r, pre, [x, y]);
        ApplyAllAppend(r, pre + [x, y], rest);
        assert forall i :: 0 <= i < |rest| ==> rest[i] == tail[i];
        LogUntouched(ApplyAll(s, [x, y]), rest);
      }
    }
  }

  lemma LogWritten(r: Root, x: Write, y: Write)
    requires x.AppendIndex? && y.PutLeaf?
    ensures
      var s, t := ApplyAll(r, [x]), ApplyAll(r, [x, y]);
      && s.index == t.index == r.index[x.record.package := RecordsOf(r, x.record.package) + [x.record]]
      && s.leaves == r.leaves && t.leaves == r.leaves[y.number := y.leaf]
  {
    TwoApplied(r, x, y);
  }

  /** A publish that fails writes its prelude at most. */
  lemma FailedPlanShape(c: Codec, r: Root, a: Attempt)
    requires Inv(c, r) && Planned(c, r, a).error.Some?
    ensures Planned(c, r, a).writes == InitPlan(c, r).writes || Planned(c, r, a).writes == Prelude(c, r, a.request)
  {
    hide Inv, ValidPackageName, HasVersion, Contiguous, RefreshPlan, LeafFor, ApplyAll, InitPlan;
    InitPlanSafe(c, r);
    SafeKeepsInv(c, r, InitPlan(c, r).writes);
    FailedInitWritesNothing(c, r);
    var b := ApplyAll(r, InitPlan(c, r).writes);
    if InitPlan(c, r).error.None? {
      InvLeaves(c, b);
      ReleasePlanSafe(c, b, a.request);
      if ReleasePlan(c, b, a.request).error.None? {
        SafeKeepsInv(c, b, ReleasePlan(c, b, a.request).writes);
        RefreshPlanSafe(c, ApplyAll(b, ReleasePlan(c, b, a.request).writes), a.order);
      }
    }
  }

  lemma FailedInitWritesNothing(c: Codec, r: Root)
    ensures InitPlan(c, r).error.Some? ==> InitPlan(c, r).writes == []
  {
  }

  lemma FailedPlanLeavesLogAlone(c: Codec, r: Root, a: Attempt)
    requires Inv(c, r) && Planned(c, r, a).error.Some?
    ensures forall i :: 0 <= i < |Planned(c, r, a).writes| ==> LeavesLogAlone(Planned(c, r, a).writes[i])
  {
    hide Inv, Planned, Prelude, InitPlan, LeavesLogAlone;
    FailedPlanShape(c, r, a);
    InitAlone(c, r);
    PreludeAlone(c, r, a.request);
  }

  // Completeness of the log.

  lemma PlannedIsNew(c: Codec, r: Root, a: Attempt)
    requires Inv(c, r) && Planned(c, r, a).error.None?
    ensures !HasVersion(RecordsOf(r, a.request.package), a.request.version)
  {
    PublishPlanSafe(c, r, a.request, a.order);
  }

  lemma LoggedImpliesIndexed(c: Codec, r: Root, p: string, v: string)
    requires Inv(c, r) && Logged(r, p, v)
    ensures HasVersion(RecordsOf(r, p), v)
  {
    var n :| n in r.leaves && r.leaves[n].package == p && r.leaves[n].version == v;
    InvLeaves(c, r);
    LoggedIsIndexed(c, r, n);
  }

  lemma HasVersionSnoc(records: seq<Record>, e: Record, v: string)
    ensures HasVersion(records + [e], v) <==> HasVersion(records, v) || e.version == v
  {
    var all := records + [e];
    if HasVersion(records, v) {
      var i :| 0 <= i < |records| && records[i].version == v;
      assert all[i].version == v;
    }
    if e.version == v {
      assert all[|records|].version == v;
    }
  }

  /** Which releases the index and the log hold after an attempt. */
  lemma AttemptReleases(c: Codec, r: Root, a: Attempt, p: string, v: string)
    requires Inv(c, r)
    ensures
      var s := After(c, r, a);
      var k := |Prelude(c, r, a.request)|;
      var appended := Planned(c, r, a).error.None? && a.cut > k;
      var own := a.request.package == p && a.request.version == v;
      && (HasVersion(RecordsOf(s, p), v) <==> HasVersion(RecordsOf(r, p), v) || (appended && own))
      && (Logged(s, p, v) <==> Logged(r, p, v) || (appended && a.cut != k + 1 && own))
  {
    hide Inv, PublishPlan, Prelude, After, Planned, Logged, HasVersion;
    AttemptEffect(c, r, a);
    HasVersionSnoc(RecordsOf(r, p), RecordFor(c, a.request), v);
    InvLeaves(c, r);
    ContiguousNumbers(r.leaves);
    LoggedMore(r, After(c, r, a), |r.leaves| + 1, LeafOf(c, r, a.request), p, v);
  }

  lemma LoggedMore(r: Root, s: Root, n: nat, leaf: Leaf, p: string, v: string)
    requires n !in r.leaves
    ensures s.leaves == r.leaves ==> (Logged(s, p, v) <==> Logged(r, p, v))
    ensures s.leaves == r.leaves[n := leaf] ==>
              (Logged(s, p, v) <==> Logged(r, p, v) || (leaf.package == p && leaf.version == v))
  {
    if s.leaves == r.leaves[n := leaf] {
      if Logged(r, p, v) {
        var m :| m in r.leaves && r.leaves[m].package == p && r.leaves[m].version == v;
        assert m in s.leaves && s.leaves[m] == r.leaves[m];
      }
      assert n in s.leaves && s.leaves[n] == leaf;
    }
  }

  lemma AttemptKeepsFullyLogged(c: Codec, r: Root, a: Attempt)
    requires Inv(c, r)
    ensures FullyLogged(After(c, r, a)) <==> FullyLogged(r) && !CutBeforeLeaf(c, r, a)
  {
    hide Inv, PublishPlan, Prelude, Logged, HasVersion, After;
    var s := After(c, r, a);
    if FullyLogged(r) && !CutBeforeLeaf(c, r, a) {
      forall p, v | HasVersion(RecordsOf(s, p), v) ensures Logged(s, p, v) {
        AttemptReleases(c, r, a, p, v);
      }
    }
    var p, v := a.request.package, a.request.version;
    if CutBeforeLeaf(c, r, a) {
      AttemptReleases(c, r, a, p, v);
      PlannedIsNew(c, r, a);
      if Logged(r, p, v) { LoggedImpliesIndexed(c, r, p, v); }
      assert HasVersion(RecordsOf(s, p), v) && !Logged(s, p, v);
    } else if !FullyLogged(r) {
      var p', v' :| HasVersion(RecordsOf(r, p'), v') && !Logged(r, p', v');
      AttemptReleases(c, r, a, p', v');
      if Planned(c, r, a).error.None? { PlannedIsNew(c, r, a); }
      assert HasVersion(RecordsOf(s, p'), v') && !Logged(s, p', v');
    }
  }

  ghost predicate NeverCutBeforeLeaf(c: Codec, attempts: seq<Attempt>)
  {
    forall i :: 0 <= i < |attempts| ==> !CutBeforeLeaf(c, History(c, attempts[..i]), attempts[i])
  }

  lemma NeverCutSnoc(c: Codec, attempts: seq<Attempt>)
    requires attempts != []
    ensures
      var n := |attempts| - 1;
      NeverCutBeforeLeaf(c, attempts) <==>
        NeverCutBeforeLeaf(c, attempts[..n]) && !CutBeforeLeaf(c, History(c, attempts[..n]), attempts[n])
  {
    hide CutBeforeLeaf, History;
    var n := |attempts| - 1;
    var front := attempts[..n];
    forall i | 0 <= i < n ensures front[..i] == attempts[..i] && front[i] == attempts[i] {
    }
    if NeverCutBeforeLeaf(c, attempts) {
      forall i | 0 <= i < n ensures !CutBeforeLeaf(c, History(c, front[..i]), front[i]) {
        assert !CutBeforeLeaf(c, History(c, attempts[..i]), attempts[i]);
      }
    }
    if NeverCutBeforeLeaf(c, front) && !CutBeforeLeaf(c, History(c, front), attempts[n]) {
      forall i | 0 <= i < |attempts| ensures !CutBeforeLeaf(c, History(c, attempts[..i]), attempts[i]) {
        if i < n { assert !CutBeforeLeaf(c, History(c, front[..i]), front[i]); }
      }
    }
  }

  /**
   Every release of the index is in the log exactly when no publish was cut between its index
   line and its leaf. A release lost to that window stays out of the log for good.
   */
  lemma {:induction false} LogComplete(c: Codec, attempts: seq<Attempt>)
    ensures FullyLogged(History(c, attempts)) <==> NeverCutBeforeLeaf(c, attempts)
  {
    hide Inv, After, CutBeforeLeaf, FullyLogged;
    if attempts == [] {
      EmptyLogged();
    } else {
      var front := attempts[..|attempts| - 1];
      LogComplete(c, front);
      CrashSafe(c, front);
      AttemptKeepsFullyLogged(c, History(c, front), attempts[|attempts| - 1]);
      NeverCutSnoc(c, attempts);
    }
  }

  lemma EmptyLogged()
    ensures FullyLogged(EMPTY_ROOT)
  {
  }

  // The window is real.

  lemma FirstCutBeforeLeaf(c: Codec, q: Request, order: seq<string>)
    requires ValidPackageName(q.package)
    ensures CutBeforeLeaf(c, EMPTY_ROOT, Attempt(q, order, 7))
  {
    hide Inv, PublishPlan;
    EmptyInv(c);
    PublishPlanSafe(c, EMPTY_ROOT, q, order);
    InitKeepsIndex(c, EMPTY_ROOT);
    assert |Prelude(c, EMPTY_ROOT, q)| == 6;
  }

  /** A first publish that is cut after its seventh write leaves a release without a leaf, for good. */
  lemma CrashLosesLeaf(c: Codec, q: Request, order: seq<string>, later: seq<Attempt>)
    requires ValidPackageName(q.package)
    ensures !FullyLogged(History(c, [Attempt(q, order, 7)] + later))
  {
    hide FullyLogged, History, CutBeforeLeaf;
    var attempts := [Attempt(q, order, 7)] + later;
    FirstCutBeforeLeaf(c, q, order);
    NoHistory(c);
    assert attempts[..0] == [] && CutBeforeLeaf(c, History(c, attempts[..0]), attempts[0]);
    LogComplete(c, attempts);
  }

  // Crashes during initialization.

  predicate HalfInitialized(r: Root)
  {
    r.hasConfig != r.hasRootMeta
  }

  lemma {:induction false} FlagsWritten(r: Root, ws: seq<Write>)
    ensures ApplyAll(r, ws).hasConfig <==> r.hasConfig || PutConfig in ws
    ensures ApplyAll(r, ws).hasRootMeta <==> r.hasRootMeta || PutRootMeta in ws
    decreases |ws|
  {
    hide Apply;
    if ws != [] {
      FlagsPut(r, ws[0]);
      FlagsWritten(Apply(r, ws[0]), ws[1..]);
      assert ws == [ws[0]] + ws[1..];
    }
  }

  lemma FlagsPut(r: Root, w: Write)
    ensures Apply(r, w).hasConfig <==> r.hasConfig || w == PutConfig
    ensures Apply(r, w).hasRootMeta <==> r.hasRootMeta || w == PutRootMeta
  {
  }

  /** The attempt finds an untouched root and is cut between its first and its last initial write. */
  ghost predicate CutInInit(c: Codec, r: Root, a: Attempt)
  {
    !r.hasConfig && !r.hasRootMeta && 1 <= a.cut <= 4
  }

  lemma InitFirst(c: Codec, r: Root, a: Attempt)
    requires !r.hasConfig && !r.hasRootMeta
    ensures
      var ws := Planned(c, r, a).writes;
      |ws| >= 5 && ws[0] == PutConfig && ws[4] == PutRootMeta && ws[1] != PutRootMeta && ws[2] != PutRootMeta && ws[3] != PutRootMeta
  {
    hide ReleasePlan, RefreshPlan, FirstSnapshot, ApplyAll;
  }

  /** Which attempts leave a root half-initialized. */
  lemma AttemptHalfInitializes(c: Codec, r: Root, a: Attempt)
    ensures HalfInitialized(After(c, r, a)) <==> HalfInitialized(r) || CutInInit(c, r, a)
  {
    hide PublishPlan, ApplyAll;
    var ws := Executed(c, r, a);
    FlagsWritten(r, ws);
    if HalfInitialized(r) {
      NothingPlanned(c, r, a);
    } else if !r.hasConfig {
      InitFirst(c, r, a);
      var plan := Planned(c, r, a).writes;
      forall i | 0 <= i < |ws| ensures ws[i] == plan[i] {
      }
      assert PutConfig in ws <==> a.cut >= 1;
      assert PutRootMeta in ws <==> a.cut >= 5 by {
        if a.cut >= 5 { assert ws[4] == PutRootMeta; }
      }
    }
  }

  lemma NothingPlanned(c: Codec, r: Root, a: Attempt)
    requires HalfInitialized(r)
    ensures Executed(c, r, a) == [] && After(c, r, a) == r
  {
  }

  ghost predicate InitCutAt(c: Codec, attempts: seq<Attempt>, i: nat)
  {
    i < |attempts| && CutInInit(c, History(c, attempts[..i]), attempts[i])
  }

  lemma InitCutFront(c: Codec, attempts: seq<Attempt>, i: nat)
    requires attempts != []
    ensures
      var n := |attempts| - 1;
      InitCutAt(c, attempts, i) <==> InitCutAt(c, attempts[..n], i) || (i == n && CutInInit(c, History(c, attempts[..n]), attempts[n]))
  {
    hide CutInInit, History;
    if i < |attempts| - 1 {
      assert attempts[..|attempts| - 1][..i] == attempts[..i];
    }
  }

  /** Roots get half-initialized exactly by a publish into an untouched root that is cut after one to four writes. */
  lemma {:induction false} HalfInitializedIff(c: Codec, attempts: seq<Attempt>)
    ensures HalfInitialized(History(c, attempts)) <==> exists i :: InitCutAt(c, attempts, i)
  {
    hide After, CutInInit, HalfInitialized, InitCutAt;
    if attempts == [] {
      EmptyNotHalf();
      NoInitCut(c);
    } else {
      var n := |attempts| - 1;
      var front := attempts[..n];
      HalfInitializedIff(c, front);
      AttemptHalfInitializes(c, History(c, front), attempts[n]);
      forall i: nat ensures InitCutAt(c, attempts, i)
                            <==> InitCutAt(c, front, i) || (i == n && CutInInit(c, History(c, front), attempts[n]))
      {
        InitCutFront(c, attempts, i);
      }
      assert InitCutAt(c, attempts, n) <==> InitCutAt(c, front, n) || CutInInit(c, History(c, front), attempts[n]);
    }
  }

  lemma NoInitCut(c: Codec)
    ensures forall i :: !InitCutAt(c, [], i)
  {
  }

  lemma EmptyNotHalf()
    ensures !HalfInitialized(EMPTY_ROOT)
  {
  }

  /** A root abandoned between its first and its last initial write accepts nothing any more. */
  lemma {:induction false} HalfInitializedIsFinal(c: Codec, attempts: seq<Attempt>, i: nat)
    requires i <= |attempts| && HalfInitialized(History(c, attempts[..i]))
    ensures History(c, attempts) == History(c, attempts[..i])
    decreases |attempts|
  {
    hide After, HalfInitialized;
    if i == |attempts| {
      assert attempts[..i] == attempts;
    } else {
      var front := attempts[..|attempts| - 1];
      assert front[..i] == attempts[..i];
      HalfInitializedIsFinal(c, front, i);
      NothingPlanned(c, History(c, front), attempts[|attempts| - 1]);
    }
  }

  /** A first publish that is cut within the initial writes does, and no later publish gets anywhere. */
  lemma CrashHalfInitializes(c: Codec, q: Request, order: seq<string>, cut: nat, later: seq<Attempt>)
    requires 1 <= cut <= 4
    ensures
      var a := Attempt(q, order, cut);
      HalfInitialized(History(c, [a])) && History(c, [a] + later) == History(c, [a])
  {
    hide After, HalfInitialized, History;
    var a := Attempt(q, order, cut);
    HalfInitializedIff(c, [a]);
    NoHistory(c);
    assert [a][..0] == [] && InitCutAt(c, [a], 0);
    assert ([a] + later)[..1] == [a];
    HalfInitializedIsFinal(c, [a] + later, 1);
  }

  lemma NoHistory(c: Codec)
    ensures History(c, []) == EMPTY_ROOT
  {
  }
}
