/** The plan of a publish is safe write by write; runs of publishes with crashes anywhere. */
module RegistryPublish {
  import opened Wrappers
  import opened PackageNames
  import opened RegistryModel
  import opened RegistrySafety

  lemma InitPlanSafe(c: Codec, r: Root)
    requires Inv(c, r)
    ensures AllOk(c, r, InitPlan(c, r).writes)
    ensures InitPlan(c, r).error.None? ==>
              var s := ApplyAll(r, InitPlan(c, r).writes); s.hasConfig && s.hasRootMeta
  {
    hide Inv, FirstSnapshot, CheckpointOk;
    InvCheckpoint(c, r);
    if r.hasConfig == r.hasRootMeta && !r.hasConfig {
      var ws := InitPlan(c, r).writes;
      EmptyCheckpoint(c, r.leaves);
      FiveWrites(c, r, ws[0], ws[1], ws[2], ws[3], ws[4]);
      assert ws == [ws[0], ws[1], ws[2], ws[3], ws[4]];
    }
  }

  lemma FiveWrites(c: Codec, r: Root, a: Write, b: Write, d: Write, e: Write, f: Write)
    requires WriteOk(c, r, a) && WriteOk(c, Apply(r, a), b) && WriteOk(c, Apply(Apply(r, a), b), d)
    requires WriteOk(c, Apply(Apply(Apply(r, a), b), d), e)
    requires WriteOk(c, Apply(Apply(Apply(Apply(r, a), b), d), e), f)
    ensures AllOk(c, r, [a, b, d, e, f])
    ensures ApplyAll(r, [a, b, d, e, f]) == Apply(Apply(Apply(Apply(Apply(r, a), b), d), e), f)
  {
    hide WriteOk, Apply;
    var s := Apply(Apply(r, a), b);
    ThreeWrites(c, s, d, e, f);
    assert [a, b, d, e, f][1..] == [b, d, e, f] && [b, d, e, f][1..] == [d, e, f];
    assert AllOk(c, Apply(r, a), [b, d, e, f]);
  }

  lemma EmptyCheckpoint(c: Codec, leaves: map<nat, Leaf>)
    ensures CheckpointOk(c, leaves, Checkpoint(1, 0, ZERO_DIGEST))
  {
    assert LeafHashes(c, leaves, 0) == [];
  }

  /** A release already in the log is already in the index. */
  lemma LoggedIsIndexed(c: Codec, r: Root, n: nat)
    requires n in r.leaves && LeafOk(c, r, n)
    ensures HasVersion(RecordsOf(r, r.leaves[n].package), r.leaves[n].version)
  {
  }

  lemma ReleasePlanSafe(c: Codec, r: Root, q: Request)
    requires Inv(c, r) && r.hasConfig && r.hasRootMeta
    ensures AllOk(c, r, ReleasePlan(c, r, q).writes)
    ensures ReleasePlan(c, r, q).error ==
              if !ValidPackageName(q.package) then Some(InvalidName)
              else if HasVersion(RecordsOf(r, q.package), q.version) then Some(AlreadyPublished)
              else None
  {
    hide ValidPackageName, HasVersion, LeafNames, WriteOk, LeafFor, TargetsOk, IndexFileOk;
    InvLeaves(c, r);
    if ValidPackageName(q.package) {
      var e := RecordFor(c, q);
      if e.sha256 in r.artifacts { InvArtifact(c, r, e.sha256); }
      var store := if e.sha256 in r.artifacts then [] else [PutArtifact(e.sha256, q.blob)];
      StoreSafe(c, r, q);
      if !HasVersion(RecordsOf(r, q.package), q.version) {
        var s := ApplyAll(r, store);
        AppendAndLogSafe(c, r, s, e);
        AllOkAppend(c, r, store, [AppendIndex(e), PutLeaf(|r.leaves| + 1, LeafFor(c, e, |r.leaves| + 1))]);
      }
    }
  }

  lemma InvArtifact(c: Codec, r: Root, d: Digest)
    requires Inv(c, r) && d in r.artifacts
    ensures c.hash(r.artifacts[d]) == d
  {
  }

  lemma StoreSafe(c: Codec, r: Root, q: Request)
    requires r.hasConfig && r.hasRootMeta && ArtifactsOk(c, r)
    ensures
      var d := c.hash(q.blob);
      var store := if d in r.artifacts then [] else [PutArtifact(d, q.blob)];
      var s := ApplyAll(r, store);
      && AllOk(c, r, store)
      && d in s.artifacts && c.hash(s.artifacts[d]) == d
      && s == r.(artifacts := s.artifacts)
  {
    var d := c.hash(q.blob);
    if d !in r.artifacts {
      var store := [PutArtifact(d, q.blob)];
      assert store[1..] == [];
      assert AllOk(c, Apply(r, store[0]), []);
    }
  }

  lemma AppendAndLogSafe(c: Codec, r: Root, s: Root, e: Record)
    requires LeavesOk(c, r) && s == r.(artifacts := s.artifacts) && r.hasConfig && r.hasRootMeta
    requires e.sha256 in s.artifacts && c.hash(s.artifacts[e.sha256]) == e.sha256
    requires !HasVersion(RecordsOf(r, e.package), e.version)
    ensures AllOk(c, s, [AppendIndex(e), PutLeaf(|r.leaves| + 1, LeafFor(c, e, |r.leaves| + 1))])
  {
    hide LeafOk, Contiguous, HasVersion;
    var n := |r.leaves| + 1;
    var l := LeafFor(c, e, n);
    var ws := [AppendIndex(e), PutLeaf(n, l)];
    var t := Apply(s, ws[0]);
    var before := RecordsOf(s, e.package);
    assert RecordsOf(t, e.package) == before + [e];
    assert LeafNames(c, l, RecordsOf(t, e.package)[|before|]);
    forall m | m in t.leaves ensures !SameRelease(l, t.leaves[m]) {
      assert LeafOk(c, r, m);
      LoggedIsIndexed(c, r, m);
    }
    assert WriteOk(c, t, ws[1]);
    assert ws[1..] == [ws[1]] && ws[1..][1..] == [];
    assert AllOk(c, Apply(t, ws[1]), []);
    assert AllOk(c, t, ws[1..]);
  }

  // Refreshing the signed metadata.

  lemma {:induction false} ReleasesAnnounce(c: Codec, records: seq<Record>, v: string)
    ensures v in ReleasesOf(c, records) <==> HasVersion(records, v)
    ensures v in ReleasesOf(c, records) ==>
              exists i :: 0 <= i < |records| && Announces(c, records[i], v, ReleasesOf(c, records)[v])
  {
    if records != [] {
      var n := |records| - 1;
      var front := records[..n];
      ReleasesAnnounce(c, front, v);
      if HasVersion(front, v) {
        var i :| 0 <= i < |front| && front[i].version == v;
        assert records[i].version == v;
      }
      if HasVersion(records, v) {
        var i :| 0 <= i < |records| && records[i].version == v;
        assert i < n ==> front[i].version == v;
      }
      if v == records[n].version {
        assert Announces(c, records[n], v, ReleasesOf(c, records)[v]);
      } else if v in ReleasesOf(c, front) {
        var i :| 0 <= i < |front| && Announces(c, front[i], v, ReleasesOf(c, front)[v]);
        assert Announces(c, records[i], v, ReleasesOf(c, records)[v]);
      }
    }
  }

  lemma TargetsForOk(c: Codec, r: Root, ns: string)
    ensures TargetsOk(c, r, ns, TargetsFor(c, r, ns))
  {
    var t := TargetsFor(c, r, ns);
    forall p, v | p in t.packages && v in t.packages[p] ensures ReleaseOk(c, r, p, v, t.packages[p][v]) {
      ReleasesAnnounce(c, r.index[p], v);
      assert t.packages[p] == ReleasesOf(c, RecordsOf(r, p));
    }
  }

  lemma SameIndexTargetsOk(c: Codec, r: Root, s: Root, ns: string, t: Targets)
    requires r.index == s.index && TargetsOk(c, r, ns, t)
    ensures TargetsOk(c, s, ns, t)
  {
    forall p, v | p in t.packages && v in t.packages[p] ensures ReleaseOk(c, s, p, v, t.packages[p][v]) {
      assert ReleaseOk(c, r, p, v, t.packages[p][v]);
      assert RecordsOf(r, p) == RecordsOf(s, p);
    }
  }

  /** The targets after the first namespaces of `order` were refreshed from state `r`. */
  function RefreshedTargets(c: Codec, r: Root, order: seq<string>): map<string, Targets>
  {
    if order == [] then r.targets
    else RefreshedTargets(c, r, order[..|order| - 1])[order[|order| - 1] := TargetsFor(c, r, order[|order| - 1])]
  }

  lemma {:induction false} TargetsWritesSafe(c: Codec, r: Root, order: seq<string>)
    requires r.hasConfig && r.hasRootMeta
    ensures AllOk(c, r, TargetsWrites(c, r, order))
    ensures ApplyAll(r, TargetsWrites(c, r, order)) == r.(targets := RefreshedTargets(c, r, order))
  {
    hide TargetsOk, TargetsFor;
    if order != [] {
      var front, ns := order[..|order| - 1], order[|order| - 1];
      TargetsWritesSafe(c, r, front);
      var s := r.(targets := RefreshedTargets(c, r, front));
      var last := PutTargets(ns, TargetsFor(c, r, ns));
      assert TargetsWrites(c, r, order) == TargetsWrites(c, r, front) + [last];
      TargetsForOk(c, r, ns);
      SameIndexTargetsOk(c, r, s, ns, TargetsFor(c, r, ns));
      assert [last][1..] == [];
      assert AllOk(c, Apply(s, last), []);
      AllOkAppend(c, r, TargetsWrites(c, r, front), [last]);
      ApplyAllAppend(r, TargetsWrites(c, r, front), [last]);
    }
  }

  lemma InvCheckpoint(c: Codec, r: Root)
    requires Inv(c, r)
    ensures r.checkpoint.Some? ==> CheckpointOk(c, r.leaves, r.checkpoint.value)
    ensures !r.hasConfig ==> r.checkpoint.None?
  {
  }

  lemma InvReadable(c: Codec, r: Root)
    requires Inv(c, r)
    ensures ReadableIndex(r)
  {
    forall p | p in r.index ensures ReadableFile(p, r.index[p]) {
      assert IndexFileOk(c, r, p);
      assert forall i :: 0 <= i < |r.index[p]| ==> RecordOk(c, r, p, r.index[p][i]);
    }
  }

  /** The state in which a completed refresh leaves the root. */
  ghost function Refreshed(c: Codec, r: Root, order: seq<string>): Root
    requires Contiguous(r.leaves)
  {
    r.(targets := RefreshedTargets(c, r, order),
       checkpoint := Some(NextCheckpoint(c, r)),
       snapshot := Some(NextSnapshot(c, r)),
       timestamp := Some(NextTimestamp(c, r)))
  }

  /** The next checkpoint covers all leaves, and so at least those of the current one. */
  lemma NextSupersedes(c: Codec, r: Root)
    requires Contiguous(r.leaves) && (r.checkpoint.Some? ==> CheckpointOk(c, r.leaves, r.checkpoint.value))
    ensures Supersedes(NextCheckpoint(c, r), r.checkpoint)
  {
    if r.checkpoint.Some? {
      var n := r.checkpoint.value.treeSize;
      if n > 0 { assert n in r.leaves; }
    }
  }

  lemma NextCheckpointOk(c: Codec, r: Root)
    requires Contiguous(r.leaves)
    ensures CheckpointOk(c, r.leaves, NextCheckpoint(c, r))
  {
    ContiguousNumbers(r.leaves);
    assert forall n :: 1 <= n <= |r.leaves| ==> n in r.leaves;
    var k := NextCheckpoint(c, r);
    assert k.treeSize == |r.leaves|;
    assert forall n :: 1 <= n <= k.treeSize ==> n in r.leaves;
    assert LeafHashes(c, r.leaves, k.treeSize) == LeafHashes(c, r.leaves, |r.leaves|);
    assert k.rootHash == ChainHash(c, LeafHashes(c, r.leaves, k.treeSize));
  }

  lemma RefreshPlanSafe(c: Codec, r: Root, order: seq<string>)
    requires Inv(c, r) && r.hasConfig && r.hasRootMeta
    ensures Contiguous(r.leaves) && RefreshPlan(c, r, order).error.None?
    ensures AllOk(c, r, RefreshPlan(c, r, order).writes)
    ensures ApplyAll(r, RefreshPlan(c, r, order).writes) == Refreshed(c, r, order)
  {
    hide Inv, ReadableIndex, CheckpointOk, RefreshedTargets, NextCheckpoint, NextSnapshot, NextTimestamp, Supersedes;
    InvLeaves(c, r);
    InvCheckpoint(c, r);
    InvReadable(c, r);
    NextSupersedes(c, r);
    TargetsWritesSafe(c, r, order);
    NextCheckpointOk(c, r);
    var s := r.(targets := RefreshedTargets(c, r, order));
    var tail := [PutCheckpoint(NextCheckpoint(c, r)), PutSnapshot(NextSnapshot(c, r)), PutTimestamp(NextTimestamp(c, r))];
    ThreeWrites(c, s, tail[0], tail[1], tail[2]);
    AllOkAppend(c, r, TargetsWrites(c, r, order), tail);
    ApplyAllAppend(r, TargetsWrites(c, r, order), tail);
  }

  lemma ThreeWrites(c: Codec, s: Root, a: Write, b: Write, d: Write)
    requires WriteOk(c, s, a) && WriteOk(c, Apply(s, a), b) && WriteOk(c, Apply(Apply(s, a), b), d)
    ensures AllOk(c, s, [a, b, d]) && ApplyAll(s, [a, b, d]) == Apply(Apply(Apply(s, a), b), d)
  {
    hide WriteOk, Apply;
    var s3 := Apply(Apply(Apply(s, a), b), d);
    assert [a, b, d][1..] == [b, d] && [b, d][1..] == [d] && [d][1..] == [];
    assert AllOk(c, s3, []) && ApplyAll(s3, []) == s3;
    assert AllOk(c, Apply(Apply(s, a), b), [d]) && ApplyAll(Apply(Apply(s, a), b), [d]) == s3;
    assert AllOk(c, Apply(s, a), [b, d]) && ApplyAll(Apply(s, a), [b, d]) == s3;
  }

  // One publish.

  /** The root when the release has been appended and only the refresh is to come. */
  ghost function AfterRelease(c: Codec, r: Root, q: Request): Root
  {
    var r1 := ApplyAll(r, InitPlan(c, r).writes);
    ApplyAll(r1, ReleasePlan(c, r1, q).writes)
  }

  /** Every write of a publish is safe where it happens, and only these errors can occur. */
  lemma PublishPlanSafe(c: Codec, r: Root, q: Request, order: seq<string>)
    requires Inv(c, r)
    ensures AllOk(c, r, PublishPlan(c, r, q, order).writes)
    ensures PublishPlan(c, r, q, order).error ==
              if r.hasConfig != r.hasRootMeta then Some(PartiallyInitialized)
              else if !ValidPackageName(q.package) then Some(InvalidName)
              else if HasVersion(RecordsOf(r, q.package), q.version) then Some(AlreadyPublished)
              else None
    ensures PublishPlan(c, r, q, order).error.None? ==>
              && Contiguous(AfterRelease(c, r, q).leaves)
              && ApplyAll(r, PublishPlan(c, r, q, order).writes) == Refreshed(c, AfterRelease(c, r, q), order)
  {
    hide Inv, ReleasePlan, RefreshPlan, Refreshed, ValidPackageName, HasVersion, Contiguous;
    var init := InitPlan(c, r);
    InitPlanSafe(c, r);
    InitKeepsIndex(c, r);
    if init.error.None? {
      var r1 := ApplyAll(r, init.writes);
      SafeKeepsInv(c, r, init.writes);
      var release := ReleasePlan(c, r1, q);
      ReleasePlanSafe(c, r1, q);
      AllOkAppend(c, r, init.writes, release.writes);
      ApplyAllAppend(r, init.writes, release.writes);
      if release.error.None? {
        var r2 := ApplyAll(r1, release.writes);
        SafeKeepsInv(c, r1, release.writes);
        RefreshPlanSafe(c, r2, order);
        AllOkAppend(c, r, init.writes + release.writes, RefreshPlan(c, r2, order).writes);
        ApplyAllAppend(r, init.writes + release.writes, RefreshPlan(c, r2, order).writes);
      }
    }
  }

  lemma SafeKeepsInv(c: Codec, r: Root, ws: seq<Write>)
    requires Inv(c, r) && AllOk(c, r, ws)
    ensures Inv(c, ApplyAll(r, ws)) && Extends(r, ApplyAll(r, ws))
    ensures r.hasConfig && r.hasRootMeta ==> ApplyAll(r, ws).hasConfig && ApplyAll(r, ws).hasRootMeta
  {
    hide Inv, AllOk;
    PrefixSafe(c, r, ws, |ws|);
    assert ws[..|ws|] == ws;
  }

  lemma InitKeepsIndex(c: Codec, r: Root)
    requires Inv(c, r)
    ensures ApplyAll(r, InitPlan(c, r).writes).index == r.index
    ensures ApplyAll(r, InitPlan(c, r).writes).leaves == r.leaves
    ensures ApplyAll(r, InitPlan(c, r).writes).artifacts == r.artifacts
    ensures ApplyAll(r, InitPlan(c, r).writes).targets == r.targets
  {
    hide Inv, FirstSnapshot, CheckpointOk;
    InvCheckpoint(c, r);
    if r.hasConfig == r.hasRootMeta && !r.hasConfig {
      var ws := InitPlan(c, r).writes;
      EmptyCheckpoint(c, r.leaves);
      FiveWrites(c, r, ws[0], ws[1], ws[2], ws[3], ws[4]);
      assert ws == [ws[0], ws[1], ws[2], ws[3], ws[4]];
    }
  }
}
