/** When the verifier accepts the root that a history of interrupted publishes leaves behind. */
module RegistryAcceptance {
  import opened Wrappers
  import opened PackageNames
  import opened RegistryModel
  import opened RegistrySafety
  import opened RegistryPublish
  import opened RegistryHistory
  import opened RegistryLog
  import opened RegistryClient

  ghost predicate Accepted(c: Codec, r: Root)
  {
    r.hasConfig && r.hasRootMeta && MetadataAccepted(c, r)
  }

  // Where the digests in snapshot and timestamp come from: from files that were written, perhaps replaced since.

  ghost predicate CheckpointOrigin(c: Codec, r: Root, ws: seq<Write>)
  {
    r.snapshot.Some? ==>
      r.checkpoint.Some? && exists k :: PutCheckpoint(k) in ws && k.version <= r.checkpoint.value.version
                                        && r.snapshot.value.checkpointMeta == c.hash(c.checkpointBytes(k))
  }

  ghost predicate TargetsOrigin(c: Codec, r: Root, ws: seq<Write>)
  {
    r.snapshot.Some? ==>
      forall ns :: ns in r.snapshot.value.targetsMeta ==> ns in r.targets && TargetsFrom(c, r, ws, ns, r.snapshot.value.targetsMeta[ns])
  }

  ghost predicate TargetsFrom(c: Codec, r: Root, ws: seq<Write>, ns: string, d: Digest)
    requires ns in r.targets
  {
    exists t :: PutTargets(ns, t) in ws && t.version <= r.targets[ns].version && d == c.hash(c.targetsBytes(t))
  }

  ghost predicate IndexOrigin(c: Codec, r: Root)
  {
    r.snapshot.Some? ==>
      forall p :: p in r.snapshot.value.indexMeta ==> p in r.index && IndexFrom(c, r.index[p], r.snapshot.value.indexMeta[p])
  }

  ghost predicate IndexFrom(c: Codec, records: seq<Record>, d: Digest)
  {
    exists n :: 0 <= n <= |records| && IndexDigest(c, records, n) == d
  }

  /** The digest of an index file when it had `n` lines. */
  function IndexDigest(c: Codec, records: seq<Record>, n: nat): Digest
    requires n <= |records|
  {
    c.hash(c.indexBytes(records[..n]))
  }

  ghost predicate SnapshotOrigin(c: Codec, r: Root, ws: seq<Write>)
  {
    r.timestamp.Some? ==>
      r.snapshot.Some? && exists s :: PutSnapshot(s) in ws && s.version <= r.snapshot.value.version
                                      && r.timestamp.value.snapshotMeta == c.hash(c.snapshotBytes(s))
  }

  /** What is in force was written. */
  ghost predicate Written(r: Root, ws: seq<Write>)
  {
    && (r.checkpoint.Some? ==> PutCheckpoint(r.checkpoint.value) in ws)
    && (r.snapshot.Some? ==> PutSnapshot(r.snapshot.value) in ws)
    && (forall ns :: ns in r.targets ==> PutTargets(ns, r.targets[ns]) in ws)
  }

  ghost predicate Origins(c: Codec, r: Root, ws: seq<Write>)
  {
    && CheckpointOrigin(c, r, ws) && TargetsOrigin(c, r, ws) && IndexOrigin(c, r) && SnapshotOrigin(c, r, ws)
    && Written(r, ws)
  }

  /** A metadata file has a higher version than the one it replaces, and the digests of what is in force. */
  ghost predicate WriteDescribes(c: Codec, r: Root, w: Write)
  {
    match w
    case PutCheckpoint(k) => r.checkpoint.Some? ==> k.version > r.checkpoint.value.version
    case PutTargets(ns, t) => ns in r.targets ==> t.version > r.targets[ns].version
    case PutSnapshot(s) =>
      && (r.snapshot.Some? ==> s.version > r.snapshot.value.version)
      && r.checkpoint.Some? && s.checkpointMeta == c.hash(c.checkpointBytes(r.checkpoint.value))
      && (forall p :: p in s.indexMeta ==> p in r.index && s.indexMeta[p] == c.hash(c.indexBytes(r.index[p])))
      && (forall ns :: ns in s.targetsMeta ==> ns in r.targets && s.targetsMeta[ns] == c.hash(c.targetsBytes(r.targets[ns])))
    case PutTimestamp(t) => r.snapshot.Some? && t.snapshotMeta == c.hash(c.snapshotBytes(r.snapshot.value))
    case _ => true
  }

  lemma KeepsCheckpointOrigin(c: Codec, r: Root, ws: seq<Write>, w: Write)
    requires CheckpointOrigin(c, r, ws) && WriteDescribes(c, r, w) && Written(r, ws)
    ensures CheckpointOrigin(c, Apply(r, w), ws + [w])
  {
    var s := Apply(r, w);
    if w.PutSnapshot? {
      assert PutCheckpoint(s.checkpoint.value) in ws + [w];
    } else if s.snapshot.Some? {
      var k :| PutCheckpoint(k) in ws && k.version <= r.checkpoint.value.version
               && r.snapshot.value.checkpointMeta == c.hash(c.checkpointBytes(k));
      assert PutCheckpoint(k) in ws + [w];
    }
  }

  lemma KeepsTargetsOrigin(c: Codec, r: Root, ws: seq<Write>, w: Write)
    requires TargetsOrigin(c, r, ws) && WriteDescribes(c, r, w) && Written(r, ws)
    ensures TargetsOrigin(c, Apply(r, w), ws + [w])
  {
    var s := Apply(r, w);
    if s.snapshot.Some? {
      forall ns | ns in s.snapshot.value.targetsMeta
        ensures ns in s.targets && TargetsFrom(c, s, ws + [w], ns, s.snapshot.value.targetsMeta[ns])
      {
        if w.PutSnapshot? {
          assert PutTargets(ns, s.targets[ns]) in ws + [w];
        } else {
          var t :| PutTargets(ns, t) in ws && t.version <= r.targets[ns].version
                   && r.snapshot.value.targetsMeta[ns] == c.hash(c.targetsBytes(t));
          assert PutTargets(ns, t) in ws + [w];
        }
      }
    }
  }

  lemma KeepsIndexOrigin(c: Codec, r: Root, w: Write)
    requires IndexOrigin(c, r) && WriteDescribes(c, r, w)
    ensures IndexOrigin(c, Apply(r, w))
  {
    var s := Apply(r, w);
    if s.snapshot.Some? {
      forall p | p in s.snapshot.value.indexMeta ensures p in s.index && IndexFrom(c, s.index[p], s.snapshot.value.indexMeta[p]) {
        if w.PutSnapshot? {
          assert s.index[p][..|s.index[p]|] == s.index[p];
          assert IndexDigest(c, s.index[p], |s.index[p]|) == s.snapshot.value.indexMeta[p];
        } else {
          var n :| 0 <= n <= |r.index[p]| && IndexDigest(c, r.index[p], n) == r.snapshot.value.indexMeta[p];
          assert s.index[p][..n] == r.index[p][..n];
          assert IndexDigest(c, s.index[p], n) == s.snapshot.value.indexMeta[p];
        }
      }
    }
  }

  lemma KeepsSnapshotOrigin(c: Codec, r: Root, ws: seq<Write>, w: Write)
    requires SnapshotOrigin(c, r, ws) && WriteDescribes(c, r, w) && Written(r, ws)
    ensures SnapshotOrigin(c, Apply(r, w), ws + [w])
  {
    var s := Apply(r, w);
    if w.PutTimestamp? {
      assert PutSnapshot(s.snapshot.value) in ws + [w];
    } else if s.timestamp.Some? {
      var x :| PutSnapshot(x) in ws && x.version <= r.snapshot.value.version
               && r.timestamp.value.snapshotMeta == c.hash(c.snapshotBytes(x));
      assert PutSnapshot(x) in ws + [w];
    }
  }

  lemma KeepsOrigins(c: Codec, r: Root, ws: seq<Write>, w: Write)
    requires Origins(c, r, ws) && WriteDescribes(c, r, w)
    ensures Origins(c, Apply(r, w), ws + [w])
  {
    hide CheckpointOrigin, TargetsOrigin, IndexOrigin, SnapshotOrigin, WriteDescribes;
    KeepsCheckpointOrigin(c, r, ws, w);
    KeepsTargetsOrigin(c, r, ws, w);
    KeepsIndexOrigin(c, r, w);
    KeepsSnapshotOrigin(c, r, ws, w);
  }

  ghost predicate AllDescribe(c: Codec, r: Root, ws: seq<Write>)
    decreases |ws|
  {
    ws == [] || (WriteDescribes(c, r, ws[0]) && AllDescribe(c, Apply(r, ws[0]), ws[1..]))
  }

  lemma {:induction false} RunKeepsOrigins(c: Codec, r: Root, ws: seq<Write>, vs: seq<Write>)
    requires Origins(c, r, ws) && AllDescribe(c, r, vs)
    ensures Origins(c, ApplyAll(r, vs), ws + vs)
    decreases |vs|
  {
    hide Origins, WriteDescribes, Apply;
    if vs == [] {
      assert ws + vs == ws;
    } else {
      KeepsOrigins(c, r, ws, vs[0]);
      RunKeepsOrigins(c, Apply(r, vs[0]), ws + [vs[0]], vs[1..]);
      assert ws + [vs[0]] + vs[1..] == ws + vs;
    }
  }

  lemma {:induction false} AllDescribeAppend(c: Codec, r: Root, ws: seq<Write>, vs: seq<Write>)
    ensures AllDescribe(c, r, ws + vs) <==> AllDescribe(c, r, ws) && AllDescribe(c, ApplyAll(r, ws), vs)
    decreases |ws|
  {
    hide WriteDescribes, Apply;
    if ws == [] {
      assert ws + vs == vs;
    } else {
      assert (ws + vs)[1..] == ws[1..] + vs;
      AllDescribeAppend(c, Apply(r, ws[0]), ws[1..], vs);
    }
  }

  lemma DescribePrefix(c: Codec, r: Root, ws: seq<Write>, k: nat)
    requires AllDescribe(c, r, ws) && k <= |ws|
    ensures AllDescribe(c, r, ws[..k])
  {
    hide AllDescribe;
    assert ws == ws[..k] + ws[k..];
    AllDescribeAppend(c, r, ws[..k], ws[k..]);
  }

  // Every write of a publish describes what is in force.

  lemma UntouchedHasNothing(c: Codec, r: Root, ws: seq<Write>)
    requires Inv(c, r) && Origins(c, r, ws) && !r.hasConfig
    ensures r.checkpoint.None? && r.snapshot.None? && r.timestamp.None?
  {
  }

  lemma FiveDescribe(c: Codec, r: Root, a: Write, b: Write, d: Write, e: Write, f: Write)
    requires WriteDescribes(c, r, a) && WriteDescribes(c, Apply(r, a), b) && WriteDescribes(c, Apply(Apply(r, a), b), d)
    requires WriteDescribes(c, Apply(Apply(Apply(r, a), b), d), e)
    requires WriteDescribes(c, Apply(Apply(Apply(Apply(r, a), b), d), e), f)
    ensures AllDescribe(c, r, [a, b, d, e, f])
  {
    hide WriteDescribes, Apply;
    assert [f][1..] == [] && [e, f][1..] == [f] && [d, e, f][1..] == [e, f] && [b, d, e, f][1..] == [d, e, f];
    assert [a, b, d, e, f][1..] == [b, d, e, f];
    var r4 := Apply(Apply(Apply(Apply(r, a), b), d), e);
    assert AllDescribe(c, Apply(r4, f), []) && AllDescribe(c, r4, [f]);
    assert AllDescribe(c, Apply(Apply(Apply(r, a), b), d), [e, f]);
    assert AllDescribe(c, Apply(Apply(r, a), b), [d, e, f]);
    assert AllDescribe(c, Apply(r, a), [b, d, e, f]);
  }

  lemma InitDescribes(c: Codec, r: Root, ws: seq<Write>)
    requires Inv(c, r) && Origins(c, r, ws)
    ensures AllDescribe(c, r, InitPlan(c, r).writes)
  {
    hide Inv, Origins, AllDescribe;
    NothingDescribes(c, r);
    if !r.hasConfig && !r.hasRootMeta {
      UntouchedHasNothing(c, r, ws);
      var vs := InitPlan(c, r).writes;
      FiveDescribe(c, r, vs[0], vs[1], vs[2], vs[3], vs[4]);
      assert vs == [vs[0], vs[1], vs[2], vs[3], vs[4]];
    }
  }

  lemma NothingDescribes(c: Codec, r: Root)
    ensures AllDescribe(c, r, [])
  {
  }

  lemma {:induction false} PlainDescribes(c: Codec, r: Root, ws: seq<Write>)
    requires forall i :: 0 <= i < |ws| ==> ws[i].PutArtifact? || ws[i].AppendIndex? || ws[i].PutLeaf?
    ensures AllDescribe(c, r, ws)
    decreases |ws|
  {
    hide Apply;
    if ws != [] {
      PlainDescribes(c, Apply(r, ws[0]), ws[1..]);
    }
  }

  lemma ReleaseIsPlain(c: Codec, r: Root, q: Request)
    ensures
      var ws := ReleasePlan(c, r, q).writes;
      forall i :: 0 <= i < |ws| ==> ws[i].PutArtifact? || ws[i].AppendIndex? || ws[i].PutLeaf?
  {
    hide ValidPackageName, HasVersion, Contiguous, LeafFor;
  }

  lemma {:induction false} OtherTargetsStay(c: Codec, r: Root, order: seq<string>, ns: string)
    requires ns !in order
    ensures ns in RefreshedTargets(c, r, order) <==> ns in r.targets
    ensures ns in r.targets ==> RefreshedTargets(c, r, order)[ns] == r.targets[ns]
  {
    hide TargetsFor;
    if order != [] {
      var front := order[..|order| - 1];
      OtherTargetsStay(c, r, front, ns);
    }
  }

  lemma {:induction false} TargetsRewritten(c: Codec, r: Root, order: seq<string>, ns: string)
    requires ns in order
    ensures ns in RefreshedTargets(c, r, order) && RefreshedTargets(c, r, order)[ns] == TargetsFor(c, r, ns)
  {
    hide TargetsFor;
    var front := order[..|order| - 1];
    if ns != order[|order| - 1] {
      TargetsRewritten(c, r, front, ns);
    }
  }

  lemma NextTargetsDescribe(c: Codec, r: Root, s: Root, ns: string)
    requires ns in s.targets ==> ns in r.targets && s.targets[ns] == r.targets[ns]
    ensures WriteDescribes(c, s, PutTargets(ns, TargetsFor(c, r, ns)))
  {
    hide PackagesOf;
  }

  lemma {:induction false} TargetsDescribe(c: Codec, r: Root, order: seq<string>)
    requires r.hasConfig && r.hasRootMeta && forall i, j :: 0 <= i < j < |order| ==> order[i] != order[j]
    ensures AllDescribe(c, r, TargetsWrites(c, r, order))
  {
    hide RefreshedTargets, TargetsFor, WriteDescribes, Apply;
    NothingDescribes(c, r);
    if order != [] {
      var front, ns := order[..|order| - 1], order[|order| - 1];
      TargetsDescribe(c, r, front);
      TargetsWritesSafe(c, r, front);
      OtherTargetsStay(c, r, front, ns);
      var last := PutTargets(ns, TargetsFor(c, r, ns));
      var s := r.(targets := RefreshedTargets(c, r, front));
      NextTargetsDescribe(c, r, s, ns);
      assert TargetsWrites(c, r, order) == TargetsWrites(c, r, front) + [last];
      OneDescribes(c, s, last);
      AllDescribeAppend(c, r, TargetsWrites(c, r, front), [last]);
    }
  }

  lemma OneDescribes(c: Codec, r: Root, w: Write)
    requires WriteDescribes(c, r, w)
    ensures AllDescribe(c, r, [w])
  {
    hide WriteDescribes, Apply;
    assert [w][1..] == [];
  }

  /** The three head writes on the root `s` with the targets refreshed. */
  lemma HeadDescribes(c: Codec, r: Root, order: seq<string>)
    requires Contiguous(r.leaves) && NamespaceOrder(r, order)
    ensures AllDescribe(c, r.(targets := RefreshedTargets(c, r, order)), HeadWrites(c, r))
  {
    hide Contiguous, NamespaceOrder, RefreshedTargets, NextCheckpoint, CheckpointOk;
    RefreshedVerifies(c, r, order);
    var s := r.(targets := RefreshedTargets(c, r, order));
    var a, b, d := PutCheckpoint(NextCheckpoint(c, r)), PutSnapshot(NextSnapshot(c, r)), PutTimestamp(NextTimestamp(c, r));
    NextVersion(c, r);
    assert [a, b, d][1..] == [b, d] && [b, d][1..] == [d] && [d][1..] == [];
    var s3 := Apply(Apply(Apply(s, a), b), d);
    assert s3 == Refreshed(c, r, order);
    assert AllDescribe(c, s3, []) && AllDescribe(c, Apply(Apply(s, a), b), [d]);
    assert WriteDescribes(c, Apply(s, a), b);
    assert AllDescribe(c, Apply(s, a), [b, d]);
  }

  lemma NextVersion(c: Codec, r: Root)
    requires Contiguous(r.leaves)
    ensures r.checkpoint.Some? ==> NextCheckpoint(c, r).version == r.checkpoint.value.version + 1
    ensures r.snapshot.Some? ==> NextSnapshot(c, r).version == r.snapshot.value.version + 1
  {
    hide IndexDigests, NamespaceDigests, LeafHashes, ChainHash;
  }

  /** The refresh of an attempt that gets so far visits every namespace once. */
  ghost predicate Orderly(c: Codec, r: Root, a: Attempt)
  {
    Planned(c, r, a).error.None? ==> ValidAttempt(c, r, a)
  }

  lemma PlanDescribes(c: Codec, r: Root, a: Attempt, ws: seq<Write>)
    requires Inv(c, r) && Origins(c, r, ws) && Orderly(c, r, a)
    ensures AllDescribe(c, r, Planned(c, r, a).writes)
  {
    hide Inv, Origins, AllDescribe, ReleasePlan, RefreshPlan, Refreshed, NamespaceOrder, Contiguous, ApplyAll;
    NothingDescribes(c, r);
    var init := InitPlan(c, r);
    InitDescribes(c, r, ws);
    if init.error.None? {
      InitPlanSafe(c, r);
      SafeKeepsInv(c, r, init.writes);
      var b := ApplyAll(r, init.writes);
      var release := ReleasePlan(c, b, a.request);
      ReleaseIsPlain(c, b, a.request);
      PlainDescribes(c, b, release.writes);
      AllDescribeAppend(c, r, init.writes, release.writes);
      if release.error.None? {
        ReleasePlanSafe(c, b, a.request);
        SafeKeepsInv(c, b, release.writes);
        ApplyAllAppend(r, init.writes, release.writes);
        RefreshPlanSafe(c, ApplyAll(b, release.writes), a.order);
        RefreshDescribes(c, ApplyAll(b, release.writes), a.order);
        AllDescribeAppend(c, r, init.writes + release.writes, RefreshPlan(c, ApplyAll(b, release.writes), a.order).writes);
      }
    }
  }

  lemma RefreshDescribes(c: Codec, r: Root, order: seq<string>)
    requires Inv(c, r) && r.hasConfig && r.hasRootMeta && NamespaceOrder(r, order)
    ensures AllDescribe(c, r, RefreshPlan(c, r, order).writes)
  {
    hide Inv, AllDescribe, ReadableIndex, HeadWrites, RefreshedTargets;
    InvReadable(c, r);
    InvLeaves(c, r);
    TargetsDescribe(c, r, order);
    TargetsWritesSafe(c, r, order);
    HeadDescribes(c, r, order);
    AllDescribeAppend(c, r, TargetsWrites(c, r, order), HeadWrites(c, r));
  }

  ghost predicate AllOrderly(c: Codec, attempts: seq<Attempt>)
  {
    attempts == [] ||
    (&& AllOrderly(c, attempts[..|attempts| - 1])
     && Orderly(c, History(c, attempts[..|attempts| - 1]), attempts[|attempts| - 1]))
  }

  lemma NothingOriginates(c: Codec)
    ensures Origins(c, EMPTY_ROOT, [])
  {
  }

  lemma {:induction false} HistoryOrigins(c: Codec, attempts: seq<Attempt>)
    requires AllOrderly(c, attempts)
    ensures Origins(c, History(c, attempts), Journal(c, attempts))
  {
    hide Inv, Origins, Orderly, AllDescribe, Planned, ApplyAll;
    NothingOriginates(c);
    if attempts != [] {
      var front, a := attempts[..|attempts| - 1], attempts[|attempts| - 1];
      var r := History(c, front);
      HistoryOrigins(c, front);
      CrashSafe(c, front);
      PlanDescribes(c, r, a, Journal(c, front));
      DescribePrefix(c, r, Planned(c, r, a).writes, |Executed(c, r, a)|);
      RunKeepsOrigins(c, r, Journal(c, front), Executed(c, r, a));
    }
  }

  // Collisions: two versions of one kind of file, or of one index file, with one digest.

  ghost predicate TwoFiles(c: Codec, w: Write, x: Write)
  {
    match (w, x)
    case (PutTargets(_, t), PutTargets(_, u)) => t != u && c.hash(c.targetsBytes(t)) == c.hash(c.targetsBytes(u))
    case (PutCheckpoint(k), PutCheckpoint(l)) => k != l && c.hash(c.checkpointBytes(k)) == c.hash(c.checkpointBytes(l))
    case (PutSnapshot(s), PutSnapshot(t)) => s != t && c.hash(c.snapshotBytes(s)) == c.hash(c.snapshotBytes(t))
    case _ => false
  }

  ghost predicate FilesCollide(c: Codec, ws: seq<Write>)
  {
    exists w, x :: w in ws && x in ws && TwoFiles(c, w, x)
  }

  ghost predicate IndexCollides(c: Codec, r: Root)
  {
    exists p :: p in r.index && LinesCollide(c, r.index[p])
  }

  ghost predicate LinesCollide(c: Codec, records: seq<Record>)
  {
    exists m, n :: 0 <= m < n <= |records| && IndexDigest(c, records, m) == IndexDigest(c, records, n)
  }

  ghost predicate Collided(c: Codec, r: Root, ws: seq<Write>)
  {
    FilesCollide(c, ws) || IndexCollides(c, r)
  }

  // What the snapshot in force lists.

  function ListedPackages(r: Root): set<string>
  {
    if r.snapshot.Some? then r.snapshot.value.indexMeta.Keys else {}
  }

  function ListedNamespaces(r: Root): set<string>
  {
    if r.snapshot.Some? then r.snapshot.value.targetsMeta.Keys else {}
  }

  /** A longer index file has its listed digest by a collision only. */
  lemma LongerIndexRefused(c: Codec, b: Root, f: Root, p: string)
    requires IndexOrigin(c, b) && b.snapshot.Some? && f.snapshot == b.snapshot && p in b.snapshot.value.indexMeta
    requires p in b.index && p in f.index && b.index[p] <= f.index[p] && |b.index[p]| < |f.index[p]|
    requires b.snapshot.value.indexMeta[p] == c.hash(c.indexBytes(f.index[p]))
    ensures IndexCollides(c, f)
  {
    var n :| 0 <= n <= |b.index[p]| && IndexDigest(c, b.index[p], n) == b.snapshot.value.indexMeta[p];
    assert f.index[p][..n] == b.index[p][..n] && f.index[p][..|f.index[p]|] == f.index[p];
    assert IndexDigest(c, f.index[p], n) == IndexDigest(c, f.index[p], |f.index[p]|);
    assert LinesCollide(c, f.index[p]);
  }

  /** So have rewritten targets. */
  lemma NewerTargetsRefused(c: Codec, b: Root, f: Root, wsb: seq<Write>, ws: seq<Write>, ns: string)
    requires TargetsOrigin(c, b, wsb) && Written(f, ws) && (forall w :: w in wsb ==> w in ws)
    requires b.snapshot.Some? && ns in b.snapshot.value.targetsMeta && ns in b.targets && ns in f.targets
    requires f.targets[ns].version > b.targets[ns].version
    requires b.snapshot.value.targetsMeta[ns] == c.hash(c.targetsBytes(f.targets[ns]))
    ensures FilesCollide(c, ws)
  {
    var t :| PutTargets(ns, t) in wsb && t.version <= b.targets[ns].version
             && b.snapshot.value.targetsMeta[ns] == c.hash(c.targetsBytes(t));
    assert PutTargets(ns, t) in ws && PutTargets(ns, f.targets[ns]) in ws;
    assert TwoFiles(c, PutTargets(ns, t), PutTargets(ns, f.targets[ns]));
  }

  /** And a newer checkpoint. */
  lemma NewerCheckpointRefused(c: Codec, b: Root, f: Root, wsb: seq<Write>, ws: seq<Write>)
    requires CheckpointOrigin(c, b, wsb) && Written(f, ws) && (forall w :: w in wsb ==> w in ws)
    requires b.snapshot.Some? && f.snapshot == b.snapshot && b.checkpoint.Some? && f.checkpoint.Some?
    requires f.checkpoint.value.version > b.checkpoint.value.version
    requires Accepted(c, f)
    ensures FilesCollide(c, ws)
  {
    var k :| PutCheckpoint(k) in wsb && k.version <= b.checkpoint.value.version
             && b.snapshot.value.checkpointMeta == c.hash(c.checkpointBytes(k));
    assert PutCheckpoint(k) in ws && PutCheckpoint(f.checkpoint.value) in ws;
    assert TwoFiles(c, PutCheckpoint(k), PutCheckpoint(f.checkpoint.value));
  }

  /** And a newer snapshot. */
  lemma NewerSnapshotRefused(c: Codec, b: Root, f: Root, wsb: seq<Write>, ws: seq<Write>)
    requires SnapshotOrigin(c, b, wsb) && Written(f, ws) && (forall w :: w in wsb ==> w in ws)
    requires b.timestamp.Some? && f.timestamp == b.timestamp && b.snapshot.Some? && f.snapshot.Some?
    requires f.snapshot.value.version > b.snapshot.value.version
    requires Accepted(c, f)
    ensures FilesCollide(c, ws)
  {
    var s :| PutSnapshot(s) in wsb && s.version <= b.snapshot.value.version
             && b.timestamp.value.snapshotMeta == c.hash(c.snapshotBytes(s));
    assert PutSnapshot(s) in ws && PutSnapshot(f.snapshot.value) in ws;
    assert TwoFiles(c, PutSnapshot(s), PutSnapshot(f.snapshot.value));
  }

  /** From `b` to `f` one index file has grown and some targets were rewritten; snapshot, timestamp and checkpoint are the same. */
  ghost predicate Halfway(b: Root, f: Root, p: string, rewritten: seq<string>)
  {
    && b.hasConfig && b.hasRootMeta && f.hasConfig && f.hasRootMeta
    && f.snapshot == b.snapshot && f.timestamp == b.timestamp && f.checkpoint == b.checkpoint
    && IndexGrown(b, f, p) && TargetsRenewed(b, f, rewritten)
  }

  predicate IndexGrown(b: Root, f: Root, p: string)
  {
    && p in f.index && f.index == b.index[p := f.index[p]]
    && RecordsOf(b, p) <= f.index[p] && |RecordsOf(b, p)| < |f.index[p]|
  }

  ghost predicate TargetsRenewed(b: Root, f: Root, rewritten: seq<string>)
  {
    && (forall ns :: ns in rewritten ==>
          ns in f.targets && (ns in b.targets ==> f.targets[ns].version > b.targets[ns].version))
    && (forall ns :: ns !in rewritten ==>
          (ns in f.targets <==> ns in b.targets) && (ns in b.targets ==> f.targets[ns] == b.targets[ns]))
  }

  predicate Unlisted(b: Root, p: string, rewritten: seq<string>)
  {
    p !in ListedPackages(b) && forall ns :: ns in rewritten ==> ns !in ListedNamespaces(b)
  }

  lemma UnlistedHalfway(c: Codec, b: Root, f: Root, p: string, rewritten: seq<string>)
    requires Inv(c, b) && Inv(c, f) && Halfway(b, f, p, rewritten) && Unlisted(b, p, rewritten)
    ensures Accepted(c, f) <==> Accepted(c, b)
  {
    hide Inv, CheckpointOk;
    assert forall n :: n != p ==> (n in f.index <==> n in b.index);
    InvCheckpoint(c, b);
    InvCheckpoint(c, f);
  }

  lemma ListedHalfway(c: Codec, b: Root, f: Root, wsb: seq<Write>, ws: seq<Write>, p: string, rewritten: seq<string>)
    requires Origins(c, b, wsb) && Written(f, ws) && (forall w :: w in wsb ==> w in ws)
    requires Halfway(b, f, p, rewritten) && !Unlisted(b, p, rewritten) && Accepted(c, f)
    ensures Collided(c, f, ws)
  {
    hide CheckpointOk, CheckpointOrigin, SnapshotOrigin, FilesCollide, IndexCollides;
    if p in ListedPackages(b) {
      LongerIndexRefused(c, b, f, p);
    } else {
      var ns :| ns in rewritten && ns in ListedNamespaces(b);
      NewerTargetsRefused(c, b, f, wsb, ws, ns);
    }
  }

  // The root after an attempt, by the place of its cut.

  ghost function Base(c: Codec, r: Root): Root
  {
    ApplyAll(r, InitPlan(c, r).writes)
  }

  lemma {:induction false} PlainKeepsMeta(r: Root, ws: seq<Write>)
    requires forall i :: 0 <= i < |ws| ==> ws[i].PutArtifact? || ws[i].AppendIndex? || ws[i].PutLeaf?
    ensures SameMeta(r, ApplyAll(r, ws))
    decreases |ws|
  {
    if ws != [] {
      PlainKeepsMeta(Apply(r, ws[0]), ws[1..]);
    }
  }

  predicate SameMeta(r: Root, s: Root)
  {
    && s.hasConfig == r.hasConfig && s.hasRootMeta == r.hasRootMeta
    && s.targets == r.targets && s.checkpoint == r.checkpoint && s.snapshot == r.snapshot && s.timestamp == r.timestamp
  }

  lemma SplitRun(r: Root, ws: seq<Write>, n: nat)
    requires n <= |ws|
    ensures ApplyAll(r, ws) == ApplyAll(ApplyAll(r, ws[..n]), ws[n..])
  {
    assert ws == ws[..n] + ws[n..];
    ApplyAllAppend(r, ws[..n], ws[n..]);
  }

  /** Up to the index line, or when the plan fails, no more than an artifact is added to the initialized root. */
  lemma AfterEarly(c: Codec, r: Root, a: Attempt)
    requires Inv(c, r) && a.cut >= |InitPlan(c, r).writes|
    requires Planned(c, r, a).error.Some? || a.cut <= |Prelude(c, r, a.request)|
    ensures After(c, r, a) == Base(c, r).(artifacts := After(c, r, a).artifacts)
  {
    hide Inv, Planned, InitPlan, ApplyAll;
    var init, pre := InitPlan(c, r).writes, Prelude(c, r, a.request);
    var ws := Executed(c, r, a);
    if Planned(c, r, a).error.Some? {
      FailedPlanShape(c, r, a);
    } else {
      var tail := PlanShape(c, r, a);
    }
    assert ws == init || ws == pre;
    ApplyAllAppend(r, init, pre[|init|..]);
    ArtifactOnly(Base(c, r), pre[|init|..]);
    assert pre == init + pre[|init|..];
  }

  lemma ArtifactOnly(r: Root, ws: seq<Write>)
    requires ws == [] || (|ws| == 1 && ws[0].PutArtifact?)
    ensures ApplyAll(r, ws) == r.(artifacts := ApplyAll(r, ws).artifacts)
  {
    if ws != [] {
      assert ws[1..] == [];
    }
  }

  /** The writes of a publish without errors: initialization, release, targets, and the head. */
  lemma WholePlan(c: Codec, r: Root, a: Attempt)
    requires Inv(c, r) && Planned(c, r, a).error.None?
    ensures
      var init := InitPlan(c, r).writes;
      var release := ReleasePlan(c, Base(c, r), a.request).writes;
      var q := AfterRelease(c, r, a.request);
      && Contiguous(q.leaves) && Inv(c, q) && q.hasConfig && q.hasRootMeta
      && q == ApplyAll(Base(c, r), release) && q == ApplyAll(r, init + release)
      && |init + release| == |Prelude(c, r, a.request)| + 2
      && Planned(c, r, a).writes == (init + release) + (TargetsWrites(c, q, a.order) + HeadWrites(c, q))
      && Inv(c, Base(c, r)) && Base(c, r).hasConfig && Base(c, r).hasRootMeta
  {
    hide Inv, Planned, InitPlan, ReleasePlan, ApplyAll, HeadWrites, ReadableIndex, Contiguous;
    PlanParts(c, r, a);
    InitPlanSafe(c, r);
    var init := InitPlan(c, r).writes;
    SafeKeepsInv(c, r, init);
    var b := Base(c, r);
    ReleasePlanSafe(c, b, a.request);
    ReleaseShape(c, b, a.request);
    var release := ReleasePlan(c, b, a.request).writes;
    SafeKeepsInv(c, b, release);
    ApplyAllAppend(r, init, release);
    var q := ApplyAll(b, release);
    RefreshPlanSafe(c, q, a.order);
    InvReadable(c, q);
  }

  /** How many targets files a cut leaves rewritten. */
  ghost function Rewritten(c: Codec, r: Root, a: Attempt): (ns: seq<string>)
    requires a.cut <= |Prelude(c, r, a.request)| + 2 + |a.order|
  {
    a.order[..if a.cut <= |Prelude(c, r, a.request)| + 2 then 0 else a.cut - |Prelude(c, r, a.request)| - 2]
  }

  lemma AfterMiddle(c: Codec, r: Root, a: Attempt)
    requires Inv(c, r) && Planned(c, r, a).error.None?
    requires |Prelude(c, r, a.request)| < a.cut <= |Prelude(c, r, a.request)| + 2 + |a.order|
    ensures
      var q := AfterRelease(c, r, a.request);
      && SameMeta(Base(c, r), q)
      && SameMeta(q.(targets := RefreshedTargets(c, q, Rewritten(c, r, a))), After(c, r, a))
  {
    hide Inv, Planned, InitPlan, ReleasePlan, ApplyAll, HeadWrites, RefreshedTargets, Contiguous, Prelude, AfterRelease;
    WholePlan(c, r, a);
    var init, release := InitPlan(c, r).writes, ReleasePlan(c, Base(c, r), a.request).writes;
    var q, h := AfterRelease(c, r, a.request), |init + release|;
    ReleaseIsPlain(c, Base(c, r), a.request);
    PlainKeepsMeta(Base(c, r), release);
    NothingRefreshed(c, q);
    InitWithinPrelude(c, r, a.request);
    RunCut(c, Base(c, r), q, r, init, release, a.order, HeadWrites(c, q), Executed(c, r, a));
  }

  lemma RunCut(c: Codec, b: Root, q: Root, r: Root, init: seq<Write>, release: seq<Write>, order: seq<string>, head: seq<Write>,
               ws: seq<Write>)
    requires b == ApplyAll(r, init) && q == ApplyAll(r, init + release) && q.hasConfig && q.hasRootMeta
    requires forall i :: 0 <= i < |release| ==> release[i].PutArtifact? || release[i].AppendIndex? || release[i].PutLeaf?
    requires ws <= (init + release) + (TargetsWrites(c, q, order) + head)
    requires |init| <= |ws| <= |init + release| + |order|
    ensures
      var h := |init + release|;
      if |ws| <= h then SameMeta(b, ApplyAll(r, ws))
      else ApplyAll(r, ws) == q.(targets := RefreshedTargets(c, q, order[..|ws| - h]))
  {
    hide ApplyAll, RefreshedTargets, SameMeta;
    var h := |init + release|;
    if |ws| <= h {
      assert ws <= init + release;
      SplitRun(r, ws, |init|);
      assert ws[..|init|] == init && ws[|init|..] == release[..|ws| - |init|];
      PlainKeepsMeta(b, ws[|init|..]);
    } else {
      CutWithinTargets(init + release, TargetsWrites(c, q, order), head, ws);
      SplitRun(r, ws, h);
      assert TargetsWrites(c, q, order)[..|ws| - h] == TargetsWrites(c, q, order[..|ws| - h]);
      TargetsWritesSafe(c, q, order[..|ws| - h]);
    }
  }

  lemma CutWithinTargets(front: seq<Write>, ts: seq<Write>, head: seq<Write>, ws: seq<Write>)
    requires ws <= front + (ts + head) && |front| <= |ws| <= |front| + |ts|
    ensures ws[..|front|] == front && ws[|front|..] == ts[..|ws| - |front|]
  {
  }

  lemma NothingRefreshed(c: Codec, r: Root)
    ensures RefreshedTargets(c, r, []) == r.targets
  {
  }

  lemma InitWithinPrelude(c: Codec, r: Root, q: Request)
    ensures |InitPlan(c, r).writes| <= |Prelude(c, r, q)|
  {
    hide InitPlan;
  }

  lemma RefreshedRenews(c: Codec, q: Root, order: seq<string>, f: Root)
    requires f.targets == RefreshedTargets(c, q, order)
    ensures TargetsRenewed(q, f, order)
  {
    hide RefreshedTargets, PackagesOf;
    forall n | n in order ensures n in f.targets && (n in q.targets ==> f.targets[n].version > q.targets[n].version) {
      TargetsRewritten(c, q, order, n);
    }
    forall n | n !in order ensures (n in f.targets <==> n in q.targets) && (n in q.targets ==> f.targets[n] == q.targets[n]) {
      OtherTargetsStay(c, q, order, n);
    }
  }

  lemma MiddleIndex(c: Codec, r: Root, a: Attempt)
    requires Inv(c, r) && Planned(c, r, a).error.None? && a.cut > |Prelude(c, r, a.request)|
    ensures IndexGrown(Base(c, r), After(c, r, a), a.request.package)
  {
    hide Inv, Planned, InitPlan, Prelude, After, ApplyAll;
    AttemptEffect(c, r, a);
    InitKeepsIndex(c, r);
    var p, f := a.request.package, After(c, r, a);
    assert f.index[p] == RecordsOf(r, p) + [RecordFor(c, a.request)];
  }

  /** From the index line to the last targets file: snapshot, timestamp and checkpoint are still those before the publish. */
  lemma MiddleIsHalfway(c: Codec, r: Root, a: Attempt)
    requires Inv(c, r) && Planned(c, r, a).error.None?
    requires |Prelude(c, r, a.request)| < a.cut <= |Prelude(c, r, a.request)| + 2 + |a.order|
    ensures Halfway(Base(c, r), After(c, r, a), a.request.package, Rewritten(c, r, a))
  {
    hide Inv, Planned, InitPlan, Prelude, After, AfterRelease, RefreshedTargets, ApplyAll, Rewritten, IndexGrown;
    WholePlan(c, r, a);
    AfterMiddle(c, r, a);
    MiddleIndex(c, r, a);
    RefreshedRenews(c, AfterRelease(c, r, a.request), Rewritten(c, r, a), After(c, r, a));
  }

  /** With the new checkpoint but not the new snapshot, or with the new snapshot but not the new timestamp. */
  lemma AfterLate(c: Codec, r: Root, a: Attempt)
    requires Inv(c, r) && Planned(c, r, a).error.None?
    requires |Prelude(c, r, a.request)| + 2 + |a.order| < a.cut < |Prelude(c, r, a.request)| + 5 + |a.order|
    ensures
      var b, f, q := Base(c, r), After(c, r, a), AfterRelease(c, r, a.request);
      && Contiguous(q.leaves) && SameMeta(b, q)
      && f.timestamp == b.timestamp && f.checkpoint == Some(NextCheckpoint(c, q))
      && f.snapshot == if a.cut == |Prelude(c, r, a.request)| + 3 + |a.order| then b.snapshot else Some(NextSnapshot(c, q))
  {
    hide Inv, Planned, InitPlan, ReleasePlan, ApplyAll, RefreshedTargets, Contiguous, Prelude, AfterRelease, NextCheckpoint, NextSnapshot,
      NextTimestamp;
    WholePlan(c, r, a);
    var init, release := InitPlan(c, r).writes, ReleasePlan(c, Base(c, r), a.request).writes;
    var q, h := AfterRelease(c, r, a.request), |init + release|;
    ReleaseIsPlain(c, Base(c, r), a.request);
    PlainKeepsMeta(Base(c, r), release);
    var ws, ts := Executed(c, r, a), TargetsWrites(c, q, a.order);
    var s := q.(targets := RefreshedTargets(c, q, a.order));
    var head := HeadWrites(c, q)[..a.cut - h - |ts|];
    SplitRun(r, ws, h);
    assert ws[..h] == init + release && ws[h..] == ts + head;
    ApplyAllAppend(q, ts, head);
    TargetsWritesSafe(c, q, a.order);
    TwoApplied(s, HeadWrites(c, q)[0], HeadWrites(c, q)[1]);
    assert head == [HeadWrites(c, q)[0]] || head == [HeadWrites(c, q)[0], HeadWrites(c, q)[1]];
  }

  // Acceptance.

  /** Whether the verifier accepts the root after one attempt, by its cut, given whether it did `before`. */
  ghost predicate AcceptedAfter(c: Codec, r: Root, a: Attempt, before: bool)
  {
    if r.hasConfig != r.hasRootMeta || a.cut < |InitPlan(c, r).writes| then false
    else if Planned(c, r, a).error.Some? || a.cut <= |Prelude(c, r, a.request)| then before
    else if a.cut <= |Prelude(c, r, a.request)| + 2 + |a.order| then
      before && Unlisted(Base(c, r), a.request.package, Rewritten(c, r, a))
    else a.cut >= |Planned(c, r, a).writes|
  }

  /** An untouched root counts as accepted: it is, as soon as it is initialized. */
  ghost predicate AcceptedBefore(c: Codec, r: Root)
  {
    !r.hasConfig || Accepted(c, r)
  }

  lemma BaseAccepted(c: Codec, r: Root, ws: seq<Write>)
    requires Inv(c, r) && Origins(c, r, ws) && r.hasConfig == r.hasRootMeta
    ensures Accepted(c, Base(c, r)) <==> AcceptedBefore(c, r)
  {
    hide Inv, Origins;
    InitEmptyLog(c, r);
    if r.hasConfig {
      assert InitPlan(c, r).writes == [];
    } else {
      var vs := InitPlan(c, r).writes;
      assert vs == [vs[0], vs[1], vs[2], vs[3], vs[4]];
      FiveApplied(r, vs[0], vs[1], vs[2], vs[3], vs[4]);
      assert LeafHashes(c, r.leaves, 0) == [];
    }
  }

  lemma InitEmptyLog(c: Codec, r: Root)
    requires Inv(c, r)
    ensures !r.hasConfig ==> r.leaves == map[]
  {
  }

  lemma UninitializedRefused(c: Codec, r: Root, a: Attempt)
    requires Inv(c, r) && (r.hasConfig != r.hasRootMeta || a.cut < |InitPlan(c, r).writes|)
    ensures !Accepted(c, After(c, r, a))
  {
    hide MetadataAccepted, PublishPlan, Inv;
    AttemptHalfInitializes(c, r, a);
    if r.hasConfig == r.hasRootMeta && a.cut == 0 {
      assert Executed(c, r, a) == [];
    }
  }

  lemma EarlyAccepted(c: Codec, b: Root, f: Root)
    requires f == b.(artifacts := f.artifacts)
    ensures Accepted(c, f) <==> Accepted(c, b)
  {
  }

  /** The journal tells where everything comes from that is in force before, after initialization, and after an attempt. */
  lemma AttemptOrigins(c: Codec, r: Root, a: Attempt, ws: seq<Write>)
    requires Inv(c, r) && Origins(c, r, ws) && Orderly(c, r, a)
    ensures Origins(c, Base(c, r), ws + InitPlan(c, r).writes)
    ensures Origins(c, After(c, r, a), ws + Executed(c, r, a))
    ensures a.cut >= |InitPlan(c, r).writes| ==> forall w :: w in ws + InitPlan(c, r).writes ==> w in ws + Executed(c, r, a)
  {
    hide Inv, Origins, Orderly, AllDescribe, ApplyAll, InitPlan, ReleasePlan, RefreshPlan;
    InitDescribes(c, r, ws);
    RunKeepsOrigins(c, r, ws, InitPlan(c, r).writes);
    PlanDescribes(c, r, a, ws);
    DescribePrefix(c, r, Planned(c, r, a).writes, |Executed(c, r, a)|);
    RunKeepsOrigins(c, r, ws, Executed(c, r, a));
    if a.cut >= |InitPlan(c, r).writes| {
      InitComesFirst(c, r, a);
    }
  }

  lemma InitComesFirst(c: Codec, r: Root, a: Attempt)
    requires a.cut >= |InitPlan(c, r).writes|
    ensures InitPlan(c, r).writes <= Executed(c, r, a)
  {
    hide InitPlan, ReleasePlan, RefreshPlan, ApplyAll;
  }

  lemma MiddleAccepted(c: Codec, r: Root, a: Attempt, ws: seq<Write>)
    requires Inv(c, r) && Origins(c, r, ws) && Orderly(c, r, a) && Planned(c, r, a).error.None?
    requires |Prelude(c, r, a.request)| < a.cut <= |Prelude(c, r, a.request)| + 2 + |a.order|
    ensures
      || (Accepted(c, After(c, r, a)) <==>
            Accepted(c, Base(c, r)) && Unlisted(Base(c, r), a.request.package, Rewritten(c, r, a)))
      || Collided(c, After(c, r, a), ws + Executed(c, r, a))
  {
    hide Inv, CheckpointOrigin, TargetsOrigin, IndexOrigin, SnapshotOrigin, Orderly, Planned, Executed, After, Base, InitPlan, Prelude,
      Rewritten, Halfway, Unlisted, Accepted, Collided;
    var b, f, ns := Base(c, r), After(c, r, a), Rewritten(c, r, a);
    WholePlan(c, r, a);
    MiddleIsHalfway(c, r, a);
    InitWithinPrelude(c, r, a.request);
    AttemptOrigins(c, r, a, ws);
    ExecutedSafe(c, r, a);
    if Unlisted(b, a.request.package, ns) {
      UnlistedHalfway(c, b, f, a.request.package, ns);
    } else if Accepted(c, f) {
      ListedHalfway(c, b, f, ws + InitPlan(c, r).writes, ws + Executed(c, r, a), a.request.package, ns);
    }
  }

  lemma LateRefused(c: Codec, r: Root, a: Attempt, ws: seq<Write>)
    requires Inv(c, r) && Origins(c, r, ws) && Orderly(c, r, a) && Planned(c, r, a).error.None?
    requires |Prelude(c, r, a.request)| + 2 + |a.order| < a.cut < |Prelude(c, r, a.request)| + 5 + |a.order|
    ensures !Accepted(c, After(c, r, a)) || Collided(c, After(c, r, a), ws + Executed(c, r, a))
  {
    hide Inv, Orderly, Planned, Executed, After, Base, InitPlan, Prelude, AfterRelease, Contiguous, CheckpointOk, IndexOrigin, TargetsOrigin,
      FilesCollide, IndexCollides, ChainHash, IndexDigests, NamespaceDigests;
    var b, f := Base(c, r), After(c, r, a);
    WholePlan(c, r, a);
    AfterLate(c, r, a);
    InitWithinPrelude(c, r, a.request);
    AttemptOrigins(c, r, a, ws);
    var wsb, all := ws + InitPlan(c, r).writes, ws + Executed(c, r, a);
    if Accepted(c, f) {
      NextVersion(c, AfterRelease(c, r, a.request));
      if a.cut == |Prelude(c, r, a.request)| + 3 + |a.order| {
        NewerCheckpointRefused(c, b, f, wsb, all);
      } else {
        NewerSnapshotRefused(c, b, f, wsb, all);
      }
    }
  }

  lemma CompletedAccepted(c: Codec, r: Root, a: Attempt)
    requires Inv(c, r) && Orderly(c, r, a) && Planned(c, r, a).error.None? && a.cut >= |Planned(c, r, a).writes|
    ensures Accepted(c, After(c, r, a))
  {
    hide Inv, PublishPlan, AfterRelease, Refreshed, NamespaceOrder, MetadataAccepted;
    PublishPlanSafe(c, r, a.request, a.order);
    WholePlan(c, r, a);
    var ws := Planned(c, r, a).writes;
    assert ws[..|ws|] == ws;
    RefreshedVerifies(c, AfterRelease(c, r, a.request), a.order);
    RefreshedFlags(c, AfterRelease(c, r, a.request), a.order);
  }

  lemma RefreshedFlags(c: Codec, r: Root, order: seq<string>)
    requires Contiguous(r.leaves)
    ensures Refreshed(c, r, order).hasConfig == r.hasConfig && Refreshed(c, r, order).hasRootMeta == r.hasRootMeta
  {
  }

  /** One attempt: exactly when the verifier accepts the root that it leaves, or a collision between files of the journal. */
  lemma AttemptAccepted(c: Codec, r: Root, a: Attempt, ws: seq<Write>)
    requires Inv(c, r) && Origins(c, r, ws) && Orderly(c, r, a)
    ensures
      || (Accepted(c, After(c, r, a)) <==> AcceptedAfter(c, r, a, AcceptedBefore(c, r)))
      || Collided(c, After(c, r, a), ws + Executed(c, r, a))
  {
    hide Inv, Origins, Orderly, Planned, Executed, After, Base, InitPlan, Prelude, Accepted, Collided, Unlisted, Rewritten, AcceptedBefore;
    if r.hasConfig != r.hasRootMeta || a.cut < |InitPlan(c, r).writes| {
      UninitializedRefused(c, r, a);
    } else {
      BaseAccepted(c, r, ws);
      if Planned(c, r, a).error.Some? || a.cut <= |Prelude(c, r, a.request)| {
        AfterEarly(c, r, a);
        EarlyAccepted(c, Base(c, r), After(c, r, a));
      } else if a.cut <= |Prelude(c, r, a.request)| + 2 + |a.order| {
        MiddleAccepted(c, r, a, ws);
      } else {
        WholePlanLength(c, r, a);
        if a.cut >= |Planned(c, r, a).writes| {
          CompletedAccepted(c, r, a);
        } else {
          LateRefused(c, r, a, ws);
        }
      }
    }
  }

  lemma WholePlanLength(c: Codec, r: Root, a: Attempt)
    requires Inv(c, r) && Planned(c, r, a).error.None?
    ensures |Planned(c, r, a).writes| == |Prelude(c, r, a.request)| + 5 + |a.order|
  {
    hide Inv, Planned, Prelude, InitPlan, ReleasePlan, NextCheckpoint, NextSnapshot, NextTimestamp, AfterRelease;
    WholePlan(c, r, a);
  }

  /** Whether the verifier accepts the root after a history, attempt by attempt. */
  ghost predicate AcceptedRun(c: Codec, attempts: seq<Attempt>)
  {
    && attempts != []
    && var front := attempts[..|attempts| - 1];
    && var r := History(c, front);
    && AcceptedAfter(c, r, attempts[|attempts| - 1], !r.hasConfig || AcceptedRun(c, front))
  }

  lemma {:induction false} VerifierAccepts(c: Codec, attempts: seq<Attempt>)
    requires AllOrderly(c, attempts)
    ensures
      || (Accepted(c, History(c, attempts)) <==> AcceptedRun(c, attempts))
      || Collided(c, History(c, attempts), Journal(c, attempts))
  {
    hide Inv, Origins, Orderly, Accepted, AcceptedAfter, Collided, Executed, After;
    if attempts == [] {
      EmptyRefused(c);
    } else {
      var n := |attempts| - 1;
      var front, a := attempts[..n], attempts[n];
      CrashSafe(c, front);
      HistoryOrigins(c, front);
      VerifierAccepts(c, front);
      AttemptAccepted(c, History(c, front), a, Journal(c, front));
      ExecutedSafe(c, History(c, front), a);
      CollidedStays(c, History(c, front), Journal(c, front), After(c, History(c, front), a), Executed(c, History(c, front), a));
    }
  }

  lemma EmptyRefused(c: Codec)
    ensures !Accepted(c, EMPTY_ROOT)
  {
  }

  lemma CollidedStays(c: Codec, r: Root, ws: seq<Write>, f: Root, vs: seq<Write>)
    requires Extends(r, f)
    ensures Collided(c, r, ws) ==> Collided(c, f, ws + vs)
  {
    if FilesCollide(c, ws) {
      var w, x :| w in ws && x in ws && TwoFiles(c, w, x);
      assert w in ws + vs && x in ws + vs;
    }
    if IndexCollides(c, r) {
      var p :| p in r.index && LinesCollide(c, r.index[p]);
      LinesCollideStays(c, r.index[p], RecordsOf(f, p));
      assert RecordsOf(r, p) <= RecordsOf(f, p) && p in f.index;
    }
  }

  lemma LinesCollideStays(c: Codec, xs: seq<Record>, ys: seq<Record>)
    requires LinesCollide(c, xs) && xs <= ys
    ensures LinesCollide(c, ys)
  {
    var m, n :| 0 <= m < n <= |xs| && IndexDigest(c, xs, m) == IndexDigest(c, xs, n);
    assert ys[..m] == xs[..m] && ys[..n] == xs[..n];
    assert IndexDigest(c, ys, m) == IndexDigest(c, ys, n);
  }

  // A retry does not repair an interrupted publish.

  lemma RefusedKeepsAcceptance(c: Codec, r: Root, a: Attempt)
    requires Inv(c, r) && r.hasConfig && r.hasRootMeta && Planned(c, r, a).error.Some?
    ensures Accepted(c, After(c, r, a)) <==> Accepted(c, r)
  {
    hide Inv, Planned, PublishPlan, Accepted, After;
    assert InitPlan(c, r).writes == [];
    AfterEarly(c, r, a);
    EarlyAccepted(c, r, After(c, r, a));
  }

  predicate SameName(a: Attempt, b: Attempt)
  {
    a.request.package == b.request.package && a.request.version == b.request.version
  }

  lemma RetryRefused(c: Codec, attempts: seq<Attempt>, between: seq<Attempt>, retry: Attempt)
    requires attempts != [] && Appended(c, attempts, |attempts| - 1) && SameName(retry, attempts[|attempts| - 1])
    ensures
      var r := History(c, attempts + between);
      Inv(c, r) && r.hasConfig && r.hasRootMeta && Planned(c, r, retry).error == Some(AlreadyPublished)
  {
    hide Inv, PublishPlan, Appended, History, ValidPackageName;
    var n, all := |attempts| - 1, attempts + between;
    assert all[..n] == attempts[..n] && all[n] == attempts[n];
    AppendedStays(c, attempts, between);
    PublishedName(c, all, n);
    PublishedRecord(c, all, n);
    var r := History(c, all);
    CrashSafe(c, all);
    var k :| 0 <= k < |RecordsOf(r, retry.request.package)| && RecordsOf(r, retry.request.package)[k] == RecordFor(c, all[n].request);
    assert HasVersion(RecordsOf(r, retry.request.package), retry.request.version);
    IndexedIsInitialized(c, r, retry.request.package);
    PublishPlanSafe(c, r, retry.request, retry.order);
  }

  lemma AppendedStays(c: Codec, attempts: seq<Attempt>, between: seq<Attempt>)
    requires attempts != [] && Appended(c, attempts, |attempts| - 1)
    ensures Appended(c, attempts + between, |attempts| - 1)
  {
    hide Planned, Prelude, History;
    var n := |attempts| - 1;
    assert (attempts + between)[..n] == attempts[..n];
  }

  lemma IndexedIsInitialized(c: Codec, r: Root, p: string)
    requires Inv(c, r) && RecordsOf(r, p) != []
    ensures r.hasConfig && r.hasRootMeta
  {
  }

  /** From its index line on, retrying a release is refused and leaves the verifier's answer as it is. */
  lemma {:induction false} RetriesRepairNothing(c: Codec, attempts: seq<Attempt>, retries: seq<Attempt>)
    requires attempts != [] && Appended(c, attempts, |attempts| - 1)
    requires forall i :: 0 <= i < |retries| ==> SameName(retries[i], attempts[|attempts| - 1])
    ensures Accepted(c, History(c, attempts + retries)) <==> Accepted(c, History(c, attempts))
    decreases |retries|
  {
    hide Inv, Accepted, Appended, Planned, After, SameName;
    if retries == [] {
      assert attempts + retries == attempts;
    } else {
      var n := |retries| - 1;
      var front := attempts + retries[..n];
      assert attempts + retries == front + [retries[n]];
      RetriesRepairNothing(c, attempts, retries[..n]);
      RetryRefused(c, attempts, retries[..n], retries[n]);
      RefusedKeepsAcceptance(c, History(c, front), retries[n]);
      HistorySnoc(c, front, retries[n]);
    }
  }

  lemma HistorySnoc(c: Codec, front: seq<Attempt>, a: Attempt)
    ensures History(c, front + [a]) == After(c, History(c, front), a)
  {
    hide After;
    assert (front + [a])[..|front|] == front;
  }

  /**
   A publish of a listed package that is cut between its index line and the end leaves a root that the
   verifier refuses, and goes on refusing however often the release is retried; or files collide.
   */
  lemma InterruptedStaysRefused(c: Codec, front: seq<Attempt>, a: Attempt, retries: seq<Attempt>)
    requires AllOrderly(c, front) && Orderly(c, History(c, front), a)
    requires Planned(c, History(c, front), a).error.None? && a.request.package in ListedPackages(History(c, front))
    requires |Prelude(c, History(c, front), a.request)| < a.cut < |Planned(c, History(c, front), a).writes|
    requires forall i :: 0 <= i < |retries| ==> SameName(retries[i], a)
    ensures
      || !Accepted(c, History(c, front + [a] + retries))
      || Collided(c, History(c, front + [a]), Journal(c, front + [a]))
  {
    hide Inv, Origins, Orderly, Accepted, Collided, Planned, Executed, After, Prelude, SameName, Base, InitPlan;
    var r, attempts := History(c, front), front + [a];
    assert attempts[..|front|] == front;
    CrashSafe(c, front);
    HistoryOrigins(c, front);
    AttemptAccepted(c, r, a, Journal(c, front));
    ListedIsInitialized(c, r, Journal(c, front));
    PlannedIsInitialized(c, r, a);
    RetriesRepairNothing(c, attempts, retries);
  }

  lemma ListedIsInitialized(c: Codec, r: Root, ws: seq<Write>)
    requires Inv(c, r) && Origins(c, r, ws) && ListedPackages(r) != {}
    ensures r.hasConfig && (r.hasRootMeta ==> Base(c, r) == r)
  {
    hide Inv, TargetsOrigin, IndexOrigin, SnapshotOrigin, Written;
    InvCheckpoint(c, r);
  }

  lemma PlannedIsInitialized(c: Codec, r: Root, a: Attempt)
    requires Inv(c, r) && Planned(c, r, a).error.None?
    ensures r.hasConfig == r.hasRootMeta
  {
    hide Inv, PublishPlan;
    PublishPlanSafe(c, r, a.request, a.order);
  }
}
