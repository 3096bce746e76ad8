/** Publisher and client end to end: a run of completed publishes into a fresh root. */
module RegistryRuns {
  import opened Wrappers
  import opened PackageNames
  import opened RegistryModel
  import opened RegistrySafety
  import opened RegistryPublish
  import opened RegistryHistory
  import opened RegistryLog
  import opened RegistryClient
  import opened RegistryPublisher

  ghost predicate Requested(requests: seq<Request>, package: string, version: string)
  {
    exists i :: 0 <= i < |requests| && requests[i].package == package && requests[i].version == version
  }

  /** Request `i` has a valid name and is the first one for its release. */
  ghost predicate FirstFor(requests: seq<Request>, i: nat)
    requires i < |requests|
  {
    ValidPackageName(requests[i].package) && !Requested(requests[..i], requests[i].package, requests[i].version)
  }

  /** The releases of the root are exactly those of the valid requests. */
  ghost predicate ReleasesAre(r: Root, requests: seq<Request>)
  {
    forall p, v :: HasVersion(RecordsOf(r, p), v) <==> ValidPackageName(p) && Requested(requests, p, v)
  }

  /** For every release the root keeps the record of the first request. */
  ghost predicate RecordsAre(c: Codec, r: Root, requests: seq<Request>)
  {
    forall i :: 0 <= i < |requests| && FirstFor(requests, i) ==>
                  RecordFor(c, requests[i]) in RecordsOf(r, requests[i].package)
  }

  ghost predicate Holds(c: Codec, r: Root, requests: seq<Request>)
  {
    && Inv(c, r) && FullyListed(c, r) && FullyLogged(r)
    && ReleasesAre(r, requests) && RecordsAre(c, r, requests)
    && if requests == [] then r == EMPTY_ROOT else r.hasConfig && r.hasRootMeta && MetadataVerifies(c, r)
  }

  function ErrorFor(valid: bool, known: bool): Option<PublishError>
  {
    if !valid then Some(InvalidName) else if known then Some(AlreadyPublished) else None
  }

  lemma RequestedSnoc(requests: seq<Request>, q: Request, p: string, v: string)
    ensures Requested(requests + [q], p, v) <==> Requested(requests, p, v) || (q.package == p && q.version == v)
  {
    var all := requests + [q];
    if Requested(requests, p, v) {
      var i :| 0 <= i < |requests| && requests[i].package == p && requests[i].version == v;
      assert all[i].package == p && all[i].version == v;
    }
    if q.package == p && q.version == v {
      assert all[|requests|].package == p && all[|requests|].version == v;
    }
  }

  lemma FirstForSnoc(requests: seq<Request>, q: Request, i: nat)
    requires i <= |requests|
    ensures FirstFor(requests + [q], i) <==>
              if i < |requests| then FirstFor(requests, i)
              else ValidPackageName(q.package) && !Requested(requests, q.package, q.version)
  {
    hide ValidPackageName, Requested;
    assert (requests + [q])[..i] == requests[..i];
    assert requests[..|requests|] == requests;
  }

  lemma NothingHolds(c: Codec)
    ensures Holds(c, EMPTY_ROOT, [])
  {
    hide Inv, ValidPackageName;
    EmptyInv(c);
    EmptyLogged();
  }

  /** Initialized metadata verifies before anything is published. */
  lemma InitVerifies(c: Codec)
    ensures
      var s := ApplyAll(EMPTY_ROOT, InitPlan(c, EMPTY_ROOT).writes);
      MetadataVerifies(c, s) && s.index == map[]
  {
    hide CheckpointOk, FirstSnapshot;
    var ws := InitPlan(c, EMPTY_ROOT).writes;
    EmptyCheckpoint(c, map[]);
    FiveApplied(EMPTY_ROOT, ws[0], ws[1], ws[2], ws[3], ws[4]);
    assert ws == [ws[0], ws[1], ws[2], ws[3], ws[4]];
    FirstSnapshotIs(c);
  }

  lemma FirstSnapshotIs(c: Codec)
    ensures
      var s := FirstSnapshot(c);
      s.indexMeta == map[] && s.targetsMeta == map[] && s.checkpointMeta == c.hash(c.checkpointBytes(Checkpoint(1, 0, ZERO_DIGEST)))
  {
  }

  /** A refused publish initializes at most, and otherwise at most adds an artifact. */
  lemma RefusedKeeps(c: Codec, r: Root, q: Request, order: seq<string>)
    requires Inv(c, r) && r.hasConfig == r.hasRootMeta && PublishPlan(c, r, q, order).error.Some?
    ensures
      var r1 := ApplyAll(r, InitPlan(c, r).writes);
      var s := ApplyAll(r, PublishPlan(c, r, q, order).writes);
      s == r1.(artifacts := s.artifacts)
  {
    hide Inv, ValidPackageName, HasVersion, InitPlan, RefreshPlan;
    PublishPlanSafe(c, r, q, order);
    InitNoError(c, r);
    InitKeepsIndex(c, r);
    InitPlanSafe(c, r);
    var init := InitPlan(c, r).writes;
    SafeKeepsInv(c, r, init);
    var r1 := ApplyAll(r, init);
    ReleasePlanSafe(c, r1, q);
    ApplyAllAppend(r, init, ReleasePlan(c, r1, q).writes);
    var d := c.hash(q.blob);
    NoneApplied(r1);
    OneApplied(r1, PutArtifact(d, q.blob));
  }

  lemma InitNoError(c: Codec, r: Root)
    requires r.hasConfig == r.hasRootMeta
    ensures InitPlan(c, r).error.None? && (r.hasConfig ==> InitPlan(c, r).writes == [])
  {
  }

  lemma OneApplied(r: Root, w: Write)
    ensures ApplyAll(r, [w]) == Apply(r, w)
  {
    hide Apply;
    NoneApplied(r);
    Snoc(r, [], w);
    assert [] + [w] == [w];
  }

  lemma SameMetadataVerifies(c: Codec, r: Root, s: Root)
    requires s == r.(artifacts := s.artifacts)
    ensures MetadataVerifies(c, r) ==> MetadataVerifies(c, s)
    ensures FullyListed(c, r) ==> FullyListed(c, s)
  {
    hide CheckpointOk, ReleasesOf, NamespaceOf;
  }

  /** A completed publish as an attempt that is never cut. */
  ghost function Whole(c: Codec, r: Root, q: Request, order: seq<string>): Attempt
  {
    Attempt(q, order, |PublishPlan(c, r, q, order).writes|)
  }

  lemma WholeIsAll(c: Codec, r: Root, q: Request, order: seq<string>)
    requires Inv(c, r)
    ensures After(c, r, Whole(c, r, q, order)) == ApplyAll(r, PublishPlan(c, r, q, order).writes)
    ensures !CutBeforeLeaf(c, r, Whole(c, r, q, order))
    ensures PublishPlan(c, r, q, order).error.None? ==>
              |PublishPlan(c, r, q, order).writes| > |Prelude(c, r, q)| + 1
  {
    hide Inv, PublishPlan, Prelude, LeafOf, RecordFor;
    var ws := PublishPlan(c, r, q, order).writes;
    assert ws[..|ws|] == ws;
    if PublishPlan(c, r, q, order).error.None? {
      var tail := PlanShape(c, r, Whole(c, r, q, order));
    }
  }

  lemma StepReleases(c: Codec, r: Root, requests: seq<Request>, q: Request, order: seq<string>)
    requires Inv(c, r) && ReleasesAre(r, requests) && r.hasConfig == r.hasRootMeta
    ensures
      var s := ApplyAll(r, PublishPlan(c, r, q, order).writes);
      && ReleasesAre(s, requests + [q])
      && PublishPlan(c, r, q, order).error == ErrorFor(ValidPackageName(q.package), Requested(requests, q.package, q.version))
  {
    hide Inv, PublishPlan, Prelude, HasVersion, ValidPackageName, Requested, After;
    PublishPlanSafe(c, r, q, order);
    WholeIsAll(c, r, q, order);
    var s := ApplyAll(r, PublishPlan(c, r, q, order).writes);
    forall p, v ensures HasVersion(RecordsOf(s, p), v) <==> ValidPackageName(p) && Requested(requests + [q], p, v) {
      AttemptReleases(c, r, Whole(c, r, q, order), p, v);
      RequestedSnoc(requests, q, p, v);
    }
  }

  lemma StepRecords(c: Codec, r: Root, requests: seq<Request>, q: Request, order: seq<string>)
    requires Inv(c, r) && RecordsAre(c, r, requests) && ReleasesAre(r, requests) && r.hasConfig == r.hasRootMeta
    ensures RecordsAre(c, ApplyAll(r, PublishPlan(c, r, q, order).writes), requests + [q])
  {
    hide Inv, PublishPlan, Prelude, HasVersion, ValidPackageName, Requested, After, LeafOf, FirstFor, RecordFor, ReleasesAre;
    var s := ApplyAll(r, PublishPlan(c, r, q, order).writes);
    WholeIsAll(c, r, q, order);
    StepReleases(c, r, requests, q, order);
    AttemptEffect(c, r, Whole(c, r, q, order));
    RecordForIs(c, q);
    forall i | 0 <= i < |requests + [q]| && FirstFor(requests + [q], i)
      ensures RecordFor(c, (requests + [q])[i]) in RecordsOf(s, (requests + [q])[i].package)
    {
      FirstForSnoc(requests, q, i);
    }
  }

  lemma RecordForIs(c: Codec, q: Request)
    ensures RecordFor(c, q).package == q.package
  {
  }

  lemma StepMetadata(c: Codec, r: Root, requests: seq<Request>, q: Request, order: seq<string>)
    requires Holds(c, r, requests)
    requires PublishPlan(c, r, q, order).error.None? ==> NamespaceOrder(AfterRelease(c, r, q), order)
    ensures
      var s := ApplyAll(r, PublishPlan(c, r, q, order).writes);
      FullyListed(c, s) && MetadataVerifies(c, s)
  {
    hide Inv, PublishPlan, FullyListed, FullyLogged, ReleasesAre, RecordsAre, MetadataVerifies, NamespaceOrder, AfterRelease,
      Refreshed, InitPlan, Contiguous, ApplyAll;
    PublishPlanSafe(c, r, q, order);
    if PublishPlan(c, r, q, order).error.None? {
      RefreshedFullyListed(c, AfterRelease(c, r, q), order);
      RefreshedVerifies(c, AfterRelease(c, r, q), order);
    } else {
      RefusedKeeps(c, r, q, order);
      InitNoError(c, r);
      NoneApplied(r);
      if requests == [] {
        InitVerifies(c);
        NothingToList(c, ApplyAll(r, InitPlan(c, r).writes));
      }
      SameMetadataVerifies(c, ApplyAll(r, InitPlan(c, r).writes), ApplyAll(r, PublishPlan(c, r, q, order).writes));
    }
  }

  lemma NothingToList(c: Codec, r: Root)
    requires r.index == map[]
    ensures FullyListed(c, r)
  {
  }

  lemma StepInitializes(c: Codec, r: Root, q: Request, order: seq<string>)
    requires Inv(c, r) && r.hasConfig == r.hasRootMeta
    ensures
      var s := ApplyAll(r, PublishPlan(c, r, q, order).writes);
      Inv(c, s) && s.hasConfig && s.hasRootMeta
  {
    hide Inv, ReleasePlan, RefreshPlan, InitPlan, AllOk;
    PublishPlanSafe(c, r, q, order);
    SafeKeepsInv(c, r, PublishPlan(c, r, q, order).writes);
    InitNoError(c, r);
    InitPlanSafe(c, r);
    var init := InitPlan(c, r).writes;
    var r1 := ApplyAll(r, init);
    SafeKeepsInv(c, r, init);
    var release := ReleasePlan(c, r1, q);
    ReleasePlanSafe(c, r1, q);
    SafeKeepsInv(c, r1, release.writes);
    ApplyAllAppend(r, init, release.writes);
    if release.error.None? {
      var r2 := ApplyAll(r1, release.writes);
      RefreshPlanSafe(c, r2, order);
      SafeKeepsInv(c, r2, RefreshPlan(c, r2, order).writes);
      ApplyAllAppend(r, init + release.writes, RefreshPlan(c, r2, order).writes);
    }
  }

  /** One completed publish keeps everything and is refused exactly for a bad name or a known release. */
  lemma PublishStep(c: Codec, r: Root, requests: seq<Request>, q: Request, order: seq<string>)
    requires Holds(c, r, requests)
    requires PublishPlan(c, r, q, order).error.None? ==> NamespaceOrder(AfterRelease(c, r, q), order)
    ensures Holds(c, ApplyAll(r, PublishPlan(c, r, q, order).writes), requests + [q])
    ensures PublishPlan(c, r, q, order).error == ErrorFor(ValidPackageName(q.package), Requested(requests, q.package, q.version))
  {
    hide Inv, PublishPlan, FullyListed, FullyLogged, ReleasesAre, RecordsAre, MetadataVerifies, ValidPackageName, Requested,
      NamespaceOrder, AfterRelease, CutBeforeLeaf, After;
    StepInitializes(c, r, q, order);
    StepReleases(c, r, requests, q, order);
    StepRecords(c, r, requests, q, order);
    StepMetadata(c, r, requests, q, order);
    WholeIsAll(c, r, q, order);
    AttemptKeepsFullyLogged(c, r, Whole(c, r, q, order));
  }

  // The targets file of a publish, by the two parts of the package's name.

  lemma LastReleaseListed(c: Codec, records: seq<Record>, e: Record)
    ensures e.version in ReleasesOf(c, records + [e])
    ensures ReleasesOf(c, records + [e])[e.version] == Release(c.hash(c.recordBytes(e)), e.sha256)
  {
    assert (records + [e])[..|records|] == records;
  }

  lemma ReleaseKeepsTargets(c: Codec, r: Root, q: Request)
    requires Inv(c, r) && PublishPlan(c, r, q, []).error.None?
    ensures AfterRelease(c, r, q).targets == r.targets
  {
    hide Inv, HasVersion, ValidPackageName, InitPlan, RefreshPlan, LeafFor, RecordFor, Contiguous;
    InitKeepsIndex(c, r);
    var r1 := ApplyAll(r, InitPlan(c, r).writes);
    var e, d := RecordFor(c, q), c.hash(q.blob);
    var store := if e.sha256 in r1.artifacts then [] else [PutArtifact(e.sha256, q.blob)];
    var n := |r1.leaves| + 1;
    NoneApplied(r1);
    OneApplied(r1, PutArtifact(e.sha256, q.blob));
    ApplyAllAppend(r1, store, [AppendIndex(e), PutLeaf(n, LeafFor(c, e, n))]);
    TwoApplied(ApplyAll(r1, store), AppendIndex(e), PutLeaf(n, LeafFor(c, e, n)));
  }

  /** A completed publish of `ns/short` puts the release into the targets file of `ns`, one version up. */
  lemma PublishedTargets(c: Codec, r: Root, q: Request, order: seq<string>, ns: string, short: string)
    requires Inv(c, r) && PublishPlan(c, r, q, order).error.None? && NamespaceOrder(AfterRelease(c, r, q), order)
    requires NameSegment(ns) && NameSegment(short) && q.package == ns + "/" + short
    ensures
      var s := ApplyAll(r, PublishPlan(c, r, q, order).writes);
      var e := Record(q.package, q.version, c.hash(q.blob), |q.blob|);
      && ns in s.targets && s.targets[ns].namespace == ns
      && s.targets[ns].version == (if ns in r.targets then r.targets[ns].version + 1 else 1)
      && q.package in s.targets[ns].packages && q.version in s.targets[ns].packages[q.package]
      && s.targets[ns].packages[q.package][q.version] == Release(c.hash(c.recordBytes(e)), e.sha256)
      && (forall p :: ValidPackageName(p) ==> (p in s.targets[ns].packages <==> p in s.index && ns + "/" <= p))
  {
    hide Inv, PublishPlan, AfterRelease, ReleasesOf, NamespaceOf, NameSegment, ValidPackageName, NextCheckpoint, NextSnapshot,
      NextTimestamp, RefreshedTargets, ApplyAll, Prelude, Contiguous;
    var s, t := ApplyAll(r, PublishPlan(c, r, q, order).writes), AfterRelease(c, r, q);
    var e := RecordFor(c, q);
    PublishPlanSafe(c, r, q, order);
    PublishPlanSafe(c, r, q, []);
    ReleaseKeepsTargets(c, r, q);
    WholeIsAll(c, r, q, order);
    AttemptEffect(c, r, Whole(c, r, q, order));
    LastReleaseListed(c, RecordsOf(r, q.package), e);
    NamespaceOfSplit(ns, short);
    assert q.package in t.index && NamespaceOf(q.package) == ns && ns in Namespaces(t);
    RefreshedLists(c, t, order, ns);
    forall p | ValidPackageName(p) ensures p in s.targets[ns].packages <==> p in s.index && ns + "/" <= p {
      InNamespace(ns, p);
    }
  }

  /** The client finds a release exactly when it was requested validly, and reads the first request's record. */
  lemma ClientFinds(c: Codec, r: Root, requests: seq<Request>, p: string, v: string)
    requires Holds(c, r, requests)
    ensures Lookup(r, p, v).Ok? <==> ValidPackageName(p) && Requested(requests, p, v)
  {
    hide Inv, FullyListed, FullyLogged, RecordsAre, MetadataVerifies, ValidPackageName, Requested, Lookup, HasVersion;
    FoundIffIndexed(c, r, p, v);
  }

  lemma ClientReads(c: Codec, r: Root, requests: seq<Request>, i: nat)
    requires Holds(c, r, requests) && i < |requests| && FirstFor(requests, i)
    ensures
      var q := requests[i];
      Lookup(r, q.package, q.version) == Ok(Record(q.package, q.version, c.hash(q.blob), |q.blob|))
  {
    hide Inv, FullyListed, FullyLogged, ReleasesAre, MetadataVerifies, ValidPackageName;
    var q := requests[i];
    ClientFinds(c, r, requests, q.package, q.version);
    assert Requested(requests, q.package, q.version);
    LookupOkIsListed(r, q.package, q.version);
    ListedIsFound(c, r, q.package, q.version);
    var k :| 0 <= k < |RecordsOf(r, q.package)| && RecordsOf(r, q.package)[k] == RecordFor(c, q);
    IndexRecord(c, r, q.package, k);
    FirstMatchFinds(r.index[q.package], q.package, q.version, k);
  }

  lemma LookupOkIsListed(r: Root, p: string, v: string)
    requires Lookup(r, p, v).Ok?
    ensures LoadPackageMetadata(r, p, v).None?
  {
  }

  /**
   A run of publishes into a fresh root. Each request is accepted exactly when its name is valid and
   no earlier request was for the same release; afterwards a client finds exactly the accepted
   releases, with the records of the accepted requests, and all of them are in the log.
   */
  method PublishAll(c: Codec, requests: seq<Request>) returns (r: Root, errors: seq<Option<PublishError>>)
    ensures |errors| == |requests|
    ensures forall i :: 0 <= i < |requests| ==>
              errors[i] == ErrorFor(ValidPackageName(requests[i].package),
                                    Requested(requests[..i], requests[i].package, requests[i].version))
    ensures Inv(c, r) && FullyLogged(r) && (requests != [] ==> MetadataVerifies(c, r))
    ensures forall p, v :: Lookup(r, p, v).Ok? <==> ValidPackageName(p) && Requested(requests, p, v)
    ensures forall i :: 0 <= i < |requests| && errors[i].None? ==>
              var q := requests[i];
              Lookup(r, q.package, q.version) == Ok(Record(q.package, q.version, c.hash(q.blob), |q.blob|))
  {
    hide Holds, ValidPackageName, Requested, PublishPlan, Lookup, Inv, FullyLogged, MetadataVerifies, AfterRelease, NamespaceOrder;
    var root := new RegistryRoot();
    NothingHolds(c);
    errors := [];
    for n := 0 to |requests|
      invariant fresh(root)
      invariant Holds(c, root.View(), requests[..n])
      invariant |errors| == n
      invariant forall i :: 0 <= i < n ==>
                  errors[i] == ErrorFor(ValidPackageName(requests[i].package),
                                        Requested(requests[..i], requests[i].package, requests[i].version))
    {
      ghost var before := root.View();
      var error, order := root.Publish(c, requests[n]);
      PublishStep(c, before, requests[..n], requests[n], order);
      assert requests[..n + 1] == requests[..n] + [requests[n]];
      errors := errors + [error];
    }
    r := root.View();
    assert requests[..|requests|] == requests;
    RunEnds(c, r, requests);
    forall p, v ensures Lookup(r, p, v).Ok? <==> ValidPackageName(p) && Requested(requests, p, v) {
      ClientFinds(c, r, requests, p, v);
    }
    forall i | 0 <= i < |requests| && errors[i].None?
      ensures
        var q := requests[i];
        Lookup(r, q.package, q.version) == Ok(Record(q.package, q.version, c.hash(q.blob), |q.blob|))
    {
      ClientReads(c, r, requests, i);
    }
  }

  lemma RunEnds(c: Codec, r: Root, requests: seq<Request>)
    requires Holds(c, r, requests)
    ensures Inv(c, r) && FullyLogged(r) && (requests != [] ==> MetadataVerifies(c, r))
  {
  }
}
