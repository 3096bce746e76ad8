/** The client of a registry root: metadata, index line, artifact, local blob cache. */
module RegistryClient {
  import opened Wrappers
  import opened PackageNames
  import opened RegistryModel
  import opened RegistrySafety
  import opened RegistryPublish
  import opened RegistryHistory
  import opened RegistryLog

  datatype ClientError =
    | InvalidPackageName
    | NoConfig
    | NoTargets
    | NamespaceMismatch
    | PackageNotListed
    | VersionNotListed
    | NoIndexFile
    | NotInIndex
    | CachedDigestMismatch
    | CachedSizeMismatch
    | ArtifactMissing
    | SizeMismatch
    | DigestMismatch

  /** `ValidateTargetsMetadata` on the namespace's targets file. */
  function LoadPackageMetadata(r: Root, package: string, version: string): Option<ClientError>
  {
    var ns := NamespaceOf(package);
    if !ValidPackageName(package) then Some(InvalidPackageName)
    else if ns !in r.targets then Some(NoTargets)
    else if r.targets[ns].namespace != ns then Some(NamespaceMismatch)
    else if package !in r.targets[ns].packages then Some(PackageNotListed)
    else if version !in r.targets[ns].packages[package] then Some(VersionNotListed)
    else None
  }

  /** The client's checks in their order, on the file of the name's part before the slash. */
  lemma MetadataBySplit(r: Root, ns: string, short: string, version: string)
    requires NameSegment(ns) && NameSegment(short)
    ensures
      var package := ns + "/" + short;
      var listed := LoadPackageMetadata(r, package, version);
      && (ns !in r.targets <==> listed == Some(NoTargets))
      && (ns in r.targets ==>
            && (r.targets[ns].namespace != ns <==> listed == Some(NamespaceMismatch))
            && (r.targets[ns].namespace == ns && package !in r.targets[ns].packages <==> listed == Some(PackageNotListed))
            && (listed.None? <==>
                  r.targets[ns].namespace == ns && package in r.targets[ns].packages && version in r.targets[ns].packages[package])
            && (listed.Some? ==> listed.value in {NamespaceMismatch, PackageNotListed, VersionNotListed}))
  {
    hide NamespaceOf, NameSegment, ValidPackageName;
    NamespaceOfSplit(ns, short);
  }

  lemma InvalidNamesAskNothing(r: Root, package: string, version: string)
    ensures LoadPackageMetadata(r, package, version) == Some(InvalidPackageName) <==> !ValidPackageName(package)
  {
    hide ValidPackageName;
  }

  predicate Matches(e: Record, package: string, version: string)
  {
    e.package == package && e.version == version
  }

  /** The first line of an index file for this release. */
  function FirstMatch(records: seq<Record>, package: string, version: string): Option<Record>
  {
    if records == [] then None
    else if Matches(records[0], package, version) then Some(records[0])
    else FirstMatch(records[1..], package, version)
  }

  predicate IsFirst(records: seq<Record>, i: nat, package: string, version: string)
    requires i < |records|
  {
    && records[i].package == package && records[i].version == version
    && forall k :: 0 <= k < i ==> records[k].package != package || records[k].version != version
  }

  method LoadEntry(records: seq<Record>, package: string, version: string) returns (r: Option<Record>)
    ensures r == FirstMatch(records, package, version)
    ensures r.None? <==> forall i :: 0 <= i < |records| ==> records[i].package != package || records[i].version != version
    ensures r.Some? ==> exists i :: 0 <= i < |records| && records[i] == r.value && IsFirst(records, i, package, version)
  {
    var i := 0;
    while i < |records|
      invariant 0 <= i <= |records|
      invariant FirstMatch(records, package, version) == FirstMatch(records[i..], package, version)
      invariant forall k :: 0 <= k < i ==> records[k].package != package || records[k].version != version
    {
      if records[i].package == package && records[i].version == version {
        assert IsFirst(records, i, package, version);
        return Some(records[i]);
      }
      i := i + 1;
    }
    return None;
  }

  /** Everything before the artifact: configuration, targets metadata, index line. */
  function Lookup(r: Root, package: string, version: string): Result<Record, ClientError>
  {
    if !r.hasConfig then Err(NoConfig) else
    var listed := LoadPackageMetadata(r, package, version);
    if listed.Some? then Err(listed.value)
    else if package !in r.index then Err(NoIndexFile)
    else
      match FirstMatch(r.index[package], package, version)
      case None => Err(NotInIndex)
      case Some(e) => Ok(e)
  }

  /** The blob has the digest and the size that the record promises. */
  predicate Genuine(c: Codec, e: Record, blob: Blob)
  {
    c.hash(blob) == e.sha256 && |blob| == e.sizeBytes
  }

  class BlobCache {
    var blobs: map<Digest, Blob>

    constructor ()
      ensures blobs == map[]
    {
      blobs := map[];
    }

    /** Fills the cache when the blob is missing; whatever is cached is checked before it is used. */
    method MaterializeArtifact(c: Codec, r: Root, e: Record) returns (error: Option<ClientError>)
      modifies this
      ensures error.None? ==> e.sha256 in blobs && c.hash(blobs[e.sha256]) == e.sha256 && |blobs[e.sha256]| == e.sizeBytes
      ensures e.sha256 in old(blobs) ==>
                && blobs == old(blobs)
                && error == (if c.hash(old(blobs)[e.sha256]) != e.sha256 then Some(CachedDigestMismatch)
                             else if |old(blobs)[e.sha256]| != e.sizeBytes then Some(CachedSizeMismatch) else None)
      ensures e.sha256 !in old(blobs) && e.sha256 in r.artifacts ==>
                && blobs == old(blobs)[e.sha256 := r.artifacts[e.sha256]]
                && error == (if |r.artifacts[e.sha256]| != e.sizeBytes then Some(SizeMismatch)
                             else if c.hash(r.artifacts[e.sha256]) != e.sha256 then Some(DigestMismatch) else None)
      ensures e.sha256 !in old(blobs) && e.sha256 !in r.artifacts ==> blobs == old(blobs) && error == Some(ArtifactMissing)
    {
      if e.sha256 in blobs {
        if c.hash(blobs[e.sha256]) != e.sha256 {
          return Some(CachedDigestMismatch);
        }
        if |blobs[e.sha256]| != e.sizeBytes {
          return Some(CachedSizeMismatch);
        }
        return None;
      }
      if e.sha256 !in r.artifacts {
        return Some(ArtifactMissing);
      }
      blobs := blobs[e.sha256 := r.artifacts[e.sha256]];
      if |blobs[e.sha256]| != e.sizeBytes {
        return Some(SizeMismatch);
      }
      if c.hash(blobs[e.sha256]) != e.sha256 {
        return Some(DigestMismatch);
      }
      return None;
    }

    method MaterializeRegistryPackage(c: Codec, r: Root, package: string, version: string) returns (result: Result<Record, ClientError>)
      modifies this
      ensures result.Ok? ==>
                && Lookup(r, package, version) == result
                && var d := result.value.sha256;
                   d in blobs && c.hash(blobs[d]) == d && |blobs[d]| == result.value.sizeBytes
      ensures Lookup(r, package, version).Err? ==> result == Lookup(r, package, version) && blobs == old(blobs)
      ensures Lookup(r, package, version).Ok? ==>
                var e := Lookup(r, package, version).value;
                && (e.sha256 in old(blobs) ==> blobs == old(blobs) && (result.Ok? <==> Genuine(c, e, old(blobs)[e.sha256])))
                && (e.sha256 !in old(blobs) && e.sha256 in r.artifacts ==>
                      && blobs == old(blobs)[e.sha256 := r.artifacts[e.sha256]]
                      && (result.Ok? <==> Genuine(c, e, r.artifacts[e.sha256])))
                && (e.sha256 !in old(blobs) && e.sha256 !in r.artifacts ==> blobs == old(blobs) && result == Err(ArtifactMissing))
    {
      if !r.hasConfig {
        return Err(NoConfig);
      }
      var listed := LoadPackageMetadata(r, package, version);
      if listed.Some? {
        return Err(listed.value);
      }
      if package !in r.index {
        return Err(NoIndexFile);
      }
      var entry := LoadEntry(r.index[package], package, version);
      if entry.None? {
        return Err(NotInIndex);
      }
      var error := MaterializeArtifact(c, r, entry.value);
      if error.Some? {
        return Err(error.value);
      }
      return Ok(entry.value);
    }
  }

  // What the client finds.

  lemma {:induction false} FirstMatchFinds(records: seq<Record>, package: string, version: string, i: nat)
    requires i < |records| && Matches(records[i], package, version)
    requires forall j, k :: 0 <= j < k < |records| ==> records[j].version != records[k].version
    ensures FirstMatch(records, package, version) == Some(records[i])
  {
    if i > 0 {
      assert records[0].version != records[i].version;
      assert forall j, k :: 0 <= j < k < |records[1..]| ==> records[1..][j] == records[j + 1] && records[1..][k] == records[k + 1];
      FirstMatchFinds(records[1..], package, version, i - 1);
    }
  }

  /** In every consistent root, a listed release leads to its one record, with the listed digests. */
  lemma ListedIsFound(c: Codec, r: Root, package: string, version: string)
    requires Inv(c, r) && LoadPackageMetadata(r, package, version).None?
    ensures
      var release := r.targets[NamespaceOf(package)].packages[package][version];
      && Lookup(r, package, version).Ok?
      && var e := Lookup(r, package, version).value;
      && Matches(e, package, version) && e in r.index[package]
      && release == Release(c.hash(c.recordBytes(e)), e.sha256)
      && e.sha256 in r.artifacts && c.hash(r.artifacts[e.sha256]) == e.sha256
  {
    hide ValidPackageName;
    var ns := NamespaceOf(package);
    ListedIsIndexed(c, r, ns, package, version);
    var release := r.targets[ns].packages[package][version];
    var i :| 0 <= i < |RecordsOf(r, package)| && Announces(c, RecordsOf(r, package)[i], version, release);
    IndexRecord(c, r, package, i);
    FirstMatchFinds(r.index[package], package, version, i);
  }

  lemma ListedIsIndexed(c: Codec, r: Root, ns: string, package: string, version: string)
    requires Inv(c, r) && ns in r.targets && package in r.targets[ns].packages && version in r.targets[ns].packages[package]
    ensures ReleaseOk(c, r, package, version, r.targets[ns].packages[package][version]) && r.hasConfig
  {
    assert TargetsOk(c, r, ns, r.targets[ns]);
  }

  lemma IndexRecord(c: Codec, r: Root, p: string, i: nat)
    requires Inv(c, r) && i < |RecordsOf(r, p)|
    ensures p in r.index && RecordOk(c, r, p, r.index[p][i])
    ensures forall j, k :: 0 <= j < k < |r.index[p]| ==> r.index[p][j].version != r.index[p][k].version
  {
    assert IndexFileOk(c, r, p);
  }

  /** The targets metadata lists everything that the index holds. */
  ghost predicate FullyListed(c: Codec, r: Root)
  {
    forall p :: p in r.index ==>
      var ns := NamespaceOf(p);
      && ns in r.targets && r.targets[ns].namespace == ns
      && p in r.targets[ns].packages && r.targets[ns].packages[p] == ReleasesOf(c, r.index[p])
  }

  lemma {:induction false} RefreshedLists(c: Codec, r: Root, order: seq<string>, ns: string)
    requires ns in order
    ensures ns in RefreshedTargets(c, r, order) && RefreshedTargets(c, r, order)[ns] == TargetsFor(c, r, ns)
  {
    hide TargetsFor;
    var n := |order| - 1;
    if ns != order[n] {
      assert ns in order[..n];
      RefreshedLists(c, r, order[..n], ns);
    }
  }

  lemma RefreshedFullyListed(c: Codec, r: Root, order: seq<string>)
    requires Contiguous(r.leaves) && NamespaceOrder(r, order)
    ensures FullyListed(c, Refreshed(c, r, order))
  {
    hide Contiguous, NextCheckpoint, NextSnapshot, NextTimestamp, RefreshedTargets, ReleasesOf;
    forall p | p in r.index
      ensures
        var ns := NamespaceOf(p);
        var t := RefreshedTargets(c, r, order);
        && ns in t && t[ns].namespace == ns && p in t[ns].packages && t[ns].packages[p] == ReleasesOf(c, r.index[p])
    {
      assert NamespaceOf(p) in Namespaces(r);
      RefreshedLists(c, r, order, NamespaceOf(p));
    }
  }

  /** With fully listed metadata the client finds exactly what is in the index. */
  lemma FoundIffIndexed(c: Codec, r: Root, package: string, version: string)
    requires Inv(c, r) && FullyListed(c, r)
    ensures Lookup(r, package, version).Ok? <==> ValidPackageName(package) && HasVersion(RecordsOf(r, package), version)
  {
    hide Inv, ValidPackageName, HasVersion, ReleasesOf;
    if ValidPackageName(package) && HasVersion(RecordsOf(r, package), version) {
      HasVersionIndexed(r, package, version);
      ReleasesAnnounce(c, r.index[package], version);
      ListedIsFound(c, r, package, version);
    }
    if Lookup(r, package, version).Ok? {
      ListedIsFound(c, r, package, version);
      EntryHasVersion(r.index[package], Lookup(r, package, version).value, version);
    }
  }

  lemma HasVersionIndexed(r: Root, package: string, version: string)
    requires HasVersion(RecordsOf(r, package), version)
    ensures package in r.index
  {
  }

  lemma EntryHasVersion(records: seq<Record>, e: Record, version: string)
    requires e in records && e.version == version
    ensures HasVersion(records, version)
  {
  }

  // Publisher and client together.

  /** Attempt `i` got as far as its index line. */
  ghost predicate Appended(c: Codec, attempts: seq<Attempt>, i: nat)
    requires i < |attempts|
  {
    var r := History(c, attempts[..i]);
    Planned(c, r, attempts[i]).error.None? && attempts[i].cut > |Prelude(c, r, attempts[i].request)|
  }

  ghost predicate PublishedBy(c: Codec, attempts: seq<Attempt>, package: string, version: string, i: nat)
  {
    && i < |attempts| && Appended(c, attempts, i)
    && attempts[i].request.package == package && attempts[i].request.version == version
  }

  /** The index holds exactly the records of the attempts that got as far as their index line. */
  lemma {:induction false} IndexHoldsPublished(c: Codec, attempts: seq<Attempt>, package: string, version: string)
    ensures HasVersion(RecordsOf(History(c, attempts), package), version)
            <==> exists i :: PublishedBy(c, attempts, package, version, i)
  {
    hide Inv, After, HasVersion, Appended, PublishedBy, Planned, Prelude;
    if attempts == [] {
      NoVersion(version);
      assert RecordsOf(EMPTY_ROOT, package) == [];
      if i: nat :| PublishedBy(c, attempts, package, version, i) {
        PublishedIndex(c, attempts, package, version, i);
      }
    } else {
      var n := |attempts| - 1;
      var front := attempts[..n];
      IndexHoldsPublished(c, front, package, version);
      CrashSafe(c, front);
      AttemptReleases(c, History(c, front), attempts[n], package, version);
      AppendedLast(c, attempts);
      PublishedSnoc(c, attempts, package, version);
      PublishedIs(c, attempts, package, version, n);
    }
  }

  lemma PublishedIndex(c: Codec, attempts: seq<Attempt>, package: string, version: string, i: nat)
    requires PublishedBy(c, attempts, package, version, i)
    ensures i < |attempts|
  {
  }

  lemma PublishedIs(c: Codec, attempts: seq<Attempt>, package: string, version: string, i: nat)
    requires i < |attempts|
    ensures PublishedBy(c, attempts, package, version, i) <==>
              Appended(c, attempts, i) && attempts[i].request.package == package && attempts[i].request.version == version
  {
  }

  lemma PublishedFront(c: Codec, attempts: seq<Attempt>, package: string, version: string, i: nat)
    requires attempts != [] && i < |attempts| - 1
    ensures PublishedBy(c, attempts[..|attempts| - 1], package, version, i) <==> PublishedBy(c, attempts, package, version, i)
  {
    hide Appended;
    AppendedFront(c, attempts, i);
  }

  lemma PublishedSnoc(c: Codec, attempts: seq<Attempt>, package: string, version: string)
    requires attempts != []
    ensures
      var n := |attempts| - 1;
      (exists i :: PublishedBy(c, attempts, package, version, i)) <==>
        (exists i :: PublishedBy(c, attempts[..n], package, version, i)) || PublishedBy(c, attempts, package, version, n)
  {
    hide PublishedBy;
    var n := |attempts| - 1;
    if i: nat :| PublishedBy(c, attempts[..n], package, version, i) {
      PublishedIndex(c, attempts[..n], package, version, i);
      PublishedFront(c, attempts, package, version, i);
    }
    if i: nat :| PublishedBy(c, attempts, package, version, i) {
      PublishedIndex(c, attempts, package, version, i);
      if i < n {
        PublishedFront(c, attempts, package, version, i);
      }
    }
  }

  lemma AppendedLast(c: Codec, attempts: seq<Attempt>)
    requires attempts != []
    ensures
      var n := |attempts| - 1;
      var r := History(c, attempts[..n]);
      Appended(c, attempts, n) <==> Planned(c, r, attempts[n]).error.None? && attempts[n].cut > |Prelude(c, r, attempts[n].request)|
  {
  }

  lemma AppendedFront(c: Codec, attempts: seq<Attempt>, i: nat)
    requires i < |attempts| - 1
    ensures Appended(c, attempts[..|attempts| - 1], i) <==> Appended(c, attempts, i)
  {
    assert attempts[..|attempts| - 1][..i] == attempts[..i];
  }

  /** The last attempt ran to its end without an error. */
  ghost predicate EndsCompleted(c: Codec, attempts: seq<Attempt>)
  {
    && attempts != []
    && var r := History(c, attempts[..|attempts| - 1]);
    && var a := attempts[|attempts| - 1];
    && Planned(c, r, a).error.None? && a.cut >= |Planned(c, r, a).writes| && ValidAttempt(c, r, a)
  }

  lemma CompletedFullyListed(c: Codec, attempts: seq<Attempt>)
    requires EndsCompleted(c, attempts)
    ensures FullyListed(c, History(c, attempts))
  {
    hide Inv, PublishPlan, Refreshed, FullyListed, NamespaceOrder, AfterRelease;
    var front, a := attempts[..|attempts| - 1], attempts[|attempts| - 1];
    var r := History(c, front);
    CrashSafe(c, front);
    PublishPlanSafe(c, r, a.request, a.order);
    var ws := Planned(c, r, a).writes;
    assert ws[..|ws|] == ws;
    RefreshedFullyListed(c, AfterRelease(c, r, a.request), a.order);
  }

  /**
   After a run that ends with a completed publish, whatever crashed before, the client finds a
   release exactly when some attempt published it.
   */
  lemma ClientAgrees(c: Codec, attempts: seq<Attempt>, package: string, version: string)
    requires EndsCompleted(c, attempts)
    ensures Lookup(History(c, attempts), package, version).Ok? <==> exists i :: PublishedBy(c, attempts, package, version, i)
  {
    hide Inv, EndsCompleted, FullyListed, History, Lookup, Appended, HasVersion, ValidPackageName;
    CrashSafe(c, attempts);
    CompletedFullyListed(c, attempts);
    FoundIffIndexed(c, History(c, attempts), package, version);
    IndexHoldsPublished(c, attempts, package, version);
    if i :| PublishedBy(c, attempts, package, version, i) {
      PublishedName(c, attempts, i);
    }
  }

  lemma PublishedName(c: Codec, attempts: seq<Attempt>, i: nat)
    requires i < |attempts| && Appended(c, attempts, i)
    ensures ValidPackageName(attempts[i].request.package)
  {
    hide Inv, ValidPackageName, PublishPlan;
    CrashSafe(c, attempts[..i]);
    PublishPlanSafe(c, History(c, attempts[..i]), attempts[i].request, attempts[i].order);
  }

  /** The record of an attempt that reached its index line is in every later index. */
  lemma PublishedRecord(c: Codec, attempts: seq<Attempt>, i: nat)
    requires i < |attempts| && Appended(c, attempts, i)
    ensures RecordFor(c, attempts[i].request) in RecordsOf(History(c, attempts), attempts[i].request.package)
  {
    hide Inv, PublishPlan, Prelude, Extends;
    var r := History(c, attempts[..i]);
    CrashSafe(c, attempts[..i]);
    AttemptEffect(c, r, attempts[i]);
    var s := History(c, attempts[..i + 1]);
    assert attempts[..i + 1][..i] == attempts[..i] && attempts[..i + 1][i] == attempts[i];
    var e := RecordFor(c, attempts[i].request);
    assert RecordsOf(s, e.package) == RecordsOf(r, e.package) + [e];
    HistoryExtends(c, attempts, i + 1);
    PrefixOfRecords(s, History(c, attempts), e);
  }

  lemma PrefixOfRecords(s: Root, t: Root, e: Record)
    requires Extends(s, t) && e in RecordsOf(s, e.package)
    ensures e in RecordsOf(t, e.package)
  {
    assert RecordsOf(s, e.package) <= RecordsOf(t, e.package);
  }

  /**
   What the client finds is what was published: the record is the publisher's, and the stored
   artifact is the published archive itself or collides with it.
   */
  lemma ClientReadsPublished(c: Codec, attempts: seq<Attempt>, i: nat)
    requires i < |attempts| && Appended(c, attempts, i)
    requires Lookup(History(c, attempts), attempts[i].request.package, attempts[i].request.version).Ok?
    ensures
      var r := History(c, attempts);
      var q := attempts[i].request;
      var e := Lookup(r, q.package, q.version).value;
      && e == Record(q.package, q.version, c.hash(q.blob), |q.blob|) && e.sha256 in r.artifacts
      && (|| r.artifacts[e.sha256] == q.blob
          || (r.artifacts[e.sha256] != q.blob && c.hash(r.artifacts[e.sha256]) == c.hash(q.blob)))
  {
    hide Inv, History, Appended, ValidPackageName;
    CrashSafe(c, attempts);
    var r := History(c, attempts);
    var q := attempts[i].request;
    PublishedRecord(c, attempts, i);
    ListedIsFound(c, r, q.package, q.version);
    var k :| 0 <= k < |RecordsOf(r, q.package)| && RecordsOf(r, q.package)[k] == RecordFor(c, q);
    IndexRecord(c, r, q.package, k);
    FirstMatchFinds(r.index[q.package], q.package, q.version, k);
  }

  /** A fresh client gets the published archive into its cache, or holds a hash collision. */
  method FetchPublished(c: Codec, ghost attempts: seq<Attempt>, r: Root, ghost i: nat, package: string, version: string)
    returns (result: Result<Record, ClientError>, blob: Blob)
    requires r == History(c, attempts) && EndsCompleted(c, attempts) && PublishedBy(c, attempts, package, version, i)
    ensures result.Ok? ==>
              && result.value == Record(package, version, c.hash(attempts[i].request.blob), |attempts[i].request.blob|)
              && c.hash(blob) == c.hash(attempts[i].request.blob) && |blob| == |attempts[i].request.blob|
    ensures result.Err? ==>
              var d := c.hash(attempts[i].request.blob);
              d in r.artifacts && r.artifacts[d] != attempts[i].request.blob && c.hash(r.artifacts[d]) == d
  {
    hide History, EndsCompleted, Appended, Inv, Lookup;
    ClientAgrees(c, attempts, package, version);
    ClientReadsPublished(c, attempts, i);
    CrashSafe(c, attempts);
    InvStored(c, r);
    var cache := new BlobCache();
    result := cache.MaterializeRegistryPackage(c, r, package, version);
    blob := if result.Ok? then cache.blobs[result.value.sha256] else [];
  }

  lemma InvStored(c: Codec, r: Root)
    requires Inv(c, r)
    ensures forall d :: d in r.artifacts ==> c.hash(r.artifacts[d]) == d
  {
  }

  /** A duplicate publish is refused and changes neither index, nor log, nor trust metadata. */
  lemma RejectedDuplicateChangesNothing(c: Codec, r: Root, q: Request, order: seq<string>)
    requires Inv(c, r) && r.hasConfig && r.hasRootMeta
    requires ValidPackageName(q.package) && HasVersion(RecordsOf(r, q.package), q.version)
    ensures PublishPlan(c, r, q, order).error == Some(AlreadyPublished)
    ensures ApplyAll(r, PublishPlan(c, r, q, order).writes)
            == r.(artifacts := ApplyAll(r, PublishPlan(c, r, q, order).writes).artifacts)
  {
    hide Inv, ValidPackageName, HasVersion;
    PublishPlanSafe(c, r, q, order);
    var d := c.hash(q.blob);
    if d !in r.artifacts {
      assert [PutArtifact(d, q.blob)][1..] == [];
    }
  }

  // The metadata of a completed refresh verifies.

  /** The registry verifier's digest checks on the metadata, from the timestamp down to the index files, and on the log. */
  ghost predicate MetadataAccepted(c: Codec, r: Root)
  {
    && r.timestamp.Some? && r.snapshot.Some? && r.checkpoint.Some?
    && r.timestamp.value.snapshotMeta == c.hash(c.snapshotBytes(r.snapshot.value))
    && r.snapshot.value.checkpointMeta == c.hash(c.checkpointBytes(r.checkpoint.value))
    && (forall p :: p in r.snapshot.value.indexMeta ==> p in r.index && r.snapshot.value.indexMeta[p] == c.hash(c.indexBytes(r.index[p])))
    && (forall ns :: ns in r.snapshot.value.targetsMeta ==>
          ns in r.targets && r.snapshot.value.targetsMeta[ns] == c.hash(c.targetsBytes(r.targets[ns])))
    && CheckpointOk(c, r.leaves, r.checkpoint.value)
  }

  /** What a completed refresh achieves beyond the verifier's checks: the checkpoint covers the whole log. */
  ghost predicate MetadataVerifies(c: Codec, r: Root)
  {
    MetadataAccepted(c, r) && r.checkpoint.value.treeSize == |r.leaves|
  }

  /** The verifier's checks on one listed package: its index file, each record's artifact digest, and the digests of its releases. */
  ghost predicate PackageVerifies(c: Codec, r: Root, ns: string, p: string, releases: map<string, Release>)
  {
    && NamespaceOf(p) == ns && p in r.index && r.index[p] != []
    && (forall i :: 0 <= i < |r.index[p]| ==>
          var e := r.index[p][i]; e.package == p && e.sha256 in r.artifacts && c.hash(r.artifacts[e.sha256]) == e.sha256)
    && (forall v :: v in releases ==> exists i :: 0 <= i < |r.index[p]| && Announces(c, r.index[p][i], v, releases[v]))
    && (forall i, j :: 0 <= i < j < |r.index[p]| ==> r.index[p][i].version != r.index[p][j].version)
  }

  ghost predicate PackagesVerify(c: Codec, r: Root)
  {
    forall ns, p :: ns in r.targets && p in r.targets[ns].packages ==> PackageVerifies(c, r, ns, p, r.targets[ns].packages[p])
  }

  /** In every consistent root whose targets list the index, what the targets list verifies, even after a crash. */
  lemma ListedPackagesVerify(c: Codec, r: Root)
    requires Inv(c, r) && ListsIndexed(r)
    ensures PackagesVerify(c, r)
  {
    hide Inv;
    forall ns, p | ns in r.targets && p in r.targets[ns].packages
      ensures PackageVerifies(c, r, ns, p, r.targets[ns].packages[p])
    {
      InvTargets(c, r, ns);
      InvIndexFile(c, r, p);
      forall v | v in r.targets[ns].packages[p]
        ensures exists i :: 0 <= i < |r.index[p]| && Announces(c, r.index[p][i], v, r.targets[ns].packages[p][v])
      {
        assert ReleaseOk(c, r, p, v, r.targets[ns].packages[p][v]);
      }
      forall i | 0 <= i < |r.index[p]|
        ensures
          var e := r.index[p][i];
          e.package == p && e.sha256 in r.artifacts && c.hash(r.artifacts[e.sha256]) == e.sha256
      {
        assert RecordOk(c, r, p, r.index[p][i]);
      }
    }
  }

  lemma InvTargets(c: Codec, r: Root, ns: string)
    requires Inv(c, r) && ns in r.targets
    ensures TargetsOk(c, r, ns, r.targets[ns])
  {
  }

  lemma InvIndexFile(c: Codec, r: Root, p: string)
    requires Inv(c, r) && p in r.index
    ensures IndexFileOk(c, r, p)
  {
  }

  /** A record's size is that of the stored artifact, or the artifact collides with the archive that was published for it. */
  ghost predicate SizeVerifies(c: Codec, attempts: seq<Attempt>, r: Root, e: Record)
  {
    && e.sha256 in r.artifacts
    && (|| |r.artifacts[e.sha256]| == e.sizeBytes
        || exists i :: 0 <= i < |attempts| && CollidesWith(c, r.artifacts[e.sha256], attempts[i].request.blob))
  }

  predicate CollidesWith(c: Codec, stored: Blob, published: Blob)
  {
    stored != published && c.hash(stored) == c.hash(published)
  }

  /** Every record of a history's index is that of one of its publishes. */
  lemma {:induction false} RecordsArePublished(c: Codec, attempts: seq<Attempt>, p: string, e: Record) returns (i: nat)
    requires e in RecordsOf(History(c, attempts), p)
    ensures i < |attempts| && e == RecordFor(c, attempts[i].request)
    decreases |attempts|
  {
    hide Inv, PublishPlan, Prelude, After, RecordFor;
    i := 0;
    if attempts == [] {
      NoRecords(p);
    } else {
      var n := |attempts| - 1;
      var front := attempts[..n];
      CrashSafe(c, front);
      AttemptEffect(c, History(c, front), attempts[n]);
      if e in RecordsOf(History(c, front), p) {
        i := RecordsArePublished(c, front, p, e);
      } else {
        i := n;
      }
    }
  }

  lemma NoRecords(p: string)
    ensures RecordsOf(EMPTY_ROOT, p) == []
  {
  }

  lemma SizesVerify(c: Codec, attempts: seq<Attempt>, p: string, e: Record)
    requires e in RecordsOf(History(c, attempts), p)
    ensures SizeVerifies(c, attempts, History(c, attempts), e)
  {
    hide Inv, History, RecordOk;
    var r := History(c, attempts);
    CrashSafe(c, attempts);
    var k :| 0 <= k < |RecordsOf(r, p)| && RecordsOf(r, p)[k] == e;
    IndexRecord(c, r, p, k);
    RecordStored(c, r, p, e);
    var i := RecordsArePublished(c, attempts, p, e);
    if |r.artifacts[e.sha256]| != e.sizeBytes {
      assert CollidesWith(c, r.artifacts[e.sha256], attempts[i].request.blob);
    }
  }

  lemma RecordStored(c: Codec, r: Root, p: string, e: Record)
    requires RecordOk(c, r, p, e)
    ensures e.sha256 in r.artifacts && c.hash(r.artifacts[e.sha256]) == e.sha256
  {
  }

  /** The verifier's other checks, on the listed packages and on artifacts, never fail in a history, collisions aside. */
  lemma HistoryPackagesVerify(c: Codec, attempts: seq<Attempt>)
    ensures PackagesVerify(c, History(c, attempts))
    ensures forall p, e :: e in RecordsOf(History(c, attempts), p) ==> SizeVerifies(c, attempts, History(c, attempts), e)
  {
    hide Inv, PackagesVerify, SizeVerifies, ListsIndexed, History;
    CrashSafe(c, attempts);
    ListedInIndex(c, attempts);
    ListedPackagesVerify(c, History(c, attempts));
    forall p, e | e in RecordsOf(History(c, attempts), p) ensures SizeVerifies(c, attempts, History(c, attempts), e) {
      SizesVerify(c, attempts, p, e);
    }
  }

  /**
   Whatever crashed before, a completed publish leaves a root that the verifier accepts: metadata digests,
   the checkpoint over the whole log, every listed package with its artifacts and releases, and every
   artifact's size, unless it collides with what was published.
   */
  lemma CompletedVerifies(c: Codec, attempts: seq<Attempt>)
    requires EndsCompleted(c, attempts)
    ensures MetadataVerifies(c, History(c, attempts)) && PackagesVerify(c, History(c, attempts))
    ensures forall p, e :: e in RecordsOf(History(c, attempts), p) ==> SizeVerifies(c, attempts, History(c, attempts), e)
  {
    hide Inv, PublishPlan, Refreshed, MetadataVerifies, NamespaceOrder, AfterRelease, PackagesVerify, SizeVerifies;
    var front, a := attempts[..|attempts| - 1], attempts[|attempts| - 1];
    var r := History(c, front);
    CrashSafe(c, front);
    CrashSafe(c, attempts);
    PublishPlanSafe(c, r, a.request, a.order);
    var ws := Planned(c, r, a).writes;
    assert ws[..|ws|] == ws;
    RefreshedVerifies(c, AfterRelease(c, r, a.request), a.order);
    HistoryPackagesVerify(c, attempts);
  }

  /** Targets metadata never lists a package without an index file. */
  ghost predicate ListsIndexed(r: Root)
  {
    forall ns, p :: ns in r.targets && p in r.targets[ns].packages ==> p in r.index
  }

  lemma {:induction false} ListedInIndex(c: Codec, attempts: seq<Attempt>)
    ensures ListsIndexed(History(c, attempts))
  {
    hide Inv, Executed, ListsIndexed, Journal, History;
    NothingListsIndexed();
    CrashSafe(c, attempts);
    WritesListIndexed(c, EMPTY_ROOT, Journal(c, attempts));
  }

  lemma NothingListsIndexed()
    ensures ListsIndexed(EMPTY_ROOT)
  {
  }

  lemma {:induction false} WritesListIndexed(c: Codec, r: Root, ws: seq<Write>)
    requires ListsIndexed(r) && AllOk(c, r, ws)
    ensures ListsIndexed(ApplyAll(r, ws))
    decreases |ws|
  {
    hide Apply, ListsIndexed, WriteOk;
    if ws != [] {
      WriteListsIndexed(c, r, ws[0]);
      WritesListIndexed(c, Apply(r, ws[0]), ws[1..]);
    }
  }

  lemma WriteListsIndexed(c: Codec, r: Root, w: Write)
    requires ListsIndexed(r) && WriteOk(c, r, w)
    ensures ListsIndexed(Apply(r, w))
  {
    hide CheckpointOk, RecordOk;
  }

  lemma RefreshedVerifies(c: Codec, r: Root, order: seq<string>)
    requires Contiguous(r.leaves) && NamespaceOrder(r, order)
    ensures MetadataVerifies(c, Refreshed(c, r, order))
  {
    hide CheckpointOk, RefreshedTargets, TargetsFor, NextCheckpoint;
    NextCheckpointOk(c, r);
    NextCheckpointSize(c, r);
    forall ns | ns in Namespaces(r)
      ensures ns in RefreshedTargets(c, r, order) && RefreshedTargets(c, r, order)[ns] == TargetsFor(c, r, ns)
    {
      RefreshedLists(c, r, order, ns);
    }
  }

  lemma NextCheckpointSize(c: Codec, r: Root)
    requires Contiguous(r.leaves)
    ensures NextCheckpoint(c, r).treeSize == |r.leaves|
  {
  }
}
