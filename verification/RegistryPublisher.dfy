/** The publisher as it works: one registry root on disk, changed file by file. */
module RegistryPublisher {
  import opened Wrappers
  import opened Sorting
  import opened PackageNames
  import opened RegistryModel
  import opened RegistryPublish

  method LogRootHash(c: Codec, leafHashes: seq<Digest>) returns (state: Digest)
    ensures state == ChainHash(c, leafHashes)
  {
    state := ZERO_DIGEST;
    for i := 0 to |leafHashes|
      invariant state == ChainHash(c, leafHashes[..i])
    {
      assert leafHashes[..i + 1][..i] == leafHashes[..i];
      state := c.hash(state + leafHashes[i]);
    }
    assert leafHashes[..|leafHashes|] == leafHashes;
  }

  /** A directory listing: every name once, in no particular order. */
  method Enumerated<T(==)>(names: set<T>) returns (listing: seq<T>)
    ensures forall x :: x in listing <==> x in names
    ensures forall i, j :: 0 <= i < j < |listing| ==> listing[i] != listing[j]
    ensures |listing| == |names|
  {
    listing := [];
    var rest := names;
    while rest != {}
      invariant rest <= names
      invariant forall x :: x in listing <==> x in names - rest
      invariant forall i, j :: 0 <= i < j < |listing| ==> listing[i] != listing[j]
      invariant |listing| + |rest| == |names|
      decreases |rest|
    {
      var x :| x in rest;
      assert x !in listing;
      assert names - (rest - {x}) == (names - rest) + {x};
      rest := rest - {x};
      listing := listing + [x];
    }
  }

  method SortedPaths(leaves: map<nat, Leaf>) returns (paths: seq<nat>)
    ensures forall n :: n in paths <==> n in leaves
    ensures |paths| == |leaves| && forall j, k :: 0 <= j < k < |paths| ==> paths[j] < paths[k]
  {
    hide TotalOrder;
    var listing := Enumerated(leaves.Keys);
    IntOrder();
    var key := (n: nat) => n as int;
    SortedDistinct(listing, key, IntLe());
    paths := Sort(listing, key, IntLe());
    assert |leaves.Keys| == |leaves|;
    forall j, k | 0 <= j < k < |paths| ensures paths[j] < paths[k] {
      assert IntLe()(key(paths[j]), key(paths[k]));
    }
  }

  /** The leaf files in name order, refused unless they are numbered `1, 2, 3, …`. */
  method LeafSequence(leaves: map<nat, Leaf>) returns (numbers: Option<seq<nat>>)
    ensures numbers.Some? <==> Contiguous(leaves)
    ensures numbers.Some? ==>
              |numbers.value| == |leaves| && forall i :: 0 <= i < |leaves| ==> numbers.value[i] == i + 1
  {
    var paths := SortedPaths(leaves);
    var i := 0;
    while i < |paths|
      invariant 0 <= i <= |paths|
      invariant forall j :: 0 <= j < i ==> paths[j] == j + 1
    {
      if paths[i] != i + 1 {
        GapFound(leaves, paths, i);
        return None;
      }
      i := i + 1;
    }
    return Some(paths);
  }

  lemma GapFound(leaves: map<nat, Leaf>, paths: seq<nat>, i: nat)
    requires forall n :: n in paths <==> n in leaves
    requires |paths| == |leaves| && forall j, k :: 0 <= j < k < |paths| ==> paths[j] < paths[k]
    requires i < |paths| && paths[i] != i + 1 && forall j :: 0 <= j < i ==> paths[j] == j + 1
    ensures !Contiguous(leaves)
  {
    if i > 0 {
      assert paths[i - 1] < paths[i];
    }
    if Contiguous(leaves) {
      NumberPresent(leaves, paths, i);
    }
  }

  lemma NumberPresent(leaves: map<nat, Leaf>, paths: seq<nat>, i: nat)
    requires (forall n :: n in paths <==> n in leaves) && |paths| == |leaves| && i < |paths| && Contiguous(leaves)
    ensures i + 1 in paths && paths[i] >= 1
  {
    ContiguousNumbers(leaves);
    assert paths[i] in leaves;
  }

  /** The releases of one index file, refused when it is empty or names another package. */
  method CollectReleases(c: Codec, package: string, records: seq<Record>) returns (releases: Option<map<string, Release>>)
    ensures releases.Some? <==> ReadableFile(package, records)
    ensures releases.Some? ==> releases.value == ReleasesOf(c, records)
  {
    if records == [] {
      return None;
    }
    var found: map<string, Release> := map[];
    for i := 0 to |records|
      invariant found == ReleasesOf(c, records[..i])
      invariant forall j :: 0 <= j < i ==> records[j].package == package
    {
      var e := records[i];
      if e.package != package {
        return None;
      }
      assert records[..i + 1][..i] == records[..i];
      found := found[e.version := Release(c.hash(c.recordBytes(e)), e.sha256)];
    }
    assert records[..|records|] == records;
    return Some(found);
  }

  datatype PackageMaps = PackageMaps(
    order: seq<string>,
    packages: map<string, map<string, map<string, Release>>>,
    indexMeta: map<string, Digest>)

  /** The namespaces of the collected files, in the order in which they were first met. */
  ghost predicate NamespacesCollected(files: seq<string>, m: PackageMaps)
  {
    && (forall ns :: ns in m.packages <==> exists p :: p in files && NamespaceOf(p) == ns)
    && (forall ns :: ns in m.order <==> ns in m.packages)
    && (forall i, j :: 0 <= i < j < |m.order| ==> m.order[i] != m.order[j])
  }

  function ListedOf(c: Codec, index: map<string, seq<Record>>, files: seq<string>, ns: string): map<string, map<string, Release>>
  {
    map p | p in files && p in index && NamespaceOf(p) == ns :: ReleasesOf(c, index[p])
  }

  ghost predicate PackagesCollected(c: Codec, index: map<string, seq<Record>>, files: seq<string>, m: PackageMaps)
  {
    forall ns :: ns in m.packages ==> m.packages[ns] == ListedOf(c, index, files, ns)
  }

  ghost predicate DigestsCollected(c: Codec, index: map<string, seq<Record>>, files: seq<string>, m: PackageMaps)
    requires forall p :: p in files ==> p in index
  {
    && (forall p :: p in m.indexMeta <==> p in files)
    && (forall p :: p in m.indexMeta && p in files ==> m.indexMeta[p] == c.hash(c.indexBytes(index[p])))
  }

  /** What was collected from the index files `files`. */
  ghost predicate Collected(c: Codec, index: map<string, seq<Record>>, files: seq<string>, m: PackageMaps)
  {
    && (forall p :: p in files ==> p in index)
    && NamespacesCollected(files, m)
    && PackagesCollected(c, index, files, m)
    && DigestsCollected(c, index, files, m)
  }

  function WithPackage(m: PackageMaps, p: string, releases: map<string, Release>, digest: Digest): PackageMaps
  {
    var ns := NamespaceOf(p);
    var known := if ns in m.packages then m.packages[ns] else map[];
    PackageMaps(if ns in m.packages then m.order else m.order + [ns], m.packages[ns := known[p := releases]], m.indexMeta[p := digest])
  }

  lemma NamespacesNext(files: seq<string>, m: PackageMaps, p: string, releases: map<string, Release>, digest: Digest)
    requires NamespacesCollected(files, m)
    ensures NamespacesCollected(files + [p], WithPackage(m, p, releases, digest))
  {
    hide NamespaceOf;
    var next := WithPackage(m, p, releases, digest);
    forall n ensures n in next.packages <==> exists q :: q in files + [p] && NamespaceOf(q) == n {
      assert p in files + [p];
      if q :| q in files && NamespaceOf(q) == n {
        assert q in files + [p];
      }
    }
  }

  lemma ListedNext(c: Codec, index: map<string, seq<Record>>, files: seq<string>, p: string, ns: string)
    requires p in index
    ensures ListedOf(c, index, files + [p], ns)
            == if NamespaceOf(p) == ns then ListedOf(c, index, files, ns)[p := ReleasesOf(c, index[p])] else ListedOf(c, index, files, ns)
  {
    hide NamespaceOf, ReleasesOf;
  }

  lemma NothingListed(c: Codec, index: map<string, seq<Record>>, files: seq<string>, m: PackageMaps, ns: string)
    requires NamespacesCollected(files, m) && ns !in m.packages
    ensures ListedOf(c, index, files, ns) == map[]
  {
    hide NamespaceOf, ReleasesOf;
    assert forall x :: x in files ==> NamespaceOf(x) != ns;
  }

  lemma PackagesNext(c: Codec, index: map<string, seq<Record>>, files: seq<string>, m: PackageMaps, p: string, digest: Digest)
    requires p in index && NamespacesCollected(files, m) && PackagesCollected(c, index, files, m)
    ensures PackagesCollected(c, index, files + [p], WithPackage(m, p, ReleasesOf(c, index[p]), digest))
  {
    hide NamespaceOf, ReleasesOf, ListedOf, NamespacesCollected;
    var next := WithPackage(m, p, ReleasesOf(c, index[p]), digest);
    forall n | n in next.packages ensures next.packages[n] == ListedOf(c, index, files + [p], n) {
      ListedNext(c, index, files, p, n);
      if n !in m.packages {
        NothingListed(c, index, files, m, n);
      }
    }
  }

  lemma CollectedNext(c: Codec, index: map<string, seq<Record>>, files: seq<string>, m: PackageMaps, p: string)
    requires Collected(c, index, files, m) && p in index
    ensures Collected(c, index, files + [p], WithPackage(m, p, ReleasesOf(c, index[p]), c.hash(c.indexBytes(index[p]))))
  {
    hide NamespacesCollected, PackagesCollected, ReleasesOf, NamespaceOf;
    NamespacesNext(files, m, p, ReleasesOf(c, index[p]), c.hash(c.indexBytes(index[p])));
    PackagesNext(c, index, files, m, p, c.hash(c.indexBytes(index[p])));
  }

  method SortedFiles(index: map<string, seq<Record>>) returns (files: seq<string>)
    ensures forall p :: p in files <==> p in index
    ensures SortedBy(files, StringKey(), StringLe())
  {
    hide TotalOrder;
    var listing := Enumerated(index.Keys);
    StringOrder();
    SortedDistinct(listing, StringKey(), StringLe());
    files := Sort(listing, StringKey(), StringLe());
  }

  /** The package maps of every namespace and the digests of the index files. */
  method CollectPackageMaps(c: Codec, index: map<string, seq<Record>>) returns (maps: Option<PackageMaps>)
    ensures maps.Some? <==> forall p :: p in index ==> ReadableFile(p, index[p])
    ensures maps.Some? ==> exists files: seq<string> ::
                (forall p :: p in files <==> p in index) && Collected(c, index, files, maps.value)
  {
    hide Collected, ReleasesOf, ReadableFile, WithPackage;
    var files := SortedFiles(index);
    var m := PackageMaps([], map[], map[]);
    NothingCollected(c, index);
    for i := 0 to |files|
      invariant Collected(c, index, files[..i], m)
      invariant forall j :: 0 <= j < i ==> ReadableFile(files[j], index[files[j]])
    {
      var p := files[i];
      assert p in files;
      var releases := CollectReleases(c, p, index[p]);
      if releases.None? {
        return None;
      }
      CollectedNext(c, index, files[..i], m, p);
      assert files[..i + 1] == files[..i] + [p];
      m := WithPackage(m, p, releases.value, c.hash(c.indexBytes(index[p])));
    }
    assert files[..|files|] == files;
    return Some(m);
  }

  lemma NothingCollected(c: Codec, index: map<string, seq<Record>>)
    ensures Collected(c, index, [], PackageMaps([], map[], map[]))
  {
  }

  /** Collected over all index files, the maps are those of the root. */
  lemma CollectedAll(c: Codec, r: Root, files: seq<string>, m: PackageMaps)
    requires (forall p :: p in files <==> p in r.index) && Collected(c, r.index, files, m)
    ensures NamespaceOrder(r, m.order) && m.packages.Keys == Namespaces(r)
    ensures forall ns :: ns in m.packages ==> m.packages[ns] == PackagesOf(c, r, ns)
    ensures m.indexMeta == IndexDigests(c, r)
  {
    hide ReleasesOf, NamespaceOf;
    forall ns ensures ns in m.packages <==> ns in Namespaces(r) {
      if ns in m.packages { var p :| p in files && NamespaceOf(p) == ns; }
    }
    forall ns | ns in m.packages ensures m.packages[ns] == PackagesOf(c, r, ns) {
    }
  }

  lemma Snoc(r: Root, ws: seq<Write>, w: Write)
    ensures ApplyAll(r, ws + [w]) == Apply(ApplyAll(r, ws), w)
  {
    hide Apply;
    ApplyAllAppend(r, ws, [w]);
    assert [w][1..] == [];
  }

  /** The next checkpoint: all leaves, hashed in order. */
  method NextLogHead(c: Codec, leaves: map<nat, Leaf>, numbers: seq<nat>, current: Option<Checkpoint>, ghost r: Root)
    returns (k: Checkpoint)
    requires Contiguous(leaves) && |numbers| == |leaves| && forall i :: 0 <= i < |leaves| ==> numbers[i] == i + 1
    requires r.leaves == leaves && r.checkpoint == current
    ensures k == NextCheckpoint(c, r)
  {
    hide ChainHash;
    ContiguousNumbers(leaves);
    var leafHashes := seq(|numbers|, i requires 0 <= i < |numbers| && numbers[i] in leaves => c.hash(c.leafBytes(leaves[numbers[i]])));
    assert leafHashes == LeafHashes(c, r.leaves, |r.leaves|);
    var rootHash := LogRootHash(c, leafHashes);
    k := Checkpoint((if current.Some? then current.value.version else 0) + 1, |leafHashes|, rootHash);
  }

  lemma SnapshotIs(c: Codec, r: Root, s: Snapshot)
    requires Contiguous(r.leaves)
    requires s.version == (if r.snapshot.Some? then r.snapshot.value.version else 0) + 1
    requires s.indexMeta == IndexDigests(c, r)
    requires s.targetsMeta == NamespaceDigests(c, r)
    requires s.checkpointMeta == c.hash(c.checkpointBytes(NextCheckpoint(c, r)))
    ensures s == NextSnapshot(c, r)
  {
    hide Contiguous, NextCheckpoint, TargetsFor, Namespaces;
  }

  lemma TimestampIs(c: Codec, r: Root, t: Timestamp)
    requires Contiguous(r.leaves)
    requires t.version == (if r.timestamp.Some? then r.timestamp.value.version else 0) + 1
    requires t.snapshotMeta == c.hash(c.snapshotBytes(NextSnapshot(c, r)))
    ensures t == NextTimestamp(c, r)
  {
    hide Contiguous, NextSnapshot;
  }

  lemma HeadWritesAre(c: Codec, r: Root, k: Checkpoint, s: Snapshot, t: Timestamp)
    requires Contiguous(r.leaves) && k == NextCheckpoint(c, r) && s == NextSnapshot(c, r) && t == NextTimestamp(c, r)
    ensures [PutCheckpoint(k), PutSnapshot(s), PutTimestamp(t)] == HeadWrites(c, r)
  {
    hide Contiguous, NextCheckpoint, NextSnapshot, NextTimestamp;
  }

  lemma SnocTwice<T>(xs: seq<T>, a: T, b: T)
    ensures xs + [a] + [b] == xs + [a, b]
  {
  }

  lemma SnocThrice<T>(xs: seq<T>, a: T, b: T, c: T)
    ensures xs + [a] + [b] + [c] == xs + [a, b, c]
  {
  }

  class RegistryRoot {
    var hasConfig: bool
    var hasRootMeta: bool
    var artifacts: map<Digest, Blob>
    var index: map<string, seq<Record>>
    var leaves: map<nat, Leaf>
    var targets: map<string, Targets>
    var checkpoint: Option<Checkpoint>
    var snapshot: Option<Snapshot>
    var timestamp: Option<Timestamp>
    ghost var journal: seq<Write>

    function View(): Root
      reads this
    {
      Root(hasConfig, hasRootMeta, artifacts, index, leaves, targets, checkpoint, snapshot, timestamp)
    }

    /** Exactly the writes `ws` have happened since the root was `r` and the journal `j`. */
    ghost predicate Wrote(r: Root, j: seq<Write>, ws: seq<Write>)
      reads this
    {
      View() == ApplyAll(r, ws) && journal == j + ws
    }

    lemma NothingWritten()
      ensures Wrote(View(), journal, [])
    {
    }

    constructor ()
      ensures View() == EMPTY_ROOT && journal == []
    {
      hasConfig, hasRootMeta := false, false;
      artifacts, index, leaves, targets := map[], map[], map[], map[];
      checkpoint, snapshot, timestamp := None, None, None;
      journal := [];
    }

    /** One file is created, replaced, or extended by a line. */
    method Put(w: Write)
      modifies this
      ensures View() == Apply(old(View()), w) && journal == old(journal) + [w]
    {
      match w {
        case PutConfig => hasConfig := true;
        case PutRootMeta => hasRootMeta := true;
        case PutArtifact(d, b) => artifacts := artifacts[d := b];
        case AppendIndex(e) =>
          index := index[e.package := (if e.package in index then index[e.package] else []) + [e]];
        case PutLeaf(n, l) => leaves := leaves[n := l];
        case PutTargets(ns, t) => targets := targets[ns := t];
        case PutCheckpoint(k) => checkpoint := Some(k);
        case PutSnapshot(s) => snapshot := Some(s);
        case PutTimestamp(t) => timestamp := Some(t);
      }
      journal := journal + [w];
    }

    method PutNext(w: Write, ghost r: Root, ghost j: seq<Write>, ghost ws: seq<Write>)
      requires Wrote(r, j, ws)
      modifies this
      ensures View() == Apply(old(View()), w) && Wrote(r, j, ws + [w])
    {
      hide Apply;
      Snoc(r, ws, w);
      Put(w);
      assert j + ws + [w] == j + (ws + [w]);
    }

    method Initialize(c: Codec) returns (error: Option<PublishError>)
      modifies this
      ensures error == InitPlan(c, old(View())).error
      ensures View() == ApplyAll(old(View()), InitPlan(c, old(View())).writes)
      ensures journal == old(journal) + InitPlan(c, old(View())).writes
    {
      hide Apply;
      ghost var r, j := View(), journal;
      if hasConfig != hasRootMeta {
        return Some(PartiallyInitialized);
      }
      if hasConfig {
        return None;
      }
      ghost var ws := InitPlan(c, r).writes;
      Put(PutConfig);
      Put(PutCheckpoint(Checkpoint(1, 0, ZERO_DIGEST)));
      var s := Snapshot(1, map[], map[], c.hash(c.checkpointBytes(Checkpoint(1, 0, ZERO_DIGEST))));
      Put(PutSnapshot(s));
      Put(PutTimestamp(Timestamp(1, c.hash(c.snapshotBytes(s)))));
      Put(PutRootMeta);
      assert ws == [ws[0], ws[1], ws[2], ws[3], ws[4]];
      FiveApplied(r, ws[0], ws[1], ws[2], ws[3], ws[4]);
      return None;
    }

    method CopyIfMissingOrSame(c: Codec, digest: Digest, blob: Blob) returns (same: bool)
      modifies this
      ensures same <==> (digest in old(artifacts) ==> c.hash(old(artifacts)[digest]) == c.hash(blob))
      ensures View() == old(View()).(artifacts := artifacts)
      ensures Wrote(old(View()), old(journal), if digest in old(artifacts) then [] else [PutArtifact(digest, blob)])
    {
      ghost var r := View();
      NoneApplied(r);
      if digest in artifacts {
        return c.hash(artifacts[digest]) == c.hash(blob);
      }
      Put(PutArtifact(digest, blob));
      Snoc(r, [], PutArtifact(digest, blob));
      assert [] + [PutArtifact(digest, blob)] == [PutArtifact(digest, blob)];
      return true;
    }

    method AppendReleaseRecord(c: Codec, q: Request) returns (error: Option<PublishError>)
      modifies this
      ensures error == ReleasePlan(c, old(View()), q).error
      ensures Wrote(old(View()), old(journal), ReleasePlan(c, old(View()), q).writes)
    {
      hide ValidPackageName, HasVersion, ApplyAll, Apply, Contiguous, LeafFor, Wrote;
      ghost var r, j := View(), journal;
      NothingWritten();
      if !ValidPackageName(q.package) {
        return Some(InvalidName);
      }
      var e := RecordFor(c, q);
      var same := CopyIfMissingOrSame(c, e.sha256, q.blob);
      if !same {
        return Some(DifferentContent);
      }
      ghost var ws := if e.sha256 in r.artifacts then [] else [PutArtifact(e.sha256, q.blob)];
      if q.package in index {
        var published := IsPublished(index[q.package], q.version);
        if published {
          return Some(AlreadyPublished);
        }
      }
      NoVersion(q.version);
      error := AppendAndLog(c, e, r, j, ws);
    }

    /** The index line first, then its leaf under the next number. */
    method AppendAndLog(c: Codec, e: Record, ghost r: Root, ghost j: seq<Write>, ghost ws: seq<Write>)
      returns (error: Option<PublishError>)
      requires Wrote(r, j, ws)
      modifies this
      ensures error == if Contiguous(old(leaves)) then None else Some(LeavesNotContiguous)
      ensures
        var n := |old(leaves)| + 1;
        Wrote(r, j, if error.Some? then ws + [AppendIndex(e)] else ws + [AppendIndex(e), PutLeaf(n, LeafFor(c, e, n))])
    {
      hide Apply, Contiguous, LeafFor, Wrote;
      AppendIs(View(), e);
      PutNext(AppendIndex(e), r, j, ws);
      var numbers := LeafSequence(leaves);
      if numbers.None? {
        return Some(LeavesNotContiguous);
      }
      var sequence := |numbers.value| + 1;
      var logged := PutLeaf(sequence, LeafFor(c, e, sequence));
      PutNext(logged, r, j, ws + [AppendIndex(e)]);
      SnocTwice(ws, AppendIndex(e), logged);
      return None;
    }

    /** Targets of every namespace, then checkpoint, snapshot and timestamp, each one version up. */
    method RefreshSignedMetadata(c: Codec) returns (error: Option<PublishError>, ghost order: seq<string>)
      modifies this
      ensures error == RefreshPlan(c, old(View()), order).error
      ensures View() == ApplyAll(old(View()), RefreshPlan(c, old(View()), order).writes)
      ensures journal == old(journal) + RefreshPlan(c, old(View()), order).writes
      ensures error.None? ==> NamespaceOrder(old(View()), order)
    {
      hide Collected, ReleasesOf, NamespaceOf, NamespaceOrder, Contiguous, HeadWrites, TargetsWrites, ApplyAll, ReadableFile;
      ghost var r, j := View(), journal;
      NoneApplied(r);
      order := [];
      var maps := CollectPackageMaps(c, index);
      if maps.None? {
        return Some(BadIndex), order;
      }
      var m := maps.value;
      ghost var files :| (forall p :: p in files <==> p in index) && Collected(c, index, files, m);
      CollectedAll(c, r, files, m);
      order := m.order;
      var targetsMeta := RefreshTargets(c, m);
      var numbers := LeafSequence(leaves);
      if numbers.None? {
        return Some(LeavesNotContiguous), order;
      }
      RefreshHead(c, m, targetsMeta, numbers.value, r, j);
      return None, order;
    }

    method RefreshTargets(c: Codec, m: PackageMaps) returns (targetsMeta: map<string, Digest>)
      requires NamespaceOrder(View(), m.order) && m.packages.Keys == Namespaces(View())
      requires forall ns :: ns in m.packages ==> m.packages[ns] == PackagesOf(c, View(), ns)
      modifies this
      ensures View() == ApplyAll(old(View()), TargetsWrites(c, old(View()), m.order))
      ensures journal == old(journal) + TargetsWrites(c, old(View()), m.order)
      ensures View() == old(View()).(targets := targets)
      ensures targetsMeta == NamespaceDigests(c, old(View()))
    {
      hide PackagesOf, ApplyAll, Apply, TargetsWrites, TargetsFor, RefreshedTargets;
      ghost var r, j := View(), journal;
      targetsMeta := map[];
      NoTargetsRefreshed(c, r);
      assert m.order[..0] == [];
      for i := 0 to |m.order|
        invariant Wrote(r, j, TargetsWrites(c, r, m.order[..i]))
        invariant View() == r.(targets := RefreshedTargets(c, r, m.order[..i]))
        invariant targetsMeta == TargetsDigests(c, r, m.order[..i])
      {
        var ns := m.order[i];
        ghost var done := m.order[..i];
        NotYetRefreshed(c, r, done, ns);
        var version := if ns in targets then targets[ns].version else 0;
        var t := Targets(version + 1, ns, m.packages[ns]);
        NextTargets(c, r, ns, version);
        PutTargetsIs(View(), ns, t);
        PutNext(PutTargets(ns, t), r, j, TargetsWrites(c, r, done));
        assert m.order[..i + 1] == done + [ns];
        RefreshedNext(c, r, done, ns);
        targetsMeta := targetsMeta[ns := c.hash(c.targetsBytes(targets[ns]))];
      }
      assert m.order[..|m.order|] == m.order;
      TargetsDigestsAll(c, r, m.order);
    }

    /** The metadata that covers everything: checkpoint, then snapshot, then timestamp. */
    method RefreshHead(c: Codec, m: PackageMaps, targetsMeta: map<string, Digest>, numbers: seq<nat>,
        ghost r: Root, ghost j: seq<Write>)
      requires View() == r.(targets := targets) && Wrote(r, j, TargetsWrites(c, r, m.order))
      requires m.indexMeta == IndexDigests(c, r)
      requires targetsMeta == NamespaceDigests(c, r)
      requires Contiguous(leaves) && |numbers| == |leaves| && forall i :: 0 <= i < |leaves| ==> numbers[i] == i + 1
      modifies this
      ensures View() == ApplyAll(r, TargetsWrites(c, r, m.order) + HeadWrites(c, r))
      ensures journal == j + (TargetsWrites(c, r, m.order) + HeadWrites(c, r))
    {
      hide ApplyAll, Apply, TargetsWrites, Contiguous, NextCheckpoint, NextSnapshot, NextTimestamp, IndexDigests, NamespaceDigests, HeadWrites, Wrote;
      ghost var ws := TargetsWrites(c, r, m.order);
      var k := NextLogHead(c, leaves, numbers, checkpoint, r);
      HeadIs(View(), k, Snapshot(0, map[], map[], ZERO_DIGEST), Timestamp(0, ZERO_DIGEST));
      PutNext(PutCheckpoint(k), r, j, ws);
      var s := Snapshot((if snapshot.Some? then snapshot.value.version else 0) + 1,
                        m.indexMeta, targetsMeta, c.hash(c.checkpointBytes(k)));
      SnapshotIs(c, r, s);
      HeadIs(View(), k, s, Timestamp(0, ZERO_DIGEST));
      PutNext(PutSnapshot(s), r, j, ws + [PutCheckpoint(k)]);
      var t := Timestamp((if timestamp.Some? then timestamp.value.version else 0) + 1, c.hash(c.snapshotBytes(s)));
      TimestampIs(c, r, t);
      PutNext(PutTimestamp(t), r, j, ws + [PutCheckpoint(k)] + [PutSnapshot(s)]);
      HeadWritten(c, r, j, ws, k, s, t);
    }

    lemma HeadWritten(c: Codec, r: Root, j: seq<Write>, ws: seq<Write>, k: Checkpoint, s: Snapshot, t: Timestamp)
      requires Wrote(r, j, ws + [PutCheckpoint(k)] + [PutSnapshot(s)] + [PutTimestamp(t)])
      requires Contiguous(r.leaves) && k == NextCheckpoint(c, r) && s == NextSnapshot(c, r) && t == NextTimestamp(c, r)
      ensures View() == ApplyAll(r, ws + HeadWrites(c, r))
      ensures journal == j + (ws + HeadWrites(c, r))
    {
      hide ApplyAll, Contiguous, NextCheckpoint, NextSnapshot, NextTimestamp, HeadWrites;
      SnocThrice(ws, PutCheckpoint(k), PutSnapshot(s), PutTimestamp(t));
      HeadWritesAre(c, r, k, s, t);
    }

    /** One publish makes exactly the planned writes, in the planned order. */
    method Publish(c: Codec, q: Request) returns (error: Option<PublishError>, ghost order: seq<string>)
      modifies this
      ensures error == PublishPlan(c, old(View()), q, order).error
      ensures View() == ApplyAll(old(View()), PublishPlan(c, old(View()), q, order).writes)
      ensures journal == old(journal) + PublishPlan(c, old(View()), q, order).writes
      ensures error.None? ==> NamespaceOrder(AfterRelease(c, old(View()), q), order)
    {
      hide InitPlan, ReleasePlan, RefreshPlan, NamespaceOrder, ApplyAll;
      ghost var r, j := View(), journal;
      order := [];
      error := Initialize(c);
      ghost var init := InitPlan(c, r).writes;
      if error.Some? {
        return;
      }
      ghost var r1 := View();
      error := AppendReleaseRecord(c, q);
      ghost var release := ReleasePlan(c, r1, q).writes;
      ApplyAllAppend(r, init, release);
      if error.Some? {
        assert j + init + release == j + (init + release);
        return;
      }
      ghost var r2 := View();
      error, order := RefreshSignedMetadata(c);
      ghost var refresh := RefreshPlan(c, r2, order).writes;
      ApplyAllAppend(r, init + release, refresh);
      assert j + init + release + refresh == j + (init + release + refresh);
    }
  }

  function TargetsDigests(c: Codec, r: Root, order: seq<string>): map<string, Digest>
  {
    map ns | ns in order :: c.hash(c.targetsBytes(TargetsFor(c, r, ns)))
  }

  lemma NoTargetsRefreshed(c: Codec, r: Root)
    ensures TargetsWrites(c, r, []) == [] && TargetsDigests(c, r, []) == map[]
    ensures r == r.(targets := RefreshedTargets(c, r, []))
    ensures ApplyAll(r, []) == r
  {
  }

  lemma {:induction false} NotYetRefreshed(c: Codec, r: Root, order: seq<string>, ns: string)
    requires ns !in order
    ensures ns in RefreshedTargets(c, r, order) <==> ns in r.targets
    ensures ns in r.targets ==> RefreshedTargets(c, r, order)[ns] == r.targets[ns]
  {
    hide TargetsFor;
    if order != [] {
      NotYetRefreshed(c, r, order[..|order| - 1], ns);
    }
  }

  lemma RefreshedNext(c: Codec, r: Root, order: seq<string>, ns: string)
    ensures TargetsWrites(c, r, order + [ns]) == TargetsWrites(c, r, order) + [PutTargets(ns, TargetsFor(c, r, ns))]
    ensures RefreshedTargets(c, r, order + [ns]) == RefreshedTargets(c, r, order)[ns := TargetsFor(c, r, ns)]
    ensures TargetsDigests(c, r, order + [ns]) == TargetsDigests(c, r, order)[ns := c.hash(c.targetsBytes(TargetsFor(c, r, ns)))]
  {
    hide TargetsFor;
    assert (order + [ns])[..|order|] == order;
  }

  lemma TargetsDigestsAll(c: Codec, r: Root, order: seq<string>)
    requires NamespaceOrder(r, order)
    ensures TargetsDigests(c, r, order) == NamespaceDigests(c, r)
  {
    hide TargetsFor, Namespaces;
  }

  lemma NextTargets(c: Codec, r: Root, ns: string, version: nat)
    requires version == if ns in r.targets then r.targets[ns].version else 0
    ensures Targets(version + 1, ns, PackagesOf(c, r, ns)) == TargetsFor(c, r, ns)
  {
  }

  lemma PutTargetsIs(r: Root, ns: string, t: Targets)
    ensures Apply(r, PutTargets(ns, t)) == r.(targets := r.targets[ns := t])
  {
  }

  lemma AppendIs(r: Root, e: Record)
    ensures Apply(r, AppendIndex(e)).leaves == r.leaves
  {
  }

  lemma HeadIs(r: Root, k: Checkpoint, s: Snapshot, t: Timestamp)
    ensures Apply(r, PutCheckpoint(k)) == r.(checkpoint := Some(k))
    ensures Apply(r, PutSnapshot(s)) == r.(snapshot := Some(s))
    ensures Apply(r, PutTimestamp(t)) == r.(timestamp := Some(t))
  {
  }

  lemma NoneApplied(r: Root)
    ensures ApplyAll(r, []) == r
  {
  }

  method IsPublished(records: seq<Record>, version: string) returns (published: bool)
    ensures published == HasVersion(records, version)
  {
    for i := 0 to |records|
      invariant forall k :: 0 <= k < i ==> records[k].version != version
    {
      if records[i].version == version {
        return true;
      }
    }
    return false;
  }
}
