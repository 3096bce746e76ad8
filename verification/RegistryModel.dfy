/**
 The static registry root as a value, the writes a publisher makes to it, and the plan of writes
 of one publish. Hash and encodings are parameters: nothing is assumed about them.
 */
module RegistryModel {
  import opened Wrappers
  import opened PackageNames
  import opened Bytes

  type Blob = seq<Byte>

  type Digest = d: seq<Byte> | |d| == 32 witness seq(32, _ => 0)

  datatype Record = Record(package: string, version: string, sha256: Digest, sizeBytes: nat)

  datatype Leaf = Leaf(sequence: nat, package: string, version: string, recordDigest: Digest, artifactDigest: Digest)

  datatype Release = Release(recordDigest: Digest, artifactDigest: Digest)

  datatype Targets = Targets(version: nat, namespace: string, packages: map<string, map<string, Release>>)

  datatype Checkpoint = Checkpoint(version: nat, treeSize: nat, rootHash: Digest)

  datatype Snapshot = Snapshot(
    version: nat,
    indexMeta: map<string, Digest>,
    targetsMeta: map<string, Digest>,
    checkpointMeta: Digest)

  datatype Timestamp = Timestamp(version: nat, snapshotMeta: Digest)

  /** SHA-256 and the canonical encodings of everything that is hashed. */
  datatype Codec = Codec(
    hash: Blob -> Digest,
    recordBytes: Record -> Blob,
    leafBytes: Leaf -> Blob,
    indexBytes: seq<Record> -> Blob,
    targetsBytes: Targets -> Blob,
    checkpointBytes: Checkpoint -> Blob,
    snapshotBytes: Snapshot -> Blob)

  /** Files of a registry root. Artifacts are filed by digest, indexes by package, targets by namespace. */
  datatype Root = Root(
    hasConfig: bool,
    hasRootMeta: bool,
    artifacts: map<Digest, Blob>,
    index: map<string, seq<Record>>,
    leaves: map<nat, Leaf>,
    targets: map<string, Targets>,
    checkpoint: Option<Checkpoint>,
    snapshot: Option<Snapshot>,
    timestamp: Option<Timestamp>)

  const EMPTY_ROOT := Root(false, false, map[], map[], map[], map[], None, None, None)

  datatype Write =
    | PutConfig
    | PutRootMeta
    | PutArtifact(digest: Digest, blob: Blob)
    | AppendIndex(record: Record)
    | PutLeaf(number: nat, leaf: Leaf)
    | PutTargets(namespace: string, targets: Targets)
    | PutCheckpoint(checkpoint: Checkpoint)
    | PutSnapshot(snapshot: Snapshot)
    | PutTimestamp(timestamp: Timestamp)

  function RecordsOf(r: Root, package: string): seq<Record>
  {
    if package in r.index then r.index[package] else []
  }

  function Apply(r: Root, w: Write): Root
  {
    match w
    case PutConfig => r.(hasConfig := true)
    case PutRootMeta => r.(hasRootMeta := true)
    case PutArtifact(d, b) => r.(artifacts := r.artifacts[d := b])
    case AppendIndex(e) => r.(index := r.index[e.package := RecordsOf(r, e.package) + [e]])
    case PutLeaf(n, l) => r.(leaves := r.leaves[n := l])
    case PutTargets(ns, t) => r.(targets := r.targets[ns := t])
    case PutCheckpoint(c) => r.(checkpoint := Some(c))
    case PutSnapshot(s) => r.(snapshot := Some(s))
    case PutTimestamp(t) => r.(timestamp := Some(t))
  }

  function ApplyAll(r: Root, ws: seq<Write>): Root
    decreases |ws|
  {
    if ws == [] then r else ApplyAll(Apply(r, ws[0]), ws[1..])
  }

  lemma {:induction false} ApplyAllAppend(r: Root, ws: seq<Write>, vs: seq<Write>)
    ensures ApplyAll(r, ws + vs) == ApplyAll(ApplyAll(r, ws), vs)
    decreases |ws|
  {
    if ws == [] {
      assert ws + vs == vs;
    } else {
      assert (ws + vs)[1..] == ws[1..] + vs;
      ApplyAllAppend(Apply(r, ws[0]), ws[1..], vs);
    }
  }

  lemma OneApplied(r: Root, w: Write)
    ensures ApplyAll(r, [w]) == Apply(r, w)
  {
    hide Apply;
    assert [w][1..] == [];
  }

  lemma TwoApplied(r: Root, a: Write, b: Write)
    ensures ApplyAll(r, [a]) == Apply(r, a) && ApplyAll(r, [a, b]) == Apply(Apply(r, a), b)
  {
    hide Apply;
    OneApplied(r, a);
    OneApplied(Apply(r, a), b);
    assert [a, b][1..] == [b];
  }

  lemma FiveApplied(r: Root, a: Write, b: Write, d: Write, e: Write, f: Write)
    ensures ApplyAll(r, [a, b, d, e, f]) == Apply(Apply(Apply(Apply(Apply(r, a), b), d), e), f)
  {
    hide Apply;
    var r1 := Apply(r, a);
    var r3 := Apply(Apply(r1, b), d);
    TwoApplied(r3, e, f);
    assert [b, d, e, f][1..] == [d, e, f] && [d, e, f][1..] == [e, f] && [a, b, d, e, f][1..] == [b, d, e, f];
    assert ApplyAll(Apply(r1, b), [d, e, f]) == ApplyAll(r3, [e, f]);
    assert ApplyAll(r1, [b, d, e, f]) == ApplyAll(r3, [e, f]);
  }

  // The transparency log: a hash chain over the leaves.

  const ZERO_DIGEST: Digest := seq(32, _ => 0)

  function ChainHash(c: Codec, leafHashes: seq<Digest>): (r: Digest)
    ensures leafHashes == [] ==> forall i :: 0 <= i < 32 ==> r[i] == 0
  {
    if leafHashes == [] then ZERO_DIGEST
    else c.hash(ChainHash(c, leafHashes[..|leafHashes| - 1]) + leafHashes[|leafHashes| - 1])
  }

  /** Leaf files are numbered `1 .. n` without gaps. */
  predicate Contiguous(leaves: map<nat, Leaf>)
  {
    forall n :: n in leaves ==> 1 <= n <= |leaves|
  }

  lemma {:induction false} NumberedUpTo(s: set<nat>, n: nat)
    requires forall x :: x in s ==> 1 <= x <= n
    ensures |s| <= n && (|s| == n ==> forall x :: 1 <= x <= n ==> x in s)
  {
    if n > 0 {
      NumberedUpTo(s - {n}, n - 1);
      if n in s {
        assert s == (s - {n}) + {n};
      } else {
        assert s - {n} == s;
      }
    }
  }

  /** In a gap-free numbering exactly the numbers up to the count are used. */
  lemma ContiguousNumbers(leaves: map<nat, Leaf>)
    requires Contiguous(leaves)
    ensures forall n :: n in leaves <==> 1 <= n <= |leaves|
  {
    NumberedUpTo(leaves.Keys, |leaves|);
    assert |leaves.Keys| == |leaves|;
  }

  ghost function LeafHashes(c: Codec, leaves: map<nat, Leaf>, n: nat): (r: seq<Digest>)
    requires forall k :: 1 <= k <= n ==> k in leaves
    ensures |r| == n && forall k :: 0 <= k < n ==> r[k] == c.hash(c.leafBytes(leaves[k + 1]))
  {
    seq<Digest>(n, k requires 0 <= k < n => c.hash(c.leafBytes(leaves[k + 1])))
  }

  // The plan of one publish.

  datatype Request = Request(package: string, version: string, blob: Blob)

  datatype PublishError =
    | PartiallyInitialized
    | InvalidName
    | DifferentContent
    | AlreadyPublished
    | LeavesNotContiguous
    | BadIndex

  datatype Plan = Plan(writes: seq<Write>, error: Option<PublishError>)

  function FirstSnapshot(c: Codec): Snapshot
  {
    Snapshot(1, map[], map[], c.hash(c.checkpointBytes(Checkpoint(1, 0, ZERO_DIGEST))))
  }

  function InitPlan(c: Codec, r: Root): Plan
  {
    if r.hasConfig != r.hasRootMeta then Plan([], Some(PartiallyInitialized))
    else if r.hasConfig then Plan([], None)
    else Plan([PutConfig,
               PutCheckpoint(Checkpoint(1, 0, ZERO_DIGEST)),
               PutSnapshot(FirstSnapshot(c)),
               PutTimestamp(Timestamp(1, c.hash(c.snapshotBytes(FirstSnapshot(c))))),
               PutRootMeta], None)
  }

  function RecordFor(c: Codec, q: Request): Record
  {
    Record(q.package, q.version, c.hash(q.blob), |q.blob|)
  }

  function LeafFor(c: Codec, e: Record, sequence: nat): Leaf
  {
    Leaf(sequence, e.package, e.version, c.hash(c.recordBytes(e)), e.sha256)
  }

  predicate HasVersion(records: seq<Record>, version: string)
  {
    exists i :: 0 <= i < |records| && records[i].version == version
  }

  lemma NoVersion(version: string)
    ensures !HasVersion([], version)
  {
  }

  function ReleasePlan(c: Codec, r: Root, q: Request): Plan
  {
    if !ValidPackageName(q.package) then Plan([], Some(InvalidName)) else
    var e := RecordFor(c, q);
    if e.sha256 in r.artifacts && c.hash(r.artifacts[e.sha256]) != c.hash(q.blob) then Plan([], Some(DifferentContent)) else
    var store := if e.sha256 in r.artifacts then [] else [PutArtifact(e.sha256, q.blob)];
    if HasVersion(RecordsOf(r, q.package), q.version) then Plan(store, Some(AlreadyPublished))
    else if !Contiguous(r.leaves) then Plan(store + [AppendIndex(e)], Some(LeavesNotContiguous))
    else Plan(store + [AppendIndex(e), PutLeaf(|r.leaves| + 1, LeafFor(c, e, |r.leaves| + 1))], None)
  }

  /** `namespace/name` up to the slash. */
  function NamespaceOf(name: string): string
  {
    if name == [] || name[0] == '/' then [] else [name[0]] + NamespaceOf(name[1..])
  }

  lemma SegmentNoSlash(s: string)
    requires NameSegment(s)
    ensures '/' !in s
  {
    assert forall i :: 0 <= i < |s| ==> NameChar(s[i]);
  }

  lemma {:induction false} NamespaceEndsAtSlash(ns: string, rest: string)
    requires '/' !in ns
    ensures NamespaceOf(ns + "/" + rest) == ns
  {
    if ns == "" {
      assert (ns + "/" + rest)[0] == '/';
    } else {
      assert '/' !in ns[1..] && (ns + "/" + rest)[0] == ns[0];
      assert (ns + "/" + rest)[1..] == ns[1..] + "/" + rest;
      NamespaceEndsAtSlash(ns[1..], rest);
    }
  }

  /** Whatever segments a name is put together from, the first is its namespace. */
  lemma NamespaceOfSplit(ns: string, short: string)
    requires NameSegment(ns) && NameSegment(short)
    ensures ValidPackageName(ns + "/" + short) && NamespaceOf(ns + "/" + short) == ns
  {
    hide NamespaceOf, NameSegment;
    SegmentNoSlash(ns);
    NamespaceEndsAtSlash(ns, short);
    var name := ns + "/" + short;
    assert name[..|ns|] == ns && name[|ns|] == '/' && name[|ns| + 1..] == short;
  }

  /** And every valid name is put together so, in one way only. */
  lemma NamespaceSplits(name: string)
    requires ValidPackageName(name)
    ensures NameSegment(NamespaceOf(name))
    ensures exists short :: NameSegment(short) && name == NamespaceOf(name) + "/" + short
    ensures forall ns, short :: NameSegment(ns) && NameSegment(short) && name == ns + "/" + short ==> ns == NamespaceOf(name)
  {
    hide NamespaceOf, NameSegment;
    var i :| 0 <= i < |name| && name[i] == '/' && NameSegment(name[..i]) && NameSegment(name[i + 1..]);
    assert name == name[..i] + "/" + name[i + 1..];
    NamespaceOfSplit(name[..i], name[i + 1..]);
    forall ns, short | NameSegment(ns) && NameSegment(short) && name == ns + "/" + short ensures ns == NamespaceOf(name) {
      NamespaceOfSplit(ns, short);
    }
  }

  /** The packages of a namespace are those whose names begin with it and a slash. */
  lemma InNamespace(ns: string, p: string)
    requires NameSegment(ns) && ValidPackageName(p)
    ensures NamespaceOf(p) == ns <==> ns + "/" <= p
  {
    hide NamespaceOf, NameSegment;
    NamespaceSplits(p);
    if ns + "/" <= p {
      SegmentNoSlash(ns);
      NamespaceEndsAtSlash(ns, p[|ns| + 1..]);
      assert p == ns + "/" + p[|ns| + 1..];
    }
  }

  /** The releases of one index file; a later line for a version would replace an earlier one. */
  function ReleasesOf(c: Codec, records: seq<Record>): map<string, Release>
  {
    if records == [] then map[] else
    var e := records[|records| - 1];
    ReleasesOf(c, records[..|records| - 1])[e.version := Release(c.hash(c.recordBytes(e)), e.sha256)]
  }

  function PackagesOf(c: Codec, r: Root, ns: string): map<string, map<string, Release>>
  {
    map p | p in r.index && NamespaceOf(p) == ns :: ReleasesOf(c, r.index[p])
  }

  function SignedVersion(r: Root, ns: string): nat
  {
    if ns in r.targets then r.targets[ns].version else 0
  }

  function TargetsFor(c: Codec, r: Root, ns: string): Targets
  {
    Targets(SignedVersion(r, ns) + 1, ns, PackagesOf(c, r, ns))
  }

  function TargetsWrites(c: Codec, r: Root, order: seq<string>): (ws: seq<Write>)
    ensures |ws| == |order| && forall i :: 0 <= i < |order| ==> ws[i] == PutTargets(order[i], TargetsFor(c, r, order[i]))
  {
    seq(|order|, i requires 0 <= i < |order| => PutTargets(order[i], TargetsFor(c, r, order[i])))
  }

  function Namespaces(r: Root): set<string>
  {
    set p | p in r.index :: NamespaceOf(p)
  }

  /** The order in which a refresh visits the namespaces: each once. */
  ghost predicate NamespaceOrder(r: Root, order: seq<string>)
  {
    && (forall ns :: ns in order <==> ns in Namespaces(r))
    && (forall i, j :: 0 <= i < j < |order| ==> order[i] != order[j])
  }

  ghost function NextCheckpoint(c: Codec, r: Root): Checkpoint
    requires Contiguous(r.leaves)
  {
    ContiguousNumbers(r.leaves);
    Checkpoint((if r.checkpoint.Some? then r.checkpoint.value.version else 0) + 1, |r.leaves|,
               ChainHash(c, LeafHashes(c, r.leaves, |r.leaves|)))
  }

  function IndexDigests(c: Codec, r: Root): map<string, Digest>
  {
    map p | p in r.index :: c.hash(c.indexBytes(r.index[p]))
  }

  function NamespaceDigests(c: Codec, r: Root): map<string, Digest>
  {
    map ns | ns in Namespaces(r) :: c.hash(c.targetsBytes(TargetsFor(c, r, ns)))
  }

  ghost function NextSnapshot(c: Codec, r: Root): Snapshot
    requires Contiguous(r.leaves)
  {
    Snapshot((if r.snapshot.Some? then r.snapshot.value.version else 0) + 1,
             IndexDigests(c, r),
             NamespaceDigests(c, r),
             c.hash(c.checkpointBytes(NextCheckpoint(c, r))))
  }

  ghost function NextTimestamp(c: Codec, r: Root): Timestamp
    requires Contiguous(r.leaves)
  {
    Timestamp((if r.timestamp.Some? then r.timestamp.value.version else 0) + 1, c.hash(c.snapshotBytes(NextSnapshot(c, r))))
  }

  /** The metadata that covers everything: checkpoint, then snapshot, then timestamp. */
  ghost function HeadWrites(c: Codec, r: Root): seq<Write>
    requires Contiguous(r.leaves)
  {
    [PutCheckpoint(NextCheckpoint(c, r)), PutSnapshot(NextSnapshot(c, r)), PutTimestamp(NextTimestamp(c, r))]
  }

  /** An index file has lines, all of the package it is filed under. */
  predicate ReadableFile(package: string, records: seq<Record>)
  {
    records != [] && forall i :: 0 <= i < |records| ==> records[i].package == package
  }

  predicate ReadableIndex(r: Root)
  {
    forall p :: p in r.index ==> ReadableFile(p, r.index[p])
  }

  ghost function RefreshPlan(c: Codec, r: Root, order: seq<string>): Plan
  {
    if !ReadableIndex(r) then Plan([], Some(BadIndex))
    else if !Contiguous(r.leaves) then Plan(TargetsWrites(c, r, order), Some(LeavesNotContiguous))
    else Plan(TargetsWrites(c, r, order) + HeadWrites(c, r), None)
  }

  ghost function PublishPlan(c: Codec, r: Root, q: Request, order: seq<string>): Plan
  {
    var init := InitPlan(c, r);
    if init.error.Some? then init else
    var r1 := ApplyAll(r, init.writes);
    var release := ReleasePlan(c, r1, q);
    if release.error.Some? then Plan(init.writes + release.writes, release.error) else
    var refresh := RefreshPlan(c, ApplyAll(r1, release.writes), order);
    Plan(init.writes + release.writes + refresh.writes, refresh.error)
  }
}
