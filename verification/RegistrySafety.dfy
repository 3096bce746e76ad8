/** What a registry root keeps through every single write, and so through every crash. */
module RegistrySafety {
  import opened Wrappers
  import opened RegistryModel

  ghost predicate ArtifactsOk(c: Codec, r: Root)
  {
    forall d :: d in r.artifacts ==> c.hash(r.artifacts[d]) == d
  }

  /** A record of the index file of `p` names a stored artifact with its digest. */
  ghost predicate RecordOk(c: Codec, r: Root, p: string, e: Record)
  {
    e.package == p && e.sha256 in r.artifacts && c.hash(r.artifacts[e.sha256]) == e.sha256
  }

  ghost predicate IndexFileOk(c: Codec, r: Root, p: string)
    requires p in r.index
  {
    && r.index[p] != []
    && (forall i :: 0 <= i < |r.index[p]| ==> RecordOk(c, r, p, r.index[p][i]))
    && (forall i, j :: 0 <= i < j < |r.index[p]| ==> r.index[p][i].version != r.index[p][j].version)
  }

  /** A leaf names an existing index record, by its digest. */
  ghost predicate LeafOk(c: Codec, r: Root, n: nat)
    requires n in r.leaves
  {
    && r.leaves[n].sequence == n
    && exists i :: 0 <= i < |RecordsOf(r, r.leaves[n].package)| && LeafNames(c, r.leaves[n], RecordsOf(r, r.leaves[n].package)[i])
  }

  predicate LeafNames(c: Codec, l: Leaf, e: Record)
  {
    l.package == e.package && l.version == e.version && l.recordDigest == c.hash(c.recordBytes(e)) && l.artifactDigest == e.sha256
  }

  ghost predicate LeavesOk(c: Codec, r: Root)
  {
    && Contiguous(r.leaves)
    && (forall n :: n in r.leaves ==> LeafOk(c, r, n))
    && (forall n, m :: n in r.leaves && m in r.leaves && SameRelease(r.leaves[n], r.leaves[m]) ==> n == m)
  }

  predicate SameRelease(a: Leaf, b: Leaf)
  {
    a.package == b.package && a.version == b.version
  }

  /** A release that targets metadata announces is in the index, with the announced digests. */
  ghost predicate ReleaseOk(c: Codec, r: Root, p: string, version: string, release: Release)
  {
    exists i :: 0 <= i < |RecordsOf(r, p)| && Announces(c, RecordsOf(r, p)[i], version, release)
  }

  predicate Announces(c: Codec, e: Record, version: string, release: Release)
  {
    e.version == version && release == Release(c.hash(c.recordBytes(e)), e.sha256)
  }

  ghost predicate TargetsOk(c: Codec, r: Root, ns: string, t: Targets)
  {
    && t.namespace == ns
    && (forall p :: p in t.packages ==> NamespaceOf(p) == ns && p in r.index)
    && (forall p, v :: p in t.packages && v in t.packages[p] ==> ReleaseOk(c, r, p, v, t.packages[p][v]))
  }

  ghost predicate CheckpointOk(c: Codec, leaves: map<nat, Leaf>, k: Checkpoint)
  {
    && (forall n :: 1 <= n <= k.treeSize ==> n in leaves)
    && k.rootHash == ChainHash(c, LeafHashes(c, leaves, k.treeSize))
  }

  ghost predicate Inv(c: Codec, r: Root)
  {
    && ArtifactsOk(c, r)
    && (forall p :: p in r.index ==> IndexFileOk(c, r, p))
    && LeavesOk(c, r)
    && (forall ns :: ns in r.targets ==> TargetsOk(c, r, ns, r.targets[ns]))
    && (r.checkpoint.Some? ==> CheckpointOk(c, r.leaves, r.checkpoint.value))
    && (!r.hasConfig ==> r.checkpoint.None?)
    && (!(r.hasConfig && r.hasRootMeta) ==> r.index == map[] && r.leaves == map[] && r.artifacts == map[] && r.targets == map[])
  }

  /** A new checkpoint has a later version than the one it replaces, and covers at least as many leaves. */
  predicate Supersedes(k: Checkpoint, current: Option<Checkpoint>)
  {
    current.Some? ==> current.value.version < k.version && current.value.treeSize <= k.treeSize
  }

  /** What makes one write safe in the state in which it happens. */
  ghost predicate WriteOk(c: Codec, r: Root, w: Write)
  {
    match w
    case PutConfig => !r.hasRootMeta
    case PutRootMeta => true
    case PutArtifact(d, b) => r.hasConfig && r.hasRootMeta && d !in r.artifacts && c.hash(b) == d
    case AppendIndex(e) =>
      && r.hasConfig && r.hasRootMeta
      && RecordOk(c, r, e.package, e)
      && !HasVersion(RecordsOf(r, e.package), e.version)
    case PutLeaf(n, l) =>
      && r.hasConfig && r.hasRootMeta
      && n == |r.leaves| + 1 == l.sequence
      && (exists i :: 0 <= i < |RecordsOf(r, l.package)| && LeafNames(c, l, RecordsOf(r, l.package)[i]))
      && (forall m :: m in r.leaves ==> !SameRelease(l, r.leaves[m]))
    case PutTargets(ns, t) => r.hasConfig && r.hasRootMeta && TargetsOk(c, r, ns, t)
    case PutCheckpoint(k) => r.hasConfig && CheckpointOk(c, r.leaves, k) && Supersedes(k, r.checkpoint)
    case PutSnapshot(_) => true
    case PutTimestamp(_) => true
  }

  ghost predicate AllOk(c: Codec, r: Root, ws: seq<Write>)
    decreases |ws|
  {
    ws == [] || (WriteOk(c, r, ws[0]) && AllOk(c, Apply(r, ws[0]), ws[1..]))
  }

  /** Later states keep what earlier ones stored: artifacts and leaves as they are, indexes as prefixes. */
  ghost predicate Extends(r: Root, s: Root)
  {
    && (forall d :: d in r.artifacts ==> d in s.artifacts && s.artifacts[d] == r.artifacts[d])
    && (forall p :: RecordsOf(r, p) <= RecordsOf(s, p))
    && (forall p :: p in r.index ==> p in s.index)
    && (forall n :: n in r.leaves ==> n in s.leaves && s.leaves[n] == r.leaves[n])
    && (r.hasConfig ==> s.hasConfig) && (r.hasRootMeta ==> s.hasRootMeta)
  }

  lemma ExtendsTransitive(r: Root, s: Root, t: Root)
    requires Extends(r, s) && Extends(s, t)
    ensures Extends(r, t)
  {
    forall p ensures RecordsOf(r, p) <= RecordsOf(t, p) {
      assert RecordsOf(r, p) <= RecordsOf(s, p) <= RecordsOf(t, p);
    }
  }

  /** A safe write only adds. */
  lemma WriteExtends(c: Codec, r: Root, w: Write)
    requires Contiguous(r.leaves) && WriteOk(c, r, w)
    ensures Extends(r, Apply(r, w))
  {
    hide RecordOk, LeafNames, TargetsOk, CheckpointOk, HasVersion, SameRelease, Contiguous;
    if w.PutLeaf? {
      ContiguousNumbers(r.leaves);
      assert w.number !in r.leaves;
    }
  }

  // One write at a time.

  lemma LeafStays(c: Codec, r: Root, s: Root, n: nat)
    requires Extends(r, s) && n in r.leaves && LeafOk(c, r, n)
    ensures n in s.leaves && LeafOk(c, s, n)
  {
    var p := r.leaves[n].package;
    var i :| 0 <= i < |RecordsOf(r, p)| && LeafNames(c, r.leaves[n], RecordsOf(r, p)[i]);
    assert RecordsOf(r, p) <= RecordsOf(s, p);
    assert RecordsOf(s, p)[i] == RecordsOf(r, p)[i];
  }

  lemma ReleaseStays(c: Codec, r: Root, s: Root, p: string, v: string, release: Release)
    requires Extends(r, s) && ReleaseOk(c, r, p, v, release)
    ensures ReleaseOk(c, s, p, v, release)
  {
    var i :| 0 <= i < |RecordsOf(r, p)| && Announces(c, RecordsOf(r, p)[i], v, release);
    assert RecordsOf(r, p) <= RecordsOf(s, p);
    assert RecordsOf(s, p)[i] == RecordsOf(r, p)[i];
  }

  lemma IndexFileKept(r: Root, s: Root, p: string)
    requires Extends(r, s) && p in r.index
    ensures p in s.index
  {
  }

  lemma TargetsStay(c: Codec, r: Root, s: Root, ns: string, t: Targets)
    requires Extends(r, s) && TargetsOk(c, r, ns, t)
    ensures TargetsOk(c, s, ns, t)
  {
    hide Extends, ReleaseOk;
    forall p | p in t.packages ensures p in s.index {
      IndexFileKept(r, s, p);
    }
    forall p, v | p in t.packages && v in t.packages[p] ensures ReleaseOk(c, s, p, v, t.packages[p][v]) {
      ReleaseStays(c, r, s, p, v, t.packages[p][v]);
    }
  }

  lemma CheckpointStays(c: Codec, r: Root, s: Root, k: Checkpoint)
    requires Extends(r, s) && CheckpointOk(c, r.leaves, k)
    ensures CheckpointOk(c, s.leaves, k)
  {
    assert LeafHashes(c, r.leaves, k.treeSize) == LeafHashes(c, s.leaves, k.treeSize);
  }

  lemma IndexFileStays(c: Codec, r: Root, s: Root, p: string)
    requires Extends(r, s) && p in r.index && IndexFileOk(c, r, p) && p in s.index && s.index[p] == r.index[p]
    ensures IndexFileOk(c, s, p)
  {
    assert forall i :: 0 <= i < |r.index[p]| ==> RecordOk(c, r, p, r.index[p][i]);
  }

  lemma AppendKeepsIndex(c: Codec, r: Root, e: Record, p: string)
    requires (forall q :: q in r.index ==> IndexFileOk(c, r, q)) && WriteOk(c, r, AppendIndex(e))
    requires p in Apply(r, AppendIndex(e)).index
    ensures IndexFileOk(c, Apply(r, AppendIndex(e)), p)
  {
    var s := Apply(r, AppendIndex(e));
    var before := RecordsOf(r, p);
    assert p in r.index ==> IndexFileOk(c, r, p);
    forall i | 0 <= i < |s.index[p]| ensures RecordOk(c, s, p, s.index[p][i]) {
      if i < |before| { assert RecordOk(c, r, p, before[i]); }
    }
    if p == e.package {
      assert forall i :: 0 <= i < |before| ==> before[i].version != e.version;
    }
  }

  lemma LeavesStay(c: Codec, r: Root, w: Write)
    requires LeavesOk(c, r) && WriteOk(c, r, w)
    ensures LeavesOk(c, Apply(r, w))
  {
    hide LeafOk;
    var s := Apply(r, w);
    WriteExtends(c, r, w);
    forall n | n in r.leaves ensures LeafOk(c, s, n) {
      LeafStays(c, r, s, n);
    }
    if w.PutLeaf? {
      PutLeafKeeps(c, r, w.number, w.leaf);
    }
  }

  lemma PutLeafKeeps(c: Codec, r: Root, n: nat, l: Leaf)
    requires Contiguous(r.leaves) && WriteOk(c, r, PutLeaf(n, l))
    ensures n !in r.leaves && Contiguous(Apply(r, PutLeaf(n, l)).leaves) && LeafOk(c, Apply(r, PutLeaf(n, l)), n)
  {
    ContiguousNumbers(r.leaves);
    var s := Apply(r, PutLeaf(n, l));
    assert s.leaves.Keys == r.leaves.Keys + {n};
    assert |s.leaves.Keys| == |s.leaves| && |r.leaves.Keys| == |r.leaves|;
    var i :| 0 <= i < |RecordsOf(r, l.package)| && LeafNames(c, l, RecordsOf(r, l.package)[i]);
    assert RecordsOf(s, l.package) == RecordsOf(r, l.package);
  }

  /** Every safe write keeps the invariant. */
  lemma WriteKeepsInv(c: Codec, r: Root, w: Write)
    requires Inv(c, r) && WriteOk(c, r, w)
    ensures Inv(c, Apply(r, w))
  {
    hide IndexFileOk, LeavesOk, TargetsOk, CheckpointOk, Extends;
    var s := Apply(r, w);
    InvLeaves(c, r);
    WriteExtends(c, r, w);
    LeavesStay(c, r, w);
    forall p | p in s.index ensures IndexFileOk(c, s, p) {
      if w.AppendIndex? { AppendKeepsIndex(c, r, w.record, p); } else { IndexFileStays(c, r, s, p); }
    }
    forall ns | ns in s.targets ensures TargetsOk(c, s, ns, s.targets[ns]) {
      TargetsStay(c, r, s, ns, s.targets[ns]);
    }
    if s.checkpoint.Some? {
      CheckpointStays(c, r, s, s.checkpoint.value);
    }
  }

  /** After any prefix of safe writes the invariant holds and nothing stored is lost. */
  lemma {:induction false} PrefixSafe(c: Codec, r: Root, ws: seq<Write>, k: nat)
    requires Inv(c, r) && AllOk(c, r, ws) && k <= |ws|
    ensures Inv(c, ApplyAll(r, ws[..k])) && Extends(r, ApplyAll(r, ws[..k]))
    decreases |ws|
  {
    hide Inv, Extends, WriteOk, Apply;
    if k == 0 {
      ExtendsReflexive(r);
    } else {
      WriteKeepsInv(c, r, ws[0]);
      InvLeaves(c, r);
      WriteExtends(c, r, ws[0]);
      PrefixSafe(c, Apply(r, ws[0]), ws[1..], k - 1);
      assert ws[..k][1..] == ws[1..][..k - 1];
      ExtendsTransitive(r, Apply(r, ws[0]), ApplyAll(r, ws[..k]));
    }
  }

  lemma InvLeaves(c: Codec, r: Root)
    requires Inv(c, r)
    ensures LeavesOk(c, r) && Contiguous(r.leaves)
  {
  }

  lemma ExtendsReflexive(r: Root)
    ensures Extends(r, r)
  {
  }

  lemma {:induction false} AllOkAppend(c: Codec, r: Root, ws: seq<Write>, vs: seq<Write>)
    requires AllOk(c, r, ws) && AllOk(c, ApplyAll(r, ws), vs)
    ensures AllOk(c, r, ws + vs)
    decreases |ws|
  {
    hide WriteOk, Apply;
    if ws == [] {
      assert ws + vs == vs;
    } else {
      assert (ws + vs)[1..] == ws[1..] + vs;
      AllOkAppend(c, Apply(r, ws[0]), ws[1..], vs);
    }
  }
}
