/** From resolver to lockfile: the generated document, its text, and the staleness check. */
module GeneratedLockfile {
  import opened Wrappers
  import opened Sorting
  import opened PackageNames
  import R = ResolverModel
  import G = ResolverGraph
  import ResolverTheorems
  import ResolvedOrder
  import opened LockfileText
  import opened LockfileReading
  import Lockfile
  import LockfileInverse

  function SourceOf(fields: (R.SourceKind, Option<(string, string)>)): SourceFields
  {
    match fields
    case (Git, Some(pin)) => SourceFields(Some(pin.0), Some(pin.1), None, None)
    case (Registry, Some(pin)) => SourceFields(None, None, Some(pin.0), Some(pin.1))
    case _ => NO_SOURCE
  }

  function Locked(p: R.ResolvedPackage): Package
  {
    Package(p.id, p.name, p.version, R.KindString(p.fields.0), SourceOf(p.fields), p.dependencies)
  }

  function AllLocked(ps: seq<R.ResolvedPackage>): (r: seq<Package>)
    ensures |r| == |ps| && forall i :: 0 <= i < |ps| ==> r[i] == Locked(ps[i])
  {
    seq(|ps|, i requires 0 <= i < |ps| => Locked(ps[i]))
  }

  /** The lockfile document of a resolution, in the resolver's order. */
  function Generated(version: string, r: G.Resolution): Document
  {
    Document("pafio " + version, "single-version-v1", AllLocked(r.packages))
  }

  lemma SeedsResolved(w: R.World, seeds: seq<R.Selection>, g: G.Graph)
    requires G.Complete(w, seeds, g)
    ensures forall k :: 0 <= k < |seeds| ==> G.HasNode(w, g, seeds[k])
  {
  }

  lemma LockedMatches(n: R.Node)
    ensures MatchesKind(Locked(R.ResolvedPackageOf(n)))
  {
  }

  /** The generated document is already in canonical order, and its source fields match their kinds. */
  lemma GeneratedIsCanonical(w: R.World, seeds: seq<R.Selection>, g: G.Graph, version: string)
    requires R.ValidWorld(w) && G.Complete(w, seeds, g)
    ensures
      var d := Generated(version, G.ResolutionOf(w, seeds, g));
      Lockfile.DistinctIds(d) && SourcesMatch(d) && Canonical(d) == d
  {
    hide G.Complete, R.ValidWorld, Locked, R.ResolvedPackageOf, MatchesKind, R.PackagesById, Normal, SortedPackages, G.HasNode;
    SeedsResolved(w, seeds, g);
    var ps := R.PackagesById(g.nodes);
    var d := Generated(version, G.ResolutionOf(w, seeds, g));
    PackagesInOrder(w, seeds, g);
    forall p | p in d.packages ensures MatchesKind(p) && Normal(p) == p {
      var k :| 0 <= k < |ps| && p == Locked(ps[k]);
      var i := NodeOf(g, ps[k]);
      LockedMatches(g.nodes[i]);
      DependenciesInOrder(w, seeds, g, i);
    }
    LockedInOrder(ps);
    assert Normals(d.packages) == d.packages;
  }

  lemma NodeOf(g: G.Graph, p: R.ResolvedPackage) returns (i: nat)
    requires p in R.PackagesById(g.nodes)
    ensures i < |g.nodes| && R.ResolvedPackageOf(g.nodes[i]) == p
  {
    ResolvedOrder.LockfileMembers(g.nodes, p);
    i :| 0 <= i < |g.nodes| && R.ResolvedPackageOf(g.nodes[i]) == p;
  }

  // What the generated document says, field by field.

  /** Package `p` says what the node's manifest declares and where its selection comes from. */
  ghost predicate Records(p: Package, n: R.Node)
  {
    var o := n.selection.origin;
    var named := n.package.name + "@" + n.package.version;
    && p.name == n.package.name && p.version == n.package.version && p.dependencies == n.dependencies
    && match o.kind
       case Workspace => p.sourceKind == "workspace" && p.id == "workspace:" + named && p.source == SourceFields(None, None, None, None)
       case Path => p.sourceKind == "path" && p.id == "path:" + named && p.source == SourceFields(None, None, None, None)
       case Git =>
         && p.sourceKind == "git" && p.id == "git:" + named + "#" + o.gitRev
         && p.source == SourceFields(Some(o.gitSource), Some(o.gitRev), None, None)
       case Registry =>
         && p.sourceKind == "registry" && p.id == "registry:" + named + "#" + o.registrySha256
         && p.source == SourceFields(None, None, Some(o.registryRoot), Some(o.registrySha256))
  }

  lemma LockedRecords(n: R.Node)
    requires n.id == R.LockId(n.selection.origin, n.package)
    ensures Records(Locked(R.ResolvedPackageOf(n)), n)
  {
    var o := n.selection.origin;
    var kind, named := R.KindString(o.kind), n.package.name + "@" + n.package.version;
    assert n.id == kind + ":" + named + R.Pin(o);
    assert kind + ":" + named + "" == kind + ":" + named;
    assert R.Pin(o) != "" ==> kind + ":" + named + ("#" + R.Pin(o)[1..]) == kind + ":" + named + "#" + R.Pin(o)[1..];
  }

  lemma NodeLocked(w: R.World, seeds: seq<R.Selection>, g: G.Graph, i: nat) returns (k: nat)
    requires G.Complete(w, seeds, g) && i < |g.nodes|
    ensures k < |R.PackagesById(g.nodes)| && R.PackagesById(g.nodes)[k] == R.ResolvedPackageOf(g.nodes[i])
    ensures Records(AllLocked(R.PackagesById(g.nodes))[k], g.nodes[i])
  {
    hide G.Complete, R.PackagesById, Locked, Records, R.ResolvedPackageOf, R.LockId;
    ResolvedOrder.LockfileMembers(g.nodes, R.ResolvedPackageOf(g.nodes[i]));
    k :| 0 <= k < |R.PackagesById(g.nodes)| && R.PackagesById(g.nodes)[k] == R.ResolvedPackageOf(g.nodes[i]);
    ResolverTheorems.CompleteNode(w, seeds, g, i);
    LockedRecords(g.nodes[i]);
  }

  /** The document names its generator and resolver, and its packages are the nodes, with their own fields. */
  lemma GeneratedRecords(w: R.World, seeds: seq<R.Selection>, g: G.Graph, version: string, r: G.Resolution)
    requires G.Complete(w, seeds, g) && r.packages == R.PackagesById(g.nodes)
    ensures
      var d := Generated(version, r);
      && d.generatedBy == "pafio " + version && d.resolver == "single-version-v1"
      && (forall n :: n in g.nodes ==> exists p :: p in d.packages && Records(p, n))
      && (forall p :: p in d.packages ==> exists n :: n in g.nodes && Records(p, n))
  {
    hide G.Complete, R.PackagesById, Locked, Records, R.ResolvedPackageOf, G.HasNode, R.LockId;
    var ps := r.packages;
    var d := Generated(version, r);
    forall n | n in g.nodes ensures exists p :: p in d.packages && Records(p, n) {
      var i :| 0 <= i < |g.nodes| && g.nodes[i] == n;
      var k := NodeLocked(w, seeds, g, i);
      assert d.packages[k] in d.packages;
    }
    forall p | p in d.packages ensures exists n :: n in g.nodes && Records(p, n) {
      var k :| 0 <= k < |ps| && p == Locked(ps[k]);
      var i := NodeOf(g, ps[k]);
      ResolverTheorems.CompleteNode(w, seeds, g, i);
      LockedRecords(g.nodes[i]);
      assert g.nodes[i] in g.nodes;
    }
  }

  /** What a lockfile can say of a node: a version of three numbers, and a source that is not empty. */
  ghost predicate Lockable(n: R.Node)
  {
    var o := n.selection.origin;
    && Lockfile.Semver(n.package.version)
    && (o.kind.Git? ==> o.gitSource != "" && o.gitRev != "")
    && (o.kind.Registry? ==> o.registryRoot != "" && Lockfile.Sha256Hex(o.registrySha256))
  }

  lemma RecordedIsValid(p: Package, n: R.Node)
    requires Records(p, n) && ValidPackageName(n.package.name)
    ensures Lockfile.ValidLocked(p) <==> Lockable(n)
  {
    hide Lockfile.Semver, Lockfile.Sha256Hex, ValidPackageName;
  }

  /** The loader's rules hold for what is generated exactly when every node can be locked. */
  lemma GeneratedIsValid(w: R.World, seeds: seq<R.Selection>, g: G.Graph, version: string)
    requires R.ValidWorld(w) && G.Complete(w, seeds, g)
    ensures forall k :: 0 <= k < |seeds| ==> G.HasNode(w, g, seeds[k])
    ensures Lockfile.ValidDocument(Generated(version, G.ResolutionOf(w, seeds, g))) <==> forall n :: n in g.nodes ==> Lockable(n)
  {
    hide G.Complete, Records, Lockable, Generated, G.HasNode, Lockfile.ValidLocked, ValidPackageName, R.PackagesById, R.SortedSet;
    SeedsResolved(w, seeds, g);
    GeneratedRecords(w, seeds, g, version, G.ResolutionOf(w, seeds, g));
    var d := Generated(version, G.ResolutionOf(w, seeds, g));
    if forall n :: n in g.nodes ==> Lockable(n) {
      forall p | p in d.packages ensures Lockfile.ValidLocked(p) {
        var n :| n in g.nodes && Records(p, n);
        NodeNamed(w, seeds, g, n);
        RecordedIsValid(p, n);
      }
    }
    if Lockfile.ValidDocument(d) {
      forall n | n in g.nodes ensures Lockable(n) {
        var p :| p in d.packages && Records(p, n);
        NodeNamed(w, seeds, g, n);
        RecordedIsValid(p, n);
      }
    }
  }

  lemma NodeNamed(w: R.World, seeds: seq<R.Selection>, g: G.Graph, n: R.Node)
    requires R.ValidWorld(w) && G.Complete(w, seeds, g) && n in g.nodes
    ensures ValidPackageName(n.package.name)
  {
    hide G.Complete, ValidPackageName, R.Fingerprint, R.LockId;
    var i :| 0 <= i < |g.nodes| && g.nodes[i] == n;
    ResolverTheorems.CompleteNode(w, seeds, g, i);
  }

  /**
   Writing the lockfile of a resolution and loading it gives the generated document back, exactly when every
   node can be locked and no control character is in it.
   */
  method WriteAndLoad(ghost w: R.World, ghost seeds: seq<R.Selection>, ghost g: G.Graph, version: string, r: G.Resolution)
    returns (text: string, loaded: Result<Document, Lockfile.LockError>)
    requires R.ValidWorld(w) && G.Complete(w, seeds, g)
    requires (forall k :: 0 <= k < |seeds| ==> G.HasNode(w, g, seeds[k])) && r == G.ResolutionOf(w, seeds, g)
    ensures text == Text(Generated(version, r))
    ensures loaded == Ok(Generated(version, r)) <==>
              (forall n :: n in g.nodes ==> Lockable(n)) && DocumentAcceptable(Generated(version, r), true)
  {
    hide R.ValidWorld, G.Complete, G.HasNode, ReadText, Text, DocumentAcceptable, Generated, Lockable, Lockfile.ValidDocument,
      G.ResolutionOf, Lockfile.DocumentError, Canonical, SourcesMatch;
    GeneratedIsValid(w, seeds, g, version);
    GeneratedRoundTrip(w, seeds, g, version);
    text := Lockfile.SerializeLockfileCanonical(Generated(version, r));
    loaded := Lockfile.LoadLockfile(text);
  }

  lemma PackagesInOrder(w: R.World, seeds: seq<R.Selection>, g: G.Graph)
    requires R.ValidWorld(w) && G.Complete(w, seeds, g)
    ensures
      var ps := R.PackagesById(g.nodes);
      && (forall i, j :: 0 <= i < j < |ps| ==> ps[i].id != ps[j].id)
      && SortedBy(ps, R.IdKey(), StringLe())
  {
    hide R.ValidWorld, G.GraphOk, TotalOrder, R.ResolvedPackageOf;
    var unsorted := R.ResolvedPackages(g.nodes);
    var ps := R.PackagesById(g.nodes);
    ResolverTheorems.EntriesDistinct(w, seeds, g);
    StringOrder();
    SortedDistinct(unsorted, R.IdKey(), StringLe());
    forall i, j | 0 <= i < j < |ps| ensures ps[i].id != ps[j].id {
      assert ps[i] in unsorted && ps[j] in unsorted;
    }
  }

  lemma DependenciesInOrder(w: R.World, seeds: seq<R.Selection>, g: G.Graph, i: nat)
    requires R.ValidWorld(w) && G.Complete(w, seeds, g) && i < |g.nodes|
    ensures Normal(Locked(R.ResolvedPackageOf(g.nodes[i]))) == Locked(R.ResolvedPackageOf(g.nodes[i]))
  {
    hide R.Fingerprint, R.LockId, TotalOrder, R.SortedSet;
    var n := g.nodes[i];
    assert G.Finished(w, g, n);
    StringOrder();
    StrictIsSorted(n.dependencies);
    SortKeepsSorted(n.dependencies, StringKey(), StringLe());
  }

  lemma StrictIsSorted(xs: seq<string>)
    requires R.StrictlySorted(xs)
    ensures SortedBy(xs, StringKey(), StringLe()) && KeyIdentifies(xs, StringKey())
  {
  }

  lemma LockedInOrder(ps: seq<R.ResolvedPackage>)
    requires (forall i, j :: 0 <= i < j < |ps| ==> ps[i].id != ps[j].id) && SortedBy(ps, R.IdKey(), StringLe())
    ensures SortedPackages(AllLocked(ps)) == AllLocked(ps)
    ensures forall i, j :: 0 <= i < j < |ps| ==> AllLocked(ps)[i].id != AllLocked(ps)[j].id
  {
    hide TotalOrder, LexLe;
    var ls := AllLocked(ps);
    StringOrder();
    forall i, j | 0 <= i < j < |ls| ensures StringLe()(IdKey()(ls[i]), IdKey()(ls[j])) {
      assert StringLe()(R.IdKey()(ps[i]), R.IdKey()(ps[j]));
    }
    forall x, y | x in ls && y in ls && IdKey()(x) == IdKey()(y) ensures x == y {
      var i :| 0 <= i < |ls| && ls[i] == x;
      var j :| 0 <= j < |ls| && ls[j] == y;
      assert ps[i].id == ps[j].id;
    }
    SortKeepsSorted(ls, IdKey(), StringLe());
  }

  /** Writing the generated lockfile and reading it back gives the same document, control characters aside. */
  lemma GeneratedRoundTrip(w: R.World, seeds: seq<R.Selection>, g: G.Graph, version: string)
    requires R.ValidWorld(w) && G.Complete(w, seeds, g)
    ensures
      var d := Generated(version, G.ResolutionOf(w, seeds, g));
      ReadText(Text(d), true) == Some(d) <==> DocumentAcceptable(d, true)
  {
    hide R.ValidWorld, G.Complete, G.HasNode, ReadText, Text, Canonical, DocumentAcceptable, Generated, SourcesMatch;
    SeedsResolved(w, seeds, g);
    var d := Generated(version, G.ResolutionOf(w, seeds, g));
    GeneratedIsCanonical(w, seeds, g, version);
    if DocumentAcceptable(d, true) {
      TextReads(d, true);
    }
    if ReadText(Text(d), true) == Some(d) {
      ReadIsAcceptable(Text(d));
    }
  }

  /**
   The staleness check: a stored lockfile text compares equal to the text generated from the seeds, in
   whatever order they come, exactly when it was written from the same content.
   */
  lemma StalenessIsExact(w: R.World, s1: seq<R.Selection>, g1: G.Graph, s2: seq<R.Selection>, g2: G.Graph, version: string, stored: Document)
    requires R.Coherent(w, s1) && R.ValidWorld(w) && ResolverTheorems.SameSeeds(s1, s2)
    requires G.Complete(w, s1, g1) && G.Complete(w, s2, g2) && SourcesMatch(stored)
    ensures
      var d := Generated(version, G.ResolutionOf(w, s1, g1));
      && Generated(version, G.ResolutionOf(w, s2, g2)) == d
      && (Text(stored) == Text(Generated(version, G.ResolutionOf(w, s2, g2))) <==> Lockfile.SameContent(d, stored))
  {
    hide R.Coherent, R.ValidWorld, G.Complete, Text, Generated, SourcesMatch, G.ResolutionOf, G.HasNode, Lockfile.SameContent, Lockfile.DistinctIds;
    SeedsResolved(w, s1, g1);
    SeedsResolved(w, s2, g2);
    ResolverTheorems.OrderIndependent(w, s1, g1, s2, g2);
    GeneratedIsCanonical(w, s1, g1, version);
    Lockfile.TextIsExact(Generated(version, G.ResolutionOf(w, s1, g1)), stored);
  }

  /** The stored file's raw text is up to date exactly when it says what was generated, whoever wrote it. */
  lemma StaleTextIsExact(w: R.World, seeds: seq<R.Selection>, g: G.Graph, version: string, stored: string)
    requires R.ValidWorld(w) && G.Complete(w, seeds, g)
    ensures
      var d := Generated(version, G.ResolutionOf(w, seeds, g));
      stored == Text(d) <==> ReadText(stored, false) == Some(d)
  {
    hide R.ValidWorld, G.Complete, G.HasNode, ReadText, Text, Canonical, Generated, SourcesMatch, G.ResolutionOf;
    SeedsResolved(w, seeds, g);
    GeneratedIsCanonical(w, seeds, g, version);
    LockfileInverse.RawTextIsExact(stored, Generated(version, G.ResolutionOf(w, seeds, g)));
  }
}
