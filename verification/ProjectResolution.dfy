/** Resolution of a project from its root manifest to the lockfile, and a project for which the memo key is wrong. */
module ProjectResolution {
  import opened Wrappers
  import opened Sorting
  import opened PackageNames
  import opened ResolverModel
  import opened ResolverGraph
  import opened ResolverTheorems
  import opened WorkspaceRoots
  import opened ResolverProject
  import Resolver
  import ResolvedOrder

  datatype ProjectError = RootsRefused(error: RootError) | ResolutionRefused(reason: Resolver.Error)

  /** What the resolver can take for granted of a project, and what its caller has to look after. */
  ghost predicate Regular(p: Project, root: string)
    requires root in p.files.manifests
  {
    && LawfulPaths(p) && OneReleasePerDigest(p) && SeparatorsFree(WorldAt(p, root), SeedsOf(p, root))
    && LoneRoot(p, root)
  }

  /**
   From the root manifest to the resolution. In a regular project it succeeds exactly when the root and
   its members can be seeds, every reachable dependency is sound, and no name has two sources.
   */
  method ResolveProject(p: Project, root: string) returns (r: Result<Resolution, ProjectError>)
    ensures root !in p.files.manifests ==> r == Err(RootsRefused(RootMissing))
    ensures root in p.files.manifests && Regular(p, root) ==>
              (r.Ok? <==> SeedsOk(p.files, root, p.files.manifests[root]) && Resolvable(WorldAt(p, root), SeedsOf(p, root)))
    ensures root in p.files.manifests && SeedsOk(p.files, root, p.files.manifests[root]) ==>
              var w, seeds := WorldAt(p, root), SeedsOf(p, root);
              && (Coherent(w, FirstSeeds(w, seeds)) ==> (r.Ok? <==> Resolvable(w, FirstSeeds(w, seeds))))
              && (r.Ok? ==> exists g :: Complete(w, seeds, g) && r.value == ResolutionOf(w, seeds, g))
  {
    hide LawfulPaths, OneReleasePerDigest, SeparatorsFree, SeedsOk, Resolvable, Coherent, FirstSeeds, Complete, ResolutionOf,
      RootSeeds, LoneRoot, Refused;
    if root !in p.files.manifests {
      return Err(RootsRefused(RootMissing));
    }
    var doc := p.files.manifests[root];
    var seeds, topLevel := BuildRootSeeds(p.files, root, doc);
    if seeds.Err? {
      return Err(RootsRefused(seeds.error));
    }
    var resolved := ResolveSingleVersionGraph(WorldOf(p, topLevel), SeedSelections(seeds.value));
    if Regular(p, root) {
      LoneRootCoherent(p, root);
    }
    if resolved.Err? {
      return Err(ResolutionRefused(resolved.error));
    }
    return Ok(resolved.value);
  }

  /** In a regular project a completed resolution misses no reachable package and stands in for none by another. */
  lemma RegularIsWhole(p: Project, root: string, g: Graph)
    requires root in p.files.manifests && Regular(p, root) && SeedsOk(p.files, root, p.files.manifests[root])
    requires Complete(WorldAt(p, root), SeedsOf(p, root), g)
    ensures forall s :: Reachable(WorldAt(p, root), SeedsOf(p, root), s) ==>
              HasNode(WorldAt(p, root), g, s) && Interchangeable(WorldAt(p, root), NodeFor(WorldAt(p, root), g, s).selection, s)
  {
    hide LawfulPaths, OneReleasePerDigest, SeparatorsFree, SeedsOk, LoneRoot, Reachable, Coherent, Complete, Interchangeable, HasNode,
      WorldAt, SeedsOf;
    LoneRootCoherent(p, root);
    ClosureIffCoherent(WorldAt(p, root), SeedsOf(p, root), g);
  }

  /** And it is the only one, in whatever order the roots and everything behind them are visited. */
  lemma RegularIsUnique(p: Project, root: string, g: Graph, seeds: seq<Selection>, g': Graph)
    requires root in p.files.manifests && Regular(p, root) && SeedsOk(p.files, root, p.files.manifests[root])
    requires ValidWorld(WorldAt(p, root)) && SameSeeds(SeedsOf(p, root), seeds)
    requires Complete(WorldAt(p, root), SeedsOf(p, root), g) && Complete(WorldAt(p, root), seeds, g')
    ensures ResolutionOf(WorldAt(p, root), SeedsOf(p, root), g) == ResolutionOf(WorldAt(p, root), seeds, g')
  {
    hide LawfulPaths, OneReleasePerDigest, SeparatorsFree, SeedsOk, LoneRoot, Coherent, ValidWorld, SameSeeds, Complete, ResolutionOf,
      WorldAt, SeedsOf;
    LoneRootCoherent(p, root);
    OrderIndependent(WorldAt(p, root), SeedsOf(p, root), g, seeds, g');
  }

  // A root manifest that is not called `pafio.toml`, beside one that is.

  function ParentDir(path: string): string
  {
    if path == "" then "" else if path[|path| - 1] == '/' then path[..|path| - 1] else ParentDir(path[..|path| - 1])
  }

  const ODD_ROOT := "/r/alt.toml"
  const ODD_OTHER := "/r/pafio.toml"

  const ODD_FIRST := Package("a/x", "1.0.0", [], [])
  /** The other manifest's package depends on a directory that does not exist. */
  const ODD_SECOND := Package("a/y", "1.0.0", [Dependency("gone", None, FromPath("gone"))], [])

  const ODD_FILES := Files(
    map[ODD_ROOT := Manifest(Some(ODD_FIRST), Some(Workspace.Workspace(["."], []))), ODD_OTHER := Manifest(Some(ODD_SECOND), None)],
    (path: string) => ParentDir(path),
    (dir: string) => dir + "/pafio.toml",
    (dir: string, path: string) => if path == "." then dir else dir + "/" + path)

  const ODD_PROJECT := Project(
    ODD_FILES,
    (dir: string, base: string) => dir,
    (dir: string, base: string) => true,
    (source: string, dir: string) => source,
    (source: string, rev: string) => None,
    (root: string, name: string, version: string) => None)

  lemma OddOrder()
    ensures ODD_ROOT != ODD_OTHER && PathBefore(ODD_ROOT, ODD_OTHER)
  {
    hide PathBefore;
    var a, b := "alt.toml", "pafio.toml";
    assert a[0] < b[0] && LexLe(a, b);
    NamesWithin("/r", a, b);
    assert "/r" + "/" + a == ODD_ROOT && "/r" + "/" + b == ODD_OTHER;
    assert |ODD_ROOT| != |ODD_OTHER|;
  }

  lemma OddDirectories()
    ensures ParentDir(ODD_ROOT) == "/r" && ParentDir(ODD_OTHER) == "/r" && "/r" + "/pafio.toml" == ODD_OTHER
  {
    hide ParentDir;
    ParentOfName("/r", "alt.toml");
    ParentOfName("/r", "pafio.toml");
    assert "/r" + "/" + "alt.toml" == ODD_ROOT && "/r" + "/" + "pafio.toml" == ODD_OTHER;
  }

  /** The directory of a name without slashes is what stands in front of it. */
  lemma {:induction false} ParentOfName(dir: string, name: string)
    requires '/' !in name
    ensures ParentDir(dir + "/" + name) == dir
    decreases |name|
  {
    var path := dir + "/" + name;
    if name == "" {
      assert path[..|path| - 1] == dir;
    } else {
      assert path[..|path| - 1] == dir + "/" + name[..|name| - 1];
      ParentOfName(dir, name[..|name| - 1]);
    }
  }

  lemma OddLawful()
    ensures LawfulPaths(ODD_PROJECT) && OneReleasePerDigest(ODD_PROJECT)
  {
    forall d ensures ODD_FILES.parentDir(ODD_FILES.manifestIn(d)) == d {
      ParentOfName(d, "pafio.toml");
      assert d + "/" + "pafio.toml" == d + "/pafio.toml";
    }
  }

  /** The seeds, as they are built from the root manifest: both manifests of the directory. */
  lemma OddSeeds()
    ensures SeedsOk(ODD_FILES, ODD_ROOT, ODD_FILES.manifests[ODD_ROOT])
    ensures SeedsOf(ODD_PROJECT, ODD_ROOT) == [RootSelection(ODD_ROOT), RootSelection(ODD_OTHER)]
  {
    hide ParentDir, PathBefore, RootSeeds;
    OddOrder();
    OddDirectories();
    var doc := ODD_FILES.manifests[ODD_ROOT];
    assert MemberManifest(ODD_FILES, ODD_ROOT, ".") == ODD_OTHER;
    var paths := [ODD_ROOT, ODD_OTHER];
    RootSeedsExact(ODD_FILES, ODD_ROOT, doc);
    assert StrictlySortedBy(paths, PathLe());
    PathOrder();
    forall p ensures p in RootSeeds(ODD_FILES, ODD_ROOT, doc) <==> p in paths {
      assert IsSeed(ODD_FILES, ODD_ROOT, doc, p) <==> p in paths;
    }
    StrictlySortedUnique(RootSeeds(ODD_FILES, ODD_ROOT, doc), paths, PathLe());
  }

  lemma OddNames()
    ensures ValidPackageName("a/x") && ValidPackageName("a/y") && "a/x" != "a/y"
  {
    assert "a/x"[1] == '/' && NameSegment("a/x"[..1]) && NameSegment("a/x"[2..]);
    assert "a/y"[1] == '/' && NameSegment("a/y"[..1]) && NameSegment("a/y"[2..]);
    assert "a/x"[2] != "a/y"[2];
  }

  function OddWorld(): World { WorldAt(ODD_PROJECT, ODD_ROOT) }

  lemma OddPackages()
    ensures PackageOf(OddWorld(), RootSelection(ODD_ROOT)) == Some(ODD_FIRST)
    ensures PackageOf(OddWorld(), RootSelection(ODD_OTHER)) == Some(ODD_SECOND)
    ensures forall s :: PackageOf(OddWorld(), s) == Some(ODD_SECOND) ==> s.manifestPath == ODD_OTHER
    ensures forall s :: PackageOf(OddWorld(), s).Some? && PackageOf(OddWorld(), s).value.name == "a/y" ==> s.manifestPath == ODD_OTHER
    ensures Fingerprint(OddWorld(), RootSelection(ODD_ROOT)) == Fingerprint(OddWorld(), RootSelection(ODD_OTHER))
  {
    hide ParentDir, PathBefore, RootSeeds;
    OddOrder();
    OddDirectories();
    OddNames();
  }

  lemma OddDependencies()
    ensures forall d :: !Declares(ODD_FIRST, d)
    ensures Declares(ODD_SECOND, ODD_SECOND.dependencies[0])
  {
  }

  /** The second package's dependency selects nothing, wherever it is asked from. */
  lemma OddDependencyDangles(s: Selection)
    requires s.manifestPath == ODD_OTHER
    ensures OddWorld().select(s, ODD_SECOND.dependencies[0]) == None
  {
    hide ParentDir, PathBefore, RootSeeds, SelectFrom;
    OddDirectories();
    var dangling := "/r" + "/" + "gone" + "/pafio.toml";
    assert |dangling| != |ODD_ROOT| && |dangling| != |ODD_OTHER|;
  }

  /** From a package without dependencies nothing else is reached. */
  lemma LeafReachesItself(w: World, s: Selection, t: Selection)
    requires PackageOf(w, s).Some? && (forall d :: !Declares(PackageOf(w, s).value, d)) && Reachable(w, [s], t)
    ensures t == s
  {
    hide Fingerprint, PackageOf, Declares;
    var trail :| Trail(w, [s], trail) && trail[|trail| - 1] == t;
    if |trail| > 1 {
      LeafHasNoEdge(w, trail[0], trail[0 + 1]);
    }
  }

  lemma LeafHasNoEdge(w: World, s: Selection, t: Selection)
    requires PackageOf(w, s).Some? && (forall d :: !Declares(PackageOf(w, s).value, d))
    ensures !Edge(w, s, t)
  {
  }

  /** Visited once per fingerprint, only the first manifest counts, and all is well with it. */
  lemma OddFirst()
    ensures FirstSeeds(OddWorld(), SeedsOf(ODD_PROJECT, ODD_ROOT)) == [RootSelection(ODD_ROOT)]
    ensures Coherent(OddWorld(), [RootSelection(ODD_ROOT)]) && Resolvable(OddWorld(), [RootSelection(ODD_ROOT)])
  {
    hide Fingerprint, PackageOf, Declares, Reachable, RootSelection, RootSeeds, SeedsOf, OddWorld;
    OddSeeds();
    OddPackages();
    OddDependencies();
    var w, a, b := OddWorld(), RootSelection(ODD_ROOT), RootSelection(ODD_OTHER);
    assert [a, b][..1] == [a] && [a][..0] == [];
    assert FirstSeeds(w, [a]) == [a];
    forall s | Reachable(w, [a], s) ensures s == a {
      LeafReachesItself(w, a, s);
    }
    InterchangeableReflexive(w, a);
  }

  /** The second manifest is a root as well, and its dependency is unsound. */
  lemma OddUnresolvable()
    ensures !Resolvable(OddWorld(), SeedsOf(ODD_PROJECT, ODD_ROOT))
  {
    hide Fingerprint, PackageOf, Declares, Reachable, RootSeeds, SeedsOf, OddWorld, SelectPath;
    OddSeeds();
    OddPackages();
    OddDependencies();
    var w, seeds, b := OddWorld(), SeedsOf(ODD_PROJECT, ODD_ROOT), RootSelection(ODD_OTHER);
    assert seeds[1] == b;
    SeedReachable(w, seeds, b);
    OddDependencyDangles(b);
    assert DependsOn(w, b, ODD_SECOND.dependencies[0]);
    assert !SoundDependency(w, b, ODD_SECOND.dependencies[0]);
  }

  lemma OddSecondNeverFinished(g: Graph, n: Node)
    requires n.package == ODD_SECOND && n.selection.manifestPath == ODD_OTHER
    ensures !Finished(OddWorld(), g, n)
  {
    hide Fingerprint, LockId, Declares, OddWorld, SortedSet;
    OddDependencies();
    OddDependencyDangles(n.selection);
    assert !Leads(OddWorld(), g, n, ODD_SECOND.dependencies[0]);
  }

  /** No completed resolution, however it came about, contains the second package. */
  lemma OddPackageDropped(g: Graph, i: nat)
    requires Complete(OddWorld(), SeedsOf(ODD_PROJECT, ODD_ROOT), g) && i < |g.nodes|
    ensures g.nodes[i].package.name != "a/y"
  {
    hide Fingerprint, LockId, PackageOf, Finished, RootSeeds, SeedsOf, OddWorld, NodeOk;
    var w, seeds, n := OddWorld(), SeedsOf(ODD_PROJECT, ODD_ROOT), g.nodes[i];
    CompleteNode(w, seeds, g, i);
    NodePackage(w, seeds, n);
    OddPackages();
    if n.package.name == "a/y" {
      OddOtherIsSecond(n.selection);
      OddSecondNeverFinished(g, n);
    }
  }

  lemma NodePackage(w: World, seeds: seq<Selection>, n: Node)
    requires NodeOk(w, seeds, n)
    ensures PackageOf(w, n.selection) == Some(n.package)
  {
  }

  lemma OddOtherIsSecond(s: Selection)
    requires s.manifestPath == ODD_OTHER
    ensures PackageOf(OddWorld(), s) == Some(ODD_SECOND)
  {
    hide ParentDir, PathBefore, RootSeeds;
    OddOrder();
  }

  /**
   The memo key misleads: both manifests are roots, the second one's dependency cannot be resolved, and
   yet the resolution succeeds, without the second package.
   */
  method OddResolution() returns (r: Result<Resolution, ProjectError>)
    ensures r.Ok? && forall k :: 0 <= k < |r.value.packages| ==> r.value.packages[k].name != "a/y"
    ensures RootSelection(ODD_OTHER) in SeedsOf(ODD_PROJECT, ODD_ROOT)
    ensures !Resolvable(WorldAt(ODD_PROJECT, ODD_ROOT), SeedsOf(ODD_PROJECT, ODD_ROOT))
    ensures LawfulPaths(ODD_PROJECT) && OneReleasePerDigest(ODD_PROJECT) && !LoneRoot(ODD_PROJECT, ODD_ROOT)
  {
    hide Fingerprint, Complete, Coherent, Resolvable, LawfulPaths, OneReleasePerDigest, SeparatorsFree, SeedsOk, RootSeeds, SeedsOf,
      FirstSeeds, ResolutionOf, ParentDir;
    OddSeeds();
    OddFirst();
    OddUnresolvable();
    OddLawful();
    OddOrder();
    OddDirectories();
    r := ResolveProject(ODD_PROJECT, ODD_ROOT);
    OddOutcome(r.value);
    assert SeedsOf(ODD_PROJECT, ODD_ROOT)[1] == RootSelection(ODD_OTHER);
  }

  lemma OddOutcome(r: Resolution)
    requires exists g :: Complete(OddWorld(), SeedsOf(ODD_PROJECT, ODD_ROOT), g)
                         && r == ResolutionOf(OddWorld(), SeedsOf(ODD_PROJECT, ODD_ROOT), g)
    ensures forall k :: 0 <= k < |r.packages| ==> r.packages[k].name != "a/y"
  {
    hide Fingerprint, LockId, GraphOk, FinishedFrom, RootSeeds, SeedsOf, OddWorld, SortedSet, PackagesById;
    var g :| Complete(OddWorld(), SeedsOf(ODD_PROJECT, ODD_ROOT), g)
             && r == ResolutionOf(OddWorld(), SeedsOf(ODD_PROJECT, ODD_ROOT), g);
    OddLockfile(g);
  }

  lemma OddLockfile(g: Graph)
    requires Complete(OddWorld(), SeedsOf(ODD_PROJECT, ODD_ROOT), g)
    ensures
      var ps := ResolutionOf(OddWorld(), SeedsOf(ODD_PROJECT, ODD_ROOT), g).packages;
      forall k :: 0 <= k < |ps| ==> ps[k].name != "a/y"
  {
    hide Fingerprint, LockId, GraphOk, FinishedFrom, HasNode, RootSeeds, SeedsOf, OddWorld, PackagesById;
    CompleteGraphOk(OddWorld(), SeedsOf(ODD_PROJECT, ODD_ROOT), g);
    var ps := PackagesById(g.nodes);
    forall k | 0 <= k < |ps| ensures ps[k].name != "a/y" {
      ResolvedOrder.LockfileMembers(g.nodes, ps[k]);
      var i :| 0 <= i < |g.nodes| && ResolvedPackageOf(g.nodes[i]) == ps[k];
      OddPackageDropped(g, i);
    }
  }
}
