/**
 A project on disk as a world for the resolver: seeds from its root manifest, selection through
 paths, git snapshots and registry checkouts. When fingerprints are adequate in such a world.
 */
module ResolverProject {
  import opened Wrappers
  import opened ResolverModel
  import opened WorkspaceRoots

  datatype Materialized = Materialized(root: string, sha256: string, snapshot: string)

  /** Manifests and paths, and what git and the registry hand out. */
  datatype Project = Project(
    files: Files,
    relativeTo: (string, string) -> string,
    within: (string, string) -> bool,
    normalizeGit: (string, string) -> string,
    git: (string, string) -> Option<string>,
    registry: (string, string, string) -> Option<Materialized>)

  function LocalOrigin(kind: SourceKind): Origin { Origin(kind, "", "", "", "", "") }

  function GitOrigin(source: string, rev: string, snapshot: string): Origin { Origin(Git, source, rev, "", "", snapshot) }

  function RegistryOrigin(m: Materialized): Origin { Origin(Registry, "", "", m.root, m.sha256, m.snapshot) }

  /** The manifest that the root or a workspace below it offers, with the origin the selection gets. */
  function SelectFrom(p: Project, topLevel: set<string>, root: string, hint: Origin, expected: Option<string>): Option<Selection>
  {
    if root !in p.files.manifests then None else
    match WorkspaceRoots.Selected(p.files, root, expected)
    case Err(_) => None
    case Ok(path) =>
      Some(Selection(path, hint.(kind := SelectedKind(p.files, hint.kind, path, topLevel))))
  }

  /** A path dependency of a git package stays in the snapshot; any other becomes local. */
  function SelectPath(p: Project, topLevel: set<string>, parent: Selection, path: string, expected: Option<string>): Option<Selection>
  {
    var root := p.files.manifestIn(p.files.enter(p.files.parentDir(parent.manifestPath), path));
    if root !in p.files.manifests then None
    else if parent.origin.kind.Git? then
      if !p.within(p.files.parentDir(root), parent.origin.snapshotRoot) then None
      else SelectFrom(p, topLevel, root, parent.origin, expected)
    else SelectFrom(p, topLevel, root, LocalOrigin(Path), expected)
  }

  function SelectGit(p: Project, topLevel: set<string>, parent: Selection, source: string, rev: string, expected: Option<string>): Option<Selection>
  {
    var normalized := p.normalizeGit(source, p.files.parentDir(parent.manifestPath));
    match p.git(normalized, rev)
    case None => None
    case Some(snapshot) => SelectFrom(p, topLevel, p.files.manifestIn(snapshot), GitOrigin(normalized, rev, snapshot), expected)
  }

  function SelectRegistry(p: Project, topLevel: set<string>, root: string, version: Option<string>, expected: Option<string>): Option<Selection>
  {
    if expected.None? || version.None? then None else
    match p.registry(root, expected.value, version.value)
    case None => None
    case Some(m) => SelectFrom(p, topLevel, p.files.manifestIn(m.snapshot), RegistryOrigin(m), expected)
  }

  function Select(p: Project, topLevel: set<string>, parent: Selection, d: Dependency): Option<Selection>
  {
    match d.source
    case FromPath(path) => SelectPath(p, topLevel, parent, path, d.package)
    case FromGit(source, rev) => SelectGit(p, topLevel, parent, source, rev, d.package)
    case FromRegistry(root, version) => SelectRegistry(p, topLevel, root, version, d.package)
  }

  // What these selections are, source by source.

  /** The manifest at `root`, or a workspace there, lists the expected package exactly once: at `path`. */
  ghost predicate Offers(p: Project, root: string, expected: Option<string>, path: string)
  {
    && root in p.files.manifests
    && MembersOk(p.files, root, p.files.manifests[root], expected)
    && Listings(p.files, root, p.files.manifests[root], expected) == 1
    && IsTarget(p.files, root, p.files.manifests[root], expected, path)
  }

  ghost predicate LocalIn(p: Project, topLevel: set<string>, t: Selection)
  {
    t.origin == if p.files.parentDir(t.manifestPath) in topLevel then Origin(SourceKind.Workspace, "", "", "", "", "")
                else Origin(Path, "", "", "", "", "")
  }

  /** Dependency `d` of `s` selects `t`. */
  ghost predicate Selects(p: Project, topLevel: set<string>, s: Selection, d: Dependency, t: Selection)
  {
    var dir, o := p.files.parentDir(s.manifestPath), t.origin;
    match d.source
    case FromPath(path) =>
      var root := p.files.manifestIn(p.files.enter(dir, path));
      && Offers(p, root, d.package, t.manifestPath)
      && if s.origin.kind.Git? then p.within(p.files.parentDir(root), s.origin.snapshotRoot) && o == s.origin else LocalIn(p, topLevel, t)
    case FromGit(source, rev) =>
      && o == Origin(Git, p.normalizeGit(source, dir), rev, "", "", o.snapshotRoot)
      && p.git(o.gitSource, rev) == Some(o.snapshotRoot)
      && Offers(p, p.files.manifestIn(o.snapshotRoot), d.package, t.manifestPath)
    case FromRegistry(root, version) =>
      && d.package.Some? && version.Some?
      && o == Origin(Registry, "", "", o.registryRoot, o.registrySha256, o.snapshotRoot)
      && p.registry(root, d.package.value, version.value) == Some(Materialized(o.registryRoot, o.registrySha256, o.snapshotRoot))
      && Offers(p, p.files.manifestIn(o.snapshotRoot), d.package, t.manifestPath)
  }

  lemma SelectFromExact(p: Project, topLevel: set<string>, root: string, hint: Origin, expected: Option<string>, t: Selection)
    ensures SelectFrom(p, topLevel, root, hint, expected) == Some(t) <==>
            && Offers(p, root, expected, t.manifestPath)
            && t.origin == hint.(kind := t.origin.kind)
            && t.origin.kind == if !hint.kind.Workspace? && !hint.kind.Path? then hint.kind
                                else if p.files.parentDir(t.manifestPath) in topLevel then SourceKind.Workspace else Path
  {
    hide WorkspaceRoots.Selected, MembersOk, Listings, IsTarget;
    if root in p.files.manifests {
      SelectedExact(p.files, root, expected);
    }
  }

  lemma SelectExact(p: Project, topLevel: set<string>, s: Selection, d: Dependency, t: Selection)
    ensures Select(p, topLevel, s, d) == Some(t) <==> Selects(p, topLevel, s, d, t)
  {
    hide SelectFrom, Offers;
    var dir := p.files.parentDir(s.manifestPath);
    match d.source
    case FromPath(path) =>
      var hint := if s.origin.kind.Git? then s.origin else LocalOrigin(Path);
      SelectFromExact(p, topLevel, p.files.manifestIn(p.files.enter(dir, path)), hint, d.package, t);
      OffersKnown(p, p.files.manifestIn(p.files.enter(dir, path)), d.package, t.manifestPath);
    case FromGit(source, rev) =>
      var normalized := p.normalizeGit(source, dir);
      if p.git(normalized, rev).Some? {
        var snapshot := p.git(normalized, rev).value;
        SelectFromExact(p, topLevel, p.files.manifestIn(snapshot), GitOrigin(normalized, rev, snapshot), d.package, t);
      }
    case FromRegistry(root, version) =>
      if d.package.Some? && version.Some? && p.registry(root, d.package.value, version.value).Some? {
        var m := p.registry(root, d.package.value, version.value).value;
        SelectFromExact(p, topLevel, p.files.manifestIn(m.snapshot), RegistryOrigin(m), d.package, t);
      }
  }

  lemma OffersKnown(p: Project, root: string, expected: Option<string>, path: string)
    ensures Offers(p, root, expected, path) ==> root in p.files.manifests
  {
  }

  function PackagesOf(manifests: map<string, Manifest>): map<string, Option<Package>>
  {
    map path | path in manifests :: manifests[path].package
  }

  function WorldOf(p: Project, topLevel: set<string>): World
  {
    World(PackagesOf(p.files.manifests), p.files.parentDir, p.relativeTo,
          (parent: Selection, d: Dependency) => Select(p, topLevel, parent, d))
  }

  /** The package of a selection is what the manifest it names declares. */
  lemma PackageDeclared(p: Project, topLevel: set<string>, s: Selection, package: Package)
    ensures PackageOf(WorldOf(p, topLevel), s) == Some(package) <==>
            s.manifestPath in p.files.manifests && p.files.manifests[s.manifestPath].package == Some(package)
  {
  }

  function SeedSelections(paths: seq<string>): (r: seq<Selection>)
    ensures |r| == |paths| && forall i :: 0 <= i < |paths| ==> r[i] == Selection(paths[i], LocalOrigin(SourceKind.Workspace))
  {
    seq(|paths|, i requires 0 <= i < |paths| => Selection(paths[i], LocalOrigin(SourceKind.Workspace)))
  }

  /** World and seeds of the project at `root`. */
  function SeedsOf(p: Project, root: string): seq<Selection>
    requires root in p.files.manifests
  {
    SeedSelections(RootSeeds(p.files, root, p.files.manifests[root]))
  }

  function WorldAt(p: Project, root: string): World
    requires root in p.files.manifests
  {
    WorldOf(p, Dirs(p.files, RootSeeds(p.files, root, p.files.manifests[root])))
  }

  // What the file system, git and the registry owe the resolver.

  /** Normalised paths: a manifest is in the directory it names, and a relative path names one directory below its base. */
  ghost predicate LawfulPaths(p: Project)
  {
    var f := p.files;
    && (forall d :: f.manifestIn(f.parentDir(f.manifestIn(d))) == f.manifestIn(d))
    && (forall x :: f.parentDir(f.manifestIn(f.parentDir(x))) == f.parentDir(x))
    && (forall x, y, base | p.relativeTo(f.parentDir(x), base) == p.relativeTo(f.parentDir(y), base) :: f.parentDir(x) == f.parentDir(y))
  }

  /** A registry lists an artifact for one release only, so that its digest fixes the checkout. */
  ghost predicate OneReleasePerDigest(p: Project)
  {
    forall r, n, v, r', n', v' | p.registry(r, n, v).Some? && p.registry(r', n', v').Some? ::
      var m, m' := p.registry(r, n, v).value, p.registry(r', n', v').value;
      m.root == m'.root && m.sha256 == m'.sha256 ==> m.snapshot == m'.snapshot
  }

  ghost predicate SeparatorsFree(w: World, seeds: seq<Selection>)
  {
    forall s :: Reachable(w, seeds, s) ==> SeparatorFree(s.origin)
  }

  /** A manifest that is named as the manifest of its directory. */
  predicate Standard(p: Project, path: string)
  {
    path == p.files.manifestIn(p.files.parentDir(path))
  }

  ghost predicate OriginOk(p: Project, o: Origin)
  {
    match o.kind
    case Git => p.git(o.gitSource, o.gitRev) == Some(o.snapshotRoot) && o == GitOrigin(o.gitSource, o.gitRev, o.snapshotRoot)
    case Registry =>
      && o == RegistryOrigin(Materialized(o.registryRoot, o.registrySha256, o.snapshotRoot))
      && exists r, n, v :: p.registry(r, n, v) == Some(Materialized(o.registryRoot, o.registrySha256, o.snapshotRoot))
    case _ => o == LocalOrigin(o.kind)
  }

  ghost predicate WellSelected(p: Project, s: Selection)
  {
    Standard(p, s.manifestPath) && OriginOk(p, s.origin)
  }

  // Every selection but the root is well-selected.

  lemma SelectedIsStandard(p: Project, topLevel: set<string>, dir: string, hint: Origin, expected: Option<string>)
    requires LawfulPaths(p) && OriginOk(p, hint) && SelectFrom(p, topLevel, p.files.manifestIn(dir), hint, expected).Some?
    ensures WellSelected(p, SelectFrom(p, topLevel, p.files.manifestIn(dir), hint, expected).value)
  {
    hide WorkspaceRoots.Selected;
    var root := p.files.manifestIn(dir);
    SelectedExact(p.files, root, expected);
    var doc := p.files.manifests[root];
    var path := WorkspaceRoots.Selected(p.files, root, expected).value;
    if !(RootMatches(doc, expected) && path == root) {
      var m :| m in doc.workspace.value.members && path == MemberManifest(p.files, root, m);
    }
  }

  lemma EdgeWellSelected(p: Project, topLevel: set<string>, s: Selection, t: Selection)
    requires LawfulPaths(p) && OriginOk(p, s.origin) && Edge(WorldOf(p, topLevel), s, t)
    ensures WellSelected(p, t)
  {
    hide WorkspaceRoots.Selected, SelectFrom, WellSelected;
    var d :| DependsOn(WorldOf(p, topLevel), s, d) && Select(p, topLevel, s, d) == Some(t);
    var dir := p.files.parentDir(s.manifestPath);
    match d.source
    case FromPath(path) =>
      var hint := if s.origin.kind.Git? then s.origin else LocalOrigin(Path);
      SelectedIsStandard(p, topLevel, p.files.enter(dir, path), hint, d.package);
    case FromGit(source, rev) =>
      var normalized := p.normalizeGit(source, dir);
      var snapshot := p.git(normalized, rev).value;
      SelectedIsStandard(p, topLevel, snapshot, GitOrigin(normalized, rev, snapshot), d.package);
    case FromRegistry(root, version) =>
      var m := p.registry(root, d.package.value, version.value).value;
      SelectedIsStandard(p, topLevel, m.snapshot, RegistryOrigin(m), d.package);
  }

  /** The root's own package, whatever its manifest is called. */
  predicate IsRoot(p: Project, root: string, s: Selection)
    requires root in p.files.manifests
  {
    s == RootSelection(root) && p.files.manifests[root].package.Some?
  }

  function RootSelection(root: string): Selection { Selection(root, LocalOrigin(SourceKind.Workspace)) }

  lemma SeedWellSelected(p: Project, root: string, s: Selection)
    requires LawfulPaths(p) && root in p.files.manifests && s in SeedsOf(p, root)
    ensures OriginOk(p, s.origin) && (IsRoot(p, root, s) || WellSelected(p, s))
  {
    hide RootSeeds;
    var doc := p.files.manifests[root];
    var paths := RootSeeds(p.files, root, doc);
    RootSeedsExact(p.files, root, doc);
    var i :| 0 <= i < |paths| && SeedsOf(p, root)[i] == s;
    assert IsSeed(p.files, root, doc, paths[i]);
    if paths[i] != root {
      var m :| m in doc.workspace.value.members && paths[i] == MemberManifest(p.files, root, m);
    }
  }

  lemma {:induction false} TrailWellSelected(p: Project, root: string, trail: seq<Selection>)
    requires LawfulPaths(p) && root in p.files.manifests && Trail(WorldAt(p, root), SeedsOf(p, root), trail)
    ensures
      var s := trail[|trail| - 1];
      OriginOk(p, s.origin) && (IsRoot(p, root, s) || WellSelected(p, s))
  {
    hide Edge, OriginOk, WorldOf, RootSeeds, Standard, LawfulPaths;
    var w, seeds := WorldAt(p, root), SeedsOf(p, root);
    if |trail| == 1 {
      SeedWellSelected(p, root, trail[0]);
    } else {
      var front := trail[..|trail| - 1];
      assert forall i :: 0 <= i < |front| - 1 ==> Edge(w, trail[i], trail[i + 1]);
      assert Trail(w, seeds, front);
      TrailWellSelected(p, root, front);
      var s, t := trail[|trail| - 2], trail[|trail| - 1];
      assert Edge(w, trail[|trail| - 2], trail[|trail| - 2 + 1]);
      EdgeWellSelected(p, Dirs(p.files, RootSeeds(p.files, root, p.files.manifests[root])), s, t);
    }
  }

  lemma ReachableWellSelected(p: Project, root: string, s: Selection)
    requires LawfulPaths(p) && root in p.files.manifests && Reachable(WorldAt(p, root), SeedsOf(p, root), s)
    ensures OriginOk(p, s.origin) && (IsRoot(p, root, s) || WellSelected(p, s))
  {
    hide Edge, OriginOk, WorldAt, SeedsOf, WellSelected;
    var trail :| Trail(WorldAt(p, root), SeedsOf(p, root), trail) && trail[|trail| - 1] == s;
    TrailWellSelected(p, root, trail);
  }

  // Local packages.

  predicate IsLocal(s: Selection)
  {
    s.origin.kind.Workspace? || s.origin.kind.Path?
  }

  /** A reachable local package is a workspace package exactly when some seed is in its directory. */
  lemma LocalKind(p: Project, root: string, s: Selection)
    requires root in p.files.manifests && Reachable(WorldAt(p, root), SeedsOf(p, root), s) && IsLocal(s)
    ensures s.origin.kind.Workspace? <==>
            exists seed :: seed in SeedsOf(p, root) && p.files.parentDir(seed.manifestPath) == p.files.parentDir(s.manifestPath)
  {
    hide Edge, WorldAt, RootSeeds;
    var trail :| Trail(WorldAt(p, root), SeedsOf(p, root), trail) && trail[|trail| - 1] == s;
    var topLevel := Dirs(p.files, RootSeeds(p.files, root, p.files.manifests[root]));
    SeedDirs(p, root, p.files.parentDir(s.manifestPath));
    if |trail| > 1 {
      assert Edge(WorldAt(p, root), trail[|trail| - 2], trail[|trail| - 2 + 1]);
      LocalEdge(p, root, trail[|trail| - 2], s);
    }
  }

  lemma SeedDirs(p: Project, root: string, dir: string)
    requires root in p.files.manifests
    ensures dir in Dirs(p.files, RootSeeds(p.files, root, p.files.manifests[root])) <==>
            exists seed :: seed in SeedsOf(p, root) && p.files.parentDir(seed.manifestPath) == dir
  {
    hide RootSeeds;
    var paths, seeds := RootSeeds(p.files, root, p.files.manifests[root]), SeedsOf(p, root);
    if dir in Dirs(p.files, paths) {
      var path :| path in paths && p.files.parentDir(path) == dir;
      var i :| 0 <= i < |paths| && paths[i] == path;
      assert seeds[i] in seeds;
    }
    if seed :| seed in seeds && p.files.parentDir(seed.manifestPath) == dir {
      var i :| 0 <= i < |seeds| && seeds[i] == seed;
      assert paths[i] in paths;
    }
  }

  lemma LocalEdge(p: Project, root: string, s: Selection, t: Selection)
    requires root in p.files.manifests && Edge(WorldAt(p, root), s, t) && IsLocal(t)
    ensures t.origin.kind.Workspace? <==>
            p.files.parentDir(t.manifestPath) in Dirs(p.files, RootSeeds(p.files, root, p.files.manifests[root]))
  {
    hide RootSeeds, Select, Offers, Dirs;
    var topLevel := Dirs(p.files, RootSeeds(p.files, root, p.files.manifests[root]));
    var d :| DependsOn(WorldAt(p, root), s, d) && Select(p, topLevel, s, d) == Some(t);
    SelectExact(p, topLevel, s, d, t);
  }

  /** So a path dependency on the directory of a seed meets the seed under its own fingerprint. */
  lemma LocalMeetsSeed(p: Project, root: string, s: Selection, seed: Selection)
    requires root in p.files.manifests && Reachable(WorldAt(p, root), SeedsOf(p, root), s) && IsLocal(s)
    requires seed in SeedsOf(p, root) && p.files.parentDir(seed.manifestPath) == p.files.parentDir(s.manifestPath)
    ensures Fingerprint(WorldAt(p, root), s) == Fingerprint(WorldAt(p, root), seed)
  {
    hide Reachable, RootSeeds;
    LocalKind(p, root, s);
  }

  // Fingerprints of well-selected selections.

  /** The directory is the only thing that the same source leaves open, and the fingerprint names it. */
  lemma SameSourceSameSelection(p: Project, topLevel: set<string>, a: Selection, b: Selection)
    requires LawfulPaths(p) && OneReleasePerDigest(p) && OriginOk(p, a.origin) && OriginOk(p, b.origin)
    requires SameSource(WorldOf(p, topLevel), a, b)
    ensures a.origin == b.origin && p.files.parentDir(a.manifestPath) == p.files.parentDir(b.manifestPath)
  {
    var o, o' := a.origin, b.origin;
    if o.kind.Registry? {
      var r, n, v :| p.registry(r, n, v) == Some(Materialized(o.registryRoot, o.registrySha256, o.snapshotRoot));
      var r', n', v' :| p.registry(r', n', v') == Some(Materialized(o'.registryRoot, o'.registrySha256, o'.snapshotRoot));
      assert p.registry(r, n, v).Some? && p.registry(r', n', v').Some?;
    }
  }

  /** Well-selected selections with one fingerprint are one selection. */
  lemma FingerprintIdentifies(p: Project, topLevel: set<string>, a: Selection, b: Selection)
    requires LawfulPaths(p) && OneReleasePerDigest(p)
    requires SeparatorFree(a.origin) && SeparatorFree(b.origin) && OriginOk(p, a.origin) && OriginOk(p, b.origin)
    requires Fingerprint(WorldOf(p, topLevel), a) == Fingerprint(WorldOf(p, topLevel), b)
    ensures a.origin == b.origin && p.files.parentDir(a.manifestPath) == p.files.parentDir(b.manifestPath)
    ensures Standard(p, a.manifestPath) && Standard(p, b.manifestPath) ==> a == b
  {
    hide LawfulPaths, OneReleasePerDigest, OriginOk, SameSource, SeparatorFree, Fingerprint;
    FingerprintIdentifiesSource(WorldOf(p, topLevel), a, b);
    SameSourceSameSelection(p, topLevel, a, b);
  }

  /** The manifest that shares the root's directory, and so its fingerprint. */
  function Twin(p: Project, root: string): Selection
  {
    RootSelection(p.files.manifestIn(p.files.parentDir(root)))
  }

  /** A root package and its twin are not both resolved, unless their manifests declare the same package. */
  ghost predicate TwinHarmless(p: Project, root: string)
    requires root in p.files.manifests
  {
    var w, seeds := WorldAt(p, root), SeedsOf(p, root);
    p.files.manifests[root].package.Some? && Reachable(w, seeds, Twin(p, root)) ==>
      PackageOf(w, Twin(p, root)) == p.files.manifests[root].package
  }

  /** Selection sees a parent by its directory and origin only, so that of twins the packages alone can differ. */
  lemma TwinsInterchange(p: Project, root: string)
    requires LawfulPaths(p) && root in p.files.manifests
    ensures Interchangeable(WorldAt(p, root), RootSelection(root), Twin(p, root)) <==>
            PackageOf(WorldAt(p, root), Twin(p, root)) == p.files.manifests[root].package
  {
    hide SelectFrom, Fingerprint, RootSeeds;
    var w, a, b := WorldAt(p, root), RootSelection(root), Twin(p, root);
    forall d | DependsOn(w, a, d) ensures SameChoice(w, a, b, d) {
      assert w.select(a, d) == w.select(b, d);
    }
  }

  lemma RootReachable(p: Project, root: string)
    requires LawfulPaths(p) && root in p.files.manifests
    ensures p.files.manifests[root].package.Some? ==> Reachable(WorldAt(p, root), SeedsOf(p, root), RootSelection(root))
    ensures Reachable(WorldAt(p, root), SeedsOf(p, root), RootSelection(root)) && p.files.manifests[root].package.None? ==>
              Twin(p, root) == RootSelection(root)
  {
    hide Reachable, RootSeeds, WorldOf;
    if p.files.manifests[root].package.Some? {
      var paths := RootSeeds(p.files, root, p.files.manifests[root]);
      RootSeedsExact(p.files, root, p.files.manifests[root]);
      assert IsSeed(p.files, root, p.files.manifests[root], root);
      var i :| 0 <= i < |paths| && paths[i] == root;
      assert SeedsOf(p, root)[i] == RootSelection(root);
      SeedReachable(WorldAt(p, root), SeedsOf(p, root), RootSelection(root));
    } else if Reachable(WorldAt(p, root), SeedsOf(p, root), RootSelection(root)) {
      ReachableWellSelected(p, root, RootSelection(root));
    }
  }

  lemma TwinFingerprint(p: Project, root: string)
    requires LawfulPaths(p) && root in p.files.manifests
    ensures Fingerprint(WorldAt(p, root), RootSelection(root)) == Fingerprint(WorldAt(p, root), Twin(p, root))
  {
  }

  lemma InterchangeableSymmetric(w: World, a: Selection, b: Selection)
    requires Interchangeable(w, a, b)
    ensures Interchangeable(w, b, a) && Interchangeable(w, a, a)
  {
    hide Fingerprint, Declares;
    forall d | DependsOn(w, b, d) ensures SameChoice(w, b, a, d) {
      assert DependsOn(w, a, d) && SameChoice(w, a, b, d);
    }
  }

  lemma InterchangeableReflexive(w: World, a: Selection)
    ensures Interchangeable(w, a, a)
  {
  }

  /** Of two different selections with one fingerprint, one is the root and the other its twin. */
  lemma ClashIsTwin(p: Project, root: string, a: Selection, b: Selection)
    requires LawfulPaths(p) && OneReleasePerDigest(p) && root in p.files.manifests
    requires SeparatorsFree(WorldAt(p, root), SeedsOf(p, root))
    requires Reachable(WorldAt(p, root), SeedsOf(p, root), a) && Reachable(WorldAt(p, root), SeedsOf(p, root), b)
    requires Fingerprint(WorldAt(p, root), a) == Fingerprint(WorldAt(p, root), b) && a != b
    ensures (a == RootSelection(root) && b == Twin(p, root)) || (b == RootSelection(root) && a == Twin(p, root))
  {
    hide LawfulPaths, OneReleasePerDigest, OriginOk, SeparatorFree, Fingerprint, Reachable, SeedsOf, WorldOf;
    ReachableWellSelected(p, root, a);
    ReachableWellSelected(p, root, b);
    FingerprintIdentifies(p, Dirs(p.files, RootSeeds(p.files, root, p.files.manifests[root])), a, b);
  }

  /**
   Exactly when a project's fingerprints are adequate: beside a root package, the manifest that its
   directory names must not be resolved as well, unless it declares the same package.
   */
  lemma CoherentIffTwinHarmless(p: Project, root: string)
    requires LawfulPaths(p) && OneReleasePerDigest(p) && root in p.files.manifests
    requires SeparatorsFree(WorldAt(p, root), SeedsOf(p, root))
    ensures Coherent(WorldAt(p, root), SeedsOf(p, root)) <==> TwinHarmless(p, root)
  {
    hide LawfulPaths, OneReleasePerDigest, SeparatorsFree, Fingerprint, Reachable, SeedsOf, WorldAt, Twin, RootSelection, Interchangeable,
      PackageOf;
    var w, seeds := WorldAt(p, root), SeedsOf(p, root);
    TwinFingerprint(p, root);
    TwinsInterchange(p, root);
    RootReachable(p, root);
    if TwinHarmless(p, root) {
      forall a, b | Reachable(w, seeds, a) && Reachable(w, seeds, b) && Fingerprint(w, a) == Fingerprint(w, b)
        ensures Interchangeable(w, a, b)
      {
        InterchangeableReflexive(w, a);
        if a != b {
          ClashIsTwin(p, root, a, b);
          InterchangeableSymmetric(w, RootSelection(root), Twin(p, root));
        }
      }
    }
  }

  /** So they are for a root manifest with its directory's manifest name, and for one without package. */
  lemma StandardRootCoherent(p: Project, root: string)
    requires LawfulPaths(p) && OneReleasePerDigest(p) && root in p.files.manifests
    requires SeparatorsFree(WorldAt(p, root), SeedsOf(p, root))
    requires Standard(p, root) || p.files.manifests[root].package.None?
    ensures Coherent(WorldAt(p, root), SeedsOf(p, root))
  {
    hide LawfulPaths, OneReleasePerDigest, SeparatorsFree, Reachable, SeedsOf, Coherent;
    CoherentIffTwinHarmless(p, root);
  }

  // What a caller can check before the call.

  /** No other package beside a root package whose manifest is not the one its directory names. */
  predicate LoneRoot(p: Project, root: string)
    requires root in p.files.manifests
  {
    var twin := p.files.manifestIn(p.files.parentDir(root));
    || Standard(p, root)
    || p.files.manifests[root].package.None?
    || twin !in p.files.manifests
    || p.files.manifests[twin].package.None?
    || p.files.manifests[twin].package == p.files.manifests[root].package
  }

  predicate DefinesPackage(p: Project, path: string)
  {
    path in p.files.manifests && p.files.manifests[path].package.Some?
  }

  lemma SelectedDefinesPackage(p: Project, topLevel: set<string>, root: string, hint: Origin, expected: Option<string>)
    requires SelectFrom(p, topLevel, root, hint, expected).Some?
    ensures DefinesPackage(p, SelectFrom(p, topLevel, root, hint, expected).value.manifestPath)
  {
    hide WorkspaceRoots.Selected;
    SelectedExact(p.files, root, expected);
  }

  lemma EdgeDefinesPackage(p: Project, topLevel: set<string>, s: Selection, t: Selection)
    requires Edge(WorldOf(p, topLevel), s, t)
    ensures DefinesPackage(p, t.manifestPath)
  {
    hide WorkspaceRoots.Selected, SelectFrom, DefinesPackage;
    var d :| DependsOn(WorldOf(p, topLevel), s, d) && Select(p, topLevel, s, d) == Some(t);
    var dir := p.files.parentDir(s.manifestPath);
    match d.source
    case FromPath(path) =>
      var hint := if s.origin.kind.Git? then s.origin else LocalOrigin(Path);
      SelectedDefinesPackage(p, topLevel, p.files.manifestIn(p.files.enter(dir, path)), hint, d.package);
    case FromGit(source, rev) =>
      var normalized := p.normalizeGit(source, dir);
      var snapshot := p.git(normalized, rev).value;
      SelectedDefinesPackage(p, topLevel, p.files.manifestIn(snapshot), GitOrigin(normalized, rev, snapshot), d.package);
    case FromRegistry(root, version) =>
      var m := p.registry(root, d.package.value, version.value).value;
      SelectedDefinesPackage(p, topLevel, p.files.manifestIn(m.snapshot), RegistryOrigin(m), d.package);
  }

  lemma ReachableDefinesPackage(p: Project, root: string, s: Selection)
    requires root in p.files.manifests && SeedsOk(p.files, root, p.files.manifests[root])
    requires Reachable(WorldAt(p, root), SeedsOf(p, root), s)
    ensures DefinesPackage(p, s.manifestPath)
  {
    hide Edge, WorldOf, RootSeeds;
    var doc := p.files.manifests[root];
    var paths := RootSeeds(p.files, root, doc);
    var trail :| Trail(WorldAt(p, root), SeedsOf(p, root), trail) && trail[|trail| - 1] == s;
    if |trail| == 1 {
      RootSeedsExact(p.files, root, doc);
      var i :| 0 <= i < |paths| && SeedsOf(p, root)[i] == s;
      assert IsSeed(p.files, root, doc, paths[i]);
    } else {
      assert Edge(WorldAt(p, root), trail[|trail| - 2], trail[|trail| - 2 + 1]);
      EdgeDefinesPackage(p, Dirs(p.files, paths), trail[|trail| - 2], s);
    }
  }

  lemma LoneRootCoherent(p: Project, root: string)
    requires LawfulPaths(p) && OneReleasePerDigest(p) && root in p.files.manifests
    requires SeparatorsFree(WorldAt(p, root), SeedsOf(p, root))
    requires SeedsOk(p.files, root, p.files.manifests[root]) && LoneRoot(p, root)
    ensures Coherent(WorldAt(p, root), SeedsOf(p, root))
  {
    hide LawfulPaths, OneReleasePerDigest, SeparatorsFree, Reachable, SeedsOf, RootSeeds, Coherent, SeedsOk;
    CoherentIffTwinHarmless(p, root);
    if Standard(p, root) || p.files.manifests[root].package.None? {
      StandardRootCoherent(p, root);
    } else if Reachable(WorldAt(p, root), SeedsOf(p, root), Twin(p, root)) {
      ReachableDefinesPackage(p, root, Twin(p, root));
    }
  }

  /** Whatever git and the registry hand out has no separator in its source and pin. */
  ghost predicate PlainPins(p: Project)
  {
    && (forall source, rev :: p.git(source, rev).Some? ==> '#' !in source && ':' !in rev)
    && (forall r, n, v :: p.registry(r, n, v).Some? ==>
          '#' !in p.registry(r, n, v).value.root && ':' !in p.registry(r, n, v).value.sha256)
  }

  lemma PlainPinsSeparate(p: Project, root: string)
    requires LawfulPaths(p) && PlainPins(p) && root in p.files.manifests
    ensures SeparatorsFree(WorldAt(p, root), SeedsOf(p, root))
  {
    hide LawfulPaths, Reachable, SeedsOf, WorldAt, Standard;
    forall s | Reachable(WorldAt(p, root), SeedsOf(p, root), s) ensures SeparatorFree(s.origin) {
      ReachableWellSelected(p, root, s);
    }
  }

  /** Without separators in sources and revisions this could not be: two pins with one fingerprint. */
  lemma SeparatorsCollide(place: string)
    ensures PinnedFingerprint("git", "u#a", "b", place) == PinnedFingerprint("git", "u", "a#b", place)
  {
    var x := "git" + ":" + "u#a" + "#" + "b" + ":" + place;
    var y := "git" + ":" + "u" + "#" + "a#b" + ":" + place;
    assert x == "git:u#a#b:" + place && y == "git:u#a#b:" + place;
  }
}
