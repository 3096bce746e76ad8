/**
 What the single-version resolver is meant to compute, without any order of visits.

 File system, git cache and registry are a fixed world: which manifests exist and what they
 declare, and which manifest a dependency of a selected package selects, if any.
 */
module ResolverModel {
  import opened Wrappers
  import opened Sorting
  import opened PackageNames

  datatype SourceKind = Workspace | Path | Git | Registry

  /** Where a package comes from; the fields used are those of its kind. */
  datatype Origin = Origin(
    kind: SourceKind,
    gitSource: string,
    gitRev: string,
    registryRoot: string,
    registrySha256: string,
    snapshotRoot: string)

  datatype Selection = Selection(manifestPath: string, origin: Origin)

  datatype DependencySource =
    | FromPath(path: string)
    | FromGit(source: string, rev: string)
    | FromRegistry(root: string, version: Option<string>)

  datatype Dependency = Dependency(alias: string, package: Option<string>, source: DependencySource)

  datatype Package = Package(
    name: string,
    version: string,
    dependencies: seq<Dependency>,
    devDependencies: seq<Dependency>)

  datatype World = World(
    manifests: map<string, Option<Package>>,
    parentDir: string -> string,
    relativeTo: (string, string) -> string,
    select: (Selection, Dependency) -> Option<Selection>)

  function KindString(kind: SourceKind): string
  {
    match kind
    case Workspace => "workspace"
    case Path => "path"
    case Git => "git"
    case Registry => "registry"
  }

  function Fingerprint(w: World, s: Selection): string
  {
    var dir := w.parentDir(s.manifestPath);
    var o := s.origin;
    match o.kind
    case Git => PinnedFingerprint("git", o.gitSource, o.gitRev, w.relativeTo(dir, o.snapshotRoot))
    case Registry => PinnedFingerprint("registry", o.registryRoot, o.registrySha256, w.relativeTo(dir, o.snapshotRoot))
    case _ => KindString(o.kind) + ":" + dir
  }

  function Pin(o: Origin): string
  {
    match o.kind
    case Git => "#" + o.gitRev
    case Registry => "#" + o.registrySha256
    case _ => ""
  }

  function LockId(o: Origin, p: Package): string
  {
    KindString(o.kind) + ":" + p.name + "@" + p.version + Pin(o)
  }

  function AliasKey(): Dependency -> string { (d: Dependency) => d.alias }

  /** Ordinary and development dependencies alike are the package's. */
  predicate Declares(p: Package, d: Dependency)
  {
    d in p.dependencies || d in p.devDependencies
  }

  function CollectDependencies(p: Package): seq<Dependency>
  {
    Sort(p.dependencies + p.devDependencies, AliasKey(), StringLe())
  }

  /** What is collected are the declared dependencies, each as often as declared, in the order of aliases. */
  lemma CollectedExact(p: Package)
    ensures forall d :: d in CollectDependencies(p) <==> Declares(p, d)
    ensures multiset(CollectDependencies(p)) == multiset(p.dependencies) + multiset(p.devDependencies)
    ensures forall i, j :: 0 <= i < j < |CollectDependencies(p)| ==>
                             LexLe(CollectDependencies(p)[i].alias, CollectDependencies(p)[j].alias)
  {
    hide LexLe, TotalOrder, Sort;
    var all, ds := p.dependencies + p.devDependencies, CollectDependencies(p);
    StringOrder();
    SortSorts(all, AliasKey(), StringLe());
    forall d ensures d in ds <==> Declares(p, d) {
      assert d in ds <==> d in multiset(ds);
      assert d in all <==> d in multiset(all);
    }
    forall i, j | 0 <= i < j < |ds| ensures LexLe(ds[i].alias, ds[j].alias) {
      assert StringLe()(AliasKey()(ds[i]), AliasKey()(ds[j]));
    }
  }

  /** The package that a selection's manifest declares; none when it does not load or has no `[package]`. */
  function PackageOf(w: World, s: Selection): Option<Package>
  {
    if s.manifestPath in w.manifests then w.manifests[s.manifestPath] else None
  }

  /** Manifest validation leaves only packages with valid names. */
  ghost predicate ValidWorld(w: World)
  {
    forall p :: p in w.manifests && w.manifests[p].Some? ==> ValidPackageName(w.manifests[p].value.name)
  }

  ghost predicate DependsOn(w: World, s: Selection, d: Dependency)
  {
    PackageOf(w, s).Some? && Declares(PackageOf(w, s).value, d)
  }

  ghost predicate Edge(w: World, s: Selection, t: Selection)
  {
    exists d :: DependsOn(w, s, d) && w.select(s, d) == Some(t)
  }

  ghost predicate Trail(w: World, seeds: seq<Selection>, p: seq<Selection>)
  {
    p != [] && p[0] in seeds && forall i :: 0 <= i < |p| - 1 ==> Edge(w, p[i], p[i + 1])
  }

  ghost predicate Reachable(w: World, seeds: seq<Selection>, s: Selection)
  {
    exists p :: Trail(w, seeds, p) && p[|p| - 1] == s
  }

  lemma SeedReachable(w: World, seeds: seq<Selection>, s: Selection)
    requires s in seeds
    ensures Reachable(w, seeds, s)
  {
    assert Trail(w, seeds, [s]) && [s][|[s]| - 1] == s;
  }

  lemma StepReachable(w: World, seeds: seq<Selection>, s: Selection, t: Selection)
    requires Reachable(w, seeds, s) && Edge(w, s, t)
    ensures Reachable(w, seeds, t)
  {
    var p :| Trail(w, seeds, p) && p[|p| - 1] == s;
    var q := p + [t];
    forall i | 0 <= i < |q| - 1 ensures Edge(w, q[i], q[i + 1]) {
      if i < |p| - 1 { assert Edge(w, p[i], p[i + 1]); }
    }
    assert Trail(w, seeds, q) && q[|q| - 1] == t;
  }

  /** Every dependency of `s` selects a different package, of the expected name when one is given. */
  ghost predicate Sound(w: World, s: Selection)
  {
    && PackageOf(w, s).Some?
    && forall d :: DependsOn(w, s, d) ==> SoundDependency(w, s, d)
  }

  ghost predicate SoundDependency(w: World, s: Selection, d: Dependency)
  {
    && w.select(s, d).Some?
    && PackageOf(w, w.select(s, d).value).Some?
    && (d.package.Some? ==> PackageOf(w, w.select(s, d).value).value.name == d.package.value)
    && Fingerprint(w, w.select(s, d).value) != Fingerprint(w, s)
  }

  ghost predicate SameName(w: World, a: Selection, b: Selection)
  {
    PackageOf(w, a).Some? && PackageOf(w, b).Some? && PackageOf(w, a).value.name == PackageOf(w, b).value.name
  }

  ghost predicate Resolvable(w: World, seeds: seq<Selection>)
  {
    && (forall s :: Reachable(w, seeds, s) ==> Sound(w, s))
    && (forall a, b | Reachable(w, seeds, a) && Reachable(w, seeds, b) && SameName(w, a, b) ::
          Fingerprint(w, a) == Fingerprint(w, b))
  }

  /** The lockfile fields that come from the origin. */
  function LockFields(o: Origin): (SourceKind, Option<(string, string)>)
  {
    match o.kind
    case Git => (o.kind, Some((o.gitSource, o.gitRev)))
    case Registry => (o.kind, Some((o.registryRoot, o.registrySha256)))
    case _ => (o.kind, None)
  }

  /** Selections with one fingerprint are interchangeable: same package, same lock fields, same onward choices. */
  ghost predicate Interchangeable(w: World, a: Selection, b: Selection)
  {
    && PackageOf(w, a) == PackageOf(w, b)
    && LockFields(a.origin) == LockFields(b.origin)
    && forall d {:trigger DependsOn(w, a, d)} {:trigger DependsOn(w, b, d)} :: DependsOn(w, a, d) ==> SameChoice(w, a, b, d)
  }

  ghost predicate SameChoice(w: World, a: Selection, b: Selection, d: Dependency)
  {
    && w.select(a, d).Some? == w.select(b, d).Some?
    && (w.select(a, d).Some? ==> Fingerprint(w, w.select(a, d).value) == Fingerprint(w, w.select(b, d).value))
  }

  /** The memo key is adequate: among what is reachable, a fingerprint identifies what it stands for. */
  ghost predicate Coherent(w: World, seeds: seq<Selection>)
  {
    forall a, b | Reachable(w, seeds, a) && Reachable(w, seeds, b) && Fingerprint(w, a) == Fingerprint(w, b) ::
      Interchangeable(w, a, b)
  }

  // Fewer seeds reach less.

  lemma ReachableFromMore(w: World, fewer: seq<Selection>, seeds: seq<Selection>, s: Selection)
    requires (forall x :: x in fewer ==> x in seeds) && Reachable(w, fewer, s)
    ensures Reachable(w, seeds, s)
  {
    hide Fingerprint, Edge;
    var p :| Trail(w, fewer, p) && p[|p| - 1] == s;
    assert Trail(w, seeds, p);
  }

  lemma CoherentFromFewer(w: World, fewer: seq<Selection>, seeds: seq<Selection>)
    requires (forall x :: x in fewer ==> x in seeds) && Coherent(w, seeds)
    ensures Coherent(w, fewer)
  {
    hide Fingerprint, Reachable, Interchangeable;
    forall a, b | Reachable(w, fewer, a) && Reachable(w, fewer, b) && Fingerprint(w, a) == Fingerprint(w, b)
      ensures Interchangeable(w, a, b)
    {
      ReachableFromMore(w, fewer, seeds, a);
      ReachableFromMore(w, fewer, seeds, b);
    }
  }

  lemma ResolvableFromFewer(w: World, fewer: seq<Selection>, seeds: seq<Selection>)
    requires (forall x :: x in fewer ==> x in seeds) && Resolvable(w, seeds)
    ensures Resolvable(w, fewer)
  {
    hide Fingerprint, Reachable, Sound, SameName;
    forall s | Reachable(w, fewer, s) ensures Sound(w, s) {
      ReachableFromMore(w, fewer, seeds, s);
    }
    forall a, b | Reachable(w, fewer, a) && Reachable(w, fewer, b) && SameName(w, a, b)
      ensures Fingerprint(w, a) == Fingerprint(w, b)
    {
      ReachableFromMore(w, fewer, seeds, a);
      ReachableFromMore(w, fewer, seeds, b);
    }
  }

  /** The seeds without those whose fingerprint an earlier seed has. */
  function FirstSeeds(w: World, seeds: seq<Selection>): seq<Selection>
  {
    if seeds == [] then [] else
    var front, last := FirstSeeds(w, seeds[..|seeds| - 1]), seeds[|seeds| - 1];
    if exists s :: s in seeds[..|seeds| - 1] && Fingerprint(w, s) == Fingerprint(w, last) then front else front + [last]
  }

  lemma {:induction false} FirstSeedsAmong(w: World, seeds: seq<Selection>)
    ensures forall s :: s in FirstSeeds(w, seeds) ==> s in seeds
  {
    hide Fingerprint;
    if seeds != [] {
      FirstSeedsAmong(w, seeds[..|seeds| - 1]);
    }
  }

  /** A seed is kept unless its fingerprint came before. */
  lemma {:induction false} FirstSeedKept(w: World, seeds: seq<Selection>, k: nat)
    requires k < |seeds| && forall j :: 0 <= j < k ==> Fingerprint(w, seeds[j]) != Fingerprint(w, seeds[k])
    ensures seeds[k] in FirstSeeds(w, seeds)
  {
    hide Fingerprint;
    var front := seeds[..|seeds| - 1];
    if k < |front| {
      FirstSeedKept(w, front, k);
    }
  }

  // When fingerprints are adequate.

  /** Same source, at the same place in it. */
  predicate SameSource(w: World, a: Selection, b: Selection)
  {
    && a.origin.kind == b.origin.kind
    && match a.origin.kind
       case Git =>
         && a.origin.gitSource == b.origin.gitSource && a.origin.gitRev == b.origin.gitRev
         && w.relativeTo(w.parentDir(a.manifestPath), a.origin.snapshotRoot)
            == w.relativeTo(w.parentDir(b.manifestPath), b.origin.snapshotRoot)
       case Registry =>
         && a.origin.registryRoot == b.origin.registryRoot && a.origin.registrySha256 == b.origin.registrySha256
         && w.relativeTo(w.parentDir(a.manifestPath), a.origin.snapshotRoot)
            == w.relativeTo(w.parentDir(b.manifestPath), b.origin.snapshotRoot)
       case _ => w.parentDir(a.manifestPath) == w.parentDir(b.manifestPath)
  }

  /** The separators of fingerprints do not occur in what they separate. */
  predicate SeparatorFree(o: Origin)
  {
    match o.kind
    case Git => '#' !in o.gitSource && ':' !in o.gitRev
    case Registry => '#' !in o.registryRoot && ':' !in o.registrySha256
    case _ => true
  }

  function PinnedFingerprint(kind: string, source: string, pin: string, place: string): string
  {
    kind + ":" + source + "#" + pin + ":" + place
  }

  lemma PinnedFingerprintSeparates(kind: string, s: string, p: string, x: string, s': string, p': string, x': string)
    requires PinnedFingerprint(kind, s, p, x) == PinnedFingerprint(kind, s', p', x')
    requires '#' !in s && '#' !in s' && ':' !in p && ':' !in p'
    ensures s == s' && p == p' && x == x'
  {
    var head := kind + ":";
    assert PinnedFingerprint(kind, s, p, x) == head + (s + ['#'] + (p + [':'] + x));
    assert PinnedFingerprint(kind, s', p', x') == head + (s' + ['#'] + (p' + [':'] + x'));
    assert s + ['#'] + (p + [':'] + x) == PinnedFingerprint(kind, s, p, x)[|head|..];
    assert s' + ['#'] + (p' + [':'] + x') == PinnedFingerprint(kind, s', p', x')[|head|..];
    SplitAt(s, s', p + [':'] + x, p' + [':'] + x', '#');
    SplitAt(p, p', x, x', ':');
  }

  lemma FingerprintParts(w: World, a: Selection) returns (rest: string)
    ensures Fingerprint(w, a) == KindString(a.origin.kind) + [':'] + rest && ':' !in KindString(a.origin.kind)
    ensures !a.origin.kind.Git? && !a.origin.kind.Registry? ==> rest == w.parentDir(a.manifestPath)
  {
    rest := Fingerprint(w, a)[|KindString(a.origin.kind)| + 1..];
    assert Fingerprint(w, a)[..|KindString(a.origin.kind)| + 1] == KindString(a.origin.kind) + [':'];
  }

  /** Separator-free origins with one fingerprint are one source. */
  lemma FingerprintIdentifiesSource(w: World, a: Selection, b: Selection)
    requires SeparatorFree(a.origin) && SeparatorFree(b.origin) && Fingerprint(w, a) == Fingerprint(w, b)
    ensures SameSource(w, a, b)
  {
    var x := FingerprintParts(w, a);
    var y := FingerprintParts(w, b);
    SplitAt(KindString(a.origin.kind), KindString(b.origin.kind), x, y, ':');
    KindStringInjective(a.origin.kind, b.origin.kind);
    var p := w.relativeTo(w.parentDir(a.manifestPath), a.origin.snapshotRoot);
    var q := w.relativeTo(w.parentDir(b.manifestPath), b.origin.snapshotRoot);
    if a.origin.kind.Git? {
      PinnedFingerprintSeparates("git", a.origin.gitSource, a.origin.gitRev, p, b.origin.gitSource, b.origin.gitRev, q);
    } else if a.origin.kind.Registry? {
      PinnedFingerprintSeparates("registry", a.origin.registryRoot, a.origin.registrySha256, p,
                                 b.origin.registryRoot, b.origin.registrySha256, q);
    }
  }

  /** And one source, at one place, has one fingerprint. */
  lemma SameSourceSameFingerprint(w: World, a: Selection, b: Selection)
    requires SameSource(w, a, b)
    ensures Fingerprint(w, a) == Fingerprint(w, b)
  {
  }

  /** A source fixes the package at each place in it; fingerprints then do, too. */
  lemma RegularWorldCoherent(w: World, seeds: seq<Selection>)
    requires forall a :: Reachable(w, seeds, a) ==> SeparatorFree(a.origin)
    requires forall a, b | Reachable(w, seeds, a) && Reachable(w, seeds, b) && SameSource(w, a, b) :: Interchangeable(w, a, b)
    ensures Coherent(w, seeds)
  {
    forall a, b | Reachable(w, seeds, a) && Reachable(w, seeds, b) && Fingerprint(w, a) == Fingerprint(w, b)
      ensures Interchangeable(w, a, b)
    {
      FingerprintIdentifiesSource(w, a, b);
    }
  }

  // Lock ids tell packages of different names apart.

  lemma LockIdSeparates(o: Origin, p: Package, o': Origin, p': Package)
    requires ValidPackageName(p.name) && ValidPackageName(p'.name) && LockId(o, p) == LockId(o', p')
    ensures o.kind == o'.kind && p.name == p'.name
  {
    var rest, rest' := p.version + Pin(o), p'.version + Pin(o');
    LockIdParts(o, p);
    LockIdParts(o', p');
    SplitAt(KindString(o.kind), KindString(o'.kind), p.name + ['@'] + rest, p'.name + ['@'] + rest', ':');
    SplitAt(p.name, p'.name, rest, rest', '@');
    KindStringInjective(o.kind, o'.kind);
  }

  lemma LockIdParts(o: Origin, p: Package)
    requires ValidPackageName(p.name)
    ensures LockId(o, p) == KindString(o.kind) + [':'] + (p.name + ['@'] + (p.version + Pin(o)))
    ensures ':' !in KindString(o.kind) && '@' !in p.name
  {
    NameChars(p.name);
  }

  lemma KindStringInjective(a: SourceKind, b: SourceKind)
    requires KindString(a) == KindString(b)
    ensures a == b
  {
    assert KindString(a)[0] == KindString(b)[0];
  }

  // The resolved graph.

  datatype Node = Node(
    selection: Selection,
    package: Package,
    fingerprint: string,
    id: string,
    dependencies: seq<string>)

  datatype ResolvedPackage = ResolvedPackage(
    id: string,
    name: string,
    version: string,
    fields: (SourceKind, Option<(string, string)>),
    dependencies: seq<string>)

  function ResolvedPackageOf(n: Node): ResolvedPackage
  {
    ResolvedPackage(n.id, n.package.name, n.package.version, LockFields(n.selection.origin), n.dependencies)
  }

  /** Neighbouring repetitions removed, as `std::unique` does. */
  function SortedSet(xs: seq<string>): seq<string>
  {
    SortedSetBy(xs, StringLe())
  }

  function IdKey(): ResolvedPackage -> string { (p: ResolvedPackage) => p.id }

  function ResolvedPackages(nodes: seq<Node>): (r: seq<ResolvedPackage>)
    ensures |r| == |nodes| && forall i :: 0 <= i < |nodes| ==> r[i] == ResolvedPackageOf(nodes[i])
  {
    seq(|nodes|, i requires 0 <= i < |nodes| => ResolvedPackageOf(nodes[i]))
  }

  function PackagesById(nodes: seq<Node>): seq<ResolvedPackage>
  {
    Sort(ResolvedPackages(nodes), IdKey(), StringLe())
  }

  ghost predicate StrictlySorted(xs: seq<string>)
  {
    StrictlySortedBy(xs, StringLe())
  }

  lemma SortedSetStrict(xs: seq<string>)
    ensures StrictlySorted(SortedSet(xs))
    ensures forall x :: x in SortedSet(xs) <==> x in xs
  {
    StringOrder();
    SortedSetByStrict(xs, StringLe());
  }

  lemma SortedSetOfSet(xs: seq<string>, ys: seq<string>)
    requires forall x :: x in xs <==> x in ys
    ensures SortedSet(xs) == SortedSet(ys)
  {
    StringOrder();
    SortedSetByOfSet(xs, ys, StringLe());
  }
}
