/** The resolver against its specification: success, the nodes it finds, and independence of order. */
module ResolverTheorems {
  import opened Wrappers
  import opened Sorting
  import opened ResolverModel
  import opened ResolverGraph
  import opened Resolver

  /** Two nodes with one fingerprint record the same package under the same id. */
  lemma NodesAgree(w: World, s1: seq<Selection>, s2: seq<Selection>, m: Node, n: Node)
    requires Coherent(w, s1) && SameSeeds(s1, s2) && NodeOk(w, s1, m) && NodeOk(w, s2, n) && m.fingerprint == n.fingerprint
    ensures m.package == n.package && m.id == n.id && LockFields(m.selection.origin) == LockFields(n.selection.origin)
    ensures Interchangeable(w, m.selection, n.selection)
  {
    hide Fingerprint, Reachable, Declares;
    ReachableFromSame(w, s2, s1, n.selection);
    assert Interchangeable(w, m.selection, n.selection);
  }

  lemma NodeOfFingerprint(w: World, seeds: seq<Selection>, g: Graph, s: Selection)
    requires GraphOk(w, seeds, g) && HasNode(w, g, s)
    ensures NodeOk(w, seeds, NodeFor(w, g, s)) && NodeFor(w, g, s).fingerprint == Fingerprint(w, s)
  {
  }

  /** Dependency by dependency, what a finished node leads to. */
  lemma FinishedDependency(w: World, g: Graph, n: Node, d: Dependency) returns (id: string)
    requires Finished(w, g, n) && Declares(n.package, d)
    ensures Resolved(w, g, n, d, id) && id in n.dependencies
  {
    hide Resolved;
    assert Leads(w, g, n, d);
    id :| id in n.dependencies && Resolved(w, g, n, d, id);
  }

  /** Every selection along a trail from the roots has a node. */
  lemma {:induction false} TrailHasNodes(w: World, seeds: seq<Selection>, g: Graph, p: seq<Selection>)
    requires Coherent(w, seeds) && Complete(w, seeds, g) && Trail(w, seeds, p)
    ensures HasNode(w, g, p[|p| - 1])
  {
    hide Coherent, GraphOk, FinishedFrom, Edge, HasNode, Fingerprint, LockId;
    if |p| == 1 {
      var k :| 0 <= k < |seeds| && seeds[k] == p[0];
      assert HasNode(w, g, seeds[k]);
    } else {
      var q := p[..|p| - 1];
      assert forall i :: 0 <= i < |q| - 1 ==> Edge(w, p[i], p[i + 1]);
      TrailHasNodes(w, seeds, g, q);
      assert Trail(w, seeds, q) && q[|q| - 1] == p[|p| - 2];
      assert Edge(w, p[|p| - 2], p[|p| - 2 + 1]);
      EdgeHasNode(w, seeds, g, p[|p| - 2], p[|p| - 1]);
    }
  }

  lemma EdgeHasNode(w: World, seeds: seq<Selection>, g: Graph, s: Selection, t: Selection)
    requires Coherent(w, seeds) && Complete(w, seeds, g) && HasNode(w, g, s)
    requires Reachable(w, seeds, s) && Edge(w, s, t)
    ensures HasNode(w, g, t)
  {
    hide Fingerprint, LockId;
    var n := NodeFor(w, g, s);
    NodeOfFingerprint(w, seeds, g, s);
    var d :| DependsOn(w, s, d) && w.select(s, d) == Some(t);
    assert Interchangeable(w, s, n.selection);
    assert SameChoice(w, s, n.selection, d);
    var id := FinishedDependency(w, g, n, d);
  }

  lemma ReachableHasNode(w: World, seeds: seq<Selection>, g: Graph, s: Selection)
    requires Coherent(w, seeds) && Complete(w, seeds, g) && Reachable(w, seeds, s)
    ensures HasNode(w, g, s)
    ensures NodeOk(w, seeds, NodeFor(w, g, s)) && NodeFor(w, g, s).fingerprint == Fingerprint(w, s)
    ensures Interchangeable(w, NodeFor(w, g, s).selection, s)
  {
    hide Fingerprint, LockId;
    var p :| Trail(w, seeds, p) && p[|p| - 1] == s;
    TrailHasNodes(w, seeds, g, p);
    NodeOfFingerprint(w, seeds, g, s);
  }

  /** The nodes are exactly the closure of the roots, up to fingerprint. */
  lemma NodesAreTheClosure(w: World, seeds: seq<Selection>, g: Graph, f: string)
    requires Coherent(w, seeds) && Complete(w, seeds, g)
    ensures (exists i :: 0 <= i < |g.nodes| && g.nodes[i].fingerprint == f) <==>
            (exists s :: Reachable(w, seeds, s) && Fingerprint(w, s) == f)
  {
    hide Fingerprint, LockId;
    if i :| 0 <= i < |g.nodes| && g.nodes[i].fingerprint == f {
      assert NodeOk(w, seeds, g.nodes[i]);
      assert Reachable(w, seeds, g.nodes[i].selection) && Fingerprint(w, g.nodes[i].selection) == f;
    }
    if s :| Reachable(w, seeds, s) && Fingerprint(w, s) == f {
      ReachableHasNode(w, seeds, g, s);
    }
  }

  lemma InterchangeableTransitive(w: World, n: Selection, a: Selection, b: Selection)
    requires Interchangeable(w, n, a) && Interchangeable(w, n, b)
    ensures Interchangeable(w, a, b)
  {
    hide Fingerprint, Declares;
    forall d | DependsOn(w, a, d) ensures SameChoice(w, a, b, d) {
      assert DependsOn(w, n, d);
      assert SameChoice(w, n, a, d) && SameChoice(w, n, b, d);
    }
  }

  /**
   A completed resolution represents every reachable selection by a node that is as good as it, exactly
   when fingerprints are adequate.
   */
  lemma ClosureIffCoherent(w: World, seeds: seq<Selection>, g: Graph)
    requires Complete(w, seeds, g)
    ensures (forall s :: Reachable(w, seeds, s) ==> HasNode(w, g, s) && Interchangeable(w, NodeFor(w, g, s).selection, s))
            <==> Coherent(w, seeds)
  {
    hide Fingerprint, LockId, Reachable, Complete, Interchangeable;
    if Coherent(w, seeds) {
      forall s | Reachable(w, seeds, s) ensures HasNode(w, g, s) && Interchangeable(w, NodeFor(w, g, s).selection, s) {
        ReachableHasNode(w, seeds, g, s);
      }
    }
    if forall s :: Reachable(w, seeds, s) ==> HasNode(w, g, s) && Interchangeable(w, NodeFor(w, g, s).selection, s) {
      forall a, b | Reachable(w, seeds, a) && Reachable(w, seeds, b) && Fingerprint(w, a) == Fingerprint(w, b)
        ensures Interchangeable(w, a, b)
      {
        InterchangeableTransitive(w, NodeFor(w, g, a).selection, a, b);
      }
    }
  }

  /** Every node of a completed resolution is in order and finished. */
  lemma CompleteNode(w: World, seeds: seq<Selection>, g: Graph, i: nat)
    requires Complete(w, seeds, g) && i < |g.nodes|
    ensures NodeOk(w, seeds, g.nodes[i]) && Finished(w, g, g.nodes[i])
  {
    hide NodeOk, Finished;
  }

  lemma CompleteGraphOk(w: World, seeds: seq<Selection>, g: Graph)
    requires Complete(w, seeds, g)
    ensures GraphOk(w, seeds, g) && forall k :: 0 <= k < |seeds| ==> HasNode(w, g, seeds[k])
  {
  }

  lemma CompleteSoundDependency(w: World, seeds: seq<Selection>, g: Graph, s: Selection, d: Dependency)
    requires Coherent(w, seeds) && Complete(w, seeds, g) && Reachable(w, seeds, s) && DependsOn(w, s, d)
    ensures SoundDependency(w, s, d)
  {
    hide Fingerprint, LockId, Coherent, Complete, Reachable, Finished, Declares, PackageOf;
    ReachableHasNode(w, seeds, g, s);
    var i := g.byFingerprint[Fingerprint(w, s)];
    var n := g.nodes[i];
    CompleteNode(w, seeds, g, i);
    assert DependsOn(w, n.selection, d) && SameChoice(w, n.selection, s, d);
    var id := FinishedDependency(w, g, n, d);
    var t := w.select(s, d).value;
    assert Edge(w, s, t);
    StepReachable(w, seeds, s, t);
    ReachableHasNode(w, seeds, g, t);
  }

  lemma CompleteSound(w: World, seeds: seq<Selection>, g: Graph, s: Selection)
    requires Coherent(w, seeds) && Complete(w, seeds, g) && Reachable(w, seeds, s)
    ensures Sound(w, s)
  {
    hide Fingerprint, LockId, Coherent, Complete, Reachable;
    ReachableHasNode(w, seeds, g, s);
    forall d | DependsOn(w, s, d) ensures SoundDependency(w, s, d) {
      CompleteSoundDependency(w, seeds, g, s, d);
    }
  }

  /** What a completed resolution found meets the specification. */
  lemma CompleteResolvable(w: World, seeds: seq<Selection>, g: Graph)
    requires Coherent(w, seeds) && Complete(w, seeds, g)
    ensures Resolvable(w, seeds)
  {
    hide Fingerprint, LockId;
    forall s | Reachable(w, seeds, s) ensures Sound(w, s) {
      CompleteSound(w, seeds, g, s);
    }
    forall a, b | Reachable(w, seeds, a) && Reachable(w, seeds, b) && SameName(w, a, b)
      ensures Fingerprint(w, a) == Fingerprint(w, b)
    {
      ReachableHasNode(w, seeds, g, a);
      ReachableHasNode(w, seeds, g, b);
      var i, j := g.byFingerprint[Fingerprint(w, a)], g.byFingerprint[Fingerprint(w, b)];
      assert At(g.byName, g.nodes[i].package.name, i) && At(g.byName, g.nodes[j].package.name, j);
    }
  }

  // What holds of every completed resolution, coherent or not.

  lemma IdsDistinct(w: World, seeds: seq<Selection>, g: Graph, i: nat, j: nat)
    requires ValidWorld(w) && GraphOk(w, seeds, g) && i < j < |g.nodes|
    ensures g.nodes[i].id != g.nodes[j].id
  {
    assert NodeOk(w, seeds, g.nodes[i]) && NodeOk(w, seeds, g.nodes[j]);
    assert At(g.byName, g.nodes[i].package.name, i) && At(g.byName, g.nodes[j].package.name, j);
    if g.nodes[i].id == g.nodes[j].id {
      LockIdSeparates(g.nodes[i].selection.origin, g.nodes[i].package, g.nodes[j].selection.origin, g.nodes[j].package);
    }
  }

  /** Every dependency id is the id of another package of the graph. */
  lemma DependenciesArePackages(w: World, seeds: seq<Selection>, g: Graph, i: nat, id: string)
    requires ValidWorld(w) && Complete(w, seeds, g) && i < |g.nodes| && id in g.nodes[i].dependencies
    ensures id != g.nodes[i].id && exists j :: 0 <= j < |g.nodes| && g.nodes[j].id == id
  {
    hide Fingerprint, LockId;
    var n := g.nodes[i];
    assert Finished(w, g, n);
    assert Wanted(w, g, n, id);
    var d :| Declares(n.package, d) && Resolved(w, g, n, d, id);
    var j := g.byFingerprint[Fingerprint(w, w.select(n.selection, d).value)];
    assert g.nodes[j].id == id && j != i;
    IdsDistinct(w, seeds, g, if i < j then i else j, if i < j then j else i);
  }

  // Independence of the order of visits.

  lemma {:induction false} SingleOccurrences<T>(xs: seq<T>, x: T)
    requires forall i, j :: 0 <= i < j < |xs| ==> xs[i] != xs[j]
    ensures multiset(xs)[x] == if x in xs then 1 else 0
  {
    if xs != [] {
      assert xs == [xs[0]] + xs[1..];
      SingleOccurrences(xs[1..], x);
    }
  }

  lemma SameSetSameMultiset<T(!new)>(xs: seq<T>, ys: seq<T>)
    requires forall i, j :: 0 <= i < j < |xs| ==> xs[i] != xs[j]
    requires forall i, j :: 0 <= i < j < |ys| ==> ys[i] != ys[j]
    requires forall x :: x in xs <==> x in ys
    ensures multiset(xs) == multiset(ys)
  {
    forall x: T ensures multiset(xs)[x] == multiset(ys)[x] {
      SingleOccurrences(xs, x);
      SingleOccurrences(ys, x);
    }
  }

  ghost predicate SameSeeds(s1: seq<Selection>, s2: seq<Selection>)
  {
    forall s :: s in s1 <==> s in s2
  }

  lemma ReachableFromSame(w: World, s1: seq<Selection>, s2: seq<Selection>, s: Selection)
    requires SameSeeds(s1, s2) && Reachable(w, s1, s)
    ensures Reachable(w, s2, s)
  {
    hide Fingerprint, LockId;
    var p :| Trail(w, s1, p) && p[|p| - 1] == s;
    assert Trail(w, s2, p);
  }

  lemma CoherentFromSame(w: World, s1: seq<Selection>, s2: seq<Selection>)
    requires SameSeeds(s1, s2) && Coherent(w, s1)
    ensures Coherent(w, s2)
  {
    hide Fingerprint, LockId;
    forall a, b | Reachable(w, s2, a) && Reachable(w, s2, b) && Fingerprint(w, a) == Fingerprint(w, b)
      ensures Interchangeable(w, a, b)
    {
      ReachableFromSame(w, s2, s1, a);
      ReachableFromSame(w, s2, s1, b);
    }
  }

  /** A node of one resolution appears, with the same lockfile entry, in any other of the same roots. */
  lemma SameEntry(w: World, s1: seq<Selection>, g1: Graph, s2: seq<Selection>, g2: Graph, i: nat)
    requires Coherent(w, s1) && SameSeeds(s1, s2) && Complete(w, s1, g1) && Complete(w, s2, g2) && i < |g1.nodes|
    ensures HasNode(w, g2, g1.nodes[i].selection)
    ensures ResolvedPackageOf(g1.nodes[i]) == ResolvedPackageOf(NodeFor(w, g2, g1.nodes[i].selection))
  {
    hide Fingerprint, LockId, Coherent, Complete, Reachable, SameSeeds, Interchangeable, Resolved, PackageOf, Finished;
    var m := g1.nodes[i];
    CompleteNode(w, s1, g1, i);
    ReachableFromSame(w, s1, s2, m.selection);
    CoherentFromSame(w, s1, s2);
    ReachableHasNode(w, s2, g2, m.selection);
    var n := NodeFor(w, g2, m.selection);
    NodesAgree(w, s1, s2, m, n);
    CompleteNode(w, s2, g2, g2.byFingerprint[Fingerprint(w, m.selection)]);
    CompleteGraphOk(w, s1, g1);
    CompleteGraphOk(w, s2, g2);
    SameDependencies(w, s1, g1, s2, g2, m, n);
  }

  lemma SameDependencies(w: World, s1: seq<Selection>, g1: Graph, s2: seq<Selection>, g2: Graph, m: Node, n: Node)
    requires Coherent(w, s1) && SameSeeds(s1, s2) && GraphOk(w, s1, g1) && GraphOk(w, s2, g2)
    requires NodeOk(w, s1, m) && Interchangeable(w, m.selection, n.selection) && m.package == n.package
    requires Finished(w, g1, m) && Finished(w, g2, n)
    ensures m.dependencies == n.dependencies
  {
    hide Coherent, GraphOk, SameSeeds, Interchangeable, Resolved, Declares, NodeOk;
    forall id ensures id in m.dependencies <==> id in n.dependencies {
      if id in m.dependencies {
        assert Wanted(w, g1, m, id);
        var d :| Declares(m.package, d) && Resolved(w, g1, m, d, id);
        var other := FinishedDependency(w, g2, n, d);
        SameTargetId(w, s1, g1, s2, g2, m, n, d, id, other);
      }
      if id in n.dependencies {
        assert Wanted(w, g2, n, id);
        var d :| Declares(n.package, d) && Resolved(w, g2, n, d, id);
        var other := FinishedDependency(w, g1, m, d);
        SameTargetId(w, s1, g1, s2, g2, m, n, d, other, id);
      }
    }
    StringOrder();
    StrictlySortedUnique(m.dependencies, n.dependencies, StringLe());
  }

  lemma SameTargetId(w: World, s1: seq<Selection>, g1: Graph, s2: seq<Selection>, g2: Graph,
                     m: Node, n: Node, d: Dependency, id1: string, id2: string)
    requires Coherent(w, s1) && SameSeeds(s1, s2) && GraphOk(w, s1, g1) && GraphOk(w, s2, g2)
    requires NodeOk(w, s1, m) && Interchangeable(w, m.selection, n.selection) && Declares(m.package, d)
    requires Resolved(w, g1, m, d, id1) && Resolved(w, g2, n, d, id2)
    ensures id1 == id2
  {
    hide Fingerprint, LockId;
    assert DependsOn(w, m.selection, d);
    assert SameChoice(w, m.selection, n.selection, d);
    var f := Fingerprint(w, w.select(m.selection, d).value);
    var a, b := g1.nodes[g1.byFingerprint[f]], g2.nodes[g2.byFingerprint[f]];
    NodesAgree(w, s1, s2, a, b);
  }

  lemma EntriesContained(w: World, s1: seq<Selection>, g1: Graph, s2: seq<Selection>, g2: Graph, e: ResolvedPackage)
    requires Coherent(w, s1) && SameSeeds(s1, s2) && Complete(w, s1, g1) && Complete(w, s2, g2)
    requires e in ResolvedPackages(g1.nodes)
    ensures e in ResolvedPackages(g2.nodes)
  {
    hide Fingerprint, LockId, Coherent, SameSeeds, ResolvedPackageOf;
    var i :| 0 <= i < |g1.nodes| && ResolvedPackages(g1.nodes)[i] == e;
    SameEntry(w, s1, g1, s2, g2, i);
    var j := g2.byFingerprint[Fingerprint(w, g1.nodes[i].selection)];
    assert ResolvedPackages(g2.nodes)[j] == e;
  }

  lemma EntriesDistinct(w: World, seeds: seq<Selection>, g: Graph)
    requires ValidWorld(w) && GraphOk(w, seeds, g)
    ensures forall i, j :: 0 <= i < j < |g.nodes| ==> ResolvedPackages(g.nodes)[i].id != ResolvedPackages(g.nodes)[j].id
  {
    hide Fingerprint, LockId;
    forall i, j | 0 <= i < j < |g.nodes| ensures ResolvedPackages(g.nodes)[i].id != ResolvedPackages(g.nodes)[j].id {
      IdsDistinct(w, seeds, g, i, j);
    }
  }

  /** The lockfile and the root ids depend on the set of roots, not on any order of visits. */
  lemma OrderIndependent(w: World, s1: seq<Selection>, g1: Graph, s2: seq<Selection>, g2: Graph)
    requires Coherent(w, s1) && ValidWorld(w) && SameSeeds(s1, s2) && Complete(w, s1, g1) && Complete(w, s2, g2)
    ensures ResolutionOf(w, s1, g1) == ResolutionOf(w, s2, g2)
  {
    hide Coherent, ValidWorld, GraphOk, Finished, HasNode, Fingerprint, LockId;
    CoherentFromSame(w, s1, s2);
    var p1, p2 := ResolvedPackages(g1.nodes), ResolvedPackages(g2.nodes);
    EntriesDistinct(w, s1, g1);
    EntriesDistinct(w, s2, g2);
    forall e ensures e in p1 <==> e in p2 {
      if e in p1 { EntriesContained(w, s1, g1, s2, g2, e); }
      if e in p2 { EntriesContained(w, s2, g2, s1, g1, e); }
    }
    SameSetSameMultiset(p1, p2);
    forall x, y | x in p1 && y in p1 && IdKey()(x) == IdKey()(y) ensures x == y {
    }
    StringOrder();
    SortIgnoresOrder(p1, p2, IdKey(), StringLe());
    SameRootIds(w, s1, g1, s2, g2);
    SameRootIds(w, s2, g2, s1, g1);
    SortedSetOfSet(RootIds(w, s1, g1), RootIds(w, s2, g2));
  }

  lemma SameRootIds(w: World, s1: seq<Selection>, g1: Graph, s2: seq<Selection>, g2: Graph)
    requires Coherent(w, s1) && SameSeeds(s1, s2) && Complete(w, s1, g1) && Complete(w, s2, g2)
    ensures forall id :: id in RootIds(w, s1, g1) ==> id in RootIds(w, s2, g2)
  {
    hide Fingerprint, LockId, Coherent, Complete, GraphOk, HasNode, NodeOk, Interchangeable;
    CompleteGraphOk(w, s1, g1);
    CompleteGraphOk(w, s2, g2);
    forall id | id in RootIds(w, s1, g1) ensures id in RootIds(w, s2, g2) {
      var k :| 0 <= k < |s1| && NodeFor(w, g1, s1[k]).id == id;
      assert HasNode(w, g1, s1[k]) && s1[k] in s2;
      var j :| 0 <= j < |s2| && s2[j] == s1[k];
      assert HasNode(w, g2, s2[j]);
      NodeOfFingerprint(w, s1, g1, s1[k]);
      NodeOfFingerprint(w, s2, g2, s2[j]);
      NodesAgree(w, s1, s2, NodeFor(w, g1, s1[k]), NodeFor(w, g2, s2[j]));
      assert RootIds(w, s2, g2)[j] == id;
    }
  }

  /**
   Resolution from roots to lockfile. Where fingerprints are adequate it succeeds exactly when the
   specification says so; in any case it is decided by the seeds that are visited for the first time,
   and a refusal is one of the specification's or exhibits two packages under one memo key.
   */
  method ResolveSingleVersionGraph(w: World, seeds: seq<Selection>) returns (r: Result<Resolution, Error>)
    ensures Coherent(w, seeds) ==> (r.Ok? <==> Resolvable(w, seeds))
    ensures Coherent(w, FirstSeeds(w, seeds)) ==> (r.Ok? <==> Resolvable(w, FirstSeeds(w, seeds)))
    ensures r.Err? ==> Refused(w, FirstSeeds(w, seeds))
    ensures r.Ok? ==> exists g :: Complete(w, seeds, g) && Complete(w, FirstSeeds(w, seeds), g) && r.value == ResolutionOf(w, seeds, g)
  {
    hide Coherent, Complete, Resolvable, ResolutionOf, Fingerprint, LockId, Refused, FirstSeeds;
    var resolver := new SingleVersionResolver(w, seeds);
    ghost var roots := FirstSeeds(w, seeds);
    FirstSeedsAmong(w, seeds);
    r := resolver.ResolveGraph();
    if Coherent(w, seeds) {
      CoherentFromFewer(w, roots, seeds);
      if r.Ok? {
        CompleteResolvable(w, seeds, resolver.View());
      } else {
        RefusedMeans(w, roots);
        if Resolvable(w, seeds) { ResolvableFromFewer(w, roots, seeds); }
      }
    }
    if Coherent(w, roots) {
      if r.Ok? {
        CompleteResolvable(w, roots, resolver.View());
      } else {
        RefusedMeans(w, roots);
      }
    }
  }
}
