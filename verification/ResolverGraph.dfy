/** The resolver's growing graph: its bookkeeping invariant and what finished nodes promise. */
module ResolverGraph {
  import opened Wrappers
  import opened ResolverModel

  datatype Graph = Graph(nodes: seq<Node>, byFingerprint: map<string, nat>, byName: map<string, nat>)

  const EMPTY := Graph([], map[], map[])

  /** A node is what its selection declares, and the selection is reachable. */
  ghost predicate NodeOk(w: World, seeds: seq<Selection>, n: Node)
  {
    && PackageOf(w, n.selection) == Some(n.package)
    && n.fingerprint == Fingerprint(w, n.selection)
    && n.id == LockId(n.selection.origin, n.package)
    && Reachable(w, seeds, n.selection)
  }

  predicate At(index: map<string, nat>, key: string, i: nat)
  {
    key in index && index[key] == i
  }

  /** Both maps are exact inverse indexes of the nodes. */
  ghost predicate IndexesOk(g: Graph)
  {
    && (forall i :: 0 <= i < |g.nodes| ==> At(g.byFingerprint, g.nodes[i].fingerprint, i))
    && (forall i :: 0 <= i < |g.nodes| ==> At(g.byName, g.nodes[i].package.name, i))
    && (forall f :: f in g.byFingerprint ==> g.byFingerprint[f] < |g.nodes| && g.nodes[g.byFingerprint[f]].fingerprint == f)
    && (forall m :: m in g.byName ==> g.byName[m] < |g.nodes| && g.nodes[g.byName[m]].package.name == m)
  }

  ghost predicate GraphOk(w: World, seeds: seq<Selection>, g: Graph)
  {
    IndexesOk(g) && forall i :: 0 <= i < |g.nodes| ==> NodeOk(w, seeds, g.nodes[i])
  }

  /** `g` is an earlier state of `h`: nothing is renumbered, and nodes of `g` keep their identity. */
  ghost predicate Grows(g: Graph, h: Graph)
  {
    && |g.nodes| <= |h.nodes| && h.nodes[..|g.nodes|] == g.nodes
    && (forall f :: f in g.byFingerprint ==> At(h.byFingerprint, f, g.byFingerprint[f]))
    && g.byName.Keys <= h.byName.Keys
  }

  lemma GrowsTransitive(a: Graph, b: Graph, c: Graph)
    requires Grows(a, b) && Grows(b, c)
    ensures Grows(a, c)
  {
    hide Fingerprint, LockId;
    assert c.nodes[..|a.nodes|] == b.nodes[..|a.nodes|];
    forall f | f in a.byFingerprint ensures At(c.byFingerprint, f, a.byFingerprint[f]) {
      assert At(b.byFingerprint, f, a.byFingerprint[f]);
    }
  }

  /** Dependency `d` of node `n` leads to another node, whose id is `id`. */
  ghost predicate Resolved(w: World, g: Graph, n: Node, d: Dependency, id: string)
  {
    && w.select(n.selection, d).Some?
    && var f := Fingerprint(w, w.select(n.selection, d).value);
    && f != n.fingerprint
    && f in g.byFingerprint && g.byFingerprint[f] < |g.nodes|
    && g.nodes[g.byFingerprint[f]].id == id
    && (d.package.Some? ==> g.nodes[g.byFingerprint[f]].package.name == d.package.value)
  }

  /** The first dependencies of `n` lead to the nodes with these ids. */
  ghost predicate ResolvedUpTo(w: World, g: Graph, n: Node, ids: seq<string>)
  {
    var ds := CollectDependencies(n.package);
    |ids| <= |ds| && forall k :: 0 <= k < |ids| ==> Resolved(w, g, n, ds[k], ids[k])
  }

  /** The recorded ids are those of what the declared dependencies lead to, each once and in order. */
  ghost predicate Finished(w: World, g: Graph, n: Node)
  {
    && StrictlySorted(n.dependencies)
    && (forall d :: Declares(n.package, d) ==> Leads(w, g, n, d))
    && (forall id :: id in n.dependencies ==> Wanted(w, g, n, id))
  }

  ghost predicate Leads(w: World, g: Graph, n: Node, d: Dependency)
  {
    exists id :: id in n.dependencies && Resolved(w, g, n, d, id)
  }

  ghost predicate Wanted(w: World, g: Graph, n: Node, id: string)
  {
    exists d :: Declares(n.package, d) && Resolved(w, g, n, d, id)
  }

  ghost predicate FinishedFrom(w: World, g: Graph, start: nat)
  {
    forall i :: start <= i < |g.nodes| ==> Finished(w, g, g.nodes[i])
  }

  lemma OneResolvedStays(w: World, g: Graph, h: Graph, n: Node, d: Dependency, id: string)
    requires Grows(g, h) && Resolved(w, g, n, d, id)
    ensures Resolved(w, h, n, d, id)
  {
    hide Fingerprint, LockId;
    var f := Fingerprint(w, w.select(n.selection, d).value);
    assert At(h.byFingerprint, f, g.byFingerprint[f]);
    assert h.nodes[g.byFingerprint[f]] == h.nodes[..|g.nodes|][g.byFingerprint[f]];
  }

  lemma ResolvedStays(w: World, g: Graph, h: Graph, n: Node, ids: seq<string>)
    requires Grows(g, h) && ResolvedUpTo(w, g, n, ids)
    ensures ResolvedUpTo(w, h, n, ids)
  {
    hide Grows, Resolved;
    var ds := CollectDependencies(n.package);
    forall k | 0 <= k < |ids| ensures Resolved(w, h, n, ds[k], ids[k]) {
      OneResolvedStays(w, g, h, n, ds[k], ids[k]);
    }
  }

  lemma FinishedStays(w: World, g: Graph, h: Graph, n: Node)
    requires Grows(g, h) && Finished(w, g, n)
    ensures Finished(w, h, n)
  {
    hide Grows, Resolved, StrictlySorted, Declares;
    forall d | Declares(n.package, d) ensures Leads(w, h, n, d) {
      assert Leads(w, g, n, d);
      var id :| id in n.dependencies && Resolved(w, g, n, d, id);
      OneResolvedStays(w, g, h, n, d, id);
    }
    forall id | id in n.dependencies ensures Wanted(w, h, n, id) {
      assert Wanted(w, g, n, id);
      var d :| Declares(n.package, d) && Resolved(w, g, n, d, id);
      OneResolvedStays(w, g, h, n, d, id);
    }
  }

  lemma FinishedFromStays(w: World, g: Graph, h: Graph, start: nat)
    requires Grows(g, h) && FinishedFrom(w, g, start) && FinishedFrom(w, h, |g.nodes|)
    ensures FinishedFrom(w, h, start)
  {
    hide Fingerprint, LockId;
    forall i | start <= i < |h.nodes| ensures Finished(w, h, h.nodes[i]) {
      if i < |g.nodes| {
        assert h.nodes[i] == h.nodes[..|g.nodes|][i];
        FinishedStays(w, g, h, g.nodes[i]);
      }
    }
  }

  function Added(g: Graph, n: Node): Graph
  {
    Graph(g.nodes + [n], g.byFingerprint[n.fingerprint := |g.nodes|], g.byName[n.package.name := |g.nodes|])
  }

  lemma AddedOk(w: World, seeds: seq<Selection>, g: Graph, n: Node)
    requires GraphOk(w, seeds, g) && NodeOk(w, seeds, n)
    requires n.fingerprint !in g.byFingerprint && n.package.name !in g.byName
    ensures GraphOk(w, seeds, Added(g, n)) && Grows(g, Added(g, n))
  {
    hide NodeOk, Fingerprint, LockId;
    AddedIndexes(g, n);
  }

  lemma AddedIndexes(g: Graph, n: Node)
    requires IndexesOk(g)
    requires n.fingerprint !in g.byFingerprint && n.package.name !in g.byName
    ensures IndexesOk(Added(g, n))
  {
    hide Fingerprint, LockId;
    var h := Added(g, n);
    forall i | 0 <= i < |h.nodes|
      ensures At(h.byFingerprint, h.nodes[i].fingerprint, i) && At(h.byName, h.nodes[i].package.name, i)
    {
      if i < |g.nodes| {
        assert At(g.byFingerprint, g.nodes[i].fingerprint, i) && At(g.byName, g.nodes[i].package.name, i);
      }
    }
  }

  lemma IndexLookups(w: World, seeds: seq<Selection>, g: Graph)
    requires GraphOk(w, seeds, g)
    ensures forall f :: f in g.byFingerprint ==> g.byFingerprint[f] < |g.nodes| && g.nodes[g.byFingerprint[f]].fingerprint == f
  {
  }

  lemma NodesIndexed(w: World, seeds: seq<Selection>, g: Graph, i: nat)
    requires GraphOk(w, seeds, g) && i < |g.nodes|
    ensures At(g.byFingerprint, g.nodes[i].fingerprint, i)
    ensures NodeOk(w, seeds, g.nodes[i])
  {
  }

  lemma GrowsReflexive(g: Graph)
    ensures Grows(g, g)
  {
  }

  lemma NothingNew(w: World, g: Graph)
    ensures FinishedFrom(w, g, |g.nodes|)
  {
  }

  lemma GrownNode(g: Graph, h: Graph, i: nat)
    requires Grows(g, h) && i < |g.nodes|
    ensures i < |h.nodes| && h.nodes[i] == g.nodes[i]
  {
    hide Fingerprint, LockId;
    assert h.nodes[i] == h.nodes[..|g.nodes|][i];
  }

  /** Recording the dependencies of node `i` disturbs neither the indexes nor what is resolved. */
  function Recorded(g: Graph, i: nat, ids: seq<string>): Graph
    requires i < |g.nodes|
  {
    g.(nodes := g.nodes[i := g.nodes[i].(dependencies := SortedSet(ids))])
  }

  lemma RecordedGrows(g: Graph, h: Graph, i: nat, ids: seq<string>)
    requires Grows(g, h) && |g.nodes| <= i < |h.nodes|
    ensures Grows(g, Recorded(h, i, ids))
  {
    hide Fingerprint, LockId;
    assert Recorded(h, i, ids).nodes[..|g.nodes|] == h.nodes[..|g.nodes|];
  }

  lemma RecordedOk(w: World, seeds: seq<Selection>, g: Graph, i: nat, ids: seq<string>)
    requires GraphOk(w, seeds, g) && i < |g.nodes|
    ensures GraphOk(w, seeds, Recorded(g, i, ids))
  {
    hide Fingerprint, LockId, Reachable, PackageOf, SortedSet;
    var h := Recorded(g, i, ids);
    forall j | 0 <= j < |h.nodes|
      ensures NodeOk(w, seeds, h.nodes[j])
      ensures At(h.byFingerprint, h.nodes[j].fingerprint, j) && At(h.byName, h.nodes[j].package.name, j)
    {
      assert NodeOk(w, seeds, g.nodes[j]);
      assert At(g.byFingerprint, g.nodes[j].fingerprint, j) && At(g.byName, g.nodes[j].package.name, j);
    }
  }

  lemma RecordedKeepsResolved(w: World, g: Graph, i: nat, done: seq<string>, n: Node, m: Node, d: Dependency, id: string)
    requires i < |g.nodes| && Resolved(w, g, n, d, id)
    requires m == n.(dependencies := m.dependencies)
    ensures Resolved(w, Recorded(g, i, done), m, d, id)
  {
    hide Fingerprint, LockId;
  }

  lemma RecordedFinishesNode(w: World, g: Graph, i: nat, ids: seq<string>)
    requires i < |g.nodes|
    requires ResolvedUpTo(w, g, g.nodes[i], ids) && |ids| == |CollectDependencies(g.nodes[i].package)|
    ensures Finished(w, Recorded(g, i, ids), Recorded(g, i, ids).nodes[i])
  {
    hide Resolved, StrictlySorted, SortedSet, Declares, CollectDependencies;
    var h, n := Recorded(g, i, ids), g.nodes[i];
    var m, ds := h.nodes[i], CollectDependencies(n.package);
    CollectedExact(n.package);
    SortedSetStrict(ids);
    forall d | Declares(m.package, d) ensures Leads(w, h, m, d) {
      var k :| 0 <= k < |ds| && ds[k] == d;
      RecordedKeepsResolved(w, g, i, ids, n, m, d, ids[k]);
      assert ids[k] in m.dependencies;
    }
    forall id | id in m.dependencies ensures Wanted(w, h, m, id) {
      var k :| 0 <= k < |ids| && ids[k] == id;
      RecordedKeepsResolved(w, g, i, ids, n, m, ds[k], id);
      assert ds[k] in ds;
    }
  }

  lemma RecordedKeepsFinished(w: World, g: Graph, i: nat, ids: seq<string>, n: Node)
    requires i < |g.nodes| && Finished(w, g, n)
    ensures Finished(w, Recorded(g, i, ids), n)
  {
    hide Resolved, StrictlySorted, SortedSet, Declares, Recorded;
    var h := Recorded(g, i, ids);
    forall d | Declares(n.package, d) ensures Leads(w, h, n, d) {
      assert Leads(w, g, n, d);
      var id :| id in n.dependencies && Resolved(w, g, n, d, id);
      RecordedKeepsResolved(w, g, i, ids, n, n, d, id);
    }
    forall id | id in n.dependencies ensures Wanted(w, h, n, id) {
      assert Wanted(w, g, n, id);
      var d :| Declares(n.package, d) && Resolved(w, g, n, d, id);
      RecordedKeepsResolved(w, g, i, ids, n, n, d, id);
    }
  }

  lemma RecordedFinishes(w: World, g: Graph, i: nat, ids: seq<string>)
    requires i < |g.nodes|
    requires ResolvedUpTo(w, g, g.nodes[i], ids) && |ids| == |CollectDependencies(g.nodes[i].package)|
    requires FinishedFrom(w, g, i + 1)
    ensures FinishedFrom(w, Recorded(g, i, ids), i)
  {
    hide Finished, ResolvedUpTo, SortedSet, CollectDependencies;
    var h := Recorded(g, i, ids);
    forall j | i <= j < |h.nodes| ensures Finished(w, h, h.nodes[j]) {
      if j == i {
        RecordedFinishesNode(w, g, i, ids);
      } else {
        RecordedKeepsFinished(w, g, i, ids, g.nodes[j]);
      }
    }
  }

  // A completed resolution.

  datatype Resolution = Resolution(rootIds: seq<string>, packages: seq<ResolvedPackage>)

  ghost predicate HasNode(w: World, g: Graph, s: Selection)
  {
    Fingerprint(w, s) in g.byFingerprint && g.byFingerprint[Fingerprint(w, s)] < |g.nodes|
  }

  /** Node of a selection whose fingerprint is known. */
  ghost function NodeFor(w: World, g: Graph, s: Selection): Node
    requires HasNode(w, g, s)
  {
    g.nodes[g.byFingerprint[Fingerprint(w, s)]]
  }

  /** The first roots have nodes, with these ids. */
  ghost predicate RootsResolved(w: World, seeds: seq<Selection>, g: Graph, ids: seq<string>)
  {
    && |ids| <= |seeds|
    && forall k :: 0 <= k < |ids| ==> RootResolved(w, g, seeds[k], ids[k])
  }

  ghost predicate RootResolved(w: World, g: Graph, seed: Selection, id: string)
  {
    HasNode(w, g, seed) && NodeFor(w, g, seed).id == id
  }

  lemma RootsStay(w: World, seeds: seq<Selection>, g: Graph, h: Graph, ids: seq<string>)
    requires Grows(g, h) && RootsResolved(w, seeds, g, ids)
    ensures RootsResolved(w, seeds, h, ids)
  {
    hide Fingerprint, LockId;
    forall k | 0 <= k < |ids| ensures RootResolved(w, h, seeds[k], ids[k]) {
      assert RootResolved(w, g, seeds[k], ids[k]);
      var f := Fingerprint(w, seeds[k]);
      assert At(h.byFingerprint, f, g.byFingerprint[f]);
      GrownNode(g, h, g.byFingerprint[f]);
    }
  }

  ghost predicate Complete(w: World, seeds: seq<Selection>, g: Graph)
  {
    && GraphOk(w, seeds, g)
    && FinishedFrom(w, g, 0)
    && forall k :: 0 <= k < |seeds| ==> HasNode(w, g, seeds[k])
  }

  ghost function RootIds(w: World, seeds: seq<Selection>, g: Graph): (r: seq<string>)
    requires forall k :: 0 <= k < |seeds| ==> HasNode(w, g, seeds[k])
    ensures |r| == |seeds| && forall k :: 0 <= k < |seeds| ==> r[k] == NodeFor(w, g, seeds[k]).id
  {
    seq(|seeds|, k requires 0 <= k < |seeds| => NodeFor(w, g, seeds[k]).id)
  }

  ghost function ResolutionOf(w: World, seeds: seq<Selection>, g: Graph): Resolution
    requires forall k :: 0 <= k < |seeds| ==> HasNode(w, g, seeds[k])
  {
    Resolution(SortedSet(RootIds(w, seeds, g)), PackagesById(g.nodes))
  }

  lemma RootsComplete(w: World, seeds: seq<Selection>, g: Graph, ids: seq<string>)
    requires GraphOk(w, seeds, g) && FinishedFrom(w, g, 0)
    requires RootsResolved(w, seeds, g, ids) && |ids| == |seeds|
    ensures Complete(w, seeds, g) && ids == RootIds(w, seeds, g)
  {
    hide Fingerprint, LockId, GraphOk, FinishedFrom;
    assert forall k :: 0 <= k < |seeds| ==> RootResolved(w, g, seeds[k], ids[k]);
  }

  lemma EmptyOk(w: World, seeds: seq<Selection>)
    ensures GraphOk(w, seeds, EMPTY) && FinishedFrom(w, EMPTY, 0)
  {
  }

  lemma RootsEmpty(w: World, seeds: seq<Selection>)
    ensures RootsResolved(w, seeds, EMPTY, [])
  {
  }

  /** The next seed is a first one, or its fingerprint has a node. */
  lemma SeedVisitedOrKnown(w: World, seeds: seq<Selection>, g: Graph, ids: seq<string>)
    requires RootsResolved(w, seeds, g, ids) && |ids| < |seeds|
    ensures Reachable(w, FirstSeeds(w, seeds), seeds[|ids|]) || Fingerprint(w, seeds[|ids|]) in g.byFingerprint
  {
    hide Fingerprint, Reachable, FirstSeeds;
    var k := |ids|;
    if j :| 0 <= j < k && Fingerprint(w, seeds[j]) == Fingerprint(w, seeds[k]) {
      assert RootResolved(w, g, seeds[j], ids[j]);
    } else {
      FirstSeedKept(w, seeds, k);
      SeedReachable(w, FirstSeeds(w, seeds), seeds[k]);
    }
  }

  lemma GraphOkFromMore(w: World, fewer: seq<Selection>, seeds: seq<Selection>, g: Graph)
    requires (forall s :: s in fewer ==> s in seeds) && GraphOk(w, fewer, g)
    ensures GraphOk(w, seeds, g)
  {
    hide Fingerprint, LockId, Reachable, PackageOf;
    forall i | 0 <= i < |g.nodes| ensures NodeOk(w, seeds, g.nodes[i]) {
      assert NodeOk(w, fewer, g.nodes[i]);
      ReachableFromMore(w, fewer, seeds, g.nodes[i].selection);
    }
  }

  lemma CompleteFromFewer(w: World, fewer: seq<Selection>, seeds: seq<Selection>, g: Graph)
    requires (forall s :: s in fewer ==> s in seeds) && GraphOk(w, fewer, g) && Complete(w, seeds, g)
    ensures Complete(w, fewer, g)
  {
    hide Fingerprint, GraphOk, FinishedFrom;
    forall k | 0 <= k < |fewer| ensures HasNode(w, g, fewer[k]) {
      assert fewer[k] in seeds;
      var j :| 0 <= j < |seeds| && seeds[j] == fewer[k];
      assert HasNode(w, g, seeds[j]);
    }
  }

  // Failures.

  /** The memo key misleads: a dependency selects one package, and its fingerprint also stands for another. */
  ghost predicate Misleads(w: World, seeds: seq<Selection>, s: Selection, d: Dependency, a: Selection)
  {
    && Reachable(w, seeds, s) && DependsOn(w, s, d) && w.select(s, d).Some? && Reachable(w, seeds, a)
    && Fingerprint(w, a) == Fingerprint(w, w.select(s, d).value)
    && PackageOf(w, a) != PackageOf(w, w.select(s, d).value)
  }

  /** Resolution is refused only where the order-free specification refuses or a memo key misleads. */
  ghost predicate Refused(w: World, seeds: seq<Selection>)
  {
    !Resolvable(w, seeds) || exists s, d, a :: Misleads(w, seeds, s, d, a)
  }

  lemma MisleadsIncoherent(w: World, seeds: seq<Selection>, s: Selection, d: Dependency, a: Selection)
    requires Misleads(w, seeds, s, d, a)
    ensures !Coherent(w, seeds)
  {
    hide Fingerprint, Reachable;
    var t := w.select(s, d).value;
    assert Edge(w, s, t);
    StepReachable(w, seeds, s, t);
    assert !Interchangeable(w, a, t);
  }

  /** Where fingerprints are adequate, a refusal is one of the specification's. */
  lemma RefusedMeans(w: World, seeds: seq<Selection>)
    requires Refused(w, seeds) && Coherent(w, seeds)
    ensures !Resolvable(w, seeds)
  {
    hide Coherent, Resolvable, Misleads;
    if s, d, a :| Misleads(w, seeds, s, d, a) {
      MisleadsIncoherent(w, seeds, s, d, a);
    }
  }

  lemma UnsoundRefused(w: World, seeds: seq<Selection>, s: Selection)
    requires Reachable(w, seeds, s) && !Sound(w, s)
    ensures Refused(w, seeds)
  {
  }

  lemma ConflictRefused(w: World, seeds: seq<Selection>, a: Selection, b: Selection)
    requires Reachable(w, seeds, a) && Reachable(w, seeds, b) && SameName(w, a, b)
    requires Fingerprint(w, a) != Fingerprint(w, b)
    ensures Refused(w, seeds)
  {
  }

  /** A target node of the wrong name, or the node itself, is the dependency's fault or the memo key's. */
  lemma BadTargetRefused(w: World, seeds: seq<Selection>, g: Graph, s: Selection, d: Dependency, i: nat)
    requires GraphOk(w, seeds, g) && Reachable(w, seeds, s) && DependsOn(w, s, d)
    requires w.select(s, d).Some? && i < |g.nodes|
    requires g.nodes[i].fingerprint == Fingerprint(w, w.select(s, d).value)
    requires (d.package.Some? && d.package.value != g.nodes[i].package.name) || g.nodes[i].fingerprint == Fingerprint(w, s)
    ensures Refused(w, seeds)
  {
    hide Fingerprint, LockId, Reachable, Resolvable;
    assert NodeOk(w, seeds, g.nodes[i]);
    if SoundDependency(w, s, d) {
      assert Misleads(w, seeds, s, d, g.nodes[i].selection);
    } else {
      UnsoundRefused(w, seeds, s);
    }
  }

  // Termination.

  ghost function Names(w: World): set<string>
  {
    set p | p in w.manifests && w.manifests[p].Some? :: w.manifests[p].value.name
  }

  /** How many package names have no node yet. */
  ghost function Unresolved(w: World, g: Graph): nat
  {
    |Names(w) - g.byName.Keys|
  }

  lemma SubsetSize(a: set<string>, b: set<string>)
    requires a <= b
    ensures |a| <= |b|
  {
    assert b == a + (b - a);
  }

  lemma GrowsUnresolved(w: World, g: Graph, h: Graph)
    requires Grows(g, h)
    ensures Unresolved(w, h) <= Unresolved(w, g)
  {
    SubsetSize(Names(w) - h.byName.Keys, Names(w) - g.byName.Keys);
  }

  lemma AddedUnresolved(w: World, seeds: seq<Selection>, g: Graph, n: Node)
    requires NodeOk(w, seeds, n) && n.package.name !in g.byName
    ensures Unresolved(w, Added(g, n)) < Unresolved(w, g)
  {
    hide NodeOk, Names;
    NameOfNode(w, seeds, n);
    assert Names(w) - Added(g, n).byName.Keys == (Names(w) - g.byName.Keys) - {n.package.name};
  }

  lemma NameOfNode(w: World, seeds: seq<Selection>, n: Node)
    requires NodeOk(w, seeds, n)
    ensures n.package.name in Names(w)
  {
    hide Fingerprint, LockId, Reachable;
    assert w.manifests[n.selection.manifestPath] == Some(n.package);
  }
}
