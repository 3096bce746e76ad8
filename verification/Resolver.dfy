/** The single-version resolver: a memoised depth-first construction of the package graph. */
module Resolver {
  import opened Wrappers
  import opened ResolverModel
  import opened ResolverGraph

  datatype Error =
    | ManifestUnusable(path: string)
    | VersionConflict(name: string)
    | SourceConflict(name: string)
    | DependencyUnresolved(alias: string)
    | UnexpectedPackage(alias: string)
    | SelfDependency(name: string)

  class SingleVersionResolver {
    const world: World
    const rootSeeds: seq<Selection>
    /** The seeds that are visited for the first time; the others are known when their turn comes. */
    ghost const roots: seq<Selection>
    var nodes: seq<Node>
    var nodeByFingerprint: map<string, nat>
    var nodeByName: map<string, nat>

    constructor (world: World, rootSeeds: seq<Selection>)
      ensures this.world == world && this.rootSeeds == rootSeeds && roots == FirstSeeds(world, rootSeeds) && View() == EMPTY
    {
      this.world, this.rootSeeds, roots := world, rootSeeds, FirstSeeds(world, rootSeeds);
      nodes, nodeByFingerprint, nodeByName := [], map[], map[];
    }

    ghost function View(): Graph
      reads this
    {
      Graph(nodes, nodeByFingerprint, nodeByName)
    }

    method ResolveNode(selection: Selection) returns (r: Result<nat, Error>)
      requires GraphOk(world, roots, View())
      requires Reachable(world, roots, selection) || Fingerprint(world, selection) in nodeByFingerprint
      modifies this
      ensures GraphOk(world, roots, View()) && Grows(old(View()), View())
      ensures r.Ok? ==> r.value < |nodes| && nodes[r.value].fingerprint == Fingerprint(world, selection)
      ensures r.Ok? ==> FinishedFrom(world, View(), |old(nodes)|)
      ensures r.Err? ==> Refused(world, roots)
      decreases Unresolved(world, View()), 0
    {
      hide GraphOk, Grows, FinishedFrom, ResolvedUpTo, Reachable, Unresolved, Refused, Fingerprint, LockId;
      IndexLookups(world, roots, View());
      GrowsReflexive(View());
      NothingNew(world, View());
      var fingerprint := Fingerprint(world, selection);
      if fingerprint in nodeByFingerprint {
        return Ok(nodeByFingerprint[fingerprint]);
      }
      var loaded := PackageOf(world, selection);
      if loaded.None? {
        UnsoundRefused(world, roots, selection);
        return Err(ManifestUnusable(selection.manifestPath));
      }
      var package := loaded.value;
      if package.name in nodeByName {
        var conflict := NameConflict(selection, package);
        return Err(conflict);
      }
      var node := Node(selection, package, fingerprint, LockId(selection.origin, package), []);
      AddedOk(world, roots, View(), node);
      AddedUnresolved(world, roots, View(), node);
      ghost var start := View();
      var index := |nodes|;
      nodes := nodes + [node];
      nodeByFingerprint := nodeByFingerprint[fingerprint := index];
      nodeByName := nodeByName[package.name := index];
      assert View() == Added(start, node);
      var ids := ResolveDependencies(node);
      GrowsTransitive(start, Added(start, node), View());
      if ids.Err? {
        return Err(ids.error);
      }
      GrownNode(Added(start, node), View(), index);
      RecordedOk(world, roots, View(), index, ids.value);
      RecordedFinishes(world, View(), index, ids.value);
      ghost var before := View();
      nodes := nodes[index := node.(dependencies := SortedSet(ids.value))];
      assert View() == Recorded(before, index, ids.value);
      RecordedGrows(start, before, index, ids.value);
      r := Ok(index);
    }

    /** A name that has a node already belongs to another source; which conflict it is depends on the version. */
    method NameConflict(selection: Selection, package: Package) returns (e: Error)
      requires GraphOk(world, roots, View()) && Reachable(world, roots, selection)
      requires PackageOf(world, selection) == Some(package)
      requires package.name in nodeByName && Fingerprint(world, selection) !in nodeByFingerprint
      ensures Refused(world, roots)
      ensures e == if nodes[nodeByName[package.name]].package.version != package.version
                   then VersionConflict(package.name) else SourceConflict(package.name)
    {
      hide Fingerprint, LockId;
      var i := nodeByName[package.name];
      var other := nodes[i];
      assert NodeOk(world, roots, other);
      assert At(nodeByFingerprint, other.fingerprint, i);
      ConflictRefused(world, roots, selection, other.selection);
      if other.package.version != package.version {
        return VersionConflict(package.name);
      }
      return SourceConflict(package.name);
    }

    method ResolveDependencies(node: Node) returns (r: Result<seq<string>, Error>)
      requires GraphOk(world, roots, View()) && NodeOk(world, roots, node)
      modifies this
      ensures GraphOk(world, roots, View()) && Grows(old(View()), View())
      ensures r.Ok? ==> ResolvedUpTo(world, View(), node, r.value) && |r.value| == |CollectDependencies(node.package)|
      ensures r.Ok? ==> FinishedFrom(world, View(), |old(nodes)|)
      ensures r.Err? ==> Refused(world, roots)
      decreases Unresolved(world, View()), 2
    {
      hide GraphOk, NodeOk, Grows, Resolved, Refused, Unresolved, Fingerprint, LockId, CollectDependencies, Declares;
      GrowsReflexive(View());
      var ds := CollectDependencies(node.package);
      CollectedExact(node.package);
      var ids: seq<string> := [];
      while |ids| < |ds|
        invariant |ids| <= |ds|
        invariant GraphOk(world, roots, View()) && Grows(old(View()), View())
        invariant ResolvedUpTo(world, View(), node, ids)
        invariant FinishedFrom(world, View(), |old(nodes)|)
        decreases |ds| - |ids|
      {
        ghost var g := View();
        GrowsUnresolved(world, old(View()), g);
        var id := ResolveDependency(node, ds[|ids|]);
        GrowsTransitive(old(View()), g, View());
        if id.Err? {
          return Err(id.error);
        }
        FinishedFromStays(world, g, View(), |old(nodes)|);
        ResolvedStays(world, g, View(), node, ids);
        ids := ids + [id.value];
      }
      r := Ok(ids);
    }

    method ResolveDependency(node: Node, d: Dependency) returns (r: Result<string, Error>)
      requires GraphOk(world, roots, View()) && NodeOk(world, roots, node)
      requires Declares(node.package, d)
      modifies this
      ensures GraphOk(world, roots, View()) && Grows(old(View()), View())
      ensures r.Ok? ==> Resolved(world, View(), node, d, r.value)
      ensures r.Ok? ==> FinishedFrom(world, View(), |old(nodes)|)
      ensures r.Err? ==> Refused(world, roots)
      decreases Unresolved(world, View()), 1
    {
      hide GraphOk, Grows, FinishedFrom, ResolvedUpTo, Reachable, Unresolved, Refused, Fingerprint, LockId;
      GrowsReflexive(View());
      assert DependsOn(world, node.selection, d);
      var selected := world.select(node.selection, d);
      if selected.None? {
        assert !SoundDependency(world, node.selection, d);
        UnsoundRefused(world, roots, node.selection);
        return Err(DependencyUnresolved(d.alias));
      }
      StepReachable(world, roots, node.selection, selected.value);
      var resolved := ResolveNode(selected.value);
      if resolved.Err? {
        return Err(resolved.error);
      }
      var target := nodes[resolved.value];
      if d.package.Some? && d.package.value != target.package.name {
        BadTargetRefused(world, roots, View(), node.selection, d, resolved.value);
        return Err(UnexpectedPackage(d.alias));
      }
      if target.fingerprint == node.fingerprint {
        BadTargetRefused(world, roots, View(), node.selection, d, resolved.value);
        return Err(SelfDependency(node.package.name));
      }
      NodesIndexed(world, roots, View(), resolved.value);
      r := Ok(target.id);
    }

    /** The whole resolution: every root in turn, then the lockfile in canonical order. */
    method ResolveGraph() returns (r: Result<Resolution, Error>)
      requires View() == EMPTY && roots == FirstSeeds(world, rootSeeds)
      modifies this
      ensures r.Ok? ==> Complete(world, rootSeeds, View()) && r.value == ResolutionOf(world, rootSeeds, View())
      ensures r.Ok? ==> Complete(world, roots, View())
      ensures r.Err? ==> Refused(world, roots)
    {
      hide GraphOk, Grows, FinishedFrom, Complete, Refused, Fingerprint, LockId, FirstSeeds, Reachable;
      EmptyOk(world, roots);
      RootsEmpty(world, rootSeeds);
      FirstSeedsAmong(world, rootSeeds);
      var rootIds: seq<string> := [];
      while |rootIds| < |rootSeeds|
        invariant |rootIds| <= |rootSeeds|
        invariant GraphOk(world, roots, View()) && FinishedFrom(world, View(), 0)
        invariant RootsResolved(world, rootSeeds, View(), rootIds)
        decreases |rootSeeds| - |rootIds|
      {
        ghost var g := View();
        var seed := rootSeeds[|rootIds|];
        SeedVisitedOrKnown(world, rootSeeds, g, rootIds);
        var resolved := ResolveNode(seed);
        if resolved.Err? {
          return Err(resolved.error);
        }
        FinishedFromStays(world, g, View(), 0);
        RootsStay(world, rootSeeds, g, View(), rootIds);
        NodesIndexed(world, roots, View(), resolved.value);
        assert RootResolved(world, View(), seed, nodes[resolved.value].id);
        rootIds := rootIds + [nodes[resolved.value].id];
      }
      GraphOkFromMore(world, roots, rootSeeds, View());
      RootsComplete(world, rootSeeds, View(), rootIds);
      CompleteFromFewer(world, roots, rootSeeds, View());
      r := Ok(Resolution(SortedSet(rootIds), PackagesById(nodes)));
    }
  }
}
