/** From resolver to planner: on a resolved graph the planner can only succeed or report a cycle. */
module ResolvedOrder {
  import opened Sorting
  import opened ResolverModel
  import opened ResolverGraph
  import opened ResolverTheorems
  import PackageOrder

  function Entries(packages: seq<ResolvedPackage>): (r: seq<PackageOrder.Entry>)
    ensures |r| == |packages|
    ensures forall i :: 0 <= i < |packages| ==> r[i] == PackageOrder.Entry(packages[i].id, packages[i].dependencies)
  {
    seq(|packages|, i requires 0 <= i < |packages| => PackageOrder.Entry(packages[i].id, packages[i].dependencies))
  }

  lemma LockfileMembers(nodes: seq<Node>, p: ResolvedPackage)
    ensures p in PackagesById(nodes) <==> exists i :: 0 <= i < |nodes| && ResolvedPackageOf(nodes[i]) == p
  {
    StringOrder();
    SortSorts(ResolvedPackages(nodes), IdKey(), StringLe());
    assert p in PackagesById(nodes) <==> p in multiset(PackagesById(nodes));
    assert p in ResolvedPackages(nodes) <==> p in multiset(ResolvedPackages(nodes));
    if i :| 0 <= i < |nodes| && ResolvedPackageOf(nodes[i]) == p {
      assert ResolvedPackages(nodes)[i] == p;
    }
  }

  /** No dependency id dangles and no package depends on itself. */
  lemma ResolvedGraphIsClosed(w: World, seeds: seq<Selection>, g: Graph)
    requires ValidWorld(w) && Complete(w, seeds, g)
    ensures PackageOrder.AllKnown(PackageOrder.ById(Entries(PackagesById(g.nodes))))
    ensures forall u, v | PackageOrder.Edge(PackageOrder.ById(Entries(PackagesById(g.nodes))), u, v) :: u != v
  {
    hide Complete, ValidWorld, PackagesById, PackageOrder.ById;
    var packages := PackagesById(g.nodes);
    var m := PackageOrder.ById(Entries(packages));
    forall u, v | PackageOrder.Edge(m, u, v) ensures v in m && u != v {
      var i := EntryNode(g.nodes, u);
      DependenciesArePackages(w, seeds, g, i, v);
      var j :| 0 <= j < |g.nodes| && g.nodes[j].id == v;
      LockfileMembers(g.nodes, ResolvedPackageOf(g.nodes[j]));
      var k :| 0 <= k < |packages| && packages[k] == ResolvedPackageOf(g.nodes[j]);
      PackageOrder.ByIdHasAll(Entries(packages));
      assert Entries(packages)[k].id == v;
    }
  }

  lemma EntryNode(nodes: seq<Node>, u: string) returns (i: nat)
    requires u in PackageOrder.ById(Entries(PackagesById(nodes)))
    ensures i < |nodes| && nodes[i].id == u
    ensures nodes[i].dependencies == PackageOrder.ById(Entries(PackagesById(nodes)))[u].dependencies
  {
    var packages := PackagesById(nodes);
    var e := PackageOrder.ById(Entries(packages))[u];
    var k :| 0 <= k < |packages| && Entries(packages)[k] == e;
    LockfileMembers(nodes, packages[k]);
    i :| 0 <= i < |nodes| && ResolvedPackageOf(nodes[i]) == packages[k];
  }

  /** Planning a resolved graph: an order exactly when it is acyclic, a real cycle otherwise. */
  method PlanOrder(w: World, seeds: seq<Selection>, ghost g: Graph, packages: seq<ResolvedPackage>) returns (r: PackageOrder.OrderResult)
    requires ValidWorld(w) && Complete(w, seeds, g) && packages == PackagesById(g.nodes)
    ensures !r.UnknownId?
    ensures r.Ordered? <==> PackageOrder.Acyclic(PackageOrder.ById(Entries(packages)))
    ensures r.CycleFound? ==> PackageOrder.IsCycle(PackageOrder.ById(Entries(packages)), r.cycle) && |r.cycle| >= 3
  {
    hide ValidWorld, Complete, Entries, PackagesById, PackageOrder.ById, PackageOrder.Acyclic, PackageOrder.IsCycle, PackageOrder.Edge;
    ResolvedGraphIsClosed(w, seeds, g);
    r := PackageOrder.BuildPackageOrder(Entries(packages));
    if r.CycleFound? {
      CycleLength(PackageOrder.ById(Entries(packages)), r.cycle);
    }
  }

  lemma CycleLength(m: map<string, PackageOrder.Entry>, cycle: seq<string>)
    requires PackageOrder.IsCycle(m, cycle)
    requires forall u, v | PackageOrder.Edge(m, u, v) :: u != v
    ensures |cycle| >= 3
  {
    assert PackageOrder.Edge(m, cycle[0], cycle[0 + 1]);
  }
}
