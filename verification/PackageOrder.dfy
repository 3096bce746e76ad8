/** The build order of a resolved graph: a three-colour depth-first search. */
module PackageOrder {
  import opened Sorting

  datatype Entry = Entry(id: string, dependencies: seq<string>)

  datatype VisitState = Unseen | Active | Done

  datatype OrderResult =
    | Ordered(order: seq<string>)
    | CycleFound(cycle: seq<string>)
    | UnknownId(id: string)

  type Index = map<string, Entry>

  /** The packages by id; of several with one id, the first counts. */
  function ById(packages: seq<Entry>): (m: Index)
    ensures forall i :: i in m ==> m[i].id == i && m[i] in packages
  {
    if packages == [] then map[] else
    var m := ById(packages[..|packages| - 1]);
    var p := packages[|packages| - 1];
    if p.id in m then m else m[p.id := p]
  }

  /** The first package with an id is the one that counts. */
  lemma {:induction false} ByIdFirst(packages: seq<Entry>, k: nat)
    requires k < |packages| && forall j :: 0 <= j < k ==> packages[j].id != packages[k].id
    ensures packages[k].id in ById(packages) && ById(packages)[packages[k].id] == packages[k]
  {
    var front := packages[..|packages| - 1];
    if k < |front| {
      ByIdFirst(front, k);
    } else {
      assert packages[k].id !in ById(front);
    }
  }

  lemma {:induction false} ByIdHasAll(packages: seq<Entry>)
    ensures forall k :: 0 <= k < |packages| ==> packages[k].id in ById(packages)
  {
    if packages != [] {
      ByIdHasAll(packages[..|packages| - 1]);
    }
  }

  predicate Edge(m: Index, u: string, v: string)
  {
    u in m && v in m[u].dependencies
  }

  ghost predicate Walk(m: Index, p: seq<string>)
  {
    forall i :: 0 <= i < |p| - 1 ==> Edge(m, p[i], p[i + 1])
  }

  ghost predicate IsCycle(m: Index, c: seq<string>)
  {
    |c| >= 2 && c[0] == c[|c| - 1] && Walk(m, c)
  }

  ghost predicate Acyclic(m: Index)
  {
    forall c :: !IsCycle(m, c)
  }

  ghost predicate AllKnown(m: Index)
  {
    forall u, v :: Edge(m, u, v) ==> v in m
  }

  /** No repetitions, and every dependency of a member comes earlier. */
  ghost predicate Topological(m: Index, order: seq<string>)
  {
    && (forall i, j :: 0 <= i < j < |order| ==> order[i] != order[j])
    && (forall i :: 0 <= i < |order| ==> DependenciesBefore(m, order, i))
  }

  ghost predicate DependenciesBefore(m: Index, order: seq<string>, i: nat)
    requires i < |order|
  {
    order[i] in m && forall v :: v in m[order[i]].dependencies ==> v in order[..i]
  }

  lemma TopologicalSnoc(m: Index, order: seq<string>, id: string)
    requires Topological(m, order) && id in m && id !in order
    requires forall v :: v in m[id].dependencies ==> v in order
    ensures Topological(m, order + [id])
  {
    var r := order + [id];
    forall i | 0 <= i < |r| ensures DependenciesBefore(m, r, i) {
      if i < |order| {
        assert DependenciesBefore(m, order, i);
        assert r[..i] == order[..i];
      } else {
        assert r[..i] == order;
      }
    }
  }

  /** Along a walk inside a topological order, positions go down. */
  lemma {:induction false} WalkDescends(m: Index, order: seq<string>, p: seq<string>, a: nat) returns (b: nat)
    requires Topological(m, order) && Walk(m, p) && p != [] && a < |order| && order[a] == p[0]
    ensures b < |order| && order[b] == p[|p| - 1] && (|p| > 1 ==> b < a) && b <= a
  {
    if |p| == 1 {
      b := a;
    } else {
      assert Edge(m, p[0], p[0 + 1]);
      assert DependenciesBefore(m, order, a);
      var c :| 0 <= c < a && order[c] == p[1];
      var q := p[1..];
      WalkSuffix(m, p, 1);
      b := WalkDescends(m, order, q, c);
    }
  }

  /** A topological order of everything excludes cycles and unknown ids. */
  lemma TopologicalAcyclic(m: Index, order: seq<string>)
    requires Topological(m, order) && forall u :: u in m ==> u in order
    ensures Acyclic(m) && AllKnown(m)
  {
    forall c ensures !IsCycle(m, c) {
      if IsCycle(m, c) {
        assert Edge(m, c[0], c[0 + 1]);
        var a :| 0 <= a < |order| && order[a] == c[0];
        var b := WalkDescends(m, order, c, a);
      }
    }
    forall u, v | Edge(m, u, v) ensures v in m {
      var a :| 0 <= a < |order| && order[a] == u;
      assert DependenciesBefore(m, order, a);
      var c :| 0 <= c < a && order[c] == v;
      assert DependenciesBefore(m, order, c);
    }
  }

  lemma WalkSnoc(m: Index, p: seq<string>, v: string)
    requires Walk(m, p) && (p != [] ==> Edge(m, p[|p| - 1], v))
    ensures Walk(m, p + [v])
  {
    var q := p + [v];
    forall i | 0 <= i < |q| - 1 ensures Edge(m, q[i], q[i + 1]) {
      if i < |p| - 1 { assert Edge(m, p[i], p[i + 1]); }
    }
  }

  lemma WalkSuffix(m: Index, p: seq<string>, k: nat)
    requires Walk(m, p) && k <= |p|
    ensures Walk(m, p[k..])
  {
    forall i | 0 <= i < |p[k..]| - 1 ensures Edge(m, p[k..][i], p[k..][i + 1]) {
      assert Edge(m, p[i + k], p[i + k + 1]);
    }
  }

  // The order as a function: dependencies first, in their order, and nothing twice.

  /** What visiting `id` appends to `order`, `path` being the ids on the way to it. */
  ghost function Visited(m: Index, order: seq<string>, path: set<string>, id: string): seq<string>
    decreases |m.Keys - path|, 0
  {
    if id in order || id in path || id !in m then order else
    PathGrows(m, path, id);
    VisitedAll(m, order, path + {id}, m[id].dependencies) + [id]
  }

  ghost function VisitedAll(m: Index, order: seq<string>, path: set<string>, ids: seq<string>): seq<string>
    decreases |m.Keys - path|, 1, |ids|
  {
    if ids == [] then order
    else Visited(m, VisitedAll(m, order, path, ids[..|ids| - 1]), path, ids[|ids| - 1])
  }

  lemma PathGrows(m: Index, path: set<string>, id: string)
    requires id in m && id !in path
    ensures |m.Keys - (path + {id})| < |m.Keys - path|
  {
    assert m.Keys - (path + {id}) == (m.Keys - path) - {id};
    assert id in m.Keys - path;
  }

  lemma VisitedNext(m: Index, order: seq<string>, path: set<string>, ids: seq<string>, k: nat)
    requires k < |ids|
    ensures VisitedAll(m, order, path, ids[..k + 1]) == Visited(m, VisitedAll(m, order, path, ids[..k]), path, ids[k])
  {
    assert ids[..k + 1][..k] == ids[..k];
  }

  lemma NothingVisited(m: Index, order: seq<string>, path: set<string>)
    ensures VisitedAll(m, order, path, []) == order
  {
  }

  /** The ids that are being visited. */
  ghost function Members(stack: seq<string>): set<string>
  {
    set id | id in stack
  }

  class BuildOrder {
    const packagesById: Index
    var visitState: map<string, VisitState>
    var stack: seq<string>
    var order: seq<string>

    constructor (packages: seq<Entry>)
      ensures packagesById == ById(packages) && Valid() && stack == [] && order == []
    {
      packagesById := ById(packages);
      visitState, stack, order := map[], [], [];
    }

    function StateOf(id: string): VisitState
      reads this
    {
      if id in visitState then visitState[id] else Unseen
    }

    ghost predicate Colours()
      reads this
    {
      forall id :: (StateOf(id).Active? <==> id in stack) && (StateOf(id).Done? <==> id in order)
    }

    ghost predicate Valid()
      reads this
    {
      && Colours()
      && (forall id :: id in stack ==> id in packagesById)
      && (forall i, j :: 0 <= i < j < |stack| ==> stack[i] != stack[j])
      && Walk(packagesById, stack)
      && Topological(packagesById, order)
    }

    ghost function Unvisited(): set<string>
      reads this
    {
      set id | id in packagesById && StateOf(id).Unseen?
    }

    method Visit(id: string) returns (r: OrderResult)
      requires Valid() && (stack != [] ==> Edge(packagesById, stack[|stack| - 1], id))
      modifies this
      ensures r.Ordered? ==>
                && Valid() && stack == old(stack) && r.order == order
                && old(order) <= order && id in order && Unvisited() <= old(Unvisited())
      ensures r.Ordered? ==> order == Visited(packagesById, old(order), Members(stack), id)
      ensures r.CycleFound? ==> IsCycle(packagesById, r.cycle)
      ensures r.UnknownId? ==> r.id !in packagesById && (r.id == id || exists u :: Edge(packagesById, u, r.id))
      decreases Unvisited(), 0
    {
      match StateOf(id)
      case Done => return Ordered(order);
      case Active =>
        var i := IndexOf(id);
        WalkSuffix(packagesById, stack, i);
        WalkSnoc(packagesById, stack[i..], id);
        return CycleFound(stack[i..] + [id]);
      case Unseen =>
        Enter(id);
        if id !in packagesById {
          return UnknownId(id);
        }
        ghost var path := Members(old(stack));
        assert Members(stack) == path + {id};
        r := VisitDependencies(id);
        if r.Ordered? {
          Leave(id);
          assert order == Visited(packagesById, old(order), path, id);
          r := Ordered(order);
        }
    }

    method Enter(id: string)
      requires Valid() && (stack != [] ==> Edge(packagesById, stack[|stack| - 1], id)) && StateOf(id).Unseen?
      modifies this
      ensures stack == old(stack) + [id] && order == old(order)
      ensures id in packagesById ==> Valid() && Unvisited() < old(Unvisited())
    {
      visitState := visitState[id := Active];
      WalkSnoc(packagesById, stack, id);
      stack := stack + [id];
      assert forall i :: StateOf(i) == if i == id then Active else old(StateOf(i));
      assert id in packagesById ==> id in old(Unvisited()) && id !in Unvisited();
    }

    method Leave(id: string)
      requires Valid() && stack != [] && stack[|stack| - 1] == id && id in packagesById
      requires forall v :: v in packagesById[id].dependencies ==> v in order
      modifies this
      ensures Valid() && stack == old(stack)[..|old(stack)| - 1] && order == old(order) + [id]
      ensures Unvisited() == old(Unvisited())
    {
      assert id in stack;
      assert StateOf(id).Active?;
      TopologicalSnoc(packagesById, order, id);
      stack := stack[..|stack| - 1];
      visitState := visitState[id := Done];
      order := order + [id];
      assert forall i :: StateOf(i) == if i == id then Done else old(StateOf(i));
      assert forall i :: 0 <= i < |stack| - 1 ==> Edge(packagesById, old(stack)[i], old(stack)[i + 1]);
    }

    method IndexOf(id: string) returns (i: nat)
      requires id in stack
      ensures i < |stack| && stack[i] == id && id !in stack[..i]
    {
      i := 0;
      while stack[i] != id
        invariant i < |stack| && id !in stack[..i]
        decreases |stack| - i
      {
        i := i + 1;
      }
    }

    method VisitDependencies(id: string) returns (r: OrderResult)
      requires Valid() && id in packagesById && stack != [] && stack[|stack| - 1] == id
      modifies this
      ensures r.Ordered? ==>
                && Valid() && stack == old(stack)
                && old(order) <= order && Unvisited() <= old(Unvisited())
                && forall v :: v in packagesById[id].dependencies ==> v in order
      ensures r.Ordered? ==> order == VisitedAll(packagesById, old(order), Members(stack), packagesById[id].dependencies)
      ensures r.CycleFound? ==> IsCycle(packagesById, r.cycle)
      ensures r.UnknownId? ==> r.id !in packagesById && exists u :: Edge(packagesById, u, r.id)
      decreases Unvisited(), 1
    {
      hide Visited, VisitedAll, IsCycle, Topological, Colours;
      var dependencies := packagesById[id].dependencies;
      var k := 0;
      NothingVisited(packagesById, order, Members(stack));
      assert dependencies[..0] == [];
      while k < |dependencies|
        invariant 0 <= k <= |dependencies|
        invariant Valid() && stack == old(stack)
        invariant order == VisitedAll(packagesById, old(order), Members(stack), dependencies[..k])
        invariant old(order) <= order && Unvisited() <= old(Unvisited())
        invariant forall v :: v in dependencies[..k] ==> v in order
      {
        assert Edge(packagesById, id, dependencies[k]);
        r := Visit(dependencies[k]);
        if !r.Ordered? {
          return;
        }
        VisitedNext(packagesById, old(order), Members(stack), dependencies, k);
        assert dependencies[..k + 1] == dependencies[..k] + [dependencies[k]];
        k := k + 1;
      }
      assert dependencies[..k] == dependencies;
      r := Ordered(order);
    }
  }

  function EntryIds(packages: seq<Entry>): (r: seq<string>)
    ensures |r| == |packages| && forall i :: 0 <= i < |packages| ==> r[i] == packages[i].id
  {
    seq(|packages|, i requires 0 <= i < |packages| => packages[i].id)
  }

  lemma SortedIds(packages: seq<Entry>, ids: seq<string>)
    requires ids == Sort(EntryIds(packages), StringKey(), StringLe())
    ensures forall id :: id in ids <==> id in EntryIds(packages)
    ensures forall id :: id in ids <==> id in ById(packages)
  {
    StringOrder();
    SortSorts(EntryIds(packages), StringKey(), StringLe());
    ByIdHasAll(packages);
    forall id ensures id in ids <==> id in EntryIds(packages) {
      assert id in ids <==> id in multiset(ids);
      assert id in EntryIds(packages) <==> id in multiset(EntryIds(packages));
    }
    forall id | id in ById(packages) ensures id in EntryIds(packages) {
      var i :| 0 <= i < |packages| && packages[i] == ById(packages)[id];
      assert EntryIds(packages)[i] == id;
    }
  }

  lemma OrderCovers(m: Index, order: seq<string>, ids: seq<string>)
    requires Topological(m, order) && (forall id :: id in ids <==> id in m) && forall v :: v in ids ==> v in order
    ensures forall id :: id in order <==> id in ids
  {
    forall id | id in order ensures id in ids {
      var j :| 0 <= j < |order| && order[j] == id;
      assert DependenciesBefore(m, order, j);
    }
  }

  ghost predicate DistinctIds(packages: seq<Entry>)
  {
    forall i, j :: 0 <= i < j < |packages| ==> packages[i].id != packages[j].id
  }

  /** The order does not depend on how the packages are listed, only on the packages. */
  lemma OrderIgnoresListing(xs: seq<Entry>, ys: seq<Entry>)
    requires DistinctIds(xs) && DistinctIds(ys) && forall p :: p in xs <==> p in ys
    ensures
      VisitedAll(ById(xs), [], {}, Sort(EntryIds(xs), StringKey(), StringLe()))
      == VisitedAll(ById(ys), [], {}, Sort(EntryIds(ys), StringKey(), StringLe()))
  {
    hide VisitedAll, ById, Sort;
    SameIndex(xs, ys);
    StringOrder();
    DistinctSorted(xs);
    DistinctSorted(ys);
    SortedIds(xs, Sort(EntryIds(xs), StringKey(), StringLe()));
    SortedIds(ys, Sort(EntryIds(ys), StringKey(), StringLe()));
    StrictlySortedUnique(Sort(EntryIds(xs), StringKey(), StringLe()), Sort(EntryIds(ys), StringKey(), StringLe()), StringLe());
  }

  lemma SameIndex(xs: seq<Entry>, ys: seq<Entry>)
    requires DistinctIds(xs) && DistinctIds(ys) && forall p :: p in xs <==> p in ys
    ensures ById(xs) == ById(ys)
  {
    hide ById;
    IndexedAlike(xs, ys);
    IndexedAlike(ys, xs);
  }

  lemma IndexedAlike(xs: seq<Entry>, ys: seq<Entry>)
    requires DistinctIds(ys) && forall p :: p in xs ==> p in ys
    ensures forall id :: id in ById(xs) ==> id in ById(ys) && ById(ys)[id] == ById(xs)[id]
  {
    hide ById;
    forall id | id in ById(xs) ensures id in ById(ys) && ById(ys)[id] == ById(xs)[id] {
      var k :| 0 <= k < |ys| && ys[k] == ById(xs)[id];
      ByIdFirst(ys, k);
    }
  }

  lemma DistinctSorted(packages: seq<Entry>)
    requires DistinctIds(packages)
    ensures StrictlySortedBy(Sort(EntryIds(packages), StringKey(), StringLe()), StringLe())
  {
    hide Sort, LexLe;
    var ids := EntryIds(packages);
    var sorted := Sort(ids, StringKey(), StringLe());
    StringOrder();
    SortedDistinct(ids, StringKey(), StringLe());
    forall i, j | 0 <= i < j < |sorted| ensures StringLe()(sorted[i], sorted[j]) && sorted[i] != sorted[j] {
      assert StringLe()(StringKey()(sorted[i]), StringKey()(sorted[j]));
    }
  }

  /** A build order exactly for acyclic graphs without dangling ids; otherwise a real reason. */
  method BuildPackageOrder(packages: seq<Entry>) returns (r: OrderResult)
    ensures r.Ordered? <==> Acyclic(ById(packages)) && AllKnown(ById(packages))
    ensures r.Ordered? ==>
              && Topological(ById(packages), r.order)
              && (forall id :: id in r.order <==> id in EntryIds(packages))
              && r.order == VisitedAll(ById(packages), [], {}, Sort(EntryIds(packages), StringKey(), StringLe()))
    ensures r.CycleFound? ==> IsCycle(ById(packages), r.cycle)
    ensures r.UnknownId? ==> r.id !in ById(packages) && exists u :: Edge(ById(packages), u, r.id)
  {
    hide ById, Sort, Topological, IsCycle, BuildOrder.Colours, VisitedAll, Visited;
    var build := new BuildOrder(packages);
    var ids := Sort(EntryIds(packages), StringKey(), StringLe());
    SortedIds(packages, ids);
    var k := 0;
    NothingVisited(ById(packages), [], {});
    assert ids[..0] == [] && Members([]) == {};
    while k < |ids|
      invariant 0 <= k <= |ids|
      invariant build.Valid() && build.stack == [] && build.packagesById == ById(packages)
      invariant forall v :: v in ids[..k] ==> v in build.order
      invariant build.order == VisitedAll(ById(packages), [], {}, ids[..k])
    {
      r := build.Visit(ids[k]);
      if !r.Ordered? {
        return;
      }
      VisitedNext(ById(packages), [], {}, ids, k);
      assert ids[..k + 1] == ids[..k] + [ids[k]];
      k := k + 1;
    }
    assert ids[..k] == ids;
    OrderCovers(build.packagesById, build.order, ids);
    TopologicalAcyclic(build.packagesById, build.order);
    r := Ordered(build.order);
  }
}
