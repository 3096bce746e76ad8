/** The dependency tree as text: a depth-first walk over a graph that may have cycles and gaps. */
module TreeRender {

  type Graph = map<string, seq<string>>

  // What is printed, path by path. A path is the list of positions taken from a root downwards.

  /** Whether path `q` below `id` gets a line, `above` being the ids on the way to it. */
  predicate Printed(m: Graph, above: seq<string>, id: string, q: seq<nat>)
    decreases |q|
  {
    q == [] ||
    (id in m && id !in above && q[0] < |m[id]| && Printed(m, above + [id], m[id][q[0]], q[1..]))
  }

  function Marker(isLast: bool): string { if isLast then "\\- " else "+- " }

  function ChildPrefix(prefix: string, isRoot: bool, isLast: bool): string
  {
    if isRoot then "" else prefix + (if isLast then "   " else "|  ")
  }

  function LineStart(prefix: string, isRoot: bool, isLast: bool): string
  {
    if isRoot then "" else prefix + Marker(isLast)
  }

  function Suffix(m: Graph, above: seq<string>, id: string): string
  {
    if id in above then " (cycle)" else if id !in m then " (missing)" else ""
  }

  /** The line of path `q`: indentation by the ancestors' positions, then the id and its mark. */
  function LineOf(m: Graph, above: seq<string>, id: string, prefix: string, isRoot: bool, isLast: bool, q: seq<nat>): string
    requires Printed(m, above, id, q)
    decreases |q|
  {
    if q == [] then LineStart(prefix, isRoot, isLast) + id + Suffix(m, above, id) + "\n"
    else LineOf(m, above + [id], m[id][q[0]], ChildPrefix(prefix, isRoot, isLast), false, q[0] + 1 == |m[id]|, q[1..])
  }

  // The order of the lines.

  predicate PathBefore(p: seq<nat>, q: seq<nat>)
  {
    q != [] && (p == [] || p[0] < q[0] || (p[0] == q[0] && PathBefore(p[1..], q[1..])))
  }

  ghost predicate InOrder(ps: seq<seq<nat>>)
  {
    forall i, j :: 0 <= i < j < |ps| ==> PathBefore(ps[i], ps[j])
  }

  // The listing.

  ghost function Room(m: Graph, above: seq<string>): nat
  {
    |m.Keys - (set a | a in above)|
  }

  lemma RoomShrinks(m: Graph, above: seq<string>, id: string)
    requires id in m && id !in above
    ensures Room(m, above + [id]) < Room(m, above)
  {
    assert id in m.Keys - (set a | a in above);
    assert m.Keys - (set a | a in above + [id]) == (m.Keys - (set a | a in above)) - {id};
  }

  function Prepended(k: nat, ps: seq<seq<nat>>): (r: seq<seq<nat>>)
    ensures |r| == |ps| && forall i :: 0 <= i < |ps| ==> r[i] == [k] + ps[i]
  {
    seq(|ps|, i requires 0 <= i < |ps| => [k] + ps[i])
  }

  /** The paths below `id`, itself first, in the order in which they are printed. */
  ghost function Listing(m: Graph, above: seq<string>, id: string): seq<seq<nat>>
    decreases Room(m, above), 0, 0
  {
    if id !in m || id in above then [[]] else
    RoomShrinks(m, above, id);
    [[]] + ListingFrom(m, above + [id], m[id], 0)
  }

  ghost function ListingFrom(m: Graph, above: seq<string>, ids: seq<string>, k: nat): seq<seq<nat>>
    requires k <= |ids|
    decreases Room(m, above), 1, |ids| - k
  {
    if k == |ids| then []
    else Prepended(k, Listing(m, above, ids[k])) + ListingFrom(m, above, ids, k + 1)
  }

  /** Exactly the paths that deserve a line are listed, each once and in order. */
  lemma {:induction false} ListingExact(m: Graph, above: seq<string>, id: string)
    ensures forall q :: q in Listing(m, above, id) <==> Printed(m, above, id, q)
    ensures InOrder(Listing(m, above, id))
    decreases Room(m, above), 0, 0
  {
    if id in m && id !in above {
      RoomShrinks(m, above, id);
      var rest := ListingFrom(m, above + [id], m[id], 0);
      ListingFromExact(m, above + [id], m[id], 0);
      assert Listing(m, above, id) == [[]] + rest;
      SelfFirst(rest);
      forall q ensures q in Listing(m, above, id) <==> Printed(m, above, id, q) {
        InnerPrinted(m, above, id, q);
        assert q in rest <==> ChildPrinted(m, above + [id], m[id], 0, q);
      }
    } else {
      forall q ensures q in Listing(m, above, id) <==> Printed(m, above, id, q) {
        LeafPrinted(m, above, id, q);
        assert q in [[]] <==> q == [];
      }
    }
  }

  lemma SelfFirst(rest: seq<seq<nat>>)
    requires InOrder(rest) && forall q :: q in rest ==> q != []
    ensures InOrder([[]] + rest)
    ensures forall q :: q in [[]] + rest <==> q == [] || q in rest
  {
    var all := [[]] + rest;
    forall i, j | 0 <= i < j < |all| ensures PathBefore(all[i], all[j]) {
      assert all[j] == rest[j - 1] && all[j] in rest;
      if i > 0 { assert PathBefore(rest[i - 1], rest[j - 1]); }
    }
  }

  lemma InnerPrinted(m: Graph, above: seq<string>, id: string, q: seq<nat>)
    requires id in m && id !in above
    ensures Printed(m, above, id, q) <==> q == [] || ChildPrinted(m, above + [id], m[id], 0, q)
  {
  }

  lemma LeafPrinted(m: Graph, above: seq<string>, id: string, q: seq<nat>)
    requires id !in m || id in above
    ensures Printed(m, above, id, q) <==> q == []
  {
  }

  predicate ChildPrinted(m: Graph, above: seq<string>, ids: seq<string>, k: nat, q: seq<nat>)
  {
    q != [] && k <= q[0] < |ids| && Printed(m, above, ids[q[0]], q[1..])
  }

  lemma {:induction false} ListingFromExact(m: Graph, above: seq<string>, ids: seq<string>, k: nat)
    requires k <= |ids|
    ensures forall q :: q in ListingFrom(m, above, ids, k) <==> ChildPrinted(m, above, ids, k, q)
    ensures InOrder(ListingFrom(m, above, ids, k))
    decreases Room(m, above), 1, |ids| - k
  {
    if k < |ids| {
      var first := Listing(m, above, ids[k]);
      var rest := ListingFrom(m, above, ids, k + 1);
      ListingExact(m, above, ids[k]);
      ListingFromExact(m, above, ids, k + 1);
      forall q ensures q in ListingFrom(m, above, ids, k) <==> ChildPrinted(m, above, ids, k, q) {
        PrependedMembers(k, first, q);
        assert q in ListingFrom(m, above, ids, k) <==> q in Prepended(k, first) || q in rest;
        assert q in rest <==> ChildPrinted(m, above, ids, k + 1, q);
        if q != [] {
          assert q[1..] in first <==> Printed(m, above, ids[k], q[1..]);
        }
      }
      PrependedInOrder(k, first, rest);
    }
  }

  lemma PrependedMembers(k: nat, ps: seq<seq<nat>>, q: seq<nat>)
    ensures q in Prepended(k, ps) <==> q != [] && q[0] == k && q[1..] in ps
  {
    if q != [] && q[0] == k && q[1..] in ps {
      var i :| 0 <= i < |ps| && ps[i] == q[1..];
      assert Prepended(k, ps)[i] == q;
    }
    if q in Prepended(k, ps) {
      var i :| 0 <= i < |ps| && Prepended(k, ps)[i] == q;
      assert q[1..] == ps[i];
    }
  }

  lemma PrependedInOrder(k: nat, ps: seq<seq<nat>>, rest: seq<seq<nat>>)
    requires InOrder(ps) && InOrder(rest) && forall q :: q in rest ==> q != [] && k < q[0]
    ensures InOrder(Prepended(k, ps) + rest)
  {
    var all := Prepended(k, ps) + rest;
    forall i, j | 0 <= i < j < |all| ensures PathBefore(all[i], all[j]) {
      if j < |ps| {
        assert PathBefore(ps[i], ps[j]);
        assert all[i][1..] == ps[i] && all[j][1..] == ps[j];
      } else if i < |ps| {
        assert all[j] in rest;
      } else {
        assert PathBefore(rest[i - |ps|], rest[j - |ps|]);
      }
    }
  }

  // The text.

  ghost predicate AllPrinted(m: Graph, above: seq<string>, id: string, ps: seq<seq<nat>>)
  {
    forall i :: 0 <= i < |ps| ==> Printed(m, above, id, ps[i])
  }

  ghost function LinesText(m: Graph, above: seq<string>, id: string, prefix: string, isRoot: bool, isLast: bool,
                           ps: seq<seq<nat>>): string
    requires AllPrinted(m, above, id, ps)
  {
    if ps == [] then ""
    else LineOf(m, above, id, prefix, isRoot, isLast, ps[0]) + LinesText(m, above, id, prefix, isRoot, isLast, ps[1..])
  }

  lemma {:induction false} LinesTextAppend(m: Graph, above: seq<string>, id: string, prefix: string, isRoot: bool, isLast: bool,
                                           ps: seq<seq<nat>>, qs: seq<seq<nat>>)
    requires AllPrinted(m, above, id, ps) && AllPrinted(m, above, id, qs)
    ensures AllPrinted(m, above, id, ps + qs)
    ensures LinesText(m, above, id, prefix, isRoot, isLast, ps + qs)
            == LinesText(m, above, id, prefix, isRoot, isLast, ps) + LinesText(m, above, id, prefix, isRoot, isLast, qs)
  {
    hide LineOf, Printed;
    if ps == [] {
      assert ps + qs == qs;
    } else {
      assert (ps + qs)[1..] == ps[1..] + qs;
      LinesTextAppend(m, above, id, prefix, isRoot, isLast, ps[1..], qs);
      Associate(LineOf(m, above, id, prefix, isRoot, isLast, ps[0]),
                LinesText(m, above, id, prefix, isRoot, isLast, ps[1..]),
                LinesText(m, above, id, prefix, isRoot, isLast, qs));
    }
  }

  /** The lines of a subtree are the lines of its root's child, one level further in. */
  lemma {:induction false} LinesTextOfChild(m: Graph, above: seq<string>, id: string, prefix: string, isRoot: bool, isLast: bool,
                                            k: nat, ps: seq<seq<nat>>)
    requires id in m && id !in above && k < |m[id]| && AllPrinted(m, above + [id], m[id][k], ps)
    ensures AllPrinted(m, above, id, Prepended(k, ps))
    ensures LinesText(m, above, id, prefix, isRoot, isLast, Prepended(k, ps))
            == LinesText(m, above + [id], m[id][k], ChildPrefix(prefix, isRoot, isLast), false, k + 1 == |m[id]|, ps)
  {
    forall i | 0 <= i < |ps| ensures Printed(m, above, id, Prepended(k, ps)[i]) {
      assert Prepended(k, ps)[i][1..] == ps[i];
    }
    if ps != [] {
      assert ([k] + ps[0])[1..] == ps[0];
      assert Prepended(k, ps)[1..] == Prepended(k, ps[1..]);
      LinesTextOfChild(m, above, id, prefix, isRoot, isLast, k, ps[1..]);
    }
  }

  lemma ListingPrinted(m: Graph, above: seq<string>, id: string)
    ensures AllPrinted(m, above, id, Listing(m, above, id))
  {
    ListingExact(m, above, id);
  }

  lemma ListingFromPrinted(m: Graph, above: seq<string>, id: string, k: nat)
    requires id in m && id !in above && k <= |m[id]|
    ensures AllPrinted(m, above, id, ListingFrom(m, above + [id], m[id], k))
  {
    ListingFromExact(m, above + [id], m[id], k);
    var ps := ListingFrom(m, above + [id], m[id], k);
    forall i | 0 <= i < |ps| ensures Printed(m, above, id, ps[i]) {
      assert ps[i] in ps;
    }
  }

  /** The text of the tree below `id`. */
  ghost function TreeText(m: Graph, above: seq<string>, id: string, prefix: string, isRoot: bool, isLast: bool): string
  {
    ListingPrinted(m, above, id);
    LinesText(m, above, id, prefix, isRoot, isLast, Listing(m, above, id))
  }

  /** The text below `id` from its `k`-th dependency on. */
  ghost function TailText(m: Graph, above: seq<string>, id: string, prefix: string, isRoot: bool, isLast: bool, k: nat): string
    requires id in m && id !in above && k <= |m[id]|
  {
    ListingFromPrinted(m, above, id, k);
    LinesText(m, above, id, prefix, isRoot, isLast, ListingFrom(m, above + [id], m[id], k))
  }

  lemma TailTextStep(m: Graph, above: seq<string>, id: string, prefix: string, isRoot: bool, isLast: bool, k: nat)
    requires id in m && id !in above && k < |m[id]|
    ensures TailText(m, above, id, prefix, isRoot, isLast, k)
            == TreeText(m, above + [id], m[id][k], ChildPrefix(prefix, isRoot, isLast), false, k + 1 == |m[id]|)
               + TailText(m, above, id, prefix, isRoot, isLast, k + 1)
  {
    var ps := Listing(m, above + [id], m[id][k]);
    ListingPrinted(m, above + [id], m[id][k]);
    ListingFromPrinted(m, above, id, k + 1);
    LinesTextOfChild(m, above, id, prefix, isRoot, isLast, k, ps);
    LinesTextAppend(m, above, id, prefix, isRoot, isLast, Prepended(k, ps), ListingFrom(m, above + [id], m[id], k + 1));
  }

  lemma TreeTextUnfold(m: Graph, above: seq<string>, id: string, prefix: string, isRoot: bool, isLast: bool)
    ensures TreeText(m, above, id, prefix, isRoot, isLast)
            == LineStart(prefix, isRoot, isLast) + id + Suffix(m, above, id) + "\n"
               + (if id in m && id !in above then TailText(m, above, id, prefix, isRoot, isLast, 0) else "")
  {
    var self := LineStart(prefix, isRoot, isLast) + id + Suffix(m, above, id) + "\n";
    assert self == LineOf(m, above, id, prefix, isRoot, isLast, []);
    if id in m && id !in above {
      var rest := ListingFrom(m, above + [id], m[id], 0);
      assert Listing(m, above, id)[1..] == rest;
      ListingFromPrinted(m, above, id, 0);
    } else {
      ListingPrinted(m, above, id);
      assert Listing(m, above, id) == [[]] && Listing(m, above, id)[1..] == [];
      assert LinesText(m, above, id, prefix, isRoot, isLast, Listing(m, above, id)) == self + "";
    }
  }

  /** One tree per root, with an empty line between two trees. */
  ghost function ForestText(m: Graph, roots: seq<string>): string
  {
    if roots == [] then ""
    else if |roots| == 1 then TreeText(m, [], roots[0], "", true, true)
    else ForestText(m, roots[..|roots| - 1]) + "\n" + TreeText(m, [], roots[|roots| - 1], "", true, true)
  }

  lemma Associate(a: string, b: string, c: string)
    ensures a + b + c == a + (b + c)
  {
  }

  lemma ChildPrefixIs(prefix: string, isRoot: bool, isLast: bool, p: string)
    requires p == if isRoot then "" else prefix + (if isLast then "   " else "|  ")
    ensures ChildPrefix(prefix, isRoot, isLast) == p
  {
  }

  lemma CycleMark(m: Graph, above: seq<string>, id: string)
    requires id in above
    ensures Suffix(m, above, id) == " (cycle)"
  {
  }

  class Renderer {
    const packagesById: Graph
    var pathStack: set<string>
    var out: string

    constructor (packagesById: Graph)
      ensures this.packagesById == packagesById && pathStack == {} && out == ""
    {
      this.packagesById, pathStack, out := packagesById, {}, "";
    }

    method WriteLine(id: string, prefix: string, isRoot: bool, isLast: bool, suffix: string)
      modifies `out
      ensures out == old(out) + (LineStart(prefix, isRoot, isLast) + id + suffix + "\n")
    {
      if !isRoot {
        out := out + prefix + (if isLast then "\\- " else "+- ");
      }
      out := out + id + suffix + "\n";
    }

    method RenderNode(id: string, prefix: string, isRoot: bool, isLast: bool, ghost above: seq<string>)
      requires pathStack == (set a | a in above) && id !in pathStack
      modifies this
      ensures pathStack == old(pathStack)
      ensures out == old(out) + TreeText(packagesById, above, id, prefix, isRoot, isLast)
      decreases Room(packagesById, above), 0
    {
      hide TreeText, TailText, LineStart, Room;
      TreeTextUnfold(packagesById, above, id, prefix, isRoot, isLast);
      if id !in packagesById {
        WriteLine(id, prefix, isRoot, isLast, " (missing)");
        return;
      }
      WriteLine(id, prefix, isRoot, isLast, "");
      ghost var line := LineStart(prefix, isRoot, isLast) + id + "" + "\n";
      pathStack := pathStack + {id};
      RoomShrinks(packagesById, above, id);
      RenderDependencies(id, prefix, isRoot, isLast, above);
      Associate(old(out), line, TailText(packagesById, above, id, prefix, isRoot, isLast, 0));
      pathStack := pathStack - {id};
    }

    method RenderDependencies(id: string, prefix: string, isRoot: bool, isLast: bool, ghost above: seq<string>)
      requires id in packagesById && id !in above && pathStack == (set a | a in above + [id])
      modifies this
      ensures pathStack == old(pathStack)
      ensures out == old(out) + TailText(packagesById, above, id, prefix, isRoot, isLast, 0)
      decreases Room(packagesById, above + [id]), 1
    {
      hide TreeText, TailText, ChildPrefix, LineStart, Suffix;
      var dependencies := packagesById[id];
      var childPrefix := if isRoot then "" else prefix + (if isLast then "   " else "|  ");
      ChildPrefixIs(prefix, isRoot, isLast, childPrefix);
      var index := 0;
      while index < |dependencies|
        invariant 0 <= index <= |dependencies| && pathStack == old(pathStack)
        invariant out + TailText(packagesById, above, id, prefix, isRoot, isLast, index)
                  == old(out) + TailText(packagesById, above, id, prefix, isRoot, isLast, 0)
      {
        var dependency := dependencies[index];
        var dependencyIsLast := index + 1 == |dependencies|;
        TailTextStep(packagesById, above, id, prefix, isRoot, isLast, index);
        if dependency in pathStack {
          TreeTextUnfold(packagesById, above + [id], dependency, childPrefix, false, dependencyIsLast);
          CycleMark(packagesById, above + [id], dependency);
          WriteLine(dependency, childPrefix, false, dependencyIsLast, " (cycle)");
        } else {
          RenderNode(dependency, childPrefix, false, dependencyIsLast, above + [id]);
        }
        index := index + 1;
      }
      TailTextEnd(packagesById, above, id, prefix, isRoot, isLast);
    }
  }

  lemma TailTextEnd(m: Graph, above: seq<string>, id: string, prefix: string, isRoot: bool, isLast: bool)
    requires id in m && id !in above
    ensures TailText(m, above, id, prefix, isRoot, isLast, |m[id]|) == ""
  {
  }

  method RenderDependencyTreeText(packagesById: Graph, rootIds: seq<string>) returns (text: string)
    ensures text == ForestText(packagesById, rootIds)
  {
    var renderer := new Renderer(packagesById);
    var index := 0;
    while index < |rootIds|
      invariant 0 <= index <= |rootIds|
      invariant renderer.pathStack == {} && renderer.packagesById == packagesById
      invariant renderer.out == ForestText(packagesById, rootIds[..index])
    {
      if index > 0 {
        renderer.out := renderer.out + "\n";
      }
      renderer.RenderNode(rootIds[index], "", true, true, []);
      assert rootIds[..index + 1][..index] == rootIds[..index];
      index := index + 1;
    }
    assert rootIds[..index] == rootIds;
    text := renderer.out;
  }
}
