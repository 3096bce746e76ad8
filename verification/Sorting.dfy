/** Sorting by a key, and the orders the programs sort by: integers, strings by character, and paths by component. */
module Sorting {

  ghost predicate TotalOrder<K(!new)>(le: (K, K) -> bool)
  {
    && (forall a, b :: le(a, b) || le(b, a))
    && (forall a, b :: le(a, b) && le(b, a) ==> a == b)
    && (forall a, b, c :: le(a, b) && le(b, c) ==> le(a, c))
  }

  ghost predicate SortedBy<T, K>(xs: seq<T>, key: T -> K, le: (K, K) -> bool)
  {
    forall i, j :: 0 <= i < j < |xs| ==> le(key(xs[i]), key(xs[j]))
  }

  /** Elements with equal keys are equal, so that the keys alone fix the sorted order. */
  ghost predicate KeyIdentifies<T, K>(xs: seq<T>, key: T -> K)
  {
    forall x, y :: x in xs && y in xs && key(x) == key(y) ==> x == y
  }

  function Inserted<T, K>(x: T, xs: seq<T>, key: T -> K, le: (K, K) -> bool): seq<T>
  {
    if xs == [] then [x]
    else if le(key(x), key(xs[0])) then [x] + xs
    else [xs[0]] + Inserted(x, xs[1..], key, le)
  }

  function Sort<T, K>(xs: seq<T>, key: T -> K, le: (K, K) -> bool): seq<T>
  {
    if xs == [] then [] else Inserted(xs[0], Sort(xs[1..], key, le), key, le)
  }

  lemma {:induction false} InsertedAdds<T, K>(x: T, xs: seq<T>, key: T -> K, le: (K, K) -> bool)
    ensures multiset(Inserted(x, xs, key, le)) == multiset{x} + multiset(xs)
  {
    if xs != [] {
      MultisetTail(xs);
      if !le(key(x), key(xs[0])) {
        InsertedAdds(x, xs[1..], key, le);
      }
    }
  }

  lemma {:induction false} InsertedSorted<T, K(!new)>(x: T, xs: seq<T>, key: T -> K, le: (K, K) -> bool)
    requires TotalOrder(le) && SortedBy(xs, key, le)
    ensures SortedBy(Inserted(x, xs, key, le), key, le)
  {
    if xs != [] {
      if le(key(x), key(xs[0])) {
        LeastInFront(x, xs, key, le);
      } else {
        var rest := Inserted(x, xs[1..], key, le);
        InsertedSorted(x, xs[1..], key, le);
        InsertedAdds(x, xs[1..], key, le);
        forall j | 0 <= j < |rest| ensures le(key(xs[0]), key(rest[j])) {
          assert rest[j] in multiset{x} + multiset(xs[1..]);
        }
      }
    }
  }

  lemma LeastInFront<T, K(!new)>(x: T, xs: seq<T>, key: T -> K, le: (K, K) -> bool)
    requires TotalOrder(le) && SortedBy(xs, key, le) && xs != [] && le(key(x), key(xs[0]))
    ensures SortedBy([x] + xs, key, le)
  {
    forall j | 0 <= j < |xs| ensures le(key(x), key(xs[j])) {
      assert le(key(xs[0]), key(xs[j]));
    }
  }

  lemma MultisetTail<T>(xs: seq<T>)
    requires xs != []
    ensures multiset(xs) == multiset{xs[0]} + multiset(xs[1..])
    ensures multiset(xs[1..]) == multiset(xs) - multiset{xs[0]}
  {
    assert xs == [xs[0]] + xs[1..];
  }

  /** Sorting permutes, and the result is in order. */
  lemma {:induction false} SortSorts<T, K(!new)>(xs: seq<T>, key: T -> K, le: (K, K) -> bool)
    requires TotalOrder(le)
    ensures SortedBy(Sort(xs, key, le), key, le)
    ensures multiset(Sort(xs, key, le)) == multiset(xs)
    ensures |Sort(xs, key, le)| == |xs|
  {
    if xs != [] {
      assert xs == [xs[0]] + xs[1..];
      SortSorts(xs[1..], key, le);
      InsertedAdds(xs[0], Sort(xs[1..], key, le), key, le);
      InsertedSorted(xs[0], Sort(xs[1..], key, le), key, le);
    }
    assert |multiset(Sort(xs, key, le))| == |multiset(xs)|;
  }

  lemma SortedHead<T, K(!new)>(xs: seq<T>, ys: seq<T>, key: T -> K, le: (K, K) -> bool)
    requires TotalOrder(le) && xs != [] && ys != []
    requires SortedBy(xs, key, le) && SortedBy(ys, key, le)
    requires xs[0] in multiset(ys) && ys[0] in multiset(xs) && KeyIdentifies(xs, key)
    ensures xs[0] == ys[0]
  {
    var j :| 0 <= j < |ys| && ys[j] == xs[0];
    var i :| 0 <= i < |xs| && xs[i] == ys[0];
    assert le(key(xs[0]), key(xs[i])) && le(key(ys[0]), key(ys[j]));
  }

  /** A sorted arrangement is unique when keys identify elements. */
  lemma {:induction false} SortedUnique<T, K(!new)>(xs: seq<T>, ys: seq<T>, key: T -> K, le: (K, K) -> bool)
    requires TotalOrder(le)
    requires SortedBy(xs, key, le) && SortedBy(ys, key, le)
    requires multiset(xs) == multiset(ys) && KeyIdentifies(xs, key)
    ensures xs == ys
  {
    hide TotalOrder;
    assert |multiset(xs)| == |multiset(ys)|;
    if xs != [] {
      SortedHead(xs, ys, key, le);
      MultisetTail(xs);
      MultisetTail(ys);
      assert multiset(xs[1..]) == multiset(ys[1..]);
      assert forall x :: x in xs[1..] ==> x in xs;
      SortedUnique(xs[1..], ys[1..], key, le);
    }
  }

  /** The result of sorting depends on the elements, not on the order in which they arrive. */
  lemma SortIgnoresOrder<T, K(!new)>(xs: seq<T>, ys: seq<T>, key: T -> K, le: (K, K) -> bool)
    requires TotalOrder(le) && multiset(xs) == multiset(ys) && KeyIdentifies(xs, key)
    ensures Sort(xs, key, le) == Sort(ys, key, le)
  {
    SortSorts(xs, key, le);
    SortSorts(ys, key, le);
    forall x, y | x in Sort(xs, key, le) && y in Sort(xs, key, le) && key(x) == key(y) ensures x == y {
      assert x in multiset(Sort(xs, key, le)) && y in multiset(Sort(xs, key, le));
      assert x in multiset(xs) && y in multiset(xs);
    }
    SortedUnique(Sort(xs, key, le), Sort(ys, key, le), key, le);
  }

  /** Sorting keeps elements distinct. */
  lemma SortedDistinct<T, K(!new)>(xs: seq<T>, key: T -> K, le: (K, K) -> bool)
    requires TotalOrder(le) && forall i, j :: 0 <= i < j < |xs| ==> xs[i] != xs[j]
    ensures
      var s := Sort(xs, key, le);
      && |s| == |xs| && SortedBy(s, key, le) && (forall x :: x in s <==> x in xs)
      && forall i, j :: 0 <= i < j < |s| ==> s[i] != s[j]
  {
    hide TotalOrder;
    SortSorts(xs, key, le);
    var s := Sort(xs, key, le);
    forall x ensures x in s <==> x in xs {
      assert x in s <==> x in multiset(s);
      assert x in xs <==> x in multiset(xs);
    }
    forall i, j | 0 <= i < j < |s| ensures s[i] != s[j] {
      if s[i] == s[j] {
        TwiceInSequence(s, i, j);
        DistinctCountsOnce(xs, s[i]);
      }
    }
  }

  lemma TwiceInSequence<T>(xs: seq<T>, i: nat, j: nat)
    requires i < j < |xs| && xs[i] == xs[j]
    ensures multiset(xs)[xs[i]] >= 2
  {
    assert xs == xs[..j] + xs[j..];
    assert xs[..j][i] == xs[i] && xs[j..][0] == xs[i];
    assert xs[i] in xs[..j] && xs[i] in xs[j..];
  }

  lemma {:induction false} DistinctCountsOnce<T>(xs: seq<T>, x: T)
    requires forall i, j :: 0 <= i < j < |xs| ==> xs[i] != xs[j]
    ensures multiset(xs)[x] <= 1
  {
    if xs != [] {
      MultisetTail(xs);
      DistinctCountsOnce(xs[1..], x);
      if x == xs[0] {
        assert x !in xs[1..];
      }
    }
  }

  /** What is in order already is not changed. */
  lemma SortKeepsSorted<T, K(!new)>(xs: seq<T>, key: T -> K, le: (K, K) -> bool)
    requires TotalOrder(le) && SortedBy(xs, key, le) && KeyIdentifies(xs, key)
    ensures Sort(xs, key, le) == xs
  {
    SortSorts(xs, key, le);
    SortedUnique(xs, Sort(xs, key, le), key, le);
  }

  // The order of integers.

  function IntLe(): (int, int) -> bool { (a: int, b: int) => a <= b }

  function IntKey(): int -> int { (x: int) => x }

  // The order of strings, character by character with a shorter prefix first.

  predicate LexLe(a: string, b: string)
  {
    a == [] || (b != [] && (a[0] < b[0] || (a[0] == b[0] && LexLe(a[1..], b[1..]))))
  }

  function StringLe(): (string, string) -> bool { (a: string, b: string) => LexLe(a, b) }

  function StringKey(): string -> string { (s: string) => s }

  /** The order of a dictionary: a prefix first, and otherwise by the first character in which two strings differ. */
  lemma {:induction false} LexIsDictionary(a: string, b: string)
    ensures LexLe(a, b) <==> a <= b || exists k :: DifferAt(a, b, k)
  {
    if a != "" && b != "" {
      var x, y := a[1..], b[1..];
      assert a == [a[0]] + x && b == [b[0]] + y;
      if a[0] == b[0] {
        LexIsDictionary(x, y);
        assert a <= b <==> x <= y;
        if k: nat :| DifferAt(x, y, k) {
          DifferBehind(a[0], x, y, k);
          assert DifferAt(a, b, k + 1);
        }
        if k: nat :| DifferAt(a, b, k) {
          DifferBehind(a[0], x, y, k - 1);
        }
      } else {
        assert a[0] < b[0] ==> DifferAt(a, b, 0);
        if k: nat :| DifferAt(a, b, k) {
          assert k > 0 ==> a[..k][0] == b[..k][0];
        }
      }
    }
  }

  lemma DifferBehind(ch: char, x: string, y: string, k: nat)
    ensures DifferAt([ch] + x, [ch] + y, k + 1) <==> DifferAt(x, y, k)
  {
    if k < |x| && k < |y| {
      assert ([ch] + x)[..k + 1] == [ch] + x[..k] && ([ch] + y)[..k + 1] == [ch] + y[..k];
      assert x[..k] == ([ch] + x[..k])[1..] && y[..k] == ([ch] + y[..k])[1..];
    }
  }

  predicate DifferAt(a: string, b: string, k: nat)
  {
    k < |a| && k < |b| && a[..k] == b[..k] && a[k] < b[k]
  }

  lemma {:induction false} LexTotal(a: string, b: string)
    ensures LexLe(a, b) || LexLe(b, a)
  {
    if a != [] && b != [] && a[0] == b[0] {
      LexTotal(a[1..], b[1..]);
    }
  }

  lemma {:induction false} LexAntisymmetric(a: string, b: string)
    requires LexLe(a, b) && LexLe(b, a)
    ensures a == b
  {
    if a != [] {
      LexAntisymmetric(a[1..], b[1..]);
      assert a == [a[0]] + a[1..] && b == [b[0]] + b[1..];
    }
  }

  lemma {:induction false} LexTransitive(a: string, b: string, c: string)
    requires LexLe(a, b) && LexLe(b, c)
    ensures LexLe(a, c)
  {
    if a != [] && a[0] == b[0] && b[0] == c[0] {
      LexTransitive(a[1..], b[1..], c[1..]);
    }
  }

  lemma StringOrder()
    ensures TotalOrder(StringLe())
  {
    forall a: string, b: string ensures StringLe()(a, b) || StringLe()(b, a) {
      LexTotal(a, b);
    }
    forall a: string, b: string | StringLe()(a, b) && StringLe()(b, a) ensures a == b {
      LexAntisymmetric(a, b);
    }
    forall a: string, b: string, c: string | StringLe()(a, b) && StringLe()(b, c) ensures StringLe()(a, c) {
      LexTransitive(a, b, c);
    }
  }

  lemma IntOrder()
    ensures TotalOrder(IntLe())
  {
  }

  // Sets of strings, listed in an order.

  function Deduplicated(xs: seq<string>): (r: seq<string>)
  {
    if |xs| <= 1 then xs
    else if xs[0] == xs[1] then Deduplicated(xs[1..])
    else [xs[0]] + Deduplicated(xs[1..])
  }

  function SortedSetBy(xs: seq<string>, le: (string, string) -> bool): seq<string>
  {
    Deduplicated(Sort(xs, StringKey(), le))
  }

  ghost predicate StrictlySortedBy(xs: seq<string>, le: (string, string) -> bool)
  {
    forall i, j :: 0 <= i < j < |xs| ==> le(xs[i], xs[j]) && xs[i] != xs[j]
  }

  lemma {:induction false} DeduplicatedStrict(xs: seq<string>, le: (string, string) -> bool)
    requires TotalOrder(le) && SortedBy(xs, StringKey(), le)
    ensures StrictlySortedBy(Deduplicated(xs), le)
    ensures forall x :: x in Deduplicated(xs) <==> x in xs
    ensures xs != [] ==> Deduplicated(xs) != [] && Deduplicated(xs)[0] == xs[0]
  {
    if |xs| > 1 {
      assert forall i, j :: 0 <= i < j < |xs| ==> le(StringKey()(xs[i]), StringKey()(xs[j]));
      DeduplicatedStrict(xs[1..], le);
      assert xs == [xs[0]] + xs[1..];
      var rest := Deduplicated(xs[1..]);
      if xs[0] != xs[1] {
        forall j | 0 <= j < |rest| ensures le(xs[0], rest[j]) && xs[0] != rest[j] {
          assert le(xs[0], xs[1]);
          assert j > 0 ==> le(rest[0], rest[j]) && rest[0] != rest[j];
        }
      }
    }
  }

  lemma HeadIn(xs: seq<string>)
    requires xs != []
    ensures xs[0] in xs
  {
  }

  lemma {:induction false} StrictlySortedUnique(xs: seq<string>, ys: seq<string>, le: (string, string) -> bool)
    requires TotalOrder(le) && StrictlySortedBy(xs, le) && StrictlySortedBy(ys, le) && forall x :: x in xs <==> x in ys
    ensures xs == ys
  {
    if xs == [] {
      if ys != [] {
        HeadIn(ys);
        assert false;
      }
    } else {
      assert xs[0] in ys;
      assert ys[0] in xs;
      var j :| 0 <= j < |ys| && ys[j] == xs[0];
      var i :| 0 <= i < |xs| && xs[i] == ys[0];
      assert xs == [xs[0]] + xs[1..] && ys == [ys[0]] + ys[1..];
      assert xs[0] == ys[0];
      forall x ensures x in xs[1..] <==> x in ys[1..] {
        assert x in xs <==> x == xs[0] || x in xs[1..];
        assert x in ys <==> x == ys[0] || x in ys[1..];
      }
      StrictlySortedUnique(xs[1..], ys[1..], le);
    }
  }

  lemma SortedSetByStrict(xs: seq<string>, le: (string, string) -> bool)
    requires TotalOrder(le)
    ensures StrictlySortedBy(SortedSetBy(xs, le), le)
    ensures forall x :: x in SortedSetBy(xs, le) <==> x in xs
  {
    SortSorts(xs, StringKey(), le);
    var s := Sort(xs, StringKey(), le);
    DeduplicatedStrict(s, le);
    forall x ensures x in s <==> x in xs {
      assert x in s <==> x in multiset(s);
      assert x in xs <==> x in multiset(xs);
    }
  }

  /** Sorting and removing repetitions depends only on the set of elements. */
  lemma SortedSetByOfSet(xs: seq<string>, ys: seq<string>, le: (string, string) -> bool)
    requires TotalOrder(le) && forall x :: x in xs <==> x in ys
    ensures SortedSetBy(xs, le) == SortedSetBy(ys, le)
  {
    SortedSetByStrict(xs, le);
    SortedSetByStrict(ys, le);
    StrictlySortedUnique(SortedSetBy(xs, le), SortedSetBy(ys, le), le);
  }

  // The order of paths, component by component, so that a directory's contents stay together.

  function Components(path: string): (r: seq<string>)
    ensures |r| > 0
  {
    if path == "" then [""] else
    var rest := Components(path[1..]);
    if path[0] == '/' then [""] + rest else [[path[0]] + rest[0]] + rest[1..]
  }

  function Joined(components: seq<string>): string
    requires |components| > 0
  {
    if |components| == 1 then components[0] else components[0] + "/" + Joined(components[1..])
  }

  lemma {:induction false} JoinedComponents(path: string)
    ensures Joined(Components(path)) == path
  {
    if path != "" {
      JoinedComponents(path[1..]);
      var rest := Components(path[1..]);
      if path[0] == '/' {
        assert ([""] + rest)[1..] == rest;
        assert path == "/" + path[1..];
      } else {
        var all := [[path[0]] + rest[0]] + rest[1..];
        assert all[1..] == rest[1..];
        assert path == [path[0]] + path[1..];
        if |rest| > 1 {
          assert [path[0]] + (rest[0] + "/" + Joined(rest[1..])) == ([path[0]] + rest[0]) + "/" + Joined(rest[1..]);
        }
      }
    }
  }

  predicate ComponentsLe(a: seq<string>, b: seq<string>)
  {
    a == [] || (b != [] && (if a[0] == b[0] then ComponentsLe(a[1..], b[1..]) else LexLe(a[0], b[0])))
  }

  predicate PathBefore(a: string, b: string)
  {
    ComponentsLe(Components(a), Components(b))
  }

  function PathLe(): (string, string) -> bool { (a: string, b: string) => PathBefore(a, b) }

  lemma {:induction false} ComponentsTotal(a: seq<string>, b: seq<string>)
    ensures ComponentsLe(a, b) || ComponentsLe(b, a)
  {
    if a != [] && b != [] {
      LexTotal(a[0], b[0]);
      if a[0] == b[0] {
        ComponentsTotal(a[1..], b[1..]);
      }
    }
  }

  lemma {:induction false} ComponentsAntisymmetric(a: seq<string>, b: seq<string>)
    requires ComponentsLe(a, b) && ComponentsLe(b, a)
    ensures a == b
  {
    if a != [] {
      if a[0] != b[0] {
        LexAntisymmetric(a[0], b[0]);
      }
      ComponentsAntisymmetric(a[1..], b[1..]);
      assert a == [a[0]] + a[1..] && b == [b[0]] + b[1..];
    }
  }

  lemma {:induction false} ComponentsTransitive(a: seq<string>, b: seq<string>, c: seq<string>)
    requires ComponentsLe(a, b) && ComponentsLe(b, c)
    ensures ComponentsLe(a, c)
  {
    if a != [] {
      if a[0] == b[0] && b[0] == c[0] {
        ComponentsTransitive(a[1..], b[1..], c[1..]);
      } else if a[0] != b[0] && b[0] != c[0] {
        LexTransitive(a[0], b[0], c[0]);
        if a[0] == c[0] {
          LexAntisymmetric(a[0], b[0]);
        }
      }
    }
  }

  lemma PathOrder()
    ensures TotalOrder(PathLe())
  {
    forall a: string, b: string ensures PathLe()(a, b) || PathLe()(b, a) {
      ComponentsTotal(Components(a), Components(b));
    }
    forall a: string, b: string | PathLe()(a, b) && PathLe()(b, a) ensures a == b {
      ComponentsAntisymmetric(Components(a), Components(b));
      JoinedComponents(a);
      JoinedComponents(b);
    }
    forall a: string, b: string, c: string | PathLe()(a, b) && PathLe()(b, c) ensures PathLe()(a, c) {
      ComponentsTransitive(Components(a), Components(b), Components(c));
    }
  }

  lemma {:induction false} ComponentsOfName(name: string)
    requires '/' !in name
    ensures Components(name) == [name]
  {
    if name != "" {
      ComponentsOfName(name[1..]);
      assert name == [name[0]] + name[1..];
    }
  }

  lemma {:induction false} ComponentsWithin(dir: string, name: string)
    requires '/' !in name
    ensures Components(dir + "/" + name) == Components(dir) + [name]
  {
    var path := dir + "/" + name;
    if dir == "" {
      assert path[1..] == name;
      ComponentsOfName(name);
    } else {
      assert path[1..] == dir[1..] + "/" + name;
      ComponentsWithin(dir[1..], name);
    }
  }

  lemma {:induction false} ComponentsLeAfter(front: seq<string>, a: seq<string>, b: seq<string>)
    ensures ComponentsLe(front + a, front + b) <==> ComponentsLe(a, b)
  {
    if front == [] {
      assert front + a == a && front + b == b;
    } else {
      assert (front + a)[1..] == front[1..] + a && (front + b)[1..] == front[1..] + b;
      ComponentsLeAfter(front[1..], a, b);
    }
  }

  /** Within a directory the order of paths is that of the names. */
  lemma NamesWithin(dir: string, a: string, b: string)
    requires '/' !in a && '/' !in b
    ensures PathBefore(dir + "/" + a, dir + "/" + b) <==> LexLe(a, b)
  {
    hide Components, ComponentsLe;
    ComponentsWithin(dir, a);
    ComponentsWithin(dir, b);
    ComponentsLeAfter(Components(dir), [a], [b]);
    SingleComponents(a, b);
  }

  lemma SingleComponents(a: string, b: string)
    ensures ComponentsLe([a], [b]) <==> LexLe(a, b)
  {
    LexTotal(a, a);
  }

  /** A path's components are those of its directory and then its own. */
  lemma {:induction false} ComponentsJoin(dir: string, rest: string)
    ensures Components(dir + "/" + rest) == Components(dir) + Components(rest)
  {
    var path := dir + "/" + rest;
    if dir == "" {
      assert path[1..] == rest;
    } else {
      assert path[1..] == dir[1..] + "/" + rest;
      ComponentsJoin(dir[1..], rest);
    }
  }

  /** A directory comes before its contents. */
  lemma ContentsBehind(dir: string, rest: string)
    ensures PathBefore(dir, dir + "/" + rest) && !PathBefore(dir + "/" + rest, dir)
  {
    hide Components, ComponentsLe;
    ComponentsJoin(dir, rest);
    ComponentsLeAfter(Components(dir), [], Components(rest));
    ComponentsLeAfter(Components(dir), Components(rest), []);
    assert Components(dir) + [] == Components(dir);
    NothingBefore(Components(rest));
  }

  lemma NothingBefore(a: seq<string>)
    requires a != []
    ensures ComponentsLe([], a) && !ComponentsLe(a, [])
  {
  }

  /** Whatever is below them, the contents of two directories side by side are in the order of the directories' names. */
  lemma DirectoriesApart(dir: string, a: string, b: string, below: string, beneath: string)
    requires '/' !in a && '/' !in b && a != b
    ensures PathBefore(dir + "/" + a + "/" + below, dir + "/" + b + "/" + beneath) <==> LexLe(a, b)
  {
    hide Components, ComponentsLe;
    ComponentsJoin(dir + "/" + a, below);
    ComponentsJoin(dir + "/" + b, beneath);
    ComponentsWithin(dir, a);
    ComponentsWithin(dir, b);
    var front, x, y := Components(dir), [a] + Components(below), [b] + Components(beneath);
    assert front + [a] + Components(below) == front + x && front + [b] + Components(beneath) == front + y;
    ComponentsLeAfter(front, x, y);
    DifferentHeads(a, b, Components(below), Components(beneath));
  }

  lemma DifferentHeads(a: string, b: string, x: seq<string>, y: seq<string>)
    requires a != b
    ensures ComponentsLe([a] + x, [b] + y) <==> LexLe(a, b)
  {
  }
}
