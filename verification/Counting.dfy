/** Counting, summing and dividing: the arithmetic that invariants and tables are checked with. */
module Counting {

  function CountIf<T>(xs: seq<T>, p: T -> bool): nat
  {
    if xs == [] then 0 else (if p(xs[0]) then 1 else 0) + CountIf(xs[1..], p)
  }

  function SumBy<T>(xs: seq<T>, f: T -> int): int
  {
    if xs == [] then 0 else f(xs[0]) + SumBy(xs[1..], f)
  }

  lemma {:induction false} CountAppend<T>(xs: seq<T>, ys: seq<T>, p: T -> bool)
    ensures CountIf(xs + ys, p) == CountIf(xs, p) + CountIf(ys, p)
  {
    if xs == [] {
      assert xs + ys == ys;
    } else {
      assert (xs + ys)[1..] == xs[1..] + ys;
      CountAppend(xs[1..], ys, p);
    }
  }

  lemma {:induction false} SumAppend<T>(xs: seq<T>, ys: seq<T>, f: T -> int)
    ensures SumBy(xs + ys, f) == SumBy(xs, f) + SumBy(ys, f)
  {
    if xs == [] {
      assert xs + ys == ys;
    } else {
      assert (xs + ys)[1..] == xs[1..] + ys;
      SumAppend(xs[1..], ys, f);
    }
  }

  lemma CountSnoc<T>(xs: seq<T>, x: T, p: T -> bool)
    ensures CountIf(xs + [x], p) == CountIf(xs, p) + (if p(x) then 1 else 0)
  {
    CountAppend(xs, [x], p);
  }

  lemma CountPrefix<T>(xs: seq<T>, n: nat, p: T -> bool)
    requires n < |xs|
    ensures CountIf(xs[..n + 1], p) == CountIf(xs[..n], p) + (if p(xs[n]) then 1 else 0)
  {
    assert xs[..n + 1] == xs[..n] + [xs[n]];
    CountSnoc(xs[..n], xs[n], p);
  }

  lemma SumPrefix<T>(xs: seq<T>, n: nat, f: T -> int)
    requires n < |xs|
    ensures SumBy(xs[..n + 1], f) == SumBy(xs[..n], f) + f(xs[n])
  {
    assert xs[..n + 1] == xs[..n] + [xs[n]];
    SumAppend(xs[..n], [xs[n]], f);
  }

  lemma CountInsert<T>(xs: seq<T>, k: nat, x: T, p: T -> bool)
    requires k <= |xs|
    ensures CountIf(xs[..k] + [x] + xs[k..], p) == CountIf(xs, p) + (if p(x) then 1 else 0)
  {
    hide CountIf;
    var before, after := xs[..k], xs[k..];
    assert before + after == xs;
    CountSnoc(before, x, p);
    CountAppend(before + [x], after, p);
    CountAppend(before, after, p);
  }

  lemma CountUpdate<T>(xs: seq<T>, k: nat, x: T, p: T -> bool)
    requires k < |xs|
    ensures CountIf(xs[k := x], p) == CountIf(xs, p) - (if p(xs[k]) then 1 else 0) + (if p(x) then 1 else 0)
  {
    var rest := xs[..k] + xs[k + 1..];
    assert rest[..k] + [xs[k]] + rest[k..] == xs;
    assert rest[..k] + [x] + rest[k..] == xs[k := x];
    CountInsert(rest, k, xs[k], p);
    CountInsert(rest, k, x, p);
  }

  lemma SumInsert<T>(xs: seq<T>, k: nat, x: T, f: T -> int)
    requires k <= |xs|
    ensures SumBy(xs[..k] + [x] + xs[k..], f) == SumBy(xs, f) + f(x)
  {
    var before, after := xs[..k], xs[k..];
    assert before + after == xs;
    SumAppend(before, [x], f);
    SumAppend(before + [x], after, f);
    SumAppend(before, after, f);
  }

  /** Counts grow when every counted element stays counted, strictly when one more joins. */
  lemma {:induction false} CountMonotone<T>(xs: seq<T>, ys: seq<T>, p: T -> bool)
    requires |xs| == |ys|
    requires forall i :: 0 <= i < |xs| ==> p(xs[i]) ==> p(ys[i])
    ensures CountIf(xs, p) <= CountIf(ys, p)
    ensures (exists i :: 0 <= i < |xs| && !p(xs[i]) && p(ys[i])) ==> CountIf(xs, p) < CountIf(ys, p)
  {
    if xs != [] {
      assert forall i :: 0 <= i < |xs[1..]| ==> xs[1..][i] == xs[i + 1] && ys[1..][i] == ys[i + 1];
      CountMonotone(xs[1..], ys[1..], p);
      if i :| 0 <= i < |xs| && !p(xs[i]) && p(ys[i]) {
        if i > 0 {
          assert !p(xs[1..][i - 1]) && p(ys[1..][i - 1]);
        }
      }
    }
  }

  lemma CountSame<T>(xs: seq<T>, ys: seq<T>, p: T -> bool)
    requires |xs| == |ys|
    requires forall i :: 0 <= i < |xs| ==> p(xs[i]) == p(ys[i])
    ensures CountIf(xs, p) == CountIf(ys, p)
  {
    CountMonotone(xs, ys, p);
    CountMonotone(ys, xs, p);
  }

  lemma {:induction false} CountPositive<T>(xs: seq<T>, p: T -> bool)
    ensures CountIf(xs, p) <= |xs|
    ensures CountIf(xs, p) > 0 <==> exists i :: 0 <= i < |xs| && p(xs[i])
  {
    if xs != [] {
      CountPositive(xs[1..], p);
      assert forall i :: 0 <= i < |xs[1..]| ==> xs[1..][i] == xs[i + 1];
      if i :| 0 <= i < |xs| && p(xs[i]) {
        if i > 0 {
          assert p(xs[1..][i - 1]);
        }
      }
      if j :| 0 <= j < |xs[1..]| && p(xs[1..][j]) {
        assert p(xs[j + 1]);
      }
    }
  }

  /** Two predicates that exclude each other and together cover a third split its count. */
  lemma {:induction false} CountSplit<T>(xs: seq<T>, whole: T -> bool, p: T -> bool, q: T -> bool)
    requires forall i :: 0 <= i < |xs| ==> !(p(xs[i]) && q(xs[i])) && (whole(xs[i]) <==> p(xs[i]) || q(xs[i]))
    ensures CountIf(xs, whole) == CountIf(xs, p) + CountIf(xs, q)
  {
    if xs != [] {
      assert forall i :: 0 <= i < |xs[1..]| ==> xs[1..][i] == xs[i + 1];
      CountSplit(xs[1..], whole, p, q);
    }
  }

  /** Takes one occurrence of `x` out of `ys`. */
  lemma TakeOut<T>(ys: seq<T>, x: T) returns (k: nat, rest: seq<T>)
    requires x in multiset(ys)
    ensures k <= |rest| && rest[..k] + [x] + rest[k..] == ys
    ensures multiset(rest) == multiset(ys) - multiset{x}
  {
    k :| 0 <= k < |ys| && ys[k] == x;
    rest := ys[..k] + ys[k + 1..];
    assert ys == ys[..k] + [x] + ys[k + 1..];
    assert rest[..k] == ys[..k] && rest[k..] == ys[k + 1..];
  }

  lemma {:induction false} CountOfMultiset<T>(xs: seq<T>, ys: seq<T>, p: T -> bool)
    requires multiset(xs) == multiset(ys)
    ensures CountIf(xs, p) == CountIf(ys, p)
  {
    assert |multiset(xs)| == |multiset(ys)|;
    if xs != [] {
      assert xs == [xs[0]] + xs[1..];
      var k, rest := TakeOut(ys, xs[0]);
      assert multiset(xs[1..]) == multiset(rest);
      CountOfMultiset(xs[1..], rest, p);
      CountInsert(rest, k, xs[0], p);
    }
  }

  lemma {:induction false} SumOfMultiset<T>(xs: seq<T>, ys: seq<T>, f: T -> int)
    requires multiset(xs) == multiset(ys)
    ensures SumBy(xs, f) == SumBy(ys, f)
  {
    assert |multiset(xs)| == |multiset(ys)|;
    if xs != [] {
      assert xs == [xs[0]] + xs[1..];
      var k, rest := TakeOut(ys, xs[0]);
      assert multiset(xs[1..]) == multiset(rest);
      SumOfMultiset(xs[1..], rest, f);
      SumInsert(rest, k, xs[0], f);
    }
  }

  lemma MulMonotone(a: int, b: int, m: int)
    requires a <= b && 0 <= m
    ensures a * m <= b * m
  {
    assert (b - a) * m >= 0;
  }

  lemma DivUnique(n: int, m: int, q: int, r: int)
    requires m > 0 && 0 <= r < m && n == q * m + r
    ensures n / m == q && n % m == r
  {
    var d := n / m - q;
    assert n == (n / m) * m + n % m;
    assert d * m == r - n % m;
    if d >= 1 { MulMonotone(1, d, m); }
    if d <= -1 { MulMonotone(d, -1, m); }
  }
}
