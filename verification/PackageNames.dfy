/** Package names, `namespace/name`, as manifests, lockfiles and registries accept them. */
module PackageNames {

  predicate NameChar(ch: char)
  {
    'a' <= ch <= 'z' || '0' <= ch <= '9' || ch == '_' || ch == '-'
  }

  predicate NameSegment(s: string)
  {
    s != [] && s[0] != '_' && s[0] != '-' && forall i :: 0 <= i < |s| ==> NameChar(s[i])
  }

  /** `^[a-z0-9][a-z0-9_-]*'/'[a-z0-9][a-z0-9_-]*$` */
  predicate ValidPackageName(name: string)
  {
    exists i :: 0 <= i < |name| && name[i] == '/' && NameSegment(name[..i]) && NameSegment(name[i + 1..])
  }

  lemma NameChars(name: string)
    requires ValidPackageName(name)
    ensures forall k :: 0 <= k < |name| ==> NameChar(name[k]) || name[k] == '/'
  {
    var i :| 0 <= i < |name| && name[i] == '/' && NameSegment(name[..i]) && NameSegment(name[i + 1..]);
    forall k | 0 <= k < |name| ensures NameChar(name[k]) || name[k] == '/' {
      if k < i { assert name[..i][k] == name[k]; } else if k > i { assert name[i + 1..][k - i - 1] == name[k]; }
    }
  }

  /** Where a separator does not occur before it, it splits a string in one way only. */
  lemma SplitAt(a: string, b: string, x: string, y: string, sep: char)
    requires a + [sep] + x == b + [sep] + y
    requires sep !in a && sep !in b
    ensures a == b && x == y
  {
    var s := a + [sep] + x;
    FirstSeparator(a, x, sep);
    FirstSeparator(b, y, sep);
    assert a == s[..|a|] && b == s[..|b|];
    assert x == s[|a| + 1..] && y == s[|b| + 1..];
  }

  lemma FirstSeparator(a: string, x: string, sep: char)
    requires sep !in a
    ensures (a + [sep] + x)[|a|] == sep
    ensures forall k :: 0 <= k < |a| ==> (a + [sep] + x)[k] != sep
  {
    var s := a + [sep] + x;
    forall k | 0 <= k < |a| ensures s[k] != sep {
      assert s[k] == a[k];
    }
  }
}
