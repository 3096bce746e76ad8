/** The reader accepts nothing but what the writer produces: texts are compared exactly, whoever wrote them. */
module LockfileInverse {
  import opened Wrappers
  import opened LockfileText
  import opened LockfileReading
  import opened Lockfile

  lemma ExpectWritten(token: string, s: string)
    requires Expect(token, s).Done?
    ensures s == token + Expect(token, s).rest
  {
  }

  lemma {:induction false} CharsWritten(s: string, strict: bool)
    requires ReadChars(s, strict).Done?
    ensures s == Escaped(ReadChars(s, strict).value) + ['"'] + ReadChars(s, strict).rest
    decreases |s|
  {
    hide Control, Escaped, EscapedChar;
    var r := ReadChars(s, strict);
    if s[0] == '"' {
      EscapedEmpty();
      assert s == ['"'] + s[1..];
    } else {
      var n := if s[0] == '\\' then 2 else 1;
      var t := ReadChars(s[n..], strict);
      CharsWritten(s[n..], strict);
      CharWritten(s, n, r.value[0], t.value);
      Regroup(s, n, Escaped(t.value), t.rest);
    }
  }

  lemma EscapedEmpty()
    ensures Escaped("") == ""
  {
  }

  lemma Regroup(s: string, n: nat, tail: string, rest: string)
    requires n <= |s| && s[n..] == tail + ['"'] + rest
    ensures s == (s[..n] + tail) + ['"'] + rest
  {
    assert s == s[..n] + s[n..];
  }

  lemma CharWritten(s: string, n: nat, ch: char, tail: string)
    requires 1 <= n <= 2 && n <= |s| && ch == s[n - 1]
    requires if n == 2 then s[0] == '\\' && (ch == '"' || ch == '\\') else ch != '"' && ch != '\\'
    ensures Escaped([ch] + tail) == s[..n] + Escaped(tail)
  {
    hide Escaped;
    EscapedCons(ch, tail);
    if n == 2 {
      assert s[..2] == ['\\', ch];
    } else {
      assert s[..1] == [ch];
    }
  }

  lemma EscapedCons(ch: char, tail: string)
    ensures Escaped([ch] + tail) == EscapedChar(ch) + Escaped(tail)
  {
    assert ([ch] + tail)[1..] == tail;
  }

  lemma QuotedWritten(s: string, strict: bool)
    requires ReadQuoted(s, strict).Done?
    ensures s == Quoted(ReadQuoted(s, strict).value) + ReadQuoted(s, strict).rest
  {
    hide ReadChars, Escaped;
    ExpectWritten(['"'], s);
    CharsWritten(Expect(['"'], s).rest, strict);
  }

  lemma FieldWritten(key: string, s: string, strict: bool)
    requires ReadField(key, s, strict).Done?
    ensures s == FieldText(key, ReadField(key, s, strict).value) + ReadField(key, s, strict).rest
  {
    hide ReadQuoted, Quoted, Expect;
    ExpectWritten(key + " = ", s);
    var s1 := Expect(key + " = ", s).rest;
    QuotedWritten(s1, strict);
    ExpectWritten("\n", ReadQuoted(s1, strict).rest);
  }

  lemma SourceWritten(kind: string, s: string, strict: bool)
    requires ReadSource(kind, s, strict).Done?
    ensures s == SourceText(kind, ReadSource(kind, s, strict).value) + ReadSource(kind, s, strict).rest
  {
    hide ReadField, FieldText;
    if kind == "git" {
      FieldWritten("git", s, strict);
      FieldWritten("rev", ReadField("git", s, strict).rest, strict);
    } else if kind == "registry" {
      FieldWritten("registry", s, strict);
      FieldWritten("sha256", ReadField("registry", s, strict).rest, strict);
    }
  }

  lemma {:induction false} ItemsWritten(s: string, strict: bool)
    requires ReadItems(s, strict).Done?
    ensures ReadItems(s, strict).value != []
    ensures s == ItemsText(ReadItems(s, strict).value) + "]" + ReadItems(s, strict).rest
    decreases |s|
  {
    hide ReadQuoted, Quoted, Expect, ItemsText;
    QuotedWritten(s, strict);
    var item, s1 := ReadQuoted(s, strict).value, ReadQuoted(s, strict).rest;
    if Expect("]", s1).Done? {
      ExpectWritten("]", s1);
      ItemsOne(item);
    } else {
      ExpectWritten(", ", s1);
      var s2 := Expect(", ", s1).rest;
      ItemsWritten(s2, strict);
      ItemsCons(item, ReadItems(s2, strict).value);
    }
  }

  lemma ItemsOne(item: string)
    ensures ItemsText([item]) == Quoted(item)
  {
  }

  lemma ItemsCons(item: string, items: seq<string>)
    requires items != []
    ensures ItemsText([item] + items) == Quoted(item) + ", " + ItemsText(items)
  {
    assert ([item] + items)[1..] == items;
  }

  lemma DependenciesWritten(s: string, strict: bool)
    requires ReadDependencies(s, strict).Done?
    ensures s == DependenciesText(ReadDependencies(s, strict).value) + ReadDependencies(s, strict).rest
  {
    hide ReadItems, ItemsText, Expect;
    ExpectWritten("dependencies = [", s);
    var s1 := Expect("dependencies = [", s).rest;
    if Expect("]", s1).Done? {
      ExpectWritten("]\n", s1);
      NoItems();
    } else {
      ItemsWritten(s1, strict);
      ExpectWritten("\n", ReadItems(s1, strict).rest);
    }
  }

  /** A package as it is written when its dependencies are in order. */
  lemma PackageWritten(s: string, strict: bool)
    requires ReadPackage(s, strict).Done? && Normal(ReadPackage(s, strict).value) == ReadPackage(s, strict).value
    ensures s == PackageText(ReadPackage(s, strict).value) + ReadPackage(s, strict).rest
    ensures MatchesKind(ReadPackage(s, strict).value)
  {
    hide ReadField, FieldText, ReadSource, SourceText, ReadDependencies, DependenciesText, SortedStrings, Expect, PackageText;
    var p, rest := ReadPackage(s, strict).value, ReadPackage(s, strict).rest;
    ExpectWritten("\n[[package]]\n", s);
    var s0 := Expect("\n[[package]]\n", s).rest;
    FieldWritten("id", s0, strict);
    var s1 := ReadField("id", s0, strict).rest;
    FieldWritten("name", s1, strict);
    var s2 := ReadField("name", s1, strict).rest;
    FieldWritten("version", s2, strict);
    var s3 := ReadField("version", s2, strict).rest;
    FieldWritten("source-kind", s3, strict);
    var s4 := ReadField("source-kind", s3, strict).rest;
    SourceWritten(p.sourceKind, s4, strict);
    SourceMatches(p.sourceKind, s4, strict);
    DependenciesWritten(ReadSource(p.sourceKind, s4, strict).rest, strict);
    PackageTextParts(p, rest);
  }

  lemma SourceMatches(kind: string, s: string, strict: bool)
    requires ReadSource(kind, s, strict).Done?
    ensures forall p: Package :: p.sourceKind == kind && p.source == ReadSource(kind, s, strict).value ==> MatchesKind(p)
  {
    hide ReadField;
  }

  lemma {:induction false} PackagesWritten(s: string, strict: bool)
    requires ReadPackages(s, strict).Done? && forall p :: p in ReadPackages(s, strict).value ==> Normal(p) == p
    ensures s == PackagesText(ReadPackages(s, strict).value)
    decreases |s|
  {
    hide ReadPackage, PackageText, Normal;
    if s != "" {
      var p, s1 := ReadPackage(s, strict).value, ReadPackage(s, strict).rest;
      var ps := ReadPackages(s1, strict).value;
      assert ReadPackages(s, strict).value == [p] + ps;
      assert p in [p] + ps && forall q :: q in ps ==> q in [p] + ps;
      PackageWritten(s, strict);
      PackagesWritten(s1, strict);
      assert ([p] + ps)[1..] == ps;
    }
  }

  /** A text that reads as a canonical document is that document's canonical text. */
  lemma TextWritten(s: string, strict: bool)
    requires ReadText(s, strict).Some? && Canonical(ReadText(s, strict).value) == ReadText(s, strict).value
    ensures s == Text(ReadText(s, strict).value)
  {
    hide ReadField, FieldText, ReadPackages, PackagesText, Normals, SortedPackages, Expect;
    var d := ReadText(s, strict).value;
    ExpectWritten("lock-version = 1\n\n[metadata]\n", s);
    var s0 := Expect("lock-version = 1\n\n[metadata]\n", s).rest;
    FieldWritten("generated-by", s0, strict);
    var s1 := ReadField("generated-by", s0, strict).rest;
    FieldWritten("resolver", s1, strict);
    CanonicalPackages(d);
    PackagesWritten(ReadField("resolver", s1, strict).rest, strict);
  }

  lemma CanonicalPackages(d: Document)
    requires Canonical(d) == d
    ensures PackagesText(SortedPackages(d.packages)) == PackagesText(d.packages)
    ensures forall p :: p in d.packages ==> Normal(p) == p
  {
    hide Normal, PackageText, SortedPackages;
    var sorted := SortedPackages(d.packages);
    NormalsText(sorted);
    SortedNormals(d.packages);
    SortedPackagesSame(d.packages);
    forall p | p in d.packages ensures Normal(p) == p {
      var i :| 0 <= i < |d.packages| && d.packages[i] == p;
      assert Normals(sorted)[i] == Normal(sorted[i]);
      NormalTwice(sorted[i]);
    }
  }

  lemma NormalTwice(p: Package)
    ensures Normal(Normal(p)) == Normal(p)
  {
    SortedSame(p.dependencies);
    SameNormal(Normal(p), p);
  }

  /** Comparing a stored text with a canonical one is comparing what it says. */
  lemma RawTextIsExact(s: string, d: Document)
    requires SourcesMatch(d) && Canonical(d) == d
    ensures s == Text(d) <==> ReadText(s, false) == Some(d)
  {
    hide ReadText, Text, Canonical, SourcesMatch;
    AnyAcceptable(d);
    TextReads(d, false);
    if ReadText(s, false) == Some(d) {
      TextWritten(s, false);
    }
  }
}
