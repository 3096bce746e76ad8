/** The reader inverts the writer, and the text fixes the document up to order. */
module LockfileReading {
  import opened Wrappers
  import opened Sorting
  import opened LockfileText

  // One piece at a time.

  lemma AcceptableTail(v: string, strict: bool)
    requires v != "" && Acceptable(v, strict)
    ensures Acceptable(v[1..], strict) && (strict ==> !Control(v[0]))
  {
  }

  lemma {:induction false} CharsRead(v: string, rest: string, strict: bool)
    requires Acceptable(v, strict)
    ensures ReadChars(Escaped(v) + (['"'] + rest), strict) == Done(v, rest)
  {
    hide Acceptable, Control, ReadChars, EscapedChar;
    if v == "" {
      assert Escaped(v) + (['"'] + rest) == ['"'] + rest;
      EndReads(rest, strict);
    } else {
      var tail := Escaped(v[1..]) + (['"'] + rest);
      AcceptableTail(v, strict);
      CharsRead(v[1..], rest, strict);
      CharReads(v[0], tail, strict);
      assert Escaped(v) + (['"'] + rest) == EscapedChar(v[0]) + tail;
      assert v == [v[0]] + v[1..];
    }
  }

  lemma EndReads(rest: string, strict: bool)
    ensures ReadChars(['"'] + rest, strict) == Done("", rest)
  {
  }

  /** One escaped character in front is read as that character. */
  lemma CharReads(ch: char, tail: string, strict: bool)
    requires strict ==> !Control(ch)
    ensures ReadChars(EscapedChar(ch) + tail, strict)
            == match ReadChars(tail, strict) { case Fail => Fail case Done(t, rest) => Done([ch] + t, rest) }
  {
    hide Control;
    var s := EscapedChar(ch) + tail;
    if ch == '"' || ch == '\\' {
      assert s[2..] == tail;
    } else {
      assert s[1..] == tail;
    }
  }

  lemma QuotedReads(v: string, rest: string, strict: bool)
    requires Acceptable(v, strict)
    ensures ReadQuoted(Quoted(v) + rest, strict) == Done(v, rest)
  {
    hide ReadChars, Escaped, Acceptable;
    CharsRead(v, rest, strict);
    var s := Quoted(v) + rest;
    assert s == ['"'] + (Escaped(v) + (['"'] + rest));
    assert s[1..] == Escaped(v) + (['"'] + rest);
  }

  lemma TokenRead(token: string, rest: string)
    ensures Expect(token, token + rest) == Done(token, rest)
  {
  }

  lemma FieldReads(key: string, v: string, rest: string, strict: bool)
    requires Acceptable(v, strict)
    ensures ReadField(key, FieldText(key, v) + rest, strict) == Done(v, rest)
  {
    hide ReadQuoted, Quoted, Expect, Acceptable;
    assert FieldText(key, v) + rest == (key + " = ") + (Quoted(v) + ("\n" + rest));
    TokenRead(key + " = ", Quoted(v) + ("\n" + rest));
    QuotedReads(v, "\n" + rest, strict);
    TokenRead("\n", rest);
  }

  /** Source fields as their kind wants them. */
  predicate MatchesKind(p: Package)
  {
    if p.sourceKind == "git" then p.source.git.Some? && p.source.rev.Some? && p.source.registry.None? && p.source.sha256.None?
    else if p.sourceKind == "registry" then p.source.git.None? && p.source.rev.None? && p.source.registry.Some? && p.source.sha256.Some?
    else p.source == NO_SOURCE
  }

  lemma SourceReads(p: Package, rest: string, strict: bool)
    requires MatchesKind(p) && SourceAcceptable(p.source, strict)
    ensures ReadSource(p.sourceKind, SourceText(p.sourceKind, p.source) + rest, strict) == Done(p.source, rest)
  {
    hide ReadField, FieldText, Acceptable;
    var f := p.source;
    if p.sourceKind == "git" {
      var second := FieldText("rev", f.rev.value) + rest;
      assert SourceText("git", f) + rest == FieldText("git", f.git.value) + second;
      FieldReads("git", f.git.value, second, strict);
      FieldReads("rev", f.rev.value, rest, strict);
    } else if p.sourceKind == "registry" {
      var second := FieldText("sha256", f.sha256.value) + rest;
      assert SourceText("registry", f) + rest == FieldText("registry", f.registry.value) + second;
      FieldReads("registry", f.registry.value, second, strict);
      FieldReads("sha256", f.sha256.value, rest, strict);
    } else {
      assert SourceText(p.sourceKind, f) + rest == rest;
    }
  }

  ghost predicate AllAcceptable(items: seq<string>, strict: bool)
  {
    forall i :: 0 <= i < |items| ==> Acceptable(items[i], strict)
  }

  lemma {:induction false} ItemsRead(items: seq<string>, rest: string, strict: bool)
    requires items != [] && AllAcceptable(items, strict)
    ensures ReadItems(ItemsText(items) + ("]" + rest), strict) == Done(items, rest)
  {
    hide ReadQuoted, Quoted, Acceptable;
    var s := ItemsText(items) + ("]" + rest);
    if |items| == 1 {
      assert s == Quoted(items[0]) + ("]" + rest);
      QuotedReads(items[0], "]" + rest, strict);
      TokenRead("]", rest);
      assert items == [items[0]];
    } else {
      var tail := ItemsText(items[1..]) + ("]" + rest);
      assert s == Quoted(items[0]) + (", " + tail);
      QuotedReads(items[0], ", " + tail, strict);
      assert (", " + tail)[0] == ',';
      TokenRead(", ", tail);
      ItemsRead(items[1..], rest, strict);
      assert items == [items[0]] + items[1..];
    }
  }

  lemma DependenciesRead(items: seq<string>, rest: string, strict: bool)
    requires AllAcceptable(items, strict)
    ensures ReadDependencies(DependenciesText(items) + rest, strict) == Done(items, rest)
  {
    hide ReadItems, ItemsText, AllAcceptable, Expect, Acceptable;
    var body := ItemsText(items) + ("]" + ("\n" + rest));
    assert DependenciesText(items) + rest == "dependencies = [" + body;
    TokenRead("dependencies = [", body);
    if items == [] {
      NoItems();
      assert body == "]" + ("\n" + rest) && body == "]\n" + rest;
      TokenRead("]", "\n" + rest);
      TokenRead("]\n", rest);
    } else {
      ItemsStartQuoted(items);
      assert body[0] == '"';
      NoBracket(body);
      ItemsRead(items, "\n" + rest, strict);
      TokenRead("\n", rest);
    }
  }

  lemma NoItems()
    ensures ItemsText([]) == ""
  {
  }

  lemma ItemsStartQuoted(items: seq<string>)
    requires items != []
    ensures ItemsText(items) != "" && ItemsText(items)[0] == '"'
  {
    assert Quoted(items[0])[0] == '"';
  }

  lemma NoBracket(s: string)
    requires s != "" && s[0] == '"'
    ensures Expect("]", s).Fail?
  {
  }

  /** The package with its dependencies in order, as it is written. */
  function Normal(p: Package): Package
  {
    p.(dependencies := SortedStrings(p.dependencies))
  }

  lemma PackageTextParts(p: Package, rest: string)
    ensures PackageText(p) + rest
            == "\n[[package]]\n" + (FieldText("id", p.id) + (FieldText("name", p.name) + (FieldText("version", p.version)
               + (FieldText("source-kind", p.sourceKind) + (SourceText(p.sourceKind, p.source)
               + (DependenciesText(SortedStrings(p.dependencies)) + rest))))))
  {
    hide FieldText, SourceText, DependenciesText, SortedStrings;
    var a, b, c, d, e, f, g := "\n[[package]]\n", FieldText("id", p.id), FieldText("name", p.name), FieldText("version", p.version),
      FieldText("source-kind", p.sourceKind), SourceText(p.sourceKind, p.source), DependenciesText(SortedStrings(p.dependencies));
    SevenJoined(a, b, c, d, e, f, g, rest);
  }

  lemma SevenJoined(a: string, b: string, c: string, d: string, e: string, f: string, g: string, rest: string)
    ensures a + b + c + d + e + f + g + rest == a + (b + (c + (d + (e + (f + (g + rest))))))
  {
    assert a + b + c + d + e + f + g + rest == a + b + c + d + (e + (f + (g + rest)));
    assert a + b + c + d + (e + (f + (g + rest))) == a + (b + (c + (d + (e + (f + (g + rest))))));
  }

  lemma PackageReads(p: Package, rest: string, strict: bool)
    requires MatchesKind(p) && PackageAcceptable(p, strict)
    ensures ReadPackage(PackageText(p) + rest, strict) == Done(Normal(p), rest)
  {
    hide ReadField, FieldText, ReadSource, SourceText, ReadDependencies, DependenciesText, SortedStrings, MatchesKind, Acceptable,
      SourceAcceptable, Expect;
    var dependencies := SortedStrings(p.dependencies);
    var s6 := rest;
    var s5 := DependenciesText(dependencies) + s6;
    var s4 := SourceText(p.sourceKind, p.source) + s5;
    var s3 := FieldText("source-kind", p.sourceKind) + s4;
    var s2 := FieldText("version", p.version) + s3;
    var s1 := FieldText("name", p.name) + s2;
    var s0 := FieldText("id", p.id) + s1;
    PackageTextParts(p, rest);
    TokenRead("\n[[package]]\n", s0);
    FieldReads("id", p.id, s1, strict);
    FieldReads("name", p.name, s2, strict);
    FieldReads("version", p.version, s3, strict);
    FieldReads("source-kind", p.sourceKind, s4, strict);
    SourceReads(p, s5, strict);
    SortedAcceptable(p.dependencies, strict);
    DependenciesRead(dependencies, s6, strict);
  }

  lemma SortedAcceptable(xs: seq<string>, strict: bool)
    ensures AllAcceptable(SortedStrings(xs), strict) <==> AllAcceptable(xs, strict)
  {
    hide Acceptable;
    SortedSame(xs);
    var s := SortedStrings(xs);
    if AllAcceptable(xs, strict) {
      forall i | 0 <= i < |s| ensures Acceptable(s[i], strict) {
        assert s[i] in xs;
      }
    }
    if AllAcceptable(s, strict) {
      forall i | 0 <= i < |xs| ensures Acceptable(xs[i], strict) {
        assert xs[i] in s;
      }
    }
  }

  lemma SortedSame(xs: seq<string>)
    ensures forall x :: x in SortedStrings(xs) <==> x in xs
    ensures multiset(SortedStrings(xs)) == multiset(xs)
  {
    StringOrder();
    SortSorts(xs, StringKey(), StringLe());
    forall x ensures x in SortedStrings(xs) <==> x in xs {
      assert x in SortedStrings(xs) <==> x in multiset(SortedStrings(xs));
      assert x in xs <==> x in multiset(xs);
    }
  }

  function Normals(ps: seq<Package>): (r: seq<Package>)
    ensures |r| == |ps| && forall i :: 0 <= i < |ps| ==> r[i] == Normal(ps[i])
  {
    seq(|ps|, i requires 0 <= i < |ps| => Normal(ps[i]))
  }

  lemma {:induction false} PackagesRead(ps: seq<Package>, strict: bool)
    requires forall p :: p in ps ==> MatchesKind(p) && PackageAcceptable(p, strict)
    ensures ReadPackages(PackagesText(ps), strict) == Done(Normals(ps), "")
  {
    hide ReadPackage, PackageText, MatchesKind, PackageAcceptable, Normal;
    if ps == [] {
      assert Normals(ps) == [];
    } else {
      PackagesRead(ps[1..], strict);
      PackageReads(ps[0], PackagesText(ps[1..]), strict);
      PackageTextStarts(ps[0]);
      assert Normals(ps) == [Normal(ps[0])] + Normals(ps[1..]);
    }
  }

  lemma PackageTextStarts(p: Package)
    ensures PackageText(p) != ""
  {
    hide FieldText, SourceText, DependenciesText, SortedStrings;
    PackageTextParts(p, "");
    assert PackageText(p) + "" == PackageText(p);
  }

  // Documents.

  /** The document in its canonical order. */
  function Canonical(d: Document): Document
  {
    d.(packages := Normals(SortedPackages(d.packages)))
  }

  /** Packages by id and each package's dependencies are in the order of strings. */
  lemma CanonicalInOrder(d: Document)
    ensures
      var ps := Canonical(d).packages;
      && |ps| == |d.packages|
      && (forall i, j :: 0 <= i < j < |ps| ==> LexLe(ps[i].id, ps[j].id))
      && (forall k, i, j :: 0 <= k < |ps| && 0 <= i < j < |ps[k].dependencies| ==> LexLe(ps[k].dependencies[i], ps[k].dependencies[j]))
  {
    hide LexLe, TotalOrder, Sort;
    StringOrder();
    SortSorts(d.packages, IdKey(), StringLe());
    var sorted, ps := SortedPackages(d.packages), Canonical(d).packages;
    assert |multiset(sorted)| == |sorted| && |multiset(d.packages)| == |d.packages|;
    forall i, j | 0 <= i < j < |ps| ensures LexLe(ps[i].id, ps[j].id) {
      assert StringLe()(IdKey()(sorted[i]), IdKey()(sorted[j]));
    }
    forall k, i, j | 0 <= k < |ps| && 0 <= i < j < |ps[k].dependencies|
      ensures LexLe(ps[k].dependencies[i], ps[k].dependencies[j])
    {
      SortSorts(sorted[k].dependencies, StringKey(), StringLe());
      assert StringLe()(StringKey()(ps[k].dependencies[i]), StringKey()(ps[k].dependencies[j]));
    }
  }

  predicate SourcesMatch(d: Document)
  {
    forall p :: p in d.packages ==> MatchesKind(p)
  }

  predicate DocumentAcceptable(d: Document, strict: bool)
  {
    && Acceptable(d.generatedBy, strict) && Acceptable(d.resolver, strict)
    && forall p :: p in d.packages ==> PackageAcceptable(p, strict)
  }

  lemma SortedPackagesSame(ps: seq<Package>)
    ensures forall p :: p in SortedPackages(ps) <==> p in ps
    ensures multiset(SortedPackages(ps)) == multiset(ps)
  {
    StringOrder();
    SortSorts(ps, IdKey(), StringLe());
    forall p ensures p in SortedPackages(ps) <==> p in ps {
      assert p in SortedPackages(ps) <==> p in multiset(SortedPackages(ps));
      assert p in ps <==> p in multiset(ps);
    }
  }

  /** What is written is read back in canonical order. */
  lemma TextReads(d: Document, strict: bool)
    requires SourcesMatch(d) && DocumentAcceptable(d, strict)
    ensures ReadText(Text(d), strict) == Some(Canonical(d))
  {
    hide ReadField, FieldText, ReadPackages, PackagesText, SortedPackages, Acceptable, MatchesKind, PackageAcceptable, Normals, Expect;
    var packages := PackagesText(SortedPackages(d.packages));
    var s2 := FieldText("resolver", d.resolver) + packages;
    var s1 := FieldText("generated-by", d.generatedBy) + s2;
    assert Text(d) == "lock-version = 1\n\n[metadata]\n" + s1;
    TokenRead("lock-version = 1\n\n[metadata]\n", s1);
    FieldReads("generated-by", d.generatedBy, s2, strict);
    FieldReads("resolver", d.resolver, packages, strict);
    SortedPackagesSame(d.packages);
    PackagesRead(SortedPackages(d.packages), strict);
  }

  /** A strict reader only returns documents without control characters. */
  lemma ReadIsAcceptable(s: string)
    requires ReadText(s, true).Some?
    ensures DocumentAcceptable(ReadText(s, true).value, true)
  {
    hide ReadField, ReadPackages, Expect, Acceptable, PackageAcceptable;
  }

  lemma CanonicalAcceptable(d: Document)
    ensures DocumentAcceptable(Canonical(d), true) <==> DocumentAcceptable(d, true)
  {
    hide Acceptable, SourceAcceptable, SortedPackages, SortedStrings, PackageAcceptable;
    SortedPackagesSame(d.packages);
    var sorted := SortedPackages(d.packages);
    forall p ensures PackageAcceptable(Normal(p), true) <==> PackageAcceptable(p, true) {
      NormalAcceptable(p);
    }
    if DocumentAcceptable(d, true) {
      forall q | q in Normals(sorted) ensures PackageAcceptable(q, true) {
        var i :| 0 <= i < |sorted| && q == Normal(sorted[i]);
        assert sorted[i] in d.packages;
      }
    }
    if DocumentAcceptable(Canonical(d), true) {
      forall p | p in d.packages ensures PackageAcceptable(p, true) {
        var i :| 0 <= i < |sorted| && sorted[i] == p;
        assert Normals(sorted)[i] == Normal(p);
      }
    }
  }

  lemma NormalAcceptable(p: Package)
    ensures PackageAcceptable(Normal(p), true) <==> PackageAcceptable(p, true)
  {
    hide Acceptable, SourceAcceptable, SortedStrings;
    SortedAcceptable(p.dependencies, true);
    assert AllAcceptable(p.dependencies, true) <==> forall i :: 0 <= i < |p.dependencies| ==> Acceptable(p.dependencies[i], true);
    var n := Normal(p).dependencies;
    assert AllAcceptable(n, true) <==> forall i :: 0 <= i < |n| ==> Acceptable(n[i], true);
  }
}
