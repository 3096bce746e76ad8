/** Loading and canonically serializing lockfiles: the loader's rules, the writer's loops, exactness of the text. */
module Lockfile {
  import opened Wrappers
  import opened Sorting
  import opened PackageNames
  import opened LockfileText
  import opened LockfileReading

  datatype LockError =
    | Malformed
    | NoGenerator
    | WrongResolver
    | NoId
    | BadName
    | BadVersion
    | BadSourceKind
    | BadGit
    | BadRev
    | RegistryFieldsOnGit
    | BadRegistry
    | NoSha256
    | BadSha256
    | GitFieldsOnRegistry
    | SourceFieldsOnLocal

  predicate Digits(s: string)
  {
    s != "" && forall i :: 0 <= i < |s| ==> '0' <= s[i] <= '9'
  }

  /** `^\d+\.\d+\.\d+$` */
  predicate Semver(v: string)
  {
    exists i, j :: 0 <= i < j < |v| && v[i] == '.' && v[j] == '.' && Digits(v[..i]) && Digits(v[i + 1..j]) && Digits(v[j + 1..])
  }

  /** `^[0-9a-f]{64}$` */
  predicate Sha256Hex(s: string)
  {
    |s| == 64 && forall i :: 0 <= i < 64 ==> '0' <= s[i] <= '9' || 'a' <= s[i] <= 'f'
  }

  predicate Given(o: Option<string>)
  {
    o.Some? && o.value != ""
  }

  /** What a lockfile may say about one package. */
  predicate ValidLocked(p: Package)
  {
    && p.id != "" && ValidPackageName(p.name) && Semver(p.version)
    && match p.sourceKind {
      case "git" => Given(p.source.git) && Given(p.source.rev) && p.source.registry.None? && p.source.sha256.None?
      case "registry" =>
        Given(p.source.registry) && p.source.sha256.Some? && Sha256Hex(p.source.sha256.value) && p.source.git.None? && p.source.rev.None?
      case "path" => p.source == NO_SOURCE
      case "workspace" => p.source == NO_SOURCE
      case _ => false
    }
  }

  predicate ValidDocument(d: Document)
  {
    d.generatedBy != "" && d.resolver == "single-version-v1" && forall p :: p in d.packages ==> ValidLocked(p)
  }

  datatype Check = Check(holds: bool, error: LockError)

  /** The checks on one package, in the order in which they are made. */
  function PackageChecks(p: Package): seq<Check>
  {
    var f := p.source;
    [Check(p.id != "", NoId), Check(ValidPackageName(p.name), BadName), Check(Semver(p.version), BadVersion),
     Check(p.sourceKind in {"workspace", "path", "git", "registry"}, BadSourceKind)]
    + if p.sourceKind == "git" then
        [Check(Given(f.git), BadGit), Check(Given(f.rev), BadRev), Check(f.registry.None? && f.sha256.None?, RegistryFieldsOnGit)]
      else if p.sourceKind == "registry" then
        [Check(Given(f.registry), BadRegistry), Check(f.sha256.Some?, NoSha256),
         Check(f.sha256.Some? && Sha256Hex(f.sha256.value), BadSha256), Check(f.git.None? && f.rev.None?, GitFieldsOnRegistry)]
      else [Check(f == NO_SOURCE, SourceFieldsOnLocal)]
  }

  function FirstFailing(checks: seq<Check>): Option<LockError>
  {
    if checks == [] then None else if !checks[0].holds then Some(checks[0].error) else FirstFailing(checks[1..])
  }

  lemma {:induction false} FirstFailingAppend(a: seq<Check>, b: seq<Check>)
    ensures FirstFailing(a + b) == if FirstFailing(a).Some? then FirstFailing(a) else FirstFailing(b)
  {
    if a == [] {
      assert a + b == b;
    } else {
      assert (a + b)[1..] == a[1..] + b;
      FirstFailingAppend(a[1..], b);
    }
  }

  lemma FourChecks(a: Check, b: Check, c: Check, d: Check)
    ensures FirstFailing([a, b, c, d])
            == if !a.holds then Some(a.error) else if !b.holds then Some(b.error) else if !c.holds then Some(c.error)
               else if !d.holds then Some(d.error) else None
    ensures FirstFailing([a, b, c])
            == if !a.holds then Some(a.error) else if !b.holds then Some(b.error) else if !c.holds then Some(c.error) else None
    ensures FirstFailing([a]) == if !a.holds then Some(a.error) else None
  {
    assert [a, b, c, d][1..] == [b, c, d] && [b, c, d][1..] == [c, d] && [c, d][1..] == [d] && [d][1..] == [];
    assert [a, b, c][1..] == [b, c] && [b, c][1..] == [c] && [c][1..] == [] && [a][1..] == [];
    assert FirstFailing([c]) == if !c.holds then Some(c.error) else None;
    assert FirstFailing([d]) == if !d.holds then Some(d.error) else None;
    assert FirstFailing([c, d]) == if !c.holds then Some(c.error) else FirstFailing([d]);
  }

  /** Accepts exactly the valid packages; otherwise the error of the first check that fails. */
  method CheckPackage(p: Package) returns (error: Option<LockError>)
    ensures error == FirstFailing(PackageChecks(p))
    ensures error.None? <==> ValidLocked(p)
  {
    hide ValidPackageName, Semver, Sha256Hex, FirstFailing;
    ChecksUnfold(p);
    if p.id == "" {
      return Some(NoId);
    }
    if !ValidPackageName(p.name) {
      return Some(BadName);
    }
    if !Semver(p.version) {
      return Some(BadVersion);
    }
    if p.sourceKind != "workspace" && p.sourceKind != "path" && p.sourceKind != "git" && p.sourceKind != "registry" {
      return Some(BadSourceKind);
    }
    if p.sourceKind == "git" {
      if !Given(p.source.git) {
        return Some(BadGit);
      }
      if !Given(p.source.rev) {
        return Some(BadRev);
      }
      if p.source.registry.Some? || p.source.sha256.Some? {
        return Some(RegistryFieldsOnGit);
      }
    } else if p.sourceKind == "registry" {
      if !Given(p.source.registry) {
        return Some(BadRegistry);
      }
      if p.source.sha256.None? {
        return Some(NoSha256);
      }
      if !Sha256Hex(p.source.sha256.value) {
        return Some(BadSha256);
      }
      if p.source.git.Some? || p.source.rev.Some? {
        return Some(GitFieldsOnRegistry);
      }
    } else if p.source.git.Some? || p.source.rev.Some? || p.source.registry.Some? || p.source.sha256.Some? {
      return Some(SourceFieldsOnLocal);
    }
    return None;
  }

  lemma ChecksUnfold(p: Package)
    ensures
      var cs := PackageChecks(p);
      FirstFailing(cs) == if FirstFailing(cs[..4]).Some? then FirstFailing(cs[..4]) else FirstFailing(cs[4..])
    ensures
      var cs := PackageChecks(p);
      FirstFailing(cs[..4])
      == if !cs[0].holds then Some(cs[0].error) else if !cs[1].holds then Some(cs[1].error)
         else if !cs[2].holds then Some(cs[2].error) else if !cs[3].holds then Some(cs[3].error) else None
    ensures
      var cs := PackageChecks(p)[4..];
      FirstFailing(cs)
      == if !cs[0].holds then Some(cs[0].error) else if |cs| == 1 then None
         else if !cs[1].holds then Some(cs[1].error) else if !cs[2].holds then Some(cs[2].error)
         else if |cs| == 3 then None else if !cs[3].holds then Some(cs[3].error) else None
  {
    hide ValidPackageName, Semver, Sha256Hex, Given, FirstFailing;
    var cs := PackageChecks(p);
    assert cs == cs[..4] + cs[4..];
    FirstFailingAppend(cs[..4], cs[4..]);
    assert cs[..4] == [cs[0], cs[1], cs[2], cs[3]];
    FourChecks(cs[0], cs[1], cs[2], cs[3]);
    var ds := cs[4..];
    if |ds| == 1 {
      assert ds == [ds[0]];
      FourChecks(ds[0], ds[0], ds[0], ds[0]);
    } else if |ds| == 3 {
      assert ds == [ds[0], ds[1], ds[2]];
      FourChecks(ds[0], ds[1], ds[2], ds[0]);
    } else {
      assert ds == [ds[0], ds[1], ds[2], ds[3]];
      FourChecks(ds[0], ds[1], ds[2], ds[3]);
    }
  }

  /** The error of the first package that is refused. */
  function PackagesError(ps: seq<Package>): Option<LockError>
  {
    if ps == [] then None else
    var front := PackagesError(ps[..|ps| - 1]);
    if front.Some? then front else FirstFailing(PackageChecks(ps[|ps| - 1]))
  }

  function DocumentError(d: Document): Option<LockError>
  {
    if d.generatedBy == "" then Some(NoGenerator)
    else if d.resolver != "single-version-v1" then Some(WrongResolver)
    else PackagesError(d.packages)
  }

  lemma {:induction false} PackagesErrorStops(ps: seq<Package>, n: nat)
    requires n <= |ps| && PackagesError(ps[..n]).Some?
    ensures PackagesError(ps) == PackagesError(ps[..n])
    decreases |ps|
  {
    hide FirstFailing, PackageChecks;
    if n == |ps| {
      assert ps[..n] == ps;
    } else {
      assert ps[..|ps| - 1][..n] == ps[..n];
      PackagesErrorStops(ps[..|ps| - 1], n);
    }
  }

  /** Loads exactly the well-formed texts of valid documents; otherwise the first error in the order of the checks. */
  method LoadLockfile(text: string) returns (r: Result<Document, LockError>)
    ensures r.Ok? <==> ReadText(text, true).Some? && ValidDocument(ReadText(text, true).value)
    ensures r.Ok? ==> ReadText(text, true) == Some(r.value)
    ensures r.Err? ==>
              Some(r.error) == if ReadText(text, true).None? then Some(Malformed) else DocumentError(ReadText(text, true).value)
  {
    hide ReadText, ValidLocked, FirstFailing, PackageChecks;
    var parsed := ReadText(text, true);
    if parsed.None? {
      return Err(Malformed);
    }
    var d := parsed.value;
    if d.generatedBy == "" {
      return Err(NoGenerator);
    }
    if d.resolver != "single-version-v1" {
      return Err(WrongResolver);
    }
    var packages := [];
    for i := 0 to |d.packages|
      invariant packages == d.packages[..i]
      invariant forall p :: p in packages ==> ValidLocked(p)
      invariant PackagesError(d.packages[..i]).None?
    {
      assert d.packages[i] in d.packages;
      assert d.packages[..i + 1][..i] == d.packages[..i];
      var error := CheckPackage(d.packages[i]);
      if error.Some? {
        PackagesErrorStops(d.packages, i + 1);
        return Err(error.value);
      }
      packages := packages + [d.packages[i]];
    }
    assert packages == d.packages;
    return Ok(Document(d.generatedBy, d.resolver, packages));
  }

  // Writing.

  lemma {:induction false} ItemsSnoc(items: seq<string>, item: string)
    ensures ItemsText(items + [item]) == if items == [] then Quoted(item) else ItemsText(items) + ", " + Quoted(item)
  {
    hide Quoted;
    var all := items + [item];
    if |items| == 1 {
      assert all[1..] == [item];
    } else if items != [] {
      assert all[1..] == items[1..] + [item];
      ItemsSnoc(items[1..], item);
    }
  }

  lemma {:induction false} PackagesSnoc(ps: seq<Package>, p: Package)
    ensures PackagesText(ps + [p]) == PackagesText(ps) + PackageText(p)
  {
    hide PackageText;
    var all := ps + [p];
    if ps == [] {
      assert all[1..] == [] && all[0] == p;
    } else {
      assert all[1..] == ps[1..] + [p];
      PackagesSnoc(ps[1..], p);
    }
  }

  method SerializeDependencies(dependencies: seq<string>) returns (out: string)
    ensures out == DependenciesText(SortedStrings(dependencies))
  {
    hide Quoted, SortedStrings, ItemsText;
    var sorted := SortedStrings(dependencies);
    out := "dependencies = [";
    NoItems();
    assert sorted[..0] == [];
    for index := 0 to |sorted|
      invariant out == "dependencies = [" + ItemsText(sorted[..index])
    {
      ItemsSnoc(sorted[..index], sorted[index]);
      assert sorted[..index + 1] == sorted[..index] + [sorted[index]];
      if index > 0 {
        out := out + ", ";
      }
      out := out + Quoted(sorted[index]);
    }
    assert sorted[..|sorted|] == sorted;
    out := out + "]\n";
  }

  method SerializePackage(p: Package) returns (out: string)
    ensures out == PackageText(p)
  {
    hide Quoted, DependenciesText, SortedStrings;
    out := "\n[[package]]\n";
    out := out + "id" + " = " + Quoted(p.id) + "\n";
    assert out == "\n[[package]]\n" + FieldText("id", p.id);
    out := out + FieldText("name", p.name);
    out := out + FieldText("version", p.version);
    out := out + FieldText("source-kind", p.sourceKind);
    ghost var fields := out;
    if p.sourceKind == "git" {
      out := out + FieldText("git", ValueOr(p.source.git, ""));
      out := out + FieldText("rev", ValueOr(p.source.rev, ""));
    } else if p.sourceKind == "registry" {
      out := out + FieldText("registry", ValueOr(p.source.registry, ""));
      out := out + FieldText("sha256", ValueOr(p.source.sha256, ""));
    }
    assert out == fields + SourceText(p.sourceKind, p.source);
    var dependencies := SerializeDependencies(p.dependencies);
    out := out + dependencies;
  }

  /** The canonical text, which a strict reader gives back as the canonical document exactly if it is valid and free of control characters. */
  method SerializeLockfileCanonical(d: Document) returns (out: string)
    ensures out == Text(d)
    ensures (ReadText(out, true) == Some(Canonical(d)) && ValidDocument(Canonical(d))) <==> ValidDocument(d) && DocumentAcceptable(d, true)
  {
    hide FieldText, PackageText, PackagesText, SortedPackages, ReadText, Canonical, ValidDocument, DocumentAcceptable;
    out := HeadText(d);
    var packages := SortedPackages(d.packages);
    NoPackages();
    assert packages[..0] == [];
    for i := 0 to |packages|
      invariant out == HeadText(d) + PackagesText(packages[..i])
    {
      PackagesSnoc(packages[..i], packages[i]);
      assert packages[..i + 1] == packages[..i] + [packages[i]];
      var text := SerializePackage(packages[i]);
      out := out + text;
    }
    assert packages[..|packages|] == packages;
    RoundTrip(d);
  }

  lemma NoPackages()
    ensures PackagesText([]) == ""
  {
  }

  // The round trip.

  lemma ValidMatches(p: Package)
    requires ValidLocked(p)
    ensures MatchesKind(p)
  {
    hide ValidPackageName, Semver, Sha256Hex;
  }

  lemma NormalValid(p: Package)
    ensures ValidLocked(Normal(p)) <==> ValidLocked(p)
  {
    hide ValidPackageName, Semver, Sha256Hex, SortedStrings;
  }

  lemma CanonicalValid(d: Document)
    ensures ValidDocument(Canonical(d)) <==> ValidDocument(d)
  {
    hide ValidLocked, SortedPackages, Normal;
    SortedPackagesSame(d.packages);
    var sorted := SortedPackages(d.packages);
    if ValidDocument(d) {
      forall q | q in Normals(sorted) ensures ValidLocked(q) {
        var i :| 0 <= i < |sorted| && q == Normal(sorted[i]);
        assert sorted[i] in d.packages;
        NormalValid(sorted[i]);
      }
    }
    if ValidDocument(Canonical(d)) {
      forall p | p in d.packages ensures ValidLocked(p) {
        var i :| 0 <= i < |sorted| && sorted[i] == p;
        assert Normals(sorted)[i] == Normal(p);
        NormalValid(p);
      }
    }
  }

  /** Writing and loading gives the canonical document exactly for valid documents without control characters. */
  lemma RoundTrip(d: Document)
    ensures (ReadText(Text(d), true) == Some(Canonical(d)) && ValidDocument(Canonical(d))) <==> ValidDocument(d) && DocumentAcceptable(d, true)
  {
    hide ReadText, Text, Canonical, DocumentAcceptable, ValidLocked, MatchesKind;
    CanonicalValid(d);
    CanonicalAcceptable(d);
    if ValidDocument(d) && DocumentAcceptable(d, true) {
      forall p | p in d.packages ensures MatchesKind(p) {
        ValidMatches(p);
      }
      TextReads(d, true);
    }
    if ReadText(Text(d), true) == Some(Canonical(d)) {
      ReadIsAcceptable(Text(d));
    }
  }

  // A control character really does get in the way.

  const CONTROL_PACKAGE :=
    Package("git:a/b@1.0.0#r", "a/b", "1.0.0", "git", SourceFields(Some("x\ny"), Some("r"), None, None), [])

  const CONTROL_DOCUMENT := Document("pafio", "single-version-v1", [CONTROL_PACKAGE])

  lemma ControlPackageValid()
    ensures ValidLocked(CONTROL_PACKAGE)
  {
    var name, version := "a/b", "1.0.0";
    assert name[1] == '/' && NameSegment(name[..1]) && NameSegment(name[2..]);
    assert version[1] == '.' && version[3] == '.' && Digits(version[..1]) && Digits(version[2..3]) && Digits(version[4..]);
  }

  /** A valid document, with a line break in a git address, whose text a strict reader does not give back. */
  lemma ControlCharacterIsLost()
    ensures ValidDocument(CONTROL_DOCUMENT) && Canonical(CONTROL_DOCUMENT) == CONTROL_DOCUMENT
    ensures ReadText(Text(CONTROL_DOCUMENT), true) != Some(CONTROL_DOCUMENT)
  {
    hide ReadText, Text, ValidLocked, SortedStrings;
    ControlPackageValid();
    SortedOne(CONTROL_PACKAGE);
    NoDependenciesSorted();
    assert Normals([CONTROL_PACKAGE]) == [CONTROL_PACKAGE];
    assert CONTROL_PACKAGE in CONTROL_DOCUMENT.packages;
    var git := CONTROL_PACKAGE.source.git.value;
    assert Control(git[1]);
    assert !PackageAcceptable(CONTROL_PACKAGE, true);
    RoundTrip(CONTROL_DOCUMENT);
  }

  lemma NoDependenciesSorted()
    ensures SortedStrings([]) == []
  {
  }

  // The text does not depend on order, and fixes everything else.

  ghost predicate DistinctIds(d: Document)
  {
    forall i, j :: 0 <= i < j < |d.packages| ==> d.packages[i].id != d.packages[j].id
  }

  /** Equal up to the order of packages and of each package's dependencies. */
  ghost predicate SameContent(d: Document, e: Document)
  {
    d.generatedBy == e.generatedBy && d.resolver == e.resolver
    && multiset(Normals(d.packages)) == multiset(Normals(e.packages))
  }

  /** Two packages are the same up to the order of their dependencies. */
  lemma SameNormal(p: Package, q: Package)
    ensures Normal(p) == Normal(q) <==>
              p.(dependencies := []) == q.(dependencies := []) && multiset(p.dependencies) == multiset(q.dependencies)
  {
    SortedSame(p.dependencies);
    SortedSame(q.dependencies);
    if multiset(p.dependencies) == multiset(q.dependencies) {
      StringOrder();
      SortIgnoresOrder(p.dependencies, q.dependencies, StringKey(), StringLe());
    }
    assert p == p.(dependencies := []).(dependencies := p.dependencies);
    assert q == q.(dependencies := []).(dependencies := q.dependencies);
  }

  lemma NormalsCons(p: Package, ps: seq<Package>)
    ensures Normals([p] + ps) == [Normal(p)] + Normals(ps)
  {
    hide Normal;
  }

  lemma {:induction false} InsertedNormal(p: Package, ps: seq<Package>)
    ensures Normals(Inserted(p, ps, IdKey(), StringLe())) == Inserted(Normal(p), Normals(ps), IdKey(), StringLe())
  {
    hide Normal, Normals, LexLe;
    NormalId(p);
    if ps == [] {
      NormalsCons(p, []);
      assert [p] + [] == [p] && [Normal(p)] + Normals([]) == [Normal(p)];
    } else {
      NormalId(ps[0]);
      NormalsCons(ps[0], ps[1..]);
      assert [ps[0]] + ps[1..] == ps;
      assert Normals(ps)[0] == Normal(ps[0]) && Normals(ps)[1..] == Normals(ps[1..]);
      NormalsCons(p, ps);
      InsertedNormal(p, ps[1..]);
      NormalsCons(ps[0], Inserted(p, ps[1..], IdKey(), StringLe()));
    }
  }

  lemma NormalId(p: Package)
    ensures Normal(p).id == p.id
  {
  }

  /** Sorting by id and sorting dependencies do not disturb each other. */
  lemma {:induction false} SortedNormals(ps: seq<Package>)
    ensures Normals(SortedPackages(ps)) == SortedPackages(Normals(ps))
  {
    hide SortedStrings, Normal;
    if ps == [] {
      assert Normals(ps) == [];
    } else {
      SortedNormals(ps[1..]);
      assert Normals(ps)[1..] == Normals(ps[1..]);
      InsertedNormal(ps[0], SortedPackages(ps[1..]));
    }
  }

  lemma NormalText(p: Package)
    ensures PackageText(Normal(p)) == PackageText(p)
  {
    hide FieldText, SourceText, DependenciesText;
    StringOrder();
    SortedSame(p.dependencies);
    SortIgnoresOrder(SortedStrings(p.dependencies), p.dependencies, StringKey(), StringLe());
  }

  lemma {:induction false} NormalsText(ps: seq<Package>)
    ensures PackagesText(Normals(ps)) == PackagesText(ps)
  {
    hide PackageText, Normal;
    if ps != [] {
      assert Normals(ps)[1..] == Normals(ps[1..]);
      NormalText(ps[0]);
      NormalsText(ps[1..]);
    } else {
      assert Normals(ps) == ps;
    }
  }

  lemma IdsIdentify(d: Document)
    requires DistinctIds(d)
    ensures KeyIdentifies(Normals(d.packages), IdKey())
  {
    hide SortedStrings;
    var ns := Normals(d.packages);
    forall x, y | x in ns && y in ns && x.id == y.id ensures x == y {
      var i :| 0 <= i < |ns| && ns[i] == x;
      var j :| 0 <= j < |ns| && ns[j] == y;
      assert d.packages[i].id == d.packages[j].id;
    }
  }

  /** The order of packages and dependencies does not show in the text. */
  lemma SameContentSameText(d: Document, e: Document)
    requires DistinctIds(d) && SameContent(d, e)
    ensures Canonical(d) == Canonical(e) && Text(d) == Text(e)
  {
    hide FieldText, PackagesText, TotalOrder, Normal;
    StringOrder();
    IdsIdentify(d);
    SortIgnoresOrder(Normals(d.packages), Normals(e.packages), IdKey(), StringLe());
    SortedNormals(d.packages);
    SortedNormals(e.packages);
    NormalsText(SortedPackages(d.packages));
    NormalsText(SortedPackages(e.packages));
  }

  /**
   Comparing texts compares content: for documents with distinct ids whose source fields match their
   kinds, the texts are equal exactly when the documents are, up to order.
   */
  lemma TextIsExact(d: Document, e: Document)
    requires DistinctIds(d) && SourcesMatch(d) && SourcesMatch(e)
    ensures Text(d) == Text(e) <==> SameContent(d, e)
  {
    hide Text, ReadText, Canonical, DistinctIds, SourcesMatch;
    if SameContent(d, e) {
      SameContentSameText(d, e);
    }
    if Text(d) == Text(e) {
      AnyAcceptable(d);
      AnyAcceptable(e);
      TextReads(d, false);
      TextReads(e, false);
      CanonicalContent(d);
      CanonicalContent(e);
    }
  }

  lemma AnyAcceptable(d: Document)
    ensures DocumentAcceptable(d, false)
  {
  }

  lemma CanonicalContent(d: Document)
    ensures Canonical(d).generatedBy == d.generatedBy && Canonical(d).resolver == d.resolver
    ensures multiset(Canonical(d).packages) == multiset(Normals(d.packages))
  {
    hide SortedPackages, Normal;
    SortedNormals(d.packages);
    SortedPackagesSame(Normals(d.packages));
  }

  lemma SortedOne(p: Package)
    ensures SortedPackages([p]) == [p]
  {
    assert [p][1..] == [] && Sort([], IdKey(), StringLe()) == [];
  }

  /**
   Where the fields do not match the kind, the comparison is blind: a local package with a stray git
   address is written like one without.
   */
  lemma StrayFieldIsLost()
    ensures
      var p := Package("i", "a/b", "1.0.0", "path", NO_SOURCE, []);
      var q := p.(source := SourceFields(Some("x"), None, None, None));
      var d, e := Document("g", "r", [p]), Document("g", "r", [q]);
      Text(d) == Text(e) && !SameContent(d, e)
  {
    hide FieldText, DependenciesText, SortedStrings;
    var p := Package("i", "a/b", "1.0.0", "path", NO_SOURCE, []);
    var q := p.(source := SourceFields(Some("x"), None, None, None));
    SortedOne(p);
    SortedOne(q);
    assert PackageText(p) == PackageText(q);
    assert [p][1..] == [q][1..];
    assert Normals([p]) == [Normal(p)] && Normals([q]) == [Normal(q)];
    assert Normal(p) in multiset([Normal(p)]) && Normal(p) !in multiset([Normal(q)]);
  }
}
