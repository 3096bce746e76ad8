/** The canonical text of a lockfile, and a reader for it. */
module LockfileText {
  import opened Wrappers
  import opened Sorting

  datatype SourceFields = SourceFields(git: Option<string>, rev: Option<string>, registry: Option<string>, sha256: Option<string>)

  datatype Package = Package(
    id: string,
    name: string,
    version: string,
    sourceKind: string,
    source: SourceFields,
    dependencies: seq<string>)

  datatype Document = Document(generatedBy: string, resolver: string, packages: seq<Package>)

  const NO_SOURCE := SourceFields(None, None, None, None)

  // Writing.

  /** `std::quoted`: double quotes around the value, and a backslash before a quote or a backslash. */
  function Escaped(value: string): string
  {
    if value == "" then "" else EscapedChar(value[0]) + Escaped(value[1..])
  }

  function EscapedChar(ch: char): string
  {
    if ch == '"' || ch == '\\' then ['\\', ch] else [ch]
  }

  function Quoted(value: string): string
  {
    ['"'] + Escaped(value) + ['"']
  }

  function FieldText(key: string, value: string): string
  {
    key + " = " + Quoted(value) + "\n"
  }

  function ValueOr(o: Option<string>, default: string): string
  {
    if o.Some? then o.value else default
  }

  function SourceText(kind: string, source: SourceFields): string
  {
    if kind == "git" then FieldText("git", ValueOr(source.git, "")) + FieldText("rev", ValueOr(source.rev, ""))
    else if kind == "registry" then
      FieldText("registry", ValueOr(source.registry, "")) + FieldText("sha256", ValueOr(source.sha256, ""))
    else ""
  }

  /** Quoted values with commas between them. */
  function ItemsText(items: seq<string>): string
  {
    if items == [] then ""
    else if |items| == 1 then Quoted(items[0])
    else Quoted(items[0]) + ", " + ItemsText(items[1..])
  }

  function SortedStrings(xs: seq<string>): seq<string>
  {
    Sort(xs, StringKey(), StringLe())
  }

  function IdKey(): Package -> string { (p: Package) => p.id }

  function SortedPackages(ps: seq<Package>): seq<Package>
  {
    Sort(ps, IdKey(), StringLe())
  }

  function DependenciesText(items: seq<string>): string
  {
    "dependencies = [" + ItemsText(items) + "]\n"
  }

  function PackageText(p: Package): string
  {
    "\n[[package]]\n" + FieldText("id", p.id) + FieldText("name", p.name) + FieldText("version", p.version)
    + FieldText("source-kind", p.sourceKind) + SourceText(p.sourceKind, p.source) + DependenciesText(SortedStrings(p.dependencies))
  }

  function PackagesText(ps: seq<Package>): string
  {
    if ps == [] then "" else PackageText(ps[0]) + PackagesText(ps[1..])
  }

  function HeadText(d: Document): string
  {
    "lock-version = 1\n\n[metadata]\n" + FieldText("generated-by", d.generatedBy) + FieldText("resolver", d.resolver)
  }

  function Text(d: Document): string
  {
    HeadText(d) + PackagesText(SortedPackages(d.packages))
  }

  // Reading.

  datatype Parse<+T> = Fail | Done(value: T, rest: string) {
    predicate IsFailure() { Fail? }

    function PropagateFailure<U>(): Parse<U>
      requires IsFailure()
    {
      Fail
    }

    function Extract(): (T, string)
      requires !IsFailure()
    {
      (value, rest)
    }
  }

  /** Characters that TOML refuses in a basic string. */
  predicate Control(ch: char)
  {
    (ch < ' ' && ch != '\t') || ch == 127 as char
  }

  /** TOML allows the tab, the space, what ASCII prints, and everything beyond ASCII. */
  lemma ControlRange(ch: char)
    ensures !Control(ch) <==> ch == '\t' || ' ' <= ch <= '~' || ch as int >= 128
  {
  }

  predicate Acceptable(s: string, strict: bool)
  {
    strict ==> forall i :: 0 <= i < |s| ==> !Control(s[i])
  }

  function Expect(token: string, s: string): (r: Parse<string>)
    ensures r.Done? ==> s == token + r.rest
  {
    if token <= s then Done(token, s[|token|..]) else Fail
  }

  /** The rest of a basic string behind its opening quote. A strict reader refuses control characters. */
  function ReadChars(s: string, strict: bool): (r: Parse<string>)
    ensures r.Done? ==> |r.rest| < |s| && Acceptable(r.value, strict)
  {
    if s == "" then Fail
    else if s[0] == '"' then Done("", s[1..])
    else if s[0] == '\\' then
      if |s| < 2 || !(s[1] == '"' || s[1] == '\\') then Fail
      else
        var (t, rest) :- ReadChars(s[2..], strict);
        Done([s[1]] + t, rest)
    else if strict && Control(s[0]) then Fail
    else
      var (t, rest) :- ReadChars(s[1..], strict);
      Done([s[0]] + t, rest)
  }

  function ReadQuoted(s: string, strict: bool): (r: Parse<string>)
    ensures r.Done? ==> |r.rest| < |s| && Acceptable(r.value, strict)
  {
    var (_, s1) :- Expect(['"'], s);
    ReadChars(s1, strict)
  }

  function ReadField(key: string, s: string, strict: bool): (r: Parse<string>)
    ensures r.Done? ==> |r.rest| < |s| && Acceptable(r.value, strict)
  {
    var (_, s1) :- Expect(key + " = ", s);
    var (value, s2) :- ReadQuoted(s1, strict);
    var (_, s3) :- Expect("\n", s2);
    Done(value, s3)
  }

  function ReadSource(kind: string, s: string, strict: bool): (r: Parse<SourceFields>)
    ensures r.Done? ==> |r.rest| <= |s| && SourceAcceptable(r.value, strict)
  {
    if kind == "git" then
      var (git, s1) :- ReadField("git", s, strict);
      var (rev, s2) :- ReadField("rev", s1, strict);
      Done(SourceFields(Some(git), Some(rev), None, None), s2)
    else if kind == "registry" then
      var (registry, s1) :- ReadField("registry", s, strict);
      var (sha256, s2) :- ReadField("sha256", s1, strict);
      Done(SourceFields(None, None, Some(registry), Some(sha256)), s2)
    else Done(NO_SOURCE, s)
  }

  predicate OptionAcceptable(o: Option<string>, strict: bool)
  {
    o.Some? ==> Acceptable(o.value, strict)
  }

  predicate SourceAcceptable(f: SourceFields, strict: bool)
  {
    OptionAcceptable(f.git, strict) && OptionAcceptable(f.rev, strict)
    && OptionAcceptable(f.registry, strict) && OptionAcceptable(f.sha256, strict)
  }

  /** At least one item, up to the closing bracket. */
  function ReadItems(s: string, strict: bool): (r: Parse<seq<string>>)
    ensures r.Done? ==> |r.rest| < |s| && forall i :: 0 <= i < |r.value| ==> Acceptable(r.value[i], strict)
    decreases |s|
  {
    var (item, s1) :- ReadQuoted(s, strict);
    if Expect("]", s1).Done? then Done([item], Expect("]", s1).rest)
    else
      var (_, s2) :- Expect(", ", s1);
      var (items, s3) :- ReadItems(s2, strict);
      Done([item] + items, s3)
  }

  function ReadDependencies(s: string, strict: bool): (r: Parse<seq<string>>)
    ensures r.Done? ==> |r.rest| < |s| && forall i :: 0 <= i < |r.value| ==> Acceptable(r.value[i], strict)
  {
    var (_, s1) :- Expect("dependencies = [", s);
    if Expect("]", s1).Done? then
      var (_, s2) :- Expect("]\n", s1);
      Done([], s2)
    else
      var (items, s2) :- ReadItems(s1, strict);
      var (_, s3) :- Expect("\n", s2);
      Done(items, s3)
  }

  predicate PackageAcceptable(p: Package, strict: bool)
  {
    && Acceptable(p.id, strict) && Acceptable(p.name, strict) && Acceptable(p.version, strict) && Acceptable(p.sourceKind, strict)
    && SourceAcceptable(p.source, strict)
    && forall i :: 0 <= i < |p.dependencies| ==> Acceptable(p.dependencies[i], strict)
  }

  function ReadPackage(s: string, strict: bool): (r: Parse<Package>)
    ensures r.Done? ==> |r.rest| < |s| && PackageAcceptable(r.value, strict)
  {
    var (_, s0) :- Expect("\n[[package]]\n", s);
    var (id, s1) :- ReadField("id", s0, strict);
    var (name, s2) :- ReadField("name", s1, strict);
    var (version, s3) :- ReadField("version", s2, strict);
    var (kind, s4) :- ReadField("source-kind", s3, strict);
    var (source, s5) :- ReadSource(kind, s4, strict);
    var (dependencies, s6) :- ReadDependencies(s5, strict);
    Done(Package(id, name, version, kind, source, dependencies), s6)
  }

  function ReadPackages(s: string, strict: bool): (r: Parse<seq<Package>>)
    ensures r.Done? ==> r.rest == "" && forall i :: 0 <= i < |r.value| ==> PackageAcceptable(r.value[i], strict)
    decreases |s|
  {
    if s == "" then Done([], "")
    else
      var (p, s1) :- ReadPackage(s, strict);
      var (ps, s2) :- ReadPackages(s1, strict);
      Done([p] + ps, s2)
  }

  function ReadText(s: string, strict: bool): Option<Document>
  {
    var head := Expect("lock-version = 1\n\n[metadata]\n", s);
    if head.Fail? then None else
    var generatedBy := ReadField("generated-by", head.rest, strict);
    if generatedBy.Fail? then None else
    var resolver := ReadField("resolver", generatedBy.rest, strict);
    if resolver.Fail? then None else
    var packages := ReadPackages(resolver.rest, strict);
    if packages.Fail? then None else Some(Document(generatedBy.value, resolver.value, packages.value))
  }
}
