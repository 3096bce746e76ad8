/** Workspaces: the seeds of a resolution, and the one package that a dependency on a workspace selects. */
module WorkspaceRoots {
  import opened Wrappers
  import opened Counting
  import opened Sorting
  import R = ResolverModel

  datatype Workspace = Workspace(members: seq<string>, exclude: seq<string>)

  /** A parsed manifest: its package, if it defines one, and its workspace, if it is one. */
  datatype Manifest = Manifest(package: Option<R.Package>, workspace: Option<Workspace>)

  /** Manifests by normalised path, and the path operations: `enter` follows a relative path from a directory. */
  datatype Files = Files(
    manifests: map<string, Manifest>,
    parentDir: string -> string,
    manifestIn: string -> string,
    enter: (string, string) -> string)

  datatype RootError =
    | RootMissing
    | MemberExcluded(member: string)
    | MemberMissing(member: string)
    | MemberWithoutPackage(member: string)
    | NeedsPackageName
    | NoSuchPackage
    | NoPackage
    | Ambiguous

  function MemberManifest(f: Files, root: string, member: string): string
  {
    f.manifestIn(f.enter(f.parentDir(root), member))
  }

  /** The member's manifest exists and defines a package. */
  predicate MemberOk(f: Files, root: string, member: string)
  {
    var p := MemberManifest(f, root, member);
    p in f.manifests && f.manifests[p].package.Some?
  }

  function MemberError(f: Files, root: string, member: string): Option<RootError>
  {
    var p := MemberManifest(f, root, member);
    if p !in f.manifests then Some(MemberMissing(member))
    else if f.manifests[p].package.None? then Some(MemberWithoutPackage(member))
    else None
  }

  function SortedMembers(members: seq<string>): seq<string>
  {
    Sort(members, StringKey(), StringLe())
  }

  lemma SortedMembersSame(members: seq<string>)
    ensures forall m :: m in SortedMembers(members) <==> m in members
    ensures multiset(SortedMembers(members)) == multiset(members)
    ensures forall i, j :: 0 <= i < j < |members| ==> LexLe(SortedMembers(members)[i], SortedMembers(members)[j])
  {
    hide LexLe, TotalOrder, Sort;
    StringOrder();
    SortSorts(members, StringKey(), StringLe());
    var ms := SortedMembers(members);
    assert |multiset(ms)| == |ms| && |multiset(members)| == |members|;
    forall i, j | 0 <= i < j < |members| ensures LexLe(ms[i], ms[j]) {
      assert StringLe()(StringKey()(ms[i]), StringKey()(ms[j]));
    }
    forall m ensures m in SortedMembers(members) <==> m in members {
      assert m in SortedMembers(members) <==> m in multiset(SortedMembers(members));
      assert m in members <==> m in multiset(members);
    }
  }

  // The seeds.

  predicate SeedMember(f: Files, root: string, w: Workspace, member: string)
  {
    member !in w.exclude && MemberOk(f, root, member)
  }

  function SeedError(f: Files, root: string, w: Workspace, member: string): Option<RootError>
  {
    if member in w.exclude then Some(MemberExcluded(member)) else MemberError(f, root, member)
  }

  predicate SeedsOk(f: Files, root: string, doc: Manifest)
  {
    doc.workspace.Some? ==> forall m :: m in doc.workspace.value.members ==> SeedMember(f, root, doc.workspace.value, m)
  }

  function MemberManifests(f: Files, root: string, members: seq<string>): (r: seq<string>)
    ensures |r| == |members| && forall i :: 0 <= i < |members| ==> r[i] == MemberManifest(f, root, members[i])
  {
    seq(|members|, i requires 0 <= i < |members| => MemberManifest(f, root, members[i]))
  }

  /** The root's own manifest, if it has a package, and those of its members, each once and in order. */
  function RootSeeds(f: Files, root: string, doc: Manifest): seq<string>
  {
    var own := if doc.package.Some? then [root] else [];
    if doc.workspace.None? then own
    else SortedSetBy(own + MemberManifests(f, root, doc.workspace.value.members), PathLe())
  }

  ghost predicate IsSeed(f: Files, root: string, doc: Manifest, path: string)
  {
    || (doc.package.Some? && path == root)
    || (doc.workspace.Some? && exists m :: m in doc.workspace.value.members && path == MemberManifest(f, root, m))
  }

  lemma RootSeedsExact(f: Files, root: string, doc: Manifest)
    ensures StrictlySortedBy(RootSeeds(f, root, doc), PathLe())
    ensures forall p :: p in RootSeeds(f, root, doc) <==> IsSeed(f, root, doc, p)
  {
    hide MemberManifest, SortedSetBy, TotalOrder;
    if doc.workspace.Some? {
      var own := if doc.package.Some? then [root] else [];
      var all := own + MemberManifests(f, root, doc.workspace.value.members);
      PathOrder();
      SortedSetByStrict(all, PathLe());
      forall p ensures p in all <==> IsSeed(f, root, doc, p) {
        InMemberManifests(f, root, doc.workspace.value.members, p);
      }
    }
  }

  lemma InMemberManifests(f: Files, root: string, members: seq<string>, p: string)
    ensures p in MemberManifests(f, root, members) <==> exists m :: m in members && p == MemberManifest(f, root, m)
  {
    hide MemberManifest;
    var ms := MemberManifests(f, root, members);
    if m :| m in members && p == MemberManifest(f, root, m) {
      var i :| 0 <= i < |members| && members[i] == m;
      assert ms[i] == p;
    }
  }

  /** The order in which a manifest lists its members does not matter. */
  lemma SeedsIgnoreMemberOrder(f: Files, root: string, a: Manifest, b: Manifest)
    requires a.package == b.package && a.workspace.Some? && b.workspace.Some?
    requires forall m :: m in a.workspace.value.members <==> m in b.workspace.value.members
    ensures RootSeeds(f, root, a) == RootSeeds(f, root, b)
  {
    hide MemberManifest, SortedSetBy, TotalOrder;
    var own := if a.package.Some? then [root] else [];
    var xs, ys := own + MemberManifests(f, root, a.workspace.value.members), own + MemberManifests(f, root, b.workspace.value.members);
    forall p ensures p in xs <==> p in ys {
      InMemberManifests(f, root, a.workspace.value.members, p);
      InMemberManifests(f, root, b.workspace.value.members, p);
    }
    PathOrder();
    SortedSetByOfSet(xs, ys, PathLe());
  }

  /** The error is that of the first member, in order, that cannot be a seed. */
  ghost predicate FirstSeedError(f: Files, root: string, w: Workspace, e: RootError)
  {
    FirstErrorAmong(f, root, w, SortedMembers(w.members), e)
  }

  ghost predicate FirstErrorAmong(f: Files, root: string, w: Workspace, ms: seq<string>, e: RootError)
  {
    exists i :: 0 <= i < |ms| && SeedError(f, root, w, ms[i]) == Some(e) && forall j :: 0 <= j < i ==> SeedMember(f, root, w, ms[j])
  }

  function Dirs(f: Files, manifests: seq<string>): set<string>
  {
    set p | p in manifests :: f.parentDir(p)
  }

  lemma OwnDirs(f: Files, root: string)
    ensures Dirs(f, []) == {} && Dirs(f, [root]) == {f.parentDir(root)}
  {
  }

  lemma DirsSnoc(f: Files, manifests: seq<string>, p: string)
    ensures Dirs(f, manifests + [p]) == Dirs(f, manifests) + {f.parentDir(p)}
  {
    assert p in manifests + [p];
    forall q | q in manifests ensures q in manifests + [p] {
    }
  }

  lemma DirsSorted(f: Files, manifests: seq<string>)
    ensures Dirs(f, SortedSetBy(manifests, PathLe())) == Dirs(f, manifests)
  {
    hide SortedSetBy, TotalOrder;
    PathOrder();
    SortedSetByStrict(manifests, PathLe());
  }

  lemma MemberManifestIs(f: Files, root: string, member: string)
    ensures MemberManifest(f, root, member) == f.manifestIn(f.enter(f.parentDir(root), member))
  {
  }

  /** The loop over the members in order: their manifests, or the error of the first that cannot be a seed. */
  method CollectMembers(f: Files, root: string, w: Workspace, members: seq<string>, own: seq<string>, ownDirs: set<string>)
    returns (r: Result<seq<string>, RootError>, dirs: set<string>)
    requires ownDirs == Dirs(f, own)
    ensures r.Ok? <==> forall j :: 0 <= j < |members| ==> SeedMember(f, root, w, members[j])
    ensures r.Ok? ==> r.value == own + MemberManifests(f, root, members) && dirs == Dirs(f, r.value)
    ensures r.Err? ==> FirstErrorAmong(f, root, w, members, r.error)
  {
    hide MemberOk, MemberError, MemberManifest, Dirs;
    var seeds := own;
    dirs := ownDirs;
    for i := 0 to |members|
      invariant forall j :: 0 <= j < i ==> SeedMember(f, root, w, members[j])
      invariant seeds == own + MemberManifests(f, root, members[..i])
      invariant dirs == Dirs(f, seeds)
    {
      var member := members[i];
      assert members[..i + 1] == members[..i] + [member];
      if member in w.exclude {
        assert SeedError(f, root, w, members[i]) == Some(MemberExcluded(member));
        return Err(MemberExcluded(member)), dirs;
      }
      var failed := CheckMember(f, root, member);
      if failed.Some? {
        assert SeedError(f, root, w, members[i]) == Some(failed.value);
        return Err(failed.value), dirs;
      }
      var manifest := f.manifestIn(f.enter(f.parentDir(root), member));
      MemberManifestIs(f, root, member);
      DirsSnoc(f, seeds, manifest);
      seeds := seeds + [manifest];
      dirs := dirs + {f.parentDir(manifest)};
    }
    assert members[..|members|] == members;
    return Ok(seeds), dirs;
  }

  /** The seeds and their directories; refused exactly when some member cannot be one. */
  method BuildRootSeeds(f: Files, root: string, doc: Manifest) returns (r: Result<seq<string>, RootError>, topLevel: set<string>)
    ensures r.Ok? <==> SeedsOk(f, root, doc)
    ensures r.Ok? ==> r.value == RootSeeds(f, root, doc) && topLevel == Dirs(f, RootSeeds(f, root, doc))
    ensures r.Err? ==> doc.workspace.Some? && FirstSeedError(f, root, doc.workspace.value, r.error)
  {
    hide MemberManifests, SeedMember, FirstErrorAmong, SortedMembers, SortedSetBy, Dirs;
    var own := if doc.package.Some? then [root] else [];
    topLevel := if doc.package.Some? then {f.parentDir(root)} else {};
    OwnDirs(f, root);
    if doc.workspace.None? {
      return Ok(own), topLevel;
    }
    var w := doc.workspace.value;
    var members := SortedMembers(w.members);
    SortedMembersSame(w.members);
    r, topLevel := CollectMembers(f, root, w, members, own, topLevel);
    if r.Ok? {
      SameMembersSameSeeds(f, root, own, members, w.members);
      DirsSorted(f, r.value);
      r := Ok(SortedSetBy(r.value, PathLe()));
    }
  }

  lemma SameMembersSameSeeds(f: Files, root: string, own: seq<string>, xs: seq<string>, ys: seq<string>)
    requires forall m :: m in xs <==> m in ys
    ensures SortedSetBy(own + MemberManifests(f, root, xs), PathLe()) == SortedSetBy(own + MemberManifests(f, root, ys), PathLe())
  {
    hide MemberManifest, SortedSetBy, TotalOrder;
    forall p ensures p in own + MemberManifests(f, root, xs) <==> p in own + MemberManifests(f, root, ys) {
      InMemberManifests(f, root, xs, p);
      InMemberManifests(f, root, ys, p);
    }
    PathOrder();
    SortedSetByOfSet(own + MemberManifests(f, root, xs), own + MemberManifests(f, root, ys), PathLe());
  }

  method CheckMember(f: Files, root: string, member: string) returns (error: Option<RootError>)
    ensures error == MemberError(f, root, member)
    ensures error.None? <==> MemberOk(f, root, member)
  {
    var p := f.manifestIn(f.enter(f.parentDir(root), member));
    if p !in f.manifests {
      return Some(MemberMissing(member));
    }
    if f.manifests[p].package.None? {
      return Some(MemberWithoutPackage(member));
    }
    return None;
  }

  // Selecting one package.

  predicate RootMatches(doc: Manifest, expected: Option<string>)
  {
    doc.package.Some? && (expected.None? || doc.package.value.name == expected.value)
  }

  predicate MemberMatches(f: Files, root: string, w: Workspace, expected: string, member: string)
  {
    && member !in w.exclude && MemberOk(f, root, member)
    && f.manifests[MemberManifest(f, root, member)].package.value.name == expected
  }

  function MatchesName(f: Files, root: string, w: Workspace, expected: string): string -> bool
  {
    (member: string) => MemberMatches(f, root, w, expected, member)
  }

  /** The manifests of the matching members, or the error of the first member that is not in order. */
  function Matching(f: Files, root: string, w: Workspace, expected: string, members: seq<string>): Result<seq<string>, RootError>
    decreases |members|
  {
    if members == [] then Ok([]) else
    var front, last := members[..|members| - 1], members[|members| - 1];
    var found := Matching(f, root, w, expected, front);
    if found.Err? || last in w.exclude then found
    else if MemberError(f, root, last).Some? then Err(MemberError(f, root, last).value)
    else if MemberMatches(f, root, w, expected, last) then Ok(found.value + [MemberManifest(f, root, last)])
    else found
  }

  /** What a dependency on the manifest at `root` selects. */
  function Selected(f: Files, root: string, expected: Option<string>): Result<string, RootError>
    requires root in f.manifests
  {
    var doc := f.manifests[root];
    var own := if RootMatches(doc, expected) then [root] else [];
    if doc.workspace.Some? && doc.package.None? && expected.None? then Err(NeedsPackageName) else
    var found :=
      if doc.workspace.Some? && expected.Some? then
        Matching(f, root, doc.workspace.value, expected.value, SortedMembers(doc.workspace.value.members))
      else Ok([]);
    if found.Err? then Err(found.error) else
    var matches := own + found.value;
    if matches == [] then Err(if expected.Some? then NoSuchPackage else NoPackage)
    else if |matches| > 1 then Err(Ambiguous)
    else Ok(matches[0])
  }

  /** How often the dependency's target is listed: as the root's own package and as a member. */
  function Listings(f: Files, root: string, doc: Manifest, expected: Option<string>): nat
  {
    (if RootMatches(doc, expected) then 1 else 0)
    + if doc.workspace.Some? && expected.Some? then
        CountIf(doc.workspace.value.members, MatchesName(f, root, doc.workspace.value, expected.value))
      else 0
  }

  /** Every member that is not excluded has to be in order, whether or not it is the one sought. */
  predicate MembersOk(f: Files, root: string, doc: Manifest, expected: Option<string>)
  {
    doc.workspace.Some? && expected.Some? ==> AllMembersOk(f, root, doc.workspace.value, doc.workspace.value.members)
  }

  predicate AllMembersOk(f: Files, root: string, w: Workspace, members: seq<string>)
  {
    forall m :: m in members && m !in w.exclude ==> MemberOk(f, root, m)
  }

  ghost predicate IsMemberTarget(f: Files, root: string, w: Workspace, expected: string, path: string)
  {
    exists m :: m in w.members && MemberMatches(f, root, w, expected, m) && path == MemberManifest(f, root, m)
  }

  ghost predicate IsTarget(f: Files, root: string, doc: Manifest, expected: Option<string>, path: string)
  {
    || (RootMatches(doc, expected) && path == root)
    || (doc.workspace.Some? && expected.Some? && IsMemberTarget(f, root, doc.workspace.value, expected.value, path))
  }

  /** The error of the first member that is neither excluded nor in order. */
  ghost predicate FirstBad(f: Files, root: string, w: Workspace, ms: seq<string>, e: RootError)
  {
    exists i :: 0 <= i < |ms| && ms[i] !in w.exclude && MemberError(f, root, ms[i]) == Some(e) && AllMembersOk(f, root, w, ms[..i])
  }

  lemma BadSnoc(f: Files, root: string, w: Workspace, ms: seq<string>, m: string)
    ensures forall e :: FirstBad(f, root, w, ms, e) ==> FirstBad(f, root, w, ms + [m], e)
    ensures AllMembersOk(f, root, w, ms) && m !in w.exclude && MemberError(f, root, m).Some? ==>
              FirstBad(f, root, w, ms + [m], MemberError(f, root, m).value)
  {
    hide AllMembersOk, MemberError;
    var all := ms + [m];
    forall e | FirstBad(f, root, w, ms, e) ensures FirstBad(f, root, w, all, e) {
      var i :| 0 <= i < |ms| && ms[i] !in w.exclude && MemberError(f, root, ms[i]) == Some(e) && AllMembersOk(f, root, w, ms[..i]);
      assert all[..i] == ms[..i] && all[i] == ms[i];
    }
    assert all[..|ms|] == ms && all[|ms|] == m;
  }

  lemma {:induction false} MatchingExact(f: Files, root: string, w: Workspace, expected: string, members: seq<string>)
    requires forall m :: m in members ==> m in w.members
    ensures Matching(f, root, w, expected, members).Ok? <==> AllMembersOk(f, root, w, members)
    ensures Matching(f, root, w, expected, members).Ok? ==>
              var found := Matching(f, root, w, expected, members).value;
              && |found| == CountIf(members, MatchesName(f, root, w, expected))
              && (forall i :: 0 <= i < |found| ==> IsMemberTarget(f, root, w, expected, found[i]))
              && (forall m :: m in members && MemberMatches(f, root, w, expected, m) ==> MemberManifest(f, root, m) in found)
    ensures Matching(f, root, w, expected, members).Err? ==> FirstBad(f, root, w, members, Matching(f, root, w, expected, members).error)
    decreases |members|
  {
    hide CountIf, MemberManifest;
    var p := MatchesName(f, root, w, expected);
    if members == [] {
      CountNone(p);
    } else {
      var front, last := members[..|members| - 1], members[|members| - 1];
      assert members == front + [last];
      MatchingExact(f, root, w, expected, front);
      CountSnoc(front, last, p);
      BadSnoc(f, root, w, front, last);
      assert AllMembersOk(f, root, w, members) <==> AllMembersOk(f, root, w, front) && (last !in w.exclude ==> MemberOk(f, root, last));
      if MemberMatches(f, root, w, expected, last) {
        assert IsMemberTarget(f, root, w, expected, MemberManifest(f, root, last));
      }
    }
  }

  /** A manifest is selected exactly when the members are in order and the target is listed exactly once. */
  lemma SelectedExact(f: Files, root: string, expected: Option<string>)
    requires root in f.manifests
    ensures
      var doc := f.manifests[root];
      && (Selected(f, root, expected).Ok? <==> MembersOk(f, root, doc, expected) && Listings(f, root, doc, expected) == 1)
      && (forall path :: Selected(f, root, expected) == Ok(path) <==>
            MembersOk(f, root, doc, expected) && Listings(f, root, doc, expected) == 1 && IsTarget(f, root, doc, expected, path))
  {
    hide CountIf, MemberManifest, MemberMatches, Matching, SortedMembers, AllMembersOk, IsMemberTarget, FirstBad;
    var doc := f.manifests[root];
    if doc.workspace.Some? && expected.Some? {
      var w := doc.workspace.value;
      var members := SortedMembers(w.members);
      SortedMembersSame(w.members);
      MatchingExact(f, root, w, expected.value, members);
      CountOfMultiset(members, w.members, MatchesName(f, root, w, expected.value));
      SameMembersOk(f, root, w, members, w.members);
      if Matching(f, root, w, expected.value, members).Ok? {
        TargetsFound(f, root, w, expected.value, members);
      }
    }
  }

  lemma TargetsFound(f: Files, root: string, w: Workspace, expected: string, members: seq<string>)
    requires forall m :: m in members <==> m in w.members
    requires Matching(f, root, w, expected, members).Ok?
    ensures
      var found := Matching(f, root, w, expected, members).value;
      forall path :: IsMemberTarget(f, root, w, expected, path) <==> path in found
  {
    hide CountIf, MemberManifest, MemberMatches, Matching, AllMembersOk;
    MatchingExact(f, root, w, expected, members);
  }

  /** Why nothing is selected. */
  lemma SelectedErrors(f: Files, root: string, expected: Option<string>)
    requires root in f.manifests && Selected(f, root, expected).Err?
    ensures
      var doc, e := f.manifests[root], Selected(f, root, expected).error;
      if doc.workspace.Some? && doc.package.None? && expected.None? then e == NeedsPackageName
      else if !MembersOk(f, root, doc, expected) then
        FirstBad(f, root, doc.workspace.value, SortedMembers(doc.workspace.value.members), e)
      else if Listings(f, root, doc, expected) == 0 then e == if expected.Some? then NoSuchPackage else NoPackage
      else Listings(f, root, doc, expected) >= 2 && e == Ambiguous
  {
    hide CountIf, MemberManifest, MemberMatches, Matching, SortedMembers, AllMembersOk, IsMemberTarget, FirstBad;
    var doc := f.manifests[root];
    if doc.workspace.Some? && expected.Some? {
      var w := doc.workspace.value;
      var members := SortedMembers(w.members);
      SortedMembersSame(w.members);
      MatchingExact(f, root, w, expected.value, members);
      CountOfMultiset(members, w.members, MatchesName(f, root, w, expected.value));
      SameMembersOk(f, root, w, members, w.members);
    }
  }

  lemma SameMembersOk(f: Files, root: string, w: Workspace, xs: seq<string>, ys: seq<string>)
    requires forall m :: m in xs <==> m in ys
    ensures AllMembersOk(f, root, w, xs) <==> AllMembersOk(f, root, w, ys)
  {
  }

  /** A local target is a workspace package exactly when its directory is one of the top level. */
  function SelectedKind(f: Files, kind: R.SourceKind, path: string, topLevel: set<string>): R.SourceKind
  {
    if kind.Workspace? || kind.Path? then (if f.parentDir(path) in topLevel then R.Workspace else R.Path) else kind
  }

  method SelectPackageManifestFromRoot(f: Files, root: string, kind: R.SourceKind, expected: Option<string>, topLevel: set<string>)
    returns (r: Result<(string, R.SourceKind), RootError>)
    requires root in f.manifests
    ensures r == match Selected(f, root, expected) {
                   case Err(e) => Err(e)
                   case Ok(path) => Ok((path, SelectedKind(f, kind, path, topLevel)))
                 }
    ensures
      var doc := f.manifests[root];
      && (r.Ok? <==> MembersOk(f, root, doc, expected) && Listings(f, root, doc, expected) == 1)
      && (r.Ok? ==> IsTarget(f, root, doc, expected, r.value.0))
  {
    hide MemberOk, MemberMatches, SortedMembers, CountIf, Matching, IsTarget, Listings, MembersOk;
    SelectedExact(f, root, expected);
    var doc := f.manifests[root];
    var matches := [];
    if doc.package.Some? {
      if expected.None? || doc.package.value.name == expected.value {
        matches := [root];
      }
    }
    if doc.workspace.Some? {
      if doc.package.None? && expected.None? {
        return Err(NeedsPackageName);
      }
      if expected.Some? {
        var found := MatchingMembers(f, root, doc.workspace.value, expected.value);
        if found.Err? {
          return Err(found.error);
        }
        matches := matches + found.value;
      }
    }
    if matches == [] {
      return Err(if expected.Some? then NoSuchPackage else NoPackage);
    }
    if |matches| > 1 {
      return Err(Ambiguous);
    }
    var selected := matches[0];
    if kind.Workspace? || kind.Path? {
      return Ok((selected, if f.parentDir(selected) in topLevel then R.Workspace else R.Path));
    }
    return Ok((selected, kind));
  }

  method MatchingMembers(f: Files, root: string, w: Workspace, expected: string) returns (r: Result<seq<string>, RootError>)
    ensures r == Matching(f, root, w, expected, SortedMembers(w.members))
  {
    hide SortedMembers, MemberManifest;
    var members := SortedMembers(w.members);
    var matches := [];
    assert members[..0] == [];
    for i := 0 to |members|
      invariant Matching(f, root, w, expected, members[..i]) == Ok(matches)
    {
      var member := members[i];
      assert members[..i + 1][..i] == members[..i];
      if member !in w.exclude {
        var failed := CheckMember(f, root, member);
        if failed.Some? {
          MatchingStops(f, root, w, expected, members, i + 1);
          return Err(failed.value);
        }
        var path := f.manifestIn(f.enter(f.parentDir(root), member));
        MemberManifestIs(f, root, member);
        if f.manifests[path].package.value.name == expected {
          matches := matches + [path];
        }
      }
    }
    assert members[..|members|] == members;
    return Ok(matches);
  }

  /** An error among the first members is the error of all. */
  lemma {:induction false} MatchingStops(f: Files, root: string, w: Workspace, expected: string, members: seq<string>, n: nat)
    requires n <= |members| && Matching(f, root, w, expected, members[..n]).Err?
    ensures Matching(f, root, w, expected, members) == Matching(f, root, w, expected, members[..n])
    decreases |members|
  {
    if n == |members| {
      assert members[..n] == members;
    } else {
      var front := members[..|members| - 1];
      assert front[..n] == members[..n];
      MatchingStops(f, root, w, expected, front, n);
    }
  }

  lemma CountNone<T>(p: T -> bool)
    ensures CountIf([], p) == 0
  {
  }
}
