/** The archive writer: a 512-byte header filled in place, members appended to a stream. */
module TarWriter {
  import opened Wrappers
  import opened Bytes
  import opened UstarModel
  import opened UstarReader

  method Fill(header: array<Byte>, offset: nat, n: nat, b: Byte)
    requires offset + n <= header.Length
    modifies header
    ensures header[..] == Splice(old(header[..]), offset, Repeat(b, n))
  {
    for i := 0 to n
      invariant forall k :: 0 <= k < header.Length ==>
                  header[k] == if offset <= k < offset + i then b else old(header[k])
    {
      header[offset + i] := b;
    }
  }

  method CopyInto(header: array<Byte>, offset: nat, bytes: seq<Byte>)
    requires offset + |bytes| <= header.Length
    modifies header
    ensures header[..] == Splice(old(header[..]), offset, bytes)
  {
    for i := 0 to |bytes|
      invariant forall k :: 0 <= k < header.Length ==>
                  header[k] == if offset <= k < offset + i then bytes[k - offset] else old(header[k])
    {
      header[offset + i] := bytes[i];
    }
  }

  /** Overwriting within what was just written is writing the overwritten piece. */
  lemma SpliceWithin(h: seq<Byte>, offset: nat, piece: seq<Byte>, at: nat, part: seq<Byte>)
    requires offset + |piece| <= |h| && at + |part| <= |piece|
    ensures Splice(Splice(h, offset, piece), offset + at, part) == Splice(h, offset, Splice(piece, at, part))
  {
  }

  /** Zeros, then the digits over their end, then a NUL, make one numeric field. */
  lemma OctalFieldSpliced(h: seq<Byte>, offset: nat, length: nat, v: nat)
    requires offset + length <= |h| && |Octal(v)| + 1 <= length
    ensures
      var digits := offset + (length - 1 - |Octal(v)|);
      Splice(Splice(Splice(h, offset, Repeat(ZERO, length)), digits, Octal(v)), offset + length - 1, [NUL])
      == Splice(h, offset, OctalField(length, v))
  {
    hide Octal, OctalField, Splice;
    var zeros, at := Repeat(ZERO, length), length - 1 - |Octal(v)|;
    SpliceWithin(h, offset, zeros, at, Octal(v));
    SpliceWithin(h, offset, Splice(zeros, at, Octal(v)), length - 1, [NUL]);
    OctalFieldPieces(length, v);
  }

  lemma OctalFieldPieces(length: nat, v: nat)
    requires |Octal(v)| + 1 <= length
    ensures Splice(Splice(Repeat(ZERO, length), length - 1 - |Octal(v)|, Octal(v)), length - 1, [NUL]) == OctalField(length, v)
  {
    hide Octal;
  }

  lemma ChecksumFieldSpliced(h: seq<Byte>, v: nat)
    requires |h| == BLOCK && |Octal(v)| <= 6
    ensures
      Splice(Splice(Splice(h, 148, Repeat(SPACE, 8)), 148 + (6 - |Octal(v)|), Octal(v)), 154, [NUL, SPACE])
      == Splice(h, 148, ChecksumField(v))
  {
    hide Octal, ChecksumField, Splice;
    var spaces, at := Repeat(SPACE, 8), 6 - |Octal(v)|;
    SpliceWithin(h, 148, spaces, at, Octal(v));
    SpliceWithin(h, 148, Splice(spaces, at, Octal(v)), 6, [NUL, SPACE]);
    ChecksumFieldPieces(v);
  }

  lemma ChecksumFieldPieces(v: nat)
    requires |Octal(v)| <= 6
    ensures Splice(Splice(Repeat(SPACE, 8), 6 - |Octal(v)|, Octal(v)), 6, [NUL, SPACE]) == ChecksumField(v)
  {
    hide Octal;
  }

  /** Fails exactly when the value does not fit, and then leaves the header alone. */
  method WriteOctalField(header: array<Byte>, offset: nat, length: nat, v: nat) returns (error: Option<PackError>)
    requires length >= 1 && offset + length <= header.Length
    modifies header
    ensures error == if length >= 2 && v < Pow8(length - 1) then None else Some(NumericLimit)
    ensures error.None? ==> |Octal(v)| + 1 <= length && header[..] == Splice(old(header[..]), offset, OctalField(length, v))
    ensures error.Some? ==> header[..] == old(header[..])
  {
    hide Octal, Pow8, OctalField, Splice;
    var octal := Octal(v);
    if length >= 2 { OctalLength(v, length - 1); }
    if |octal| + 1 > length {
      return Some(NumericLimit);
    }
    OctalFieldSpliced(header[..], offset, length, v);
    Fill(header, offset, length, ZERO);
    CopyInto(header, offset + (length - 1 - |octal|), octal);
    CopyInto(header, offset + length - 1, [NUL]);
    return None;
  }

  method WriteChecksumField(header: array<Byte>, v: nat) returns (error: Option<PackError>)
    requires header.Length == BLOCK
    modifies header
    ensures error == if v < Pow8(6) then None else Some(ChecksumLimit)
    ensures error.None? ==> |Octal(v)| <= 6 && header[..] == Splice(old(header[..]), 148, ChecksumField(v))
    ensures error.Some? ==> header[..] == old(header[..])
  {
    hide Octal, Pow8, ChecksumField, Splice;
    var octal := Octal(v);
    OctalLength(v, 6);
    if |octal| > 6 {
      return Some(ChecksumLimit);
    }
    ChecksumFieldSpliced(header[..], v);
    Fill(header, 148, 8, SPACE);
    CopyInto(header, 148 + (6 - |octal|), octal);
    CopyInto(header, 154, [NUL, SPACE]);
    return None;
  }

  /** The last slash before position `n`. */
  method RFind(path: seq<Byte>, n: nat) returns (k: Option<nat>)
    requires n <= |path|
    ensures k.None? ==> forall j :: 0 <= j < n ==> path[j] != SLASH
    ensures k.Some? ==> k.value < n && path[k.value] == SLASH && forall j :: k.value < j < n ==> path[j] != SLASH
  {
    var i := n;
    while i > 0
      invariant 0 <= i <= n && forall j :: i <= j < n ==> path[j] != SLASH
    {
      i := i - 1;
      if path[i] == SLASH {
        return Some(i);
      }
    }
    return None;
  }

  lemma {:induction false} NoSlashNoSplit(path: seq<Byte>, m: nat, n: nat)
    requires m <= n <= |path| && forall j :: m <= j < n ==> path[j] != SLASH
    ensures LastSplit(path, n) == LastSplit(path, m)
    decreases n
  {
    if m < n {
      NoSlashNoSplit(path, m, n - 1);
    }
  }

  method SplitArchivePathForUstar(path: seq<Byte>) returns (r: Result<SplitPath, PackError>)
    ensures r == Split(path)
    ensures r.Ok? <==> Splittable(path)
    ensures r.Ok? ==> Joined(r.value) == path
  {
    hide Splittable, Joined;
    SplitIsComplete(path);
    if path == [] {
      return Err(EmptyPath);
    }
    if |path| <= 100 {
      return Ok(SplitPath(path, []));
    }
    var split: Option<nat> := RFind(path, |path|);
    NoSlashNoSplit(path, if split.Some? then split.value + 1 else 0, |path|);
    while split.Some?
      invariant split.Some? ==> split.value < |path| && path[split.value] == SLASH
      invariant LastSplit(path, |path|) == LastSplit(path, if split.Some? then split.value + 1 else 0)
      decreases if split.Some? then split.value + 1 else 0
    {
      var k := split.value;
      var prefix := path[..k];
      var name := path[k + 1..];
      if prefix != [] && |prefix| <= 155 && name != [] && |name| <= 100 {
        return Ok(SplitPath(name, prefix));
      }
      if k == 0 {
        break;
      }
      split := RFind(path, k);
      NoSlashNoSplit(path, if split.Some? then split.value + 1 else 0, k);
    }
    return Err(PathTooLong);
  }

  method ChecksumOf(header: array<Byte>) returns (checksum: nat)
    ensures checksum == Sum(header[..])
  {
    checksum := 0;
    for i := 0 to header.Length
      invariant checksum == Sum(header[..i])
    {
      assert header[..i + 1][..i] == header[..i];
      checksum := checksum + header[i];
    }
    assert header[..header.Length] == header[..];
  }

  lemma PatchedSnoc(h: seq<Byte>, ps: seq<Patch>, p: Patch)
    requires |h| == BLOCK && (forall i :: 0 <= i < |ps| ==> InBlock(ps[i])) && InBlock(p)
    ensures Patched(h, ps + [p]) == Splice(Patched(h, ps), p.offset, p.bytes)
  {
    assert (ps + [p])[..|ps|] == ps;
  }

  /** What a member's path or size is refused for. */
  function EntryError(e: Entry): Option<PackError>
  {
    if e.path == [] then Some(EmptyPath)
    else if !Splittable(e.path) then Some(PathTooLong)
    else if |e.contents| >= Pow8(11) then Some(NumericLimit)
    else None
  }

  lemma EntryErrorIff(e: Entry)
    ensures EntryError(e).None? <==> Writable(e)
  {
  }

  class TarStream {
    var out: seq<Byte>

    constructor ()
      ensures out == []
    {
      out := [];
    }

    /** Appends the member, or fails without writing anything. */
    method WriteTarEntry(e: Entry) returns (error: Option<PackError>)
      modifies this
      ensures error == EntryError(e)
      ensures error.None? ==> Writable(e) && out == old(out) + MemberBytes(e)
      ensures error.Some? ==> out == old(out)
    {
      hide Splittable, Pow8, Header, Split, Octal;
      var split := SplitArchivePathForUstar(e.path);
      SplitIsComplete(e.path);
      if split.Err? {
        return Some(split.error);
      }
      var header, failed := FilledHeader(split.value, |e.contents|);
      if failed.Some? {
        return failed;
      }
      out := out + header[..];
      out := out + e.contents;
      var remainder := |e.contents| % BLOCK;
      if remainder != 0 {
        out := out + Repeat(NUL, BLOCK - remainder);
      }
      MemberIs(e);
      assert out == old(out) + (header[..] + e.contents + Repeat(NUL, Padding(|e.contents|)));
      return None;
    }
  }

  lemma MemberIs(e: Entry)
    requires Writable(e)
    ensures Split(e.path).Ok? && FitsHeader(Split(e.path).value, |e.contents|)
    ensures MemberBytes(e) == Header(Split(e.path).value, |e.contents|) + e.contents + Repeat(NUL, Padding(|e.contents|))
  {
    hide Split, Header, Octal;
    var s := SplitOf(e);
  }

  /** A fresh header, filled in place field by field. */
  method FilledHeader(s: SplitPath, size: nat) returns (header: array<Byte>, error: Option<PackError>)
    requires 1 <= |s.name| <= 100 && |s.prefix| <= 155
    ensures fresh(header) && header.Length == BLOCK
    ensures error == if size < Pow8(11) then None else Some(NumericLimit)
    ensures error.None? ==> FitsHeader(s, size) && header[..] == Header(s, size)
  {
    hide Octal, HeaderPatches, Patched, Splice, Pow8;
    header := new Byte[BLOCK](_ => NUL);
    assert header[..] == Repeat(NUL, BLOCK);
    error := FillFields(header, s, size);
    if error.Some? {
      return;
    }
    var checksum := ChecksumOf(header);
    ChecksumFits(header[..]);
    OctalLength(checksum, 6);
    error := WriteChecksumField(header, checksum);
  }

  /** Every field but the checksum, in the source's order. */
  method FillFields(header: array<Byte>, s: SplitPath, size: nat) returns (error: Option<PackError>)
    requires 1 <= |s.name| <= 100 && |s.prefix| <= 155
    requires header.Length == BLOCK && header[..] == Repeat(NUL, BLOCK)
    modifies header
    ensures error == if size < Pow8(11) then None else Some(NumericLimit)
    ensures error.None? ==> FitsHeader(s, size) && header[..] == RawHeader(s, size)
  {
    hide Octal, OctalField, Patched, Splice, Pow8, Holds, PathPatches, MarkPatches;
    OctalLength(size, 11);
    SmallOctals();
    NothingPatched(header);
    FillPath(header, s);
    ghost var done := PathPatches(s);
    error := PutOctal(header, 124, 12, size, done);
    if error.Some? {
      return;
    }
    done := done + [Patch(124, OctalField(12, size))];
    FillMarks(header, done);
    AllPatches(s, size);
    HoldsMeans(header, done + MarkPatches());
  }

  function PathPatches(s: SplitPath): seq<Patch>
  {
    SmallOctals();
    [Patch(0, s.name), Patch(345, s.prefix),
     Patch(100, OctalField(8, 420)), Patch(108, OctalField(8, 0)), Patch(116, OctalField(8, 0))]
  }

  function MarkPatches(): seq<Patch>
  {
    SmallOctals();
    [Patch(136, OctalField(12, 0)), Patch(148, Repeat(SPACE, 8)), Patch(156, [ZERO]), Patch(257, USTAR), Patch(263, [ZERO, ZERO])]
  }

  lemma AllPatches(s: SplitPath, size: nat)
    requires FitsHeader(s, size)
    ensures PathPatches(s) + [Patch(124, OctalField(12, size))] + MarkPatches() == HeaderPatches(s, size)
  {
    hide Octal, OctalField;
  }

  method FillPath(header: array<Byte>, s: SplitPath)
    requires Holds(header, []) && |s.name| <= 100 && |s.prefix| <= 155
    modifies header
    ensures Holds(header, PathPatches(s))
  {
    hide Octal, OctalField, Patched, Splice, Holds;
    SmallOctals();
    ghost var ps := PathPatches(s);
    PutText(header, 0, s.name, []);
    assert [] + [ps[0]] == ps[..1];
    if s.prefix != [] {
      PutText(header, 345, s.prefix, ps[..1]);
    } else {
      NoText(header, ps[..1], 345);
    }
    assert ps[..1] + [ps[1]] == ps[..2];
    PutNumber(header, 100, 8, 420, ps[..2]);
    assert ps[..2] + [ps[2]] == ps[..3];
    PutNumber(header, 108, 8, 0, ps[..3]);
    assert ps[..3] + [ps[3]] == ps[..4];
    PutNumber(header, 116, 8, 0, ps[..4]);
    assert ps[..4] + [ps[4]] == ps;
  }

  method FillMarks(header: array<Byte>, ghost done: seq<Patch>)
    requires Holds(header, done)
    modifies header
    ensures Holds(header, done + MarkPatches())
  {
    hide Octal, OctalField, Patched, Splice, Holds;
    SmallOctals();
    ghost var ps := MarkPatches();
    PutNumber(header, 136, 12, 0, done);
    assert done + [ps[0]] == done + ps[..1];
    PutText(header, 148, Repeat(SPACE, 8), done + ps[..1]);
    assert done + ps[..1] + [ps[1]] == done + ps[..2];
    PutText(header, 156, [ZERO], done + ps[..2]);
    assert done + ps[..2] + [ps[2]] == done + ps[..3];
    PutText(header, 257, USTAR, done + ps[..3]);
    assert done + ps[..3] + [ps[3]] == done + ps[..4];
    PutText(header, 263, [ZERO, ZERO], done + ps[..4]);
    assert done + ps[..4] + [ps[4]] == done + ps;
  }

  lemma NothingPatched(header: array<Byte>)
    requires header.Length == BLOCK && header[..] == Repeat(NUL, BLOCK)
    ensures Holds(header, [])
  {
  }

  lemma HoldsMeans(header: array<Byte>, done: seq<Patch>)
    requires Holds(header, done)
    ensures header.Length == BLOCK && (forall i :: 0 <= i < |done| ==> InBlock(done[i]))
    ensures header[..] == Patched(Repeat(NUL, BLOCK), done)
  {
  }

  ghost predicate Holds(header: array<Byte>, done: seq<Patch>)
    reads header
  {
    && header.Length == BLOCK
    && (forall i :: 0 <= i < |done| ==> InBlock(done[i]))
    && header[..] == Patched(Repeat(NUL, BLOCK), done)
  }

  method PutText(header: array<Byte>, offset: nat, bytes: seq<Byte>, ghost done: seq<Patch>)
    requires Holds(header, done) && InBlock(Patch(offset, bytes))
    modifies header
    ensures Holds(header, done + [Patch(offset, bytes)])
  {
    hide Patched, Splice;
    PatchedSnoc(Repeat(NUL, BLOCK), done, Patch(offset, bytes));
    CopyInto(header, offset, bytes);
  }

  lemma SpliceNothing(h: seq<Byte>, offset: nat)
    requires offset <= |h|
    ensures Splice(h, offset, []) == h
  {
  }

  lemma NoText(header: array<Byte>, done: seq<Patch>, offset: nat)
    requires Holds(header, done) && offset <= BLOCK
    ensures Holds(header, done + [Patch(offset, [])])
  {
    hide Patched;
    var zero := Repeat(NUL, BLOCK);
    PatchedSnoc(zero, done, Patch(offset, []));
    SpliceNothing(Patched(zero, done), offset);
  }

  method PutOctal(header: array<Byte>, offset: nat, length: nat, v: nat, ghost done: seq<Patch>) returns (error: Option<PackError>)
    requires Holds(header, done) && length >= 2 && offset + length <= BLOCK
    modifies header
    ensures error == if v < Pow8(length - 1) then None else Some(NumericLimit)
    ensures error.None? ==> |Octal(v)| <= length - 1 && Holds(header, done + [Patch(offset, OctalField(length, v))])
  {
    hide Patched, Splice, Octal, OctalField, Pow8;
    OctalLength(v, length - 1);
    if |Octal(v)| <= length - 1 {
      PatchedSnoc(Repeat(NUL, BLOCK), done, Patch(offset, OctalField(length, v)));
    }
    error := WriteOctalField(header, offset, length, v);
  }

  method PutNumber(header: array<Byte>, offset: nat, length: nat, v: nat, ghost done: seq<Patch>)
    requires Holds(header, done) && length >= 2 && offset + length <= BLOCK && |Octal(v)| <= length - 1
    modifies header
    ensures Holds(header, done + [Patch(offset, OctalField(length, v))])
  {
    hide Holds, Octal, OctalField, Pow8;
    OctalLength(v, length - 1);
    var error := PutOctal(header, offset, length, v, done);
  }

  /** The member paths of an archive are its entries' paths below the archive prefix. */
  function Member(archivePrefix: seq<Byte>, e: Entry): Entry
  {
    Entry(archivePrefix + [SLASH] + e.path, e.contents)
  }

  lemma MemberIsBelow(archivePrefix: seq<Byte>, e: Entry)
    ensures Member(archivePrefix, e) == Entry(archivePrefix + [SLASH] + e.path, e.contents)
  {
  }

  /** A member's path is the archive prefix, a slash and the entry's path. */
  lemma MemberPath(archivePrefix: seq<Byte>, e: Entry)
    ensures Member(archivePrefix, e) == Entry(archivePrefix + Ascii("/") + e.path, e.contents)
  {
    Spelled();
  }

  function Members(archivePrefix: seq<Byte>, es: seq<Entry>): (r: seq<Entry>)
    ensures |r| == |es| && forall i :: 0 <= i < |es| ==> r[i] == Member(archivePrefix, es[i])
  {
    seq(|es|, i requires 0 <= i < |es| => Member(archivePrefix, es[i]))
  }

  lemma {:induction false} MembersSnoc(es: seq<Entry>, e: Entry)
    requires (forall i :: 0 <= i < |es| ==> Writable(es[i])) && Writable(e)
    ensures MembersBytes(es + [e]) == MembersBytes(es) + MemberBytes(e)
  {
    hide Writable, MemberBytes;
    if es == [] {
      assert [e][1..] == [] && [] + [e] == [e];
    } else {
      MembersSnoc(es[1..], e);
      assert (es + [e])[1..] == es[1..] + [e];
    }
  }

  /**
   The archive is published exactly when every member can be written; it is then the one that reads
   back as the members, unless some path holds a NUL.
   */
  method WriteTarArchive(es: seq<Entry>, archivePrefix: seq<Byte>) returns (r: Result<seq<Byte>, PackError>)
    ensures r.Ok? <==> forall i :: 0 <= i < |es| ==> Writable(Member(archivePrefix, es[i]))
    ensures r.Err? ==> exists i :: 0 <= i < |es| && EntryError(Member(archivePrefix, es[i])) == Some(r.error)
                                   && forall j :: 0 <= j < i ==> Writable(Member(archivePrefix, es[j]))
    ensures r.Ok? ==> (ReadArchive(r.value) == Some(Members(archivePrefix, es)) <==> NulFree(Members(archivePrefix, es)))
    ensures r.Ok? ==> |r.value| % 512 == 0
  {
    hide Splittable, Pow8, MemberBytes, MembersBytes, ReadArchive, NulFree, Member;
    var stream := new TarStream();
    ghost var members := Members(archivePrefix, es);
    NoMembers();
    for i := 0 to |es|
      invariant fresh(stream)
      invariant forall j :: 0 <= j < i ==> Writable(members[j])
      invariant stream.out == MembersBytes(members[..i])
    {
      MemberIsBelow(archivePrefix, es[i]);
      var error := stream.WriteTarEntry(Entry(archivePrefix + [SLASH] + es[i].path, es[i].contents));
      if error.Some? {
        EntryErrorIff(members[i]);
        assert EntryError(Member(archivePrefix, es[i])) == Some(error.value);
        return Err(error.value);
      }
      MembersSnoc(members[..i], members[i]);
      assert members[..i + 1] == members[..i] + [members[i]];
    }
    assert members[..|es|] == members;
    stream.out := stream.out + Repeat(NUL, 2 * BLOCK);
    RoundTrip(members);
    ArchiveAligned(members);
    return Ok(stream.out);
  }

  lemma NoMembers()
    ensures MembersBytes([]) == []
  {
  }
}
