/** A reader for ustar archives, written from the standard's field table, and the round trip. */
module UstarReader {
  import opened Wrappers
  import opened Bytes
  import opened UstarModel

  function DigitRun(f: seq<Byte>): (d: seq<Byte>)
    ensures |d| <= |f| && forall i :: 0 <= i < |d| ==> IsOctal(d[i])
  {
    if f == [] || !IsOctal(f[0]) then [] else [f[0]] + DigitRun(f[1..])
  }

  /** Leading spaces, at least one octal digit, and a space or NUL behind the last one. */
  function ReadOctal(f: seq<Byte>): Option<nat>
  {
    if f == [] then None
    else if f[0] == SPACE then ReadOctal(f[1..])
    else
      var d := DigitRun(f);
      if d == [] || |d| == |f| || f[|d|] !in {SPACE, NUL} then None else Some(DigitsValue(d))
  }

  /** A text field ends at its first NUL. */
  function Text(f: seq<Byte>): (t: seq<Byte>)
    ensures |t| <= |f| && NUL !in t
  {
    if f == [] || f[0] == NUL then [] else [f[0]] + Text(f[1..])
  }

  predicate AllZero(b: seq<Byte>)
  {
    forall i :: 0 <= i < |b| ==> b[i] == NUL
  }

  datatype Member = Member(path: seq<Byte>, size: nat)

  /** A header whose checksum, magic, version and type are right. */
  function ReadHeader(h: seq<Byte>): Option<Member>
    requires |h| == BLOCK
  {
    if ReadOctal(h[148..156]) != Some(Sum(Splice(h, 148, Repeat(SPACE, 8)))) then None
    else if h[257..263] != USTAR || h[263..265] != [ZERO, ZERO] || h[156] != ZERO then None
    else
      match ReadOctal(h[124..136])
      case None => None
      case Some(size) => Some(Member(Joined(SplitPath(Text(h[0..100]), Text(h[345..500]))), size))
  }

  function ReadArchive(b: seq<Byte>): Option<seq<Entry>>
    decreases |b|
  {
    if |b| < BLOCK then None
    else if AllZero(b[..BLOCK]) then
      if |b| >= 2 * BLOCK && AllZero(b[BLOCK..2 * BLOCK]) then Some([]) else None
    else
      match ReadHeader(b[..BLOCK])
      case None => None
      case Some(m) =>
        var end := BLOCK + m.size + Padding(m.size);
        if |b| < end then None else
        match ReadArchive(b[end..])
        case None => None
        case Some(rest) => Some([Entry(m.path, b[BLOCK..BLOCK + m.size])] + rest)
  }

  // Numeric fields.

  lemma {:induction false} DigitRunStops(d: seq<Byte>, f: seq<Byte>)
    requires forall i :: 0 <= i < |d| ==> IsOctal(d[i])
    requires f != [] && !IsOctal(f[0])
    ensures DigitRun(d + f) == d
  {
    if d == [] {
      assert d + f == f;
    } else {
      assert (d + f)[1..] == d[1..] + f;
      DigitRunStops(d[1..], f);
    }
  }

  lemma {:induction false} SpacesSkipped(k: nat, f: seq<Byte>)
    ensures ReadOctal(Repeat(SPACE, k) + f) == ReadOctal(f)
  {
    var all := Repeat(SPACE, k) + f;
    if k == 0 {
      assert all == f;
    } else {
      assert all[1..] == Repeat(SPACE, k - 1) + f;
      SpacesSkipped(k - 1, f);
    }
  }

  lemma OctalFieldReads(length: nat, v: nat)
    requires |Octal(v)| + 1 <= length
    ensures ReadOctal(OctalField(length, v)) == Some(v)
  {
    var zeros := Repeat(ZERO, length - 1 - |Octal(v)|);
    var d := zeros + Octal(v);
    assert OctalField(length, v) == d + [NUL];
    DigitRunStops(d, [NUL]);
    LeadingZeros(|zeros|, Octal(v));
    OctalValue(v);
    assert IsOctal(d[0]);
  }

  lemma ChecksumFieldReads(v: nat)
    requires |Octal(v)| <= 6
    ensures ReadOctal(ChecksumField(v)) == Some(v)
  {
    var k := 6 - |Octal(v)|;
    var f := Octal(v) + [NUL, SPACE];
    assert ChecksumField(v) == Repeat(SPACE, k) + f;
    SpacesSkipped(k, f);
    DigitRunStops(Octal(v), [NUL, SPACE]);
    OctalValue(v);
    assert IsOctal(f[0]);
  }

  lemma {:induction false} TextOfField(t: seq<Byte>, k: nat)
    ensures Text(t + Repeat(NUL, k)) == Text(t)
    ensures NUL !in t ==> Text(t) == t
  {
    var f := t + Repeat(NUL, k);
    if t != [] {
      assert f[1..] == t[1..] + Repeat(NUL, k);
      TextOfField(t[1..], k);
    }
  }

  // The field table.

  lemma PatchesApart(s: SplitPath, size: nat, i: nat, j: nat)
    requires FitsHeader(s, size) && i < 11 && j < 11 && i != j
    ensures
      var ps := HeaderPatches(s, size);
      Apart(ps[j], ps[i].offset, ps[i].offset + |ps[i].bytes|)
  {
    hide Octal, OctalField;
  }

  /** Every field but the checksum holds what was written into it. */
  lemma HeaderField(s: SplitPath, size: nat, i: nat)
    requires FitsHeader(s, size) && i < 11
    ensures
      var p := HeaderPatches(s, size)[i];
      && InBlock(p)
      && RawHeader(s, size)[p.offset..p.offset + |p.bytes|] == p.bytes
      && (i != 7 ==> Header(s, size)[p.offset..p.offset + |p.bytes|] == p.bytes)
  {
    hide HeaderPatches, Octal, Patched;
    var ps := HeaderPatches(s, size);
    forall j | i < j < 11 ensures Apart(ps[j], ps[i].offset, ps[i].offset + |ps[i].bytes|) {
      PatchesApart(s, size, i, j);
    }
    PatchReads(Repeat(NUL, BLOCK), ps, i);
    if i != 7 {
      PatchesApart(s, size, i, 7);
      ChecksumPatch(s, size);
      SpliceKeeps(RawHeader(s, size), 148, ChecksumField(Sum(RawHeader(s, size))), ps[i].offset, ps[i].offset + |ps[i].bytes|);
    }
  }

  lemma ChecksumPatch(s: SplitPath, size: nat)
    requires FitsHeader(s, size)
    ensures
      HeaderPatches(s, size)[7] == Patch(148, Repeat(SPACE, 8)) && |Octal(Sum(RawHeader(s, size)))| <= 6
  {
    ChecksumFits(RawHeader(s, size));
  }

  lemma SpliceKeeps(h: seq<Byte>, offset: nat, bytes: seq<Byte>, lo: nat, hi: nat)
    requires offset + |bytes| <= |h| && lo <= hi <= |h| && (offset + |bytes| <= lo || hi <= offset)
    ensures Splice(h, offset, bytes)[lo..hi] == h[lo..hi]
  {
  }

  /** The bytes between the end of a text and the end of its field are NUL. */
  lemma HeaderGap(s: SplitPath, size: nat, lo: nat, hi: nat)
    requires FitsHeader(s, size) && lo <= hi
    requires (|s.name| <= lo && hi <= 100) || (345 + |s.prefix| <= lo && hi <= 500)
    ensures Header(s, size)[lo..hi] == Repeat(NUL, hi - lo)
  {
    hide Octal, OctalField, Patched;
    PatchesKeep(Repeat(NUL, BLOCK), HeaderPatches(s, size), lo, hi);
    ChecksumFits(RawHeader(s, size));
    SpliceKeeps(RawHeader(s, size), 148, ChecksumField(Sum(RawHeader(s, size))), lo, hi);
    assert Repeat(NUL, BLOCK)[lo..hi] == Repeat(NUL, hi - lo);
  }

  lemma ZeroTime()
    ensures OctalField(12, 0) == Repeat(ZERO, 11) + [NUL]
  {
  }

  lemma FieldsSpelled()
    ensures MODE_FIELD == Ascii("0000644") + [0] && ZERO_FIELD == Ascii("0000000") + [0]
    ensures Repeat(ZERO, 11) + [NUL] == Ascii("00000000000") + [0] && [ZERO, ZERO] == Ascii("00")
  {
  }

  /** The header by its fields, as the standard tabulates them. */
  lemma HeaderTable(s: SplitPath, size: nat)
    requires FitsHeader(s, size)
    ensures
      var h := Header(s, size);
      && h[0..100] == s.name + Repeat(NUL, 100 - |s.name|)
      && h[100..108] == Ascii("0000644") + [0] && h[108..116] == Ascii("0000000") + [0] && h[116..124] == Ascii("0000000") + [0]
      && h[124..136] == OctalField(12, size) && h[136..148] == Ascii("00000000000") + [0]
      && [h[156]] == Ascii("0") && h[257..263] == Ascii("ustar") + [0] && h[263..265] == Ascii("00")
      && h[345..500] == s.prefix + Repeat(NUL, 155 - |s.prefix|)
  {
    hide Header, Octal, OctalField, Patched;
    SmallFields();
    Spelled();
    FieldsSpelled();
    ZeroTime();
    var h := Header(s, size);
    HeaderField(s, size, 0);
    HeaderGap(s, size, |s.name|, 100);
    assert h[0..100] == h[0..|s.name|] + h[|s.name|..100];
    HeaderField(s, size, 1);
    HeaderGap(s, size, 345 + |s.prefix|, 500);
    assert h[345..500] == h[345..345 + |s.prefix|] + h[345 + |s.prefix|..500];
    HeaderField(s, size, 2);
    HeaderField(s, size, 3);
    HeaderField(s, size, 4);
    HeaderField(s, size, 5);
    HeaderField(s, size, 6);
    HeaderField(s, size, 8);
    assert h[156] == h[156..157][0];
    HeaderField(s, size, 9);
    HeaderField(s, size, 10);
  }

  /** The checksum field holds the sum of the header taken with spaces in that field. */
  lemma HeaderChecksum(s: SplitPath, size: nat)
    requires FitsHeader(s, size)
    ensures
      var h := Header(s, size);
      ReadOctal(h[148..156]) == Some(Sum(Splice(h, 148, Repeat(SPACE, 8))))
  {
    hide Octal, Patched, Sum, ReadOctal;
    var raw := RawHeader(s, size);
    ChecksumFits(raw);
    HeaderField(s, size, 7);
    ChecksumPatch(s, size);
    var f := ChecksumField(Sum(raw));
    assert Header(s, size)[148..156] == f;
    assert raw[148..156] == Repeat(SPACE, 8);
    SpliceBack(raw, 148, f);
    ChecksumFieldReads(Sum(raw));
  }

  lemma SpliceBack(h: seq<Byte>, offset: nat, bytes: seq<Byte>)
    requires offset + |bytes| <= |h|
    ensures Splice(Splice(h, offset, bytes), offset, h[offset..offset + |bytes|]) == h
  {
  }

  /** Reading a header gives the member's size and its path up to the first NULs. */
  lemma HeaderReads(s: SplitPath, size: nat)
    requires FitsHeader(s, size)
    ensures ReadHeader(Header(s, size)) == Some(Member(Joined(SplitPath(Text(s.name), Text(s.prefix))), size))
    ensures !AllZero(Header(s, size))
  {
    hide Header, Octal, OctalField, Sum, ReadOctal, Text;
    Spelled();
    FieldsSpelled();
    HeaderTable(s, size);
    assert [Header(s, size)[156]][0] == Ascii("0")[0];
    HeaderChecksum(s, size);
    OctalFieldReads(12, size);
    TextOfField(s.name, 100 - |s.name|);
    TextOfField(s.prefix, 155 - |s.prefix|);
    assert Header(s, size)[156] != NUL;
  }

  // Archives.

  predicate NulFree(es: seq<Entry>)
  {
    forall i :: 0 <= i < |es| ==> NUL !in es[i].path
  }

  lemma JoinedParts(e: Entry)
    requires Writable(e) && NUL !in e.path
    ensures
      var s := SplitOf(e);
      Joined(SplitPath(Text(s.name), Text(s.prefix))) == e.path
  {
    SplitIsComplete(e.path);
    var s := SplitOf(e);
    assert forall x :: x in s.name ==> x in Joined(s);
    assert forall x :: x in s.prefix ==> x in Joined(s);
    TextOfField(s.name, 0);
    TextOfField(s.prefix, 0);
  }

  /** A member in front of an archive is read as the entry it was written for. */
  lemma MemberReads(e: Entry, rest: seq<Byte>)
    requires Writable(e) && NUL !in e.path
    ensures ReadArchive(MemberBytes(e) + rest)
            == match ReadArchive(rest) { case None => None case Some(es) => Some([e] + es) }
  {
    hide Header, ReadHeader, AllZero, Text, Pow8, Octal, Split, Joined;
    var s := SplitOf(e);
    var size := |e.contents|;
    HeaderReads(s, size);
    JoinedParts(e);
    var b := MemberBytes(e) + rest;
    var end := BLOCK + size + Padding(size);
    assert b[..BLOCK] == Header(s, size);
    assert b[end..] == rest;
    assert b[BLOCK..BLOCK + size] == e.contents;
  }

  lemma EndMarkerReads()
    ensures ReadArchive(Repeat(NUL, 2 * BLOCK)) == Some([])
  {
  }

  lemma {:induction false} MembersRead(es: seq<Entry>)
    requires (forall i :: 0 <= i < |es| ==> Writable(es[i])) && NulFree(es)
    ensures ReadArchive(MembersBytes(es) + Repeat(NUL, 2 * BLOCK)) == Some(es)
  {
    hide Writable, MemberBytes, ReadArchive;
    var tail := Repeat(NUL, 2 * BLOCK);
    if es == [] {
      EndMarkerReads();
      assert MembersBytes(es) + tail == tail;
    } else {
      MembersRead(es[1..]);
      assert Writable(es[0]) && NUL !in es[0].path;
      MemberReads(es[0], MembersBytes(es[1..]) + tail);
      assert MembersBytes(es) + tail == MemberBytes(es[0]) + (MembersBytes(es[1..]) + tail);
      assert [es[0]] + es[1..] == es;
    }
  }

  /** Whatever is read has paths without NUL. */
  lemma {:induction false} ReadNulFree(b: seq<Byte>)
    requires ReadArchive(b).Some?
    ensures NulFree(ReadArchive(b).value)
    decreases |b|
  {
    hide ReadOctal, Sum;
    if !AllZero(b[..BLOCK]) {
      var m := ReadHeader(b[..BLOCK]).value;
      ReadNulFree(b[BLOCK + m.size + Padding(m.size)..]);
    }
  }

  /** Reading an archive gives back exactly the entries it was written from, if no path has a NUL; only then. */
  lemma RoundTrip(es: seq<Entry>)
    requires forall i :: 0 <= i < |es| ==> Writable(es[i])
    ensures ReadArchive(ArchiveBytes(es)) == Some(es) <==> NulFree(es)
  {
    hide Writable, MembersBytes, ReadArchive;
    if NulFree(es) {
      MembersRead(es);
    }
    if ReadArchive(ArchiveBytes(es)) == Some(es) {
      ReadNulFree(ArchiveBytes(es));
    }
  }

  /** Different entry lists never share an archive. */
  lemma ArchiveBinds(es: seq<Entry>, fs: seq<Entry>)
    requires (forall i :: 0 <= i < |es| ==> Writable(es[i])) && (forall i :: 0 <= i < |fs| ==> Writable(fs[i]))
    requires NulFree(es) && NulFree(fs) && ArchiveBytes(es) == ArchiveBytes(fs)
    ensures es == fs
  {
    hide Writable, ArchiveBytes, ReadArchive;
    RoundTrip(es);
    RoundTrip(fs);
  }

  lemma PaddingAligns(n: nat)
    ensures (n + Padding(n)) % 512 == 0 && Padding(n) < 512
  {
    var q, r := n / 512, n % 512;
    assert n == 512 * q + r;
    if r == 0 {
      assert Padding(n) == 0;
    } else {
      assert Padding(n) == 512 - r;
      assert n + Padding(n) == 512 * (q + 1);
    }
  }

  lemma AlignedSum(a: nat, b: nat)
    requires a % 512 == 0 && b % 512 == 0
    ensures (a + b) % 512 == 0
  {
  }

  lemma MemberLength(e: Entry)
    requires Writable(e)
    ensures |MemberBytes(e)| == 512 + |e.contents| + Padding(|e.contents|)
  {
    hide Padding, Header, SplitOf;
  }

  /** An archive is a whole number of blocks, and never empty. */
  lemma {:induction false} ArchiveAligned(es: seq<Entry>)
    requires forall i :: 0 <= i < |es| ==> Writable(es[i])
    ensures |ArchiveBytes(es)| % 512 == 0 && |ArchiveBytes(es)| >= 1024
  {
    hide Writable, MemberBytes, Padding;
    if es != [] {
      assert Writable(es[0]);
      ArchiveAligned(es[1..]);
      MemberLength(es[0]);
      PaddingAligns(|es[0].contents|);
      AlignedSum(512, |es[0].contents| + Padding(|es[0].contents|));
      AlignedSum(|MemberBytes(es[0])|, |ArchiveBytes(es[1..])|);
      assert |ArchiveBytes(es)| == |MemberBytes(es[0])| + |ArchiveBytes(es[1..])|;
    }
  }
}
