/**
 The bytes of a ustar archive, after the "ustar Interchange Format" of the pax utility in IEEE Std
 1003.1: octal fields, the split of a path into prefix and name, headers, members, end marker.
 */
module UstarModel {
  import opened Wrappers
  import opened Bytes

  const BLOCK: nat := 512
  const SLASH: Byte := 47
  const SPACE: Byte := 32
  const ZERO: Byte := 48
  const NUL: Byte := 0
  const USTAR: seq<Byte> := [117, 115, 116, 97, 114, 0]

  /** What these bytes spell. */
  lemma Spelled()
    ensures USTAR == Ascii("ustar") + [0] && [SLASH] == Ascii("/") && [SPACE] == Ascii(" ") && [ZERO] == Ascii("0")
    ensures NUL == 0 && BLOCK == 512
  {
  }

  // Octal numbers.

  function Pow8(n: nat): (r: nat)
    ensures r >= 1
  {
    if n == 0 then 1 else 8 * Pow8(n - 1)
  }

  predicate IsOctal(b: Byte)
  {
    48 <= b < 56
  }

  function Octal(v: nat): (d: seq<Byte>)
    ensures |d| >= 1 && forall i :: 0 <= i < |d| ==> IsOctal(d[i])
  {
    if v < 8 then [48 + v] else Octal(v / 8) + [48 + v % 8]
  }

  function DigitsValue(d: seq<Byte>): nat
    requires forall i :: 0 <= i < |d| ==> IsOctal(d[i])
  {
    if d == [] then 0 else
    assert IsOctal(d[|d| - 1]);
    8 * DigitsValue(d[..|d| - 1]) + (d[|d| - 1] as int - 48)
  }

  lemma {:induction false} OctalLength(v: nat, n: nat)
    requires n >= 1
    ensures |Octal(v)| <= n <==> v < Pow8(n)
  {
    if n == 1 {
      assert Pow8(1) == 8 * Pow8(0);
    } else if v >= 8 {
      OctalLength(v / 8, n - 1);
    } else {
      assert Pow8(n) == 8 * Pow8(n - 1);
    }
  }

  lemma {:induction false} OctalValue(v: nat)
    ensures DigitsValue(Octal(v)) == v
  {
    if v >= 8 {
      OctalValue(v / 8);
      assert Octal(v)[..|Octal(v)| - 1] == Octal(v / 8);
    }
  }

  lemma {:induction false} LeadingZeros(k: nat, d: seq<Byte>)
    requires forall i :: 0 <= i < |d| ==> IsOctal(d[i])
    ensures DigitsValue(Repeat(ZERO, k) + d) == DigitsValue(d)
    decreases |d|, k
  {
    var all := Repeat(ZERO, k) + d;
    if d != [] {
      LeadingZeros(k, d[..|d| - 1]);
      assert all[..|all| - 1] == Repeat(ZERO, k) + d[..|d| - 1];
    } else if k > 0 {
      LeadingZeros(k - 1, d);
      assert all[..k - 1] == Repeat(ZERO, k - 1) + d;
    }
  }

  /** A numeric field: zero-filled digits and a NUL. */
  function OctalField(length: nat, v: nat): (f: seq<Byte>)
    requires |Octal(v)| + 1 <= length
    ensures |f| == length
  {
    Repeat(ZERO, length - 1 - |Octal(v)|) + Octal(v) + [NUL]
  }

  /** The checksum field: digits padded on the left with spaces to six places, NUL, space. */
  function ChecksumField(v: nat): (f: seq<Byte>)
    requires |Octal(v)| <= 6
    ensures |f| == 8
  {
    Repeat(SPACE, 6 - |Octal(v)|) + Octal(v) + [NUL, SPACE]
  }

  // Splitting paths.

  datatype PackError = EmptyPath | PathTooLong | NumericLimit | ChecksumLimit

  /** The slash at `k` cuts the path into a prefix and a name that fit their fields. */
  predicate GoodSplit(path: seq<Byte>, k: nat)
  {
    k < |path| && path[k] == SLASH && 1 <= k <= 155 && 1 <= |path| - k - 1 <= 100
  }

  predicate Splittable(path: seq<Byte>)
  {
    path != [] && (|path| <= 100 || exists k :: 0 <= k < |path| && GoodSplit(path, k))
  }

  datatype SplitPath = SplitPath(name: seq<Byte>, prefix: seq<Byte>)

  /** The rightmost good split below `n`. */
  function LastSplit(path: seq<Byte>, n: nat): Option<nat>
    requires n <= |path|
  {
    if n == 0 then None
    else if GoodSplit(path, n - 1) then Some(n - 1)
    else LastSplit(path, n - 1)
  }

  function Split(path: seq<Byte>): Result<SplitPath, PackError>
  {
    if path == [] then Err(EmptyPath)
    else if |path| <= 100 then Ok(SplitPath(path, []))
    else
      match LastSplit(path, |path|)
      case None => Err(PathTooLong)
      case Some(k) =>
        LastSplitIsLast(path, |path|);
        Ok(SplitPath(path[k + 1..], path[..k]))
  }

  lemma {:induction false} LastSplitIsLast(path: seq<Byte>, n: nat)
    requires n <= |path|
    ensures LastSplit(path, n).Some? <==> exists k :: 0 <= k < n && GoodSplit(path, k)
    ensures LastSplit(path, n).Some? ==>
              var k := LastSplit(path, n).value;
              k < n && GoodSplit(path, k) && forall j :: k < j < n ==> !GoodSplit(path, j)
  {
    if n > 0 {
      LastSplitIsLast(path, n - 1);
    }
  }

  function Joined(s: SplitPath): seq<Byte>
  {
    if s.prefix == [] then s.name else s.prefix + [SLASH] + s.name
  }

  /** A path splits exactly when it fits, both parts fit their fields, and joining them gives it back. */
  lemma SplitIsComplete(path: seq<Byte>)
    ensures Split(path).Ok? <==> Splittable(path)
    ensures Split(path).Err? ==> Split(path).error == if path == [] then EmptyPath else PathTooLong
    ensures Split(path).Ok? ==>
              var s := Split(path).value;
              && 1 <= |s.name| <= 100 && |s.prefix| <= 155 && Joined(s) == path
              && (|path| <= 100 ==> s.prefix == [])
              && (|path| > 100 ==> s.prefix != [] && forall j :: |s.prefix| < j < |path| ==> !GoodSplit(path, j))
  {
    if |path| > 100 {
      LastSplitIsLast(path, |path|);
      if Split(path).Ok? {
        var k := LastSplit(path, |path|).value;
        assert path == path[..k] + [path[k]] + path[k + 1..];
      }
    }
  }

  // Headers.

  datatype Patch = Patch(offset: nat, bytes: seq<Byte>)

  predicate InBlock(p: Patch)
  {
    p.offset + |p.bytes| <= BLOCK
  }

  predicate Apart(p: Patch, lo: nat, hi: nat)
  {
    p.offset + |p.bytes| <= lo || hi <= p.offset
  }

  function Patched(h: seq<Byte>, ps: seq<Patch>): (r: seq<Byte>)
    requires |h| == BLOCK && forall i :: 0 <= i < |ps| ==> InBlock(ps[i])
    ensures |r| == BLOCK
    decreases |ps|
  {
    if ps == [] then h else
    assert InBlock(ps[|ps| - 1]);
    Splice(Patched(h, ps[..|ps| - 1]), ps[|ps| - 1].offset, ps[|ps| - 1].bytes)
  }

  lemma {:induction false} PatchesKeep(h: seq<Byte>, ps: seq<Patch>, lo: nat, hi: nat)
    requires |h| == BLOCK && (forall i :: 0 <= i < |ps| ==> InBlock(ps[i])) && lo <= hi <= BLOCK
    requires forall i :: 0 <= i < |ps| ==> Apart(ps[i], lo, hi)
    ensures Patched(h, ps)[lo..hi] == h[lo..hi]
  {
    if ps != [] {
      PatchesKeep(h, ps[..|ps| - 1], lo, hi);
    }
  }

  /** What a patch wrote is still there when no later patch touches it. */
  lemma {:induction false} PatchReads(h: seq<Byte>, ps: seq<Patch>, i: nat)
    requires |h| == BLOCK && (forall j :: 0 <= j < |ps| ==> InBlock(ps[j])) && i < |ps|
    requires forall j :: i < j < |ps| ==> Apart(ps[j], ps[i].offset, ps[i].offset + |ps[i].bytes|)
    ensures Patched(h, ps)[ps[i].offset..ps[i].offset + |ps[i].bytes|] == ps[i].bytes
  {
    if i < |ps| - 1 {
      PatchReads(h, ps[..|ps| - 1], i);
    }
  }

  predicate FitsHeader(s: SplitPath, size: nat)
  {
    |s.name| <= 100 && |s.prefix| <= 155 && |Octal(size)| <= 11
  }

  /** The fields of a member's header, in the order in which they are written. */
  function HeaderPatches(s: SplitPath, size: nat): (ps: seq<Patch>)
    requires FitsHeader(s, size)
    ensures |ps| == 11 && forall i :: 0 <= i < 11 ==> InBlock(ps[i])
  {
    SmallOctals();
    [Patch(0, s.name), Patch(345, s.prefix),
     Patch(100, OctalField(8, 420)), Patch(108, OctalField(8, 0)), Patch(116, OctalField(8, 0)),
     Patch(124, OctalField(12, size)), Patch(136, OctalField(12, 0)),
     Patch(148, Repeat(SPACE, 8)), Patch(156, [ZERO]),
     Patch(257, USTAR), Patch(263, [ZERO, ZERO])]
  }

  const MODE_FIELD: seq<Byte> := [48, 48, 48, 48, 54, 52, 52, 0]

  const ZERO_FIELD: seq<Byte> := [48, 48, 48, 48, 48, 48, 48, 0]

  lemma SmallFields()
    ensures |Octal(420)| <= 7 && OctalField(8, 420) == MODE_FIELD
    ensures |Octal(0)| <= 7 && OctalField(8, 0) == ZERO_FIELD
  {
    assert Octal(6) == [54] && Octal(52) == [54, 52] && Octal(420) == [54, 52, 52];
  }

  lemma SmallOctals()
    ensures |Octal(420)| <= 7 && |Octal(0)| <= 7
  {
    assert Pow8(7) == 8 * Pow8(6) && Pow8(6) == 8 * Pow8(5) && Pow8(5) == 8 * Pow8(4) && Pow8(4) == 8 * Pow8(3);
    assert Pow8(3) == 8 * Pow8(2) && Pow8(2) == 8 * Pow8(1) && Pow8(1) == 8;
    OctalLength(420, 7);
    OctalLength(0, 7);
  }

  function Sum(s: seq<Byte>): nat
  {
    if s == [] then 0 else Sum(s[..|s| - 1]) + s[|s| - 1]
  }

  lemma {:induction false} SumBound(s: seq<Byte>)
    ensures Sum(s) <= 255 * |s|
  {
    if s != [] {
      SumBound(s[..|s| - 1]);
    }
  }

  /** The checksum limit can never be exceeded: 512 * 255 < 8^6. */
  lemma ChecksumFits(h: seq<Byte>)
    requires |h| == BLOCK
    ensures |Octal(Sum(h))| <= 6
  {
    SumBound(h);
    assert Pow8(6) == 8 * Pow8(5) && Pow8(5) == 8 * Pow8(4) && Pow8(4) == 8 * Pow8(3);
    assert Pow8(3) == 8 * Pow8(2) && Pow8(2) == 8 * Pow8(1) && Pow8(1) == 8;
    OctalLength(Sum(h), 6);
  }

  /** The header before its checksum is known, with spaces in the checksum field. */
  function RawHeader(s: SplitPath, size: nat): (h: seq<Byte>)
    requires FitsHeader(s, size)
    ensures |h| == BLOCK
  {
    Patched(Repeat(NUL, BLOCK), HeaderPatches(s, size))
  }

  function Header(s: SplitPath, size: nat): (h: seq<Byte>)
    requires FitsHeader(s, size)
    ensures |h| == BLOCK
  {
    ChecksumFits(RawHeader(s, size));
    Splice(RawHeader(s, size), 148, ChecksumField(Sum(RawHeader(s, size))))
  }

  // Members and archives.

  datatype Entry = Entry(path: seq<Byte>, contents: seq<Byte>)

  predicate Writable(e: Entry)
  {
    Splittable(e.path) && |e.contents| < Pow8(11)
  }

  function Padding(n: nat): nat
  {
    (BLOCK - n % BLOCK) % BLOCK
  }

  function SplitOf(e: Entry): (s: SplitPath)
    requires Writable(e)
    ensures Split(e.path) == Ok(s) && FitsHeader(s, |e.contents|)
  {
    SplitIsComplete(e.path);
    OctalLength(|e.contents|, 11);
    Split(e.path).value
  }

  function MemberBytes(e: Entry): seq<Byte>
    requires Writable(e)
  {
    Header(SplitOf(e), |e.contents|) + e.contents + Repeat(NUL, Padding(|e.contents|))
  }

  function MembersBytes(es: seq<Entry>): seq<Byte>
    requires forall i :: 0 <= i < |es| ==> Writable(es[i])
  {
    if es == [] then [] else MemberBytes(es[0]) + MembersBytes(es[1..])
  }

  function ArchiveBytes(es: seq<Entry>): seq<Byte>
    requires forall i :: 0 <= i < |es| ==> Writable(es[i])
  {
    MembersBytes(es) + Repeat(NUL, 2 * BLOCK)
  }
}
