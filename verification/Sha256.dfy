/** The streaming SHA-256 of the programs: a 64-byte buffer filled in place, refining FIPS 180-4. */
module Sha256 {
  import F = Fips180

  // The word functions as they are written out.

  function RotateRight(value: bv32, bits: bv32): bv32
    requires 0 < bits < 32
  {
    (value >> bits) | (value << (32 - bits))
  }

  function Xor3(x: bv32, y: bv32, z: bv32): bv32 { x ^ y ^ z }

  function Ch(x: bv32, y: bv32, z: bv32): bv32 { (x & y) ^ (!x & z) }

  function Maj(x: bv32, y: bv32, z: bv32): bv32 { (x & y) ^ (x & z) ^ (y & z) }

  function BigSigma0(v: bv32): bv32 { Xor3(RotateRight(v, 2), RotateRight(v, 13), RotateRight(v, 22)) }

  function BigSigma1(v: bv32): bv32 { Xor3(RotateRight(v, 6), RotateRight(v, 11), RotateRight(v, 25)) }

  function SmallSigma0(v: bv32): bv32 { Xor3(RotateRight(v, 7), RotateRight(v, 18), v >> 3) }

  function SmallSigma1(v: bv32): bv32 { Xor3(RotateRight(v, 17), RotateRight(v, 19), v >> 10) }

  lemma ShiftsRotate(v: bv32)
    ensures RotateRight(v, 2) == v.RotateRight(2) && RotateRight(v, 13) == v.RotateRight(13) && RotateRight(v, 22) == v.RotateRight(22)
    ensures RotateRight(v, 6) == v.RotateRight(6) && RotateRight(v, 11) == v.RotateRight(11) && RotateRight(v, 25) == v.RotateRight(25)
  {
  }

  lemma ShiftsRotateSmall(v: bv32)
    ensures RotateRight(v, 7) == v.RotateRight(7) && RotateRight(v, 18) == v.RotateRight(18)
    ensures RotateRight(v, 17) == v.RotateRight(17) && RotateRight(v, 19) == v.RotateRight(19)
  {
  }

  lemma XorsAreFips(x: bv32, y: bv32, z: bv32)
    ensures Xor3(x, y, z) == F.Xor3(x, y, z)
  {
  }

  /** Shifting both ways is rotation, so the sigmas are those of section 4.1.2. */
  lemma SigmasAreFips(v: bv32)
    ensures BigSigma0(v) == F.BigSigma0(v) && BigSigma1(v) == F.BigSigma1(v)
    ensures SmallSigma0(v) == F.SmallSigma0(v) && SmallSigma1(v) == F.SmallSigma1(v)
  {
    hide RotateRight, Xor3, F.Xor3;
    ShiftsRotate(v);
    ShiftsRotateSmall(v);
    XorsAreFips(RotateRight(v, 2), RotateRight(v, 13), RotateRight(v, 22));
    XorsAreFips(RotateRight(v, 6), RotateRight(v, 11), RotateRight(v, 25));
    XorsAreFips(RotateRight(v, 7), RotateRight(v, 18), v >> 3);
    XorsAreFips(RotateRight(v, 17), RotateRight(v, 19), v >> 10);
  }

  /** `Ch` chooses and `Maj` votes, bit by bit. */
  lemma ChoosesAndVotes(x: bv32, y: bv32, z: bv32)
    ensures Ch(x, y, z) == (x & y) | (!x & z) == F.Ch(x, y, z)
    ensures Maj(x, y, z) == (x & y) | (x & z) | (y & z) == F.Maj(x, y, z)
  {
  }

  // Hexadecimal output.

  function HexDigit(d: nat): char
    requires d < 16
  {
    if d < 10 then '0' + d as char else 'a' + (d - 10) as char
  }

  /** The hexadecimal digits of a number, without leading zeros. */
  function Hex(v: nat): (s: string)
    ensures |s| >= 1
  {
    if v < 16 then [HexDigit(v)] else Hex(v / 16) + [HexDigit(v % 16)]
  }

  function Pow16(n: nat): (r: nat)
    ensures r >= 1
  {
    if n == 0 then 1 else 16 * Pow16(n - 1)
  }

  /** Output with a width of eight and zero fill. */
  function Setw8(s: string): string
  {
    if |s| < 8 then seq(8 - |s|, _ => '0') + s else s
  }

  predicate IsHex(ch: char)
  {
    '0' <= ch <= '9' || 'a' <= ch <= 'f'
  }

  function DigitValue(ch: char): nat
  {
    if '0' <= ch <= '9' then (ch - '0') as nat else if 'a' <= ch <= 'f' then 10 + (ch - 'a') as nat else 0
  }

  function HexValue(s: string): nat
  {
    if s == "" then 0 else 16 * HexValue(s[..|s| - 1]) + DigitValue(s[|s| - 1])
  }

  lemma {:induction false} HexReads(v: nat, n: nat)
    requires n >= 1
    ensures HexValue(Hex(v)) == v && (forall i :: 0 <= i < |Hex(v)| ==> IsHex(Hex(v)[i]))
    ensures |Hex(v)| <= n <==> v < Pow16(n)
    decreases v
  {
    assert Pow16(n) == 16 * Pow16(n - 1);
    if v >= 16 {
      if n == 1 { assert Pow16(0) == 1; }
      HexReads(v / 16, if n == 1 then 1 else n - 1);
      assert Hex(v)[..|Hex(v)| - 1] == Hex(v / 16);
    }
  }

  lemma {:induction false} ZeroFill(k: nat, s: string)
    ensures HexValue(seq(k, _ => '0') + s) == HexValue(s)
    decreases |s|, k
  {
    var all := seq(k, _ => '0') + s;
    if s != "" {
      ZeroFill(k, s[..|s| - 1]);
      assert all[..|all| - 1] == seq(k, _ => '0') + s[..|s| - 1];
    } else if k > 0 {
      ZeroFill(k - 1, s);
      assert all[..|all| - 1] == seq(k - 1, _ => '0') + s;
    }
  }

  function HexWord(w: nat): string
  {
    Setw8(Hex(w))
  }

  /** A word is printed as exactly eight lowercase digits that read back as the word. */
  lemma HexWordReads(w: nat)
    requires w < 0x1_0000_0000
    ensures |HexWord(w)| == 8 && (forall i :: 0 <= i < 8 ==> IsHex(HexWord(w)[i])) && HexValue(HexWord(w)) == w
  {
    hide Hex, HexValue;
    assert Pow16(8) == 16 * Pow16(7) && Pow16(7) == 16 * Pow16(6) && Pow16(6) == 16 * Pow16(5) && Pow16(5) == 16 * Pow16(4);
    assert Pow16(4) == 16 * Pow16(3) && Pow16(3) == 16 * Pow16(2) && Pow16(2) == 16 * Pow16(1) && Pow16(1) == 16;
    HexReads(w, 8);
    ZeroFill(8 - |Hex(w)|, Hex(w));
  }

  function HexOf(words: seq<bv32>): string
  {
    if words == [] then "" else HexOf(words[..|words| - 1]) + HexWord(words[|words| - 1] as nat)
  }

  /** A printed digest is eight lowercase digits per word. */
  lemma {:induction false} HexOfReads(words: seq<bv32>)
    ensures |HexOf(words)| == 8 * |words|
    ensures forall i :: 0 <= i < |HexOf(words)| ==> IsHex(HexOf(words)[i])
  {
    hide HexWord, IsHex;
    if words != [] {
      HexOfReads(words[..|words| - 1]);
      HexWordReads(words[|words| - 1] as nat);
    }
  }

  lemma HexOfSplits(a: seq<bv32>)
    requires a != []
    ensures
      var n := |a| - 1;
      && |HexOf(a)| == 8 * n + 8
      && HexOf(a)[8 * n..] == HexWord(a[n] as nat) && HexOf(a)[..8 * n] == HexOf(a[..n])
  {
    hide HexWord, IsHex;
    HexOfReads(a[..|a| - 1]);
    HexWordReads(a[|a| - 1] as nat);
  }

  /** Digits `8 * i` to `8 * i + 7` are those of word `i`. */
  lemma {:induction false} HexOfSpells(words: seq<bv32>, i: nat)
    requires i < |words|
    ensures |HexOf(words)| == 8 * |words|
    ensures
      var digits := HexOf(words)[8 * i..8 * i + 8];
      (forall k :: 0 <= k < 8 ==> IsHex(digits[k])) && HexValue(digits) == words[i] as nat
  {
    hide HexWord, IsHex, HexOf, HexValue;
    var n := |words| - 1;
    HexOfReads(words);
    HexOfSplits(words);
    var all := HexOf(words);
    if i < n {
      HexOfSpells(words[..n], i);
      assert all[8 * i..8 * i + 8] == all[..8 * n][8 * i..8 * i + 8];
      assert words[..n][i] == words[i];
    } else {
      HexWordReads(words[n] as nat);
      assert all[8 * i..8 * i + 8] == all[8 * n..];
    }
  }

  /** Different digests print differently. */
  lemma {:induction false} HexOfBinds(a: seq<bv32>, b: seq<bv32>)
    requires HexOf(a) == HexOf(b)
    ensures a == b
  {
    hide HexWord, IsHex, HexOf;
    HexOfReads(a);
    HexOfReads(b);
    assert |a| == |b|;
    if a != [] {
      var n := |a| - 1;
      HexOfSplits(a);
      HexOfSplits(b);
      SameWord(a[n], b[n]);
      HexOfBinds(a[..n], b[..n]);
      assert a == a[..n] + [a[n]] && b == b[..n] + [b[n]];
    }
  }

  lemma SameWord(x: bv32, y: bv32)
    requires HexWord(x as nat) == HexWord(y as nat)
    ensures x == y
  {
    hide HexWord, IsHex;
    HexWordReads(x as nat);
    HexWordReads(y as nat);
    assert (x as nat) as bv32 == x && (y as nat) as bv32 == y;
  }

  // Hashing block by block.

  lemma BlockAppended(h: seq<bv32>, m: seq<F.Octet>, block: seq<F.Octet>)
    requires |h| == 8 && |m| % 64 == 0 && |block| == 64
    ensures |m + block| % 64 == 0
    ensures F.HashBlocks(h, m + block) == F.Compress(F.HashBlocks(h, m), block)
  {
    hide F.Compress;
    var all := m + block;
    assert all[..|all| - 64] == m && all[|all| - 64..] == block;
  }

  /** One round with the source's word functions. */
  lemma RoundIs(v: F.Vars, k: bv32, w: bv32)
    ensures
      var t1 := F.Add(F.Add(F.Add(F.Add(v.h, BigSigma1(v.e)), Ch(v.e, v.f, v.g)), k), w);
      var t2 := F.Add(BigSigma0(v.a), Maj(v.a, v.b, v.c));
      F.Round(v, k, w) == F.Vars(F.Add(t1, t2), v.a, v.b, v.c, F.Add(v.d, t1), v.e, v.f, v.g)
  {
    hide BigSigma0, BigSigma1, Ch, Maj, F.BigSigma0, F.BigSigma1, F.Ch, F.Maj, F.Add;
    SigmasAreFips(v.e);
    SigmasAreFips(v.a);
    ChoosesAndVotes(v.e, v.f, v.g);
    ChoosesAndVotes(v.a, v.b, v.c);
  }

  lemma NoRounds(v: F.Vars, block: seq<F.Octet>)
    requires |block| == 64
    ensures F.Rounds(v, block, 0) == v
  {
  }

  lemma RoundsNext(v: F.Vars, block: seq<F.Octet>, n: nat)
    requires |block| == 64 && n < 64
    ensures F.Rounds(v, block, n + 1) == F.Round(F.Rounds(v, block, n), F.K(n), F.Schedule(block, n))
  {
    hide F.Round, F.Schedule, F.K;
  }

  // A message is whole blocks and a rest of fewer than 64 bytes.

  function Whole(m: seq<F.Octet>): seq<F.Octet>
  {
    m[..|m| - |m| % 64]
  }

  function Rest(m: seq<F.Octet>): seq<F.Octet>
  {
    m[|m| - |m| % 64..]
  }

  lemma WholeAligned(m: seq<F.Octet>)
    ensures |Whole(m)| % 64 == 0
  {
    var q, r := |m| / 64, |m| % 64;
    assert |m| == 64 * q + r;
  }

  lemma Remainder(n: nat, k: nat)
    requires n % 64 + k <= 64
    ensures (n + k) % 64 == if n % 64 + k == 64 then 0 else n % 64 + k
  {
    var q, r := n / 64, n % 64;
    assert n + k == 64 * q + (r + k);
    if r + k == 64 { assert n + k == 64 * (q + 1); }
  }

  /** Appending a piece that at most fills the buffer. */
  lemma PieceAppended(m: seq<F.Octet>, p: seq<F.Octet>)
    requires |m| % 64 + |p| <= 64
    ensures
      if |m| % 64 + |p| < 64 then Whole(m + p) == Whole(m) && Rest(m + p) == Rest(m) + p
      else Whole(m + p) == Whole(m) + (Rest(m) + p) && Rest(m + p) == []
  {
    Remainder(|m|, |p|);
    assert m == Whole(m) + Rest(m);
  }

  lemma OneLastBlock(m: seq<F.Octet>, bits: nat)
    requires |m| % 64 <= 55
    ensures F.PaddedWith(m, bits) == Whole(m) + (Rest(m) + [0x80] + F.Zeros(55 - |m| % 64) + F.LengthField(bits))
  {
    assert m == Whole(m) + Rest(m);
    assert F.ZeroBytes(|m|) == 55 - |m| % 64;
  }

  lemma TwoLastBlocks(m: seq<F.Octet>, bits: nat)
    requires |m| % 64 > 55
    ensures F.PaddedWith(m, bits)
            == Whole(m) + (Rest(m) + [0x80] + F.Zeros(63 - |m| % 64)) + (F.Zeros(56) + F.LengthField(bits))
  {
    assert m == Whole(m) + Rest(m);
    assert F.ZeroBytes(|m|) == 63 - |m| % 64 + 56;
    assert F.Zeros(63 - |m| % 64) + F.Zeros(56) == F.Zeros(F.ZeroBytes(|m|));
  }

  class Hasher {
    const state: array<bv32>
    const buffer: array<F.Octet>
    var bufferSize: nat
    var totalSize: nat
    ghost var message: seq<F.Octet>

    /** The state is that of the whole blocks seen so far; the buffer starts with the rest. */
    ghost predicate Buffered()
      reads this, state, buffer
    {
      WholeAligned(message);
      && state.Length == 8 && buffer.Length == 64
      && bufferSize == |message| % 64
      && buffer[..bufferSize] == Rest(message)
      && state[..] == F.HashBlocks(F.H0(), Whole(message))
    }

    ghost predicate Valid()
      reads this, state, buffer
    {
      Buffered() && totalSize == |message| % F.TWO_64
    }

    constructor ()
      ensures Valid() && message == [] && fresh(state) && fresh(buffer)
    {
      state := new bv32[8](i requires 0 <= i < 8 => F.H0()[i]);
      buffer := new F.Octet[64](_ => 0);
      bufferSize, totalSize := 0, 0;
      message := [];
      new;
      assert state[..] == F.H0();
      assert buffer[..0] == [];
    }

    method Transform(chunk: array<F.Octet>)
      requires state.Length == 8 && chunk.Length == 64
      modifies state
      ensures state[..] == F.Compress(old(state[..]), chunk[..])
    {
      hide BigSigma0, BigSigma1, SmallSigma0, SmallSigma1, Ch, Maj, F.BigSigma0, F.BigSigma1, F.SmallSigma0, F.SmallSigma1, F.Ch, F.Maj,
        F.Schedule, F.Add, F.Rounds, F.Round, F.K;
      ghost var block := chunk[..];
      ghost var before := state[..];
      NoRounds(F.VarsOf(before), block);
      var schedule := ExpandedSchedule(chunk);
      var a, b, c, d, e, f, g, h := state[0], state[1], state[2], state[3], state[4], state[5], state[6], state[7];
      for index := 0 to 64
        invariant state[..] == before
        invariant forall t :: 0 <= t < 64 ==> schedule[t] == F.Schedule(block, t)
        invariant F.Vars(a, b, c, d, e, f, g, h) == F.Rounds(F.VarsOf(before), block, index)
      {
        RoundIs(F.Vars(a, b, c, d, e, f, g, h), F.K(index), schedule[index]);
        RoundsNext(F.VarsOf(before), block, index);
        var t1 := F.Add(F.Add(F.Add(F.Add(h, BigSigma1(e)), Ch(e, f, g)), F.K(index)), schedule[index]);
        var t2 := F.Add(BigSigma0(a), Maj(a, b, c));
        h := g;
        g := f;
        f := e;
        e := F.Add(d, t1);
        d := c;
        c := b;
        b := a;
        a := F.Add(t1, t2);
      }
      AddToState(F.Vars(a, b, c, d, e, f, g, h));
    }

    method AddToState(v: F.Vars)
      requires state.Length == 8
      modifies state
      ensures state[..] == [F.Add(v.a, old(state[0])), F.Add(v.b, old(state[1])), F.Add(v.c, old(state[2])), F.Add(v.d, old(state[3])),
                            F.Add(v.e, old(state[4])), F.Add(v.f, old(state[5])), F.Add(v.g, old(state[6])), F.Add(v.h, old(state[7]))]
    {
      hide F.Add;
      state[0], state[1], state[2], state[3] := F.Add(v.a, state[0]), F.Add(v.b, state[1]), F.Add(v.c, state[2]), F.Add(v.d, state[3]);
      state[4], state[5], state[6], state[7] := F.Add(v.e, state[4]), F.Add(v.f, state[5]), F.Add(v.g, state[6]), F.Add(v.h, state[7]);
    }

    /** Appends to the message, whatever the sizes of the pieces it arrives in. */
    method Update(data: seq<F.Octet>)
      requires Valid()
      modifies this, state, buffer
      ensures Valid() && message == old(message) + data
    {
      hide F.HashBlocks, Whole, Rest, F.H0;
      totalSize := (totalSize + |data|) % F.TWO_64;
      var offset := 0;
      while offset < |data|
        invariant 0 <= offset <= |data|
        invariant Buffered() && message == old(message) + data[..offset]
        invariant totalSize == (old(totalSize) + |data|) % F.TWO_64
      {
        var chunk := Min(if bufferSize < 64 then 64 - bufferSize else 0, |data| - offset);
        Take(data[offset..offset + chunk]);
        offset := offset + chunk;
      }
      SizesAdd(|old(message)|, |data|);
    }

    /** A piece that fits the buffer goes into it; a full buffer is hashed. */
    method Take(piece: seq<F.Octet>)
      requires Buffered() && bufferSize + |piece| <= 64
      modifies this, state, buffer
      ensures Buffered() && message == old(message) + piece && totalSize == old(totalSize)
    {
      hide F.HashBlocks, F.Compress, Whole, Rest, F.H0;
      PieceAppended(message, piece);
      Remainder(|message|, |piece|);
      WholeAligned(message);
      WholeAligned(message + piece);
      CopyInto(buffer, bufferSize, piece);
      bufferSize := bufferSize + |piece|;
      assert buffer[..bufferSize] == Rest(message) + piece;
      if bufferSize == 64 {
        assert buffer[..] == Rest(message) + piece;
        BlockAppended(F.H0(), Whole(message), Rest(message) + piece);
        Transform(buffer);
        bufferSize := 0;
        assert buffer[..bufferSize] == [];
      }
      message := message + piece;
    }

    /** The digest in hexadecimal, for a length field that wraps at 64 bits. The state is used up. */
    method FinalHex() returns (hex: string)
      requires Valid()
      modifies state
      ensures hex == HexOf(F.DigestWith(message, (8 * |message|) % F.TWO_64))
    {
      hide F.HashBlocks, F.Compress, Whole, Rest, HexOf, F.LengthField, F.PaddedWith, F.H0;
      var bits := (totalSize * 8) % F.TWO_64;
      BitsWrap(|message|);
      WholeAligned(message);
      PaddedParts(message, bits);
      var finalBlock, finalSize := Marked();
      if finalSize > 56 {
        FinishBlock(finalBlock, finalSize);
        FillZero(finalBlock, 0, 64);
        finalSize := 0;
        assert finalBlock[..finalSize] == [];
      }
      assert state[..] == F.HashBlocks(F.H0(), Front(message));
      FillZero(finalBlock, finalSize, 56);
      assert finalBlock[..56] == finalBlock[..finalSize] + F.Zeros(56 - finalSize);
      PutLength(finalBlock, bits);
      assert finalBlock[..] == finalBlock[..56] + finalBlock[56..];
      assert finalBlock[..] == LastBlock(message, bits);
      Transform(finalBlock);
      hex := HexOf(state[..]);
    }

    /** A copy of the buffer with the one bit behind the rest of the message. */
    method Marked() returns (block: array<F.Octet>, size: nat)
      requires Valid()
      ensures fresh(block) && block.Length == 64 && size == bufferSize + 1 <= 64
      ensures block[..size] == Rest(message) + [0x80]
    {
      hide F.HashBlocks, Whole, Rest, F.H0;
      block := new F.Octet[64](i requires 0 <= i < 64 reads this, buffer => buffer[i]);
      size := bufferSize;
      assert block[..size] == Rest(message);
      block[size] := 0x80;
      size := size + 1;
    }

    /** With no room for the length, the block is filled up with zeros and hashed. */
    method FinishBlock(block: array<F.Octet>, size: nat)
      requires Valid() && block.Length == 64 && 56 < size <= 64 && size == bufferSize + 1
      requires block as object != state && block as object != buffer
      requires block[..size] == Rest(message) + [0x80]
      modifies state, block
      ensures |Front(message)| % 64 == 0
      ensures state[..] == F.HashBlocks(F.H0(), Front(message))
    {
      hide F.HashBlocks, F.Compress, Whole, Rest, F.H0;
      WholeAligned(message);
      FillZero(block, size, 64);
      ghost var first := Rest(message) + [0x80] + F.Zeros(63 - |message| % 64);
      assert block[..] == block[..size] + F.Zeros(64 - size);
      assert block[..] == first;
      BlockAppended(F.H0(), Whole(message), first);
      Transform(block);
    }
  }

  /** The padded message without its last block. */
  function Front(m: seq<F.Octet>): seq<F.Octet>
  {
    if |m| % 64 <= 55 then Whole(m) else Whole(m) + (Rest(m) + [0x80] + F.Zeros(63 - |m| % 64))
  }

  function LastBlock(m: seq<F.Octet>, bits: nat): seq<F.Octet>
  {
    (if |m| % 64 <= 55 then Rest(m) + [0x80] + F.Zeros(55 - |m| % 64) else F.Zeros(56)) + F.LengthField(bits)
  }

  lemma PaddedParts(m: seq<F.Octet>, bits: nat)
    ensures |Front(m)| % 64 == 0 && |LastBlock(m, bits)| == 64
    ensures F.DigestWith(m, bits) == F.Compress(F.HashBlocks(F.H0(), Front(m)), LastBlock(m, bits))
  {
    hide F.HashBlocks, F.Compress, F.PaddedWith, F.LengthField, F.H0;
    F.PaddedAligned(m, bits);
    WholeAligned(m);
    if |m| % 64 <= 55 {
      OneLastBlock(m, bits);
    } else {
      TwoLastBlocks(m, bits);
      FrontAligned(|Whole(m)|);
    }
    BlockAppended(F.H0(), Front(m), LastBlock(m, bits));
  }

  lemma FrontAligned(n: nat)
    requires n % 64 == 0
    ensures (n + 64) % 64 == 0
  {
  }

  function Min(a: int, b: int): (r: int)
    ensures r <= a && r <= b && (r == a || r == b)
  {
    if a < b then a else b
  }

  lemma SizesAdd(a: nat, b: nat)
    ensures (a % F.TWO_64 + b) % F.TWO_64 == (a + b) % F.TWO_64
  {
    var q := a / F.TWO_64;
    assert a == F.TWO_64 * q + a % F.TWO_64;
    WrapsAround(a % F.TWO_64 + b, q);
  }

  lemma WrapsAround(x: nat, q: nat)
    ensures (x + F.TWO_64 * q) % F.TWO_64 == x % F.TWO_64
  {
    var p := x / F.TWO_64;
    assert x + F.TWO_64 * q == F.TWO_64 * (p + q) + x % F.TWO_64;
  }

  lemma BitsWrap(n: nat)
    ensures ((n % F.TWO_64) * 8) % F.TWO_64 == (8 * n) % F.TWO_64
  {
    var q := n / F.TWO_64;
    assert 8 * n == (n % F.TWO_64) * 8 + F.TWO_64 * (8 * q);
    WrapsAround((n % F.TWO_64) * 8, 8 * q);
  }

  method CopyInto(buffer: array<F.Octet>, offset: nat, data: seq<F.Octet>)
    requires offset + |data| <= buffer.Length
    modifies buffer
    ensures buffer[..offset] == old(buffer[..offset]) && buffer[offset..offset + |data|] == data
  {
    for i := 0 to |data|
      invariant forall k :: 0 <= k < offset ==> buffer[k] == old(buffer[k])
      invariant forall k :: 0 <= k < i ==> buffer[offset + k] == data[k]
    {
      buffer[offset + i] := data[i];
    }
  }

  method FillZero(buffer: array<F.Octet>, lo: nat, hi: nat)
    requires lo <= hi <= buffer.Length
    modifies buffer
    ensures forall k :: 0 <= k < buffer.Length ==> buffer[k] == if lo <= k < hi then 0 else old(buffer[k])
  {
    for i := lo to hi
      invariant forall k :: 0 <= k < buffer.Length ==> buffer[k] == if lo <= k < i then 0 else old(buffer[k])
    {
      buffer[i] := 0;
    }
  }

  /** The bit length, big-endian, in the last eight bytes. */
  method PutLength(block: array<F.Octet>, bits: nat)
    requires block.Length == 64
    modifies block
    ensures block[..56] == old(block[..56]) && block[56..] == F.LengthField(bits)
  {
    hide F.ByteOf;
    for index := 0 to 8
      invariant forall k :: 0 <= k < 56 ==> block[k] == old(block[k])
      invariant forall k :: 0 <= k < index ==> block[63 - k] == F.ByteOf(bits, k)
    {
      block[63 - index] := F.ByteOf(bits, index);
    }
    forall i | 0 <= i < 8 ensures block[56 + i] == F.LengthField(bits)[i] {
      assert block[63 - (7 - i)] == F.ByteOf(bits, 7 - i);
    }
  }

  function Concat(chunks: seq<seq<F.Octet>>): seq<F.Octet>
  {
    if chunks == [] then [] else Concat(chunks[..|chunks| - 1]) + chunks[|chunks| - 1]
  }

  /** A file read in chunks of any sizes: 64 lowercase digits that print the digest of its contents. */
  method Sha256File(chunks: seq<seq<F.Octet>>) returns (hex: string)
    ensures hex == HexOf(F.DigestWith(Concat(chunks), (8 * |Concat(chunks)|) % F.TWO_64))
    ensures 8 * |Concat(chunks)| < F.TWO_64 ==> hex == HexOf(F.Digest(Concat(chunks)))
    ensures |hex| == 64 && forall i :: 0 <= i < 64 ==> IsHex(hex[i])
  {
    hide HexOf, F.HashBlocks, F.PaddedWith, F.DigestWith, F.Digest, IsHex, F.H0;
    var hasher := new Hasher();
    for i := 0 to |chunks|
      invariant fresh(hasher) && fresh(hasher.state) && fresh(hasher.buffer)
      invariant hasher.Valid() && hasher.message == Concat(chunks[..i])
    {
      assert chunks[..i + 1][..i] == chunks[..i];
      hasher.Update(chunks[i]);
    }
    assert chunks[..|chunks|] == chunks;
    hex := hasher.FinalHex();
    if 8 * |Concat(chunks)| < F.TWO_64 {
      F.ShortDigest(Concat(chunks));
    }
    HexOfReads(F.DigestWith(Concat(chunks), (8 * |Concat(chunks)|) % F.TWO_64));
  }

  method Sha256Text(text: seq<F.Octet>) returns (hex: string)
    ensures 8 * |text| < F.TWO_64 ==> hex == HexOf(F.Digest(text))
    ensures |hex| == 64 && forall i :: 0 <= i < 64 ==> IsHex(hex[i])
  {
    hide HexOf, F.HashBlocks, F.PaddedWith, F.DigestWith, F.Digest, IsHex, F.H0;
    var hasher := new Hasher();
    hasher.Update(text);
    assert [] + text == text;
    hex := hasher.FinalHex();
    if 8 * |text| < F.TWO_64 {
      F.ShortDigest(text);
    }
    HexOfReads(F.DigestWith(text, (8 * |text|) % F.TWO_64));
  }

  /** The message schedule of a block: its sixteen words, then each further word from four earlier ones. */
  method ExpandedSchedule(chunk: array<F.Octet>) returns (schedule: array<bv32>)
    requires chunk.Length == 64
    ensures fresh(schedule) && schedule.Length == 64
    ensures forall t :: 0 <= t < 64 ==> schedule[t] == F.Schedule(chunk[..], t)
  {
    hide SmallSigma0, SmallSigma1, F.Schedule, F.Add, F.BigEndian;
    schedule := new bv32[64](_ => 0);
    ghost var block := chunk[..];
    for index := 0 to 16
      invariant forall t :: 0 <= t < index ==> schedule[t] == F.Schedule(block, t)
    {
      var base := index * 4;
      FirstWords(block, index);
      schedule[index] := F.BigEndian(chunk[base], chunk[base + 1], chunk[base + 2], chunk[base + 3]);
    }
    for index := 16 to 64
      invariant forall t :: 0 <= t < index ==> schedule[t] == F.Schedule(block, t)
    {
      LaterWords(block, index);
      schedule[index] := F.Add(F.Add(F.Add(SmallSigma1(schedule[index - 2]), schedule[index - 7]),
                                     SmallSigma0(schedule[index - 15])), schedule[index - 16]);
    }
  }

  lemma FirstWords(block: seq<F.Octet>, t: nat)
    requires |block| == 64 && t < 16
    ensures F.Schedule(block, t) == F.BigEndian(block[4 * t], block[4 * t + 1], block[4 * t + 2], block[4 * t + 3])
  {
    hide F.BigEndian;
  }

  lemma LaterWords(block: seq<F.Octet>, t: nat)
    requires |block| == 64 && 16 <= t < 64
    ensures F.Schedule(block, t)
            == F.Add(F.Add(F.Add(SmallSigma1(F.Schedule(block, t - 2)), F.Schedule(block, t - 7)),
                           SmallSigma0(F.Schedule(block, t - 15))), F.Schedule(block, t - 16))
  {
    hide SmallSigma0, SmallSigma1, F.SmallSigma0, F.SmallSigma1, F.Add, F.WordAt;
    SigmasAreFips(F.Schedule(block, t - 2));
    SigmasAreFips(F.Schedule(block, t - 15));
  }
}
