/** SHA-256 as FIPS 180-4 defines it: functions and constants (4.1.2, 4.2.2), padding, parsing, hashing. */
module Fips180 {
  import opened Counting
  import opened Primes

  type Octet = bv8

  /** Addition modulo 2^32. */
  function Add(x: bv32, y: bv32): bv32 { x + y }

  function Xor3(x: bv32, y: bv32, z: bv32): bv32 { x ^ y ^ z }

  lemma AddWraps(x: bv32, y: bv32)
    ensures Add(x, y) == x + y
  {
  }

  // Section 4.1.2.

  function Ch(x: bv32, y: bv32, z: bv32): bv32 { (x & y) ^ (!x & z) }

  function Maj(x: bv32, y: bv32, z: bv32): bv32 { (x & y) ^ (x & z) ^ (y & z) }

  function BigSigma0(x: bv32): bv32 { Xor3(x.RotateRight(2), x.RotateRight(13), x.RotateRight(22)) }

  function BigSigma1(x: bv32): bv32 { Xor3(x.RotateRight(6), x.RotateRight(11), x.RotateRight(25)) }

  function SmallSigma0(x: bv32): bv32 { Xor3(x.RotateRight(7), x.RotateRight(18), x >> 3) }

  function SmallSigma1(x: bv32): bv32 { Xor3(x.RotateRight(17), x.RotateRight(19), x >> 10) }

  // Section 4.2.2: the first 32 bits behind the point of the cube roots of the first 64 primes.

  function Word(w: nat): bv32
    requires w < 0x1_0000_0000
  {
    w as bv32
  }

  datatype Root = Root(radicand: nat, whole: nat, fraction: nat)

  /** The integer `n` and the fraction `w` / 2^32, cut off there, are the cube root of `p`. */
  predicate CubeRootIs(p: nat, n: nat, w: nat)
  {
    var x := n * 0x1_0000_0000 + w;
    w < 0x1_0000_0000 && x * x * x <= p * 0x1_0000_0000_0000_0000_0000_0000 < (x + 1) * (x + 1) * (x + 1)
  }

  type CubeRoot = r: Root | CubeRootIs(r.radicand, r.whole, r.fraction) witness Root(1, 1, 0)

  const CUBE_ROOTS_0: seq<CubeRoot> := [
    Root(2, 1, 0x428a2f98), Root(3, 1, 0x71374491), Root(5, 1, 0xb5c0fbcf), Root(7, 1, 0xe9b5dba5),
    Root(11, 2, 0x3956c25b), Root(13, 2, 0x59f111f1), Root(17, 2, 0x923f82a4), Root(19, 2, 0xab1c5ed5)]

  const CUBE_ROOTS_1: seq<CubeRoot> := [
    Root(23, 2, 0xd807aa98), Root(29, 3, 0x12835b01), Root(31, 3, 0x243185be), Root(37, 3, 0x550c7dc3),
    Root(41, 3, 0x72be5d74), Root(43, 3, 0x80deb1fe), Root(47, 3, 0x9bdc06a7), Root(53, 3, 0xc19bf174)]

  const CUBE_ROOTS_2: seq<CubeRoot> := [
    Root(59, 3, 0xe49b69c1), Root(61, 3, 0xefbe4786), Root(67, 4, 0x0fc19dc6), Root(71, 4, 0x240ca1cc),
    Root(73, 4, 0x2de92c6f), Root(79, 4, 0x4a7484aa), Root(83, 4, 0x5cb0a9dc), Root(89, 4, 0x76f988da)]

  const CUBE_ROOTS_3: seq<CubeRoot> := [
    Root(97, 4, 0x983e5152), Root(101, 4, 0xa831c66d), Root(103, 4, 0xb00327c8), Root(107, 4, 0xbf597fc7),
    Root(109, 4, 0xc6e00bf3), Root(113, 4, 0xd5a79147), Root(127, 5, 0x06ca6351), Root(131, 5, 0x14292967)]

  const CUBE_ROOTS_4: seq<CubeRoot> := [
    Root(137, 5, 0x27b70a85), Root(139, 5, 0x2e1b2138), Root(149, 5, 0x4d2c6dfc), Root(151, 5, 0x53380d13),
    Root(157, 5, 0x650a7354), Root(163, 5, 0x766a0abb), Root(167, 5, 0x81c2c92e), Root(173, 5, 0x92722c85)]

  const CUBE_ROOTS_5: seq<CubeRoot> := [
    Root(179, 5, 0xa2bfe8a1), Root(181, 5, 0xa81a664b), Root(191, 5, 0xc24b8b70), Root(193, 5, 0xc76c51a3),
    Root(197, 5, 0xd192e819), Root(199, 5, 0xd6990624), Root(211, 5, 0xf40e3585), Root(223, 6, 0x106aa070)]

  const CUBE_ROOTS_6: seq<CubeRoot> := [
    Root(227, 6, 0x19a4c116), Root(229, 6, 0x1e376c08), Root(233, 6, 0x2748774c), Root(239, 6, 0x34b0bcb5),
    Root(241, 6, 0x391c0cb3), Root(251, 6, 0x4ed8aa4a), Root(257, 6, 0x5b9cca4f), Root(263, 6, 0x682e6ff3)]

  const CUBE_ROOTS_7: seq<CubeRoot> := [
    Root(269, 6, 0x748f82ee), Root(271, 6, 0x78a5636f), Root(277, 6, 0x84c87814), Root(281, 6, 0x8cc70208),
    Root(283, 6, 0x90befffa), Root(293, 6, 0xa4506ceb), Root(307, 6, 0xbef9a3f7), Root(311, 6, 0xc67178f2)]

  function CubeRootRow(i: nat): (row: seq<CubeRoot>)
    ensures |row| == 8
  {
    match i
    case 0 => CUBE_ROOTS_0
    case 1 => CUBE_ROOTS_1
    case 2 => CUBE_ROOTS_2
    case 3 => CUBE_ROOTS_3
    case 4 => CUBE_ROOTS_4
    case 5 => CUBE_ROOTS_5
    case 6 => CUBE_ROOTS_6
    case _ => CUBE_ROOTS_7
  }

  function CubeRootAt(t: nat): CubeRoot
  {
    CubeRootRow(t / 8)[t % 8]
  }

  function K(t: nat): bv32 { Word(CubeRootAt(t).fraction) }

  /** `row` goes on with the primes where `before` ends. */
  ghost predicate PrimesFrom(row: seq<CubeRoot>, before: nat)
  {
    && |row| == 8 && NextPrime(before, row[0].radicand)
    && forall j :: 0 <= j < 7 ==> NextPrime(row[j].radicand, row[j + 1].radicand)
  }

  lemma LowRows()
    ensures PrimesFrom(CUBE_ROOTS_0, 0) && PrimesFrom(CUBE_ROOTS_1, CUBE_ROOTS_0[7].radicand)
    ensures PrimesFrom(CUBE_ROOTS_2, CUBE_ROOTS_1[7].radicand) && PrimesFrom(CUBE_ROOTS_3, CUBE_ROOTS_2[7].radicand)
  {
    hide NextPrime;
    PrimesTo19();
    PrimesTo53();
    PrimesTo89();
    PrimesTo131();
  }

  lemma HighRows()
    ensures PrimesFrom(CUBE_ROOTS_4, CUBE_ROOTS_3[7].radicand) && PrimesFrom(CUBE_ROOTS_5, CUBE_ROOTS_4[7].radicand)
    ensures PrimesFrom(CUBE_ROOTS_6, CUBE_ROOTS_5[7].radicand) && PrimesFrom(CUBE_ROOTS_7, CUBE_ROOTS_6[7].radicand)
  {
    hide NextPrime;
    PrimesTo173();
    PrimesTo223();
    PrimesTo263();
    PrimesTo311();
  }

  lemma NextRadicand(t: nat)
    requires t < 64
    ensures NextPrime(if t == 0 then 0 else CubeRootAt(t - 1).radicand, CubeRootAt(t).radicand)
  {
    hide NextPrime, CubeRootIs;
    LowRows();
    HighRows();
    var i, j := t / 8, t % 8;
    assert t == 8 * i + j;
    assert PrimesFrom(CubeRootRow(i), if i == 0 then 0 else CubeRootRow(i - 1)[7].radicand);
    if j > 0 {
      assert (t - 1) / 8 == i && (t - 1) % 8 == j - 1;
    } else if i > 0 {
      assert (t - 1) / 8 == i - 1 && (t - 1) % 8 == 7;
    }
  }

  lemma {:induction false} RadicandIsPrime(t: nat)
    requires t < 64
    ensures NthPrime(t, CubeRootAt(t).radicand)
  {
    hide NextPrime, CubeRootAt;
    NextRadicand(t);
    if t > 0 {
      RadicandIsPrime(t - 1);
    }
  }

  /** Constant `t` is the 32 bits behind the point of the cube root of the prime with `t` primes below it. */
  lemma RoundConstants(t: nat)
    requires t < 64
    ensures exists p, n, w :: NthPrime(t, p) && CubeRootIs(p, n, w) && w < 0x1_0000_0000 && K(t) == Word(w)
  {
    hide NthPrime, CubeRootAt, Word;
    RadicandIsPrime(t);
    var r := CubeRootAt(t);
    assert NthPrime(t, r.radicand) && CubeRootIs(r.radicand, r.whole, r.fraction) && K(t) == Word(r.fraction);
  }

  // Section 5.3.3: the same of the square roots of the first eight primes.

  predicate SquareRootIs(p: nat, n: nat, w: nat)
  {
    var x := n * 0x1_0000_0000 + w;
    w < 0x1_0000_0000 && x * x <= p * 0x1_0000_0000_0000_0000 < (x + 1) * (x + 1)
  }

  type SquareRoot = r: Root | SquareRootIs(r.radicand, r.whole, r.fraction) witness Root(1, 1, 0)

  const SQUARE_ROOTS: seq<SquareRoot> := [
    Root(2, 1, 0x6a09e667), Root(3, 1, 0xbb67ae85), Root(5, 2, 0x3c6ef372), Root(7, 2, 0xa54ff53a),
    Root(11, 3, 0x510e527f), Root(13, 3, 0x9b05688c), Root(17, 4, 0x1f83d9ab), Root(19, 4, 0x5be0cd19)]

  function SquareRootAt(i: nat): SquareRoot
    requires i < 8
  {
    SQUARE_ROOTS[i]
  }

  function HashWord(i: nat): bv32
    requires i < 8
  {
    Word(SquareRootAt(i).fraction)
  }

  function H0(): (h: seq<bv32>)
    ensures |h| == 8
  {
    [HashWord(0), HashWord(1), HashWord(2), HashWord(3), HashWord(4), HashWord(5), HashWord(6), HashWord(7)]
  }

  lemma SameRadicands(i: nat)
    requires i < 8
    ensures SquareRootAt(i).radicand == CubeRootAt(i).radicand
  {
  }

  lemma InitialHash(i: nat)
    requires i < 8
    ensures exists p, n, w :: NthPrime(i, p) && SquareRootIs(p, n, w) && w < 0x1_0000_0000 && H0()[i] == Word(w)
  {
    hide NthPrime, CubeRootAt, SquareRootAt, Word;
    RadicandIsPrime(i);
    SameRadicands(i);
    var r := SquareRootAt(i);
    assert NthPrime(i, r.radicand) && SquareRootIs(r.radicand, r.whole, r.fraction) && H0()[i] == Word(r.fraction);
  }

  // Section 5.1.1, on whole bytes: a one bit, the fewest zero bits, and the length in 64 bits.

  const TWO_64: nat := 0x1_0000_0000_0000_0000

  function ZeroBytes(n: nat): nat
  {
    (119 - n % 64) % 64
  }

  /** No smaller number of zero bytes fills the last block up to its length field. */
  lemma ZeroBytesLeast(n: nat, y: nat)
    ensures (n + 1 + ZeroBytes(n)) % 64 == 56
    ensures (n + 1 + y) % 64 == 56 ==> ZeroBytes(n) <= y
  {
    var q, r := n / 64, n % 64;
    if r <= 55 {
      Mod64(n + 1 + ZeroBytes(n), q, 56);
      if y < 55 - r { Mod64(n + 1 + y, q, r + 1 + y); }
    } else {
      Mod64(n + 1 + ZeroBytes(n), q + 1, 56);
      if y < 63 - r { Mod64(n + 1 + y, q, r + 1 + y); }
      else if y < 119 - r { Mod64(n + 1 + y, q + 1, r + 1 + y - 64); }
    }
  }

  lemma Mod64(n: int, q: int, r: int)
    requires n == 64 * q + r && 0 <= r < 64
    ensures n % 64 == r
  {
  }

  function Pow256(n: nat): (r: nat)
    ensures r >= 1
  {
    if n == 0 then 1 else 256 * Pow256(n - 1)
  }

  /** Byte `i` of `v`, counted from the least significant one. */
  function ByteOf(v: nat, i: nat): Octet
  {
    Byte((v / Pow256(i)) % 256)
  }

  function Byte(n: nat): Octet
    requires n < 256
  {
    n as bv8
  }

  function LengthField(bits: nat): (f: seq<Octet>)
    ensures |f| == 8
  {
    seq(8, i requires 0 <= i < 8 => ByteOf(bits, 7 - i))
  }

  /** The number that bytes spell, most significant first. */
  function Number(digits: seq<nat>): nat
  {
    if digits == [] then 0 else 256 * Number(digits[..|digits| - 1]) + digits[|digits| - 1]
  }

  function Digits(v: nat): (digits: seq<nat>)
    ensures |digits| == 8 && forall i :: 0 <= i < 8 ==> digits[i] == (v / Pow256(7 - i)) % 256
  {
    seq(8, i requires 0 <= i < 8 => (v / Pow256(7 - i)) % 256)
  }

  /** The first `n` bytes spell the number without its last `8 - n` bytes. */
  lemma {:induction false} LeadingDigits(v: nat, n: nat)
    requires n <= 8 && v < Pow256(8)
    ensures Number(Digits(v)[..n]) == v / Pow256(8 - n)
  {
    hide Digits;
    if n == 0 {
      BelowIsZero(v, Pow256(8));
    } else {
      LeadingDigits(v, n - 1);
      var f := Digits(v)[..n];
      assert f[..n - 1] == Digits(v)[..n - 1] && f[n - 1] == (v / Pow256(8 - n)) % 256;
      DivTwice(v, Pow256(8 - n));
    }
  }

  lemma BelowIsZero(v: nat, m: nat)
    requires v < m
    ensures v / m == 0
  {
  }

  lemma DivTwice(v: nat, p: nat)
    requires p > 0
    ensures v / p == 256 * (v / (256 * p)) + (v / p) % 256
  {
    var q, r := v / p, v % p;
    var d, e := q / 256, q % 256;
    Scaled(p, d, e, r);
    assert v == p * q + r;
    DivUnique(v, 256 * p, d, p * e + r);
  }

  lemma Scaled(p: nat, d: nat, e: nat, r: nat)
    requires e < 256 && r < p
    ensures p * (256 * d + e) + r == 256 * p * d + (p * e + r)
    ensures p * e + r < 256 * p
  {
    MulMonotone(e, 255, p);
  }

  /** The bytes of the length field spell the length, which 64 bits hold. */
  lemma LengthFieldReads(bits: nat)
    requires bits < TWO_64
    ensures TWO_64 == Pow256(8)
    ensures exists digits: seq<nat> ::
              && |digits| == 8 && Number(digits) == bits
              && forall i :: 0 <= i < 8 ==> digits[i] < 256 && LengthField(bits)[i] == Byte(digits[i])
  {
    hide Number, Byte;
    assert Pow256(8) == 256 * Pow256(7) && Pow256(7) == 256 * Pow256(6) && Pow256(6) == 256 * Pow256(5) && Pow256(5) == 256 * Pow256(4);
    assert Pow256(4) == 256 * Pow256(3) && Pow256(3) == 256 * Pow256(2) && Pow256(2) == 256 * Pow256(1) && Pow256(1) == 256;
    LeadingDigits(bits, 8);
    assert Digits(bits)[..8] == Digits(bits) && Pow256(0) == 1;
  }

  function Zeros(n: nat): (z: seq<Octet>)
    ensures |z| == n && forall i :: 0 <= i < n ==> z[i] == 0
  {
    seq(n, _ => 0)
  }

  function PaddedWith(m: seq<Octet>, bits: nat): seq<Octet>
  {
    m + [0x80] + Zeros(ZeroBytes(|m|)) + LengthField(bits)
  }

  function Padded(m: seq<Octet>): seq<Octet>
    requires 8 * |m| < TWO_64
  {
    PaddedWith(m, 8 * |m|)
  }

  lemma PaddedAligned(m: seq<Octet>, bits: nat)
    ensures |PaddedWith(m, bits)| % 64 == 0
  {
    hide ZeroBytes, LengthField, Zeros;
    var n := |m| + 1 + ZeroBytes(|m|);
    ZeroBytesLeast(|m|, 0);
    assert |PaddedWith(m, bits)| == n + 8;
    Mod64(n + 8, n / 64 + 1, 0);
  }

  // Sections 5.2.1 and 6.2.2.

  function BigEndian(b0: Octet, b1: Octet, b2: Octet, b3: Octet): bv32
  {
    ((b0 as bv32) << 24) | ((b1 as bv32) << 16) | ((b2 as bv32) << 8) | (b3 as bv32)
  }

  lemma BigEndianReads(b0: Octet, b1: Octet, b2: Octet, b3: Octet)
    ensures
      var w := BigEndian(b0, b1, b2, b3);
      && w >> 24 == b0 as bv32 && (w >> 16) & 0xff == b1 as bv32 && (w >> 8) & 0xff == b2 as bv32 && w & 0xff == b3 as bv32
  {
  }

  function WordAt(block: seq<Octet>, t: nat): bv32
    requires |block| == 64 && t < 16
  {
    BigEndian(block[4 * t], block[4 * t + 1], block[4 * t + 2], block[4 * t + 3])
  }

  function Schedule(block: seq<Octet>, t: nat): bv32
    requires |block| == 64 && t < 64
  {
    if t < 16 then WordAt(block, t)
    else Mixed(Schedule(block, t - 2), Schedule(block, t - 7), Schedule(block, t - 15), Schedule(block, t - 16))
  }

  function Mixed(w2: bv32, w7: bv32, w15: bv32, w16: bv32): bv32
  {
    Add(Add(Add(SmallSigma1(w2), w7), SmallSigma0(w15)), w16)
  }

  datatype Vars = Vars(a: bv32, b: bv32, c: bv32, d: bv32, e: bv32, f: bv32, g: bv32, h: bv32)

  function T1(e: bv32, f: bv32, g: bv32, h: bv32, k: bv32, w: bv32): bv32
  {
    Add(Add(Add(Add(h, BigSigma1(e)), Ch(e, f, g)), k), w)
  }

  function T2(a: bv32, b: bv32, c: bv32): bv32
  {
    Add(BigSigma0(a), Maj(a, b, c))
  }

  function Round(v: Vars, k: bv32, w: bv32): Vars
  {
    var t1 := T1(v.e, v.f, v.g, v.h, k, w);
    var t2 := T2(v.a, v.b, v.c);
    Vars(Add(t1, t2), v.a, v.b, v.c, Add(v.d, t1), v.e, v.f, v.g)
  }

  function Rounds(v: Vars, block: seq<Octet>, n: nat): Vars
    requires |block| == 64 && n <= 64
  {
    if n == 0 then v else Round(Rounds(v, block, n - 1), K(n - 1), Schedule(block, n - 1))
  }

  function VarsOf(h: seq<bv32>): Vars
    requires |h| == 8
  {
    Vars(h[0], h[1], h[2], h[3], h[4], h[5], h[6], h[7])
  }

  function Compress(h: seq<bv32>, block: seq<Octet>): (r: seq<bv32>)
    requires |h| == 8 && |block| == 64
    ensures |r| == 8
  {
    var v := Rounds(VarsOf(h), block, 64);
    [Add(v.a, h[0]), Add(v.b, h[1]), Add(v.c, h[2]), Add(v.d, h[3]), Add(v.e, h[4]), Add(v.f, h[5]), Add(v.g, h[6]), Add(v.h, h[7])]
  }

  function HashBlocks(h: seq<bv32>, m: seq<Octet>): (r: seq<bv32>)
    requires |h| == 8 && |m| % 64 == 0
    ensures |r| == 8
  {
    if m == [] then h else
    Compress(HashBlocks(h, m[..|m| - 64]), m[|m| - 64..])
  }

  function DigestWith(m: seq<Octet>, bits: nat): (r: seq<bv32>)
    ensures |r| == 8
  {
    PaddedAligned(m, bits);
    HashBlocks(H0(), PaddedWith(m, bits))
  }

  /** The digest of a message of fewer than 2^64 bits. */
  function Digest(m: seq<Octet>): (r: seq<bv32>)
    requires 8 * |m| < TWO_64
    ensures |r| == 8
  {
    PaddedAligned(m, 8 * |m|);
    HashBlocks(H0(), Padded(m))
  }

  /** Below 2^64 bits the wrapped length field is the length. */
  lemma ShortDigest(m: seq<Octet>)
    requires 8 * |m| < TWO_64
    ensures DigestWith(m, (8 * |m|) % TWO_64) == Digest(m)
  {
    hide HashBlocks, PaddedWith;
    assert (8 * |m|) % TWO_64 == 8 * |m|;
  }
}
