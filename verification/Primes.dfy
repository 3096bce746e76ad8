/** The primes below 361, by their lack of a prime factor below 19. */
module Primes {
  import opened Counting

  predicate Prime(p: nat)
  {
    p >= 2 && forall d :: 2 <= d < p ==> p % d != 0
  }

  predicate SmallFactor(q: nat)
  {
    q % 2 == 0 || q % 3 == 0 || q % 5 == 0 || q % 7 == 0 || q % 11 == 0 || q % 13 == 0 || q % 17 == 0
  }

  lemma Multiple(a: nat, k: nat)
    requires a > 0
    ensures (a * k) % a == 0
  {
    DivUnique(a * k, a, k, 0);
  }

  lemma Factor(q: nat, a: nat, b: nat)
    requires a > 0 && b > 0 && a * b > 0 && q % (a * b) == 0
    ensures q % a == 0
  {
    var k := q / (a * b);
    assert q == (a * b) * k == a * (b * k);
    Multiple(a, b * k);
  }

  lemma SmallDivisor(q: nat, d: nat)
    requires 2 <= d < 19 && q % d == 0
    ensures SmallFactor(q)
  {
    if d % 2 == 0 {
      Factor(q, 2, d / 2);
    } else if d % 3 == 0 {
      Factor(q, 3, d / 3);
    }
  }

  /** The other factor of a number below `m * m` is small. */
  lemma CoDivisor(q: nat, d: nat, m: nat) returns (e: nat)
    requires m <= d < q < m * m && q % d == 0
    ensures 2 <= e < m && q % e == 0
  {
    e := q / d;
    assert q == d * e == e * d;
    if e >= m { MulMonotone(m, d, e); MulMonotone(m, e, m); }
    if e <= 1 { MulMonotone(e, 1, d); }
    Multiple(e, d);
  }

  lemma PrimeBelow25(q: nat)
    requires 3 < q < 25 && q % 2 != 0 && q % 3 != 0
    ensures Prime(q)
  {
    forall d | 2 <= d < q ensures q % d != 0 {
      if q % d == 0 {
        var e := d;
        if d >= 5 {
          e := CoDivisor(q, d, 5);
        }
        if e == 4 { Factor(q, 2, 2); }
      }
    }
  }

  lemma PrimeBelow361(q: nat)
    requires 17 < q < 361
    ensures Prime(q) <==> !SmallFactor(q)
  {
    if SmallFactor(q) {
      var d :| 2 <= d < 18 && q % d == 0;
    } else {
      forall d | 2 <= d < q ensures q % d != 0 {
        if q % d == 0 {
          var e := d;
          if d >= 19 {
            e := CoDivisor(q, d, 19);
          }
          SmallDivisor(q, e);
        }
      }
    }
  }

  /** `b` is the first prime behind `a`. */
  ghost predicate NextPrime(a: nat, b: nat)
  {
    a < b && Prime(b) && forall q :: a < q < b ==> !Prime(q)
  }

  /** The odd numbers between `a` and `b`, which are at most 14 apart, have small factors. */
  predicate Gap(a: nat, b: nat)
  {
    && (b <= a + 2 || SmallFactor(a + 2)) && (b <= a + 4 || SmallFactor(a + 4)) && (b <= a + 6 || SmallFactor(a + 6))
    && (b <= a + 8 || SmallFactor(a + 8)) && (b <= a + 10 || SmallFactor(a + 10)) && (b <= a + 12 || SmallFactor(a + 12))
  }

  /** `p` is a prime and `t` primes are below it. */
  ghost predicate NthPrime(t: nat, p: nat)
  {
    if t == 0 then NextPrime(0, p) else exists q :: NthPrime(t - 1, q) && NextPrime(q, p)
  }

  lemma EvenIsSmall(q: nat)
    ensures q % 2 == 0 ==> SmallFactor(q)
  {
  }

  lemma GapMeans(a: nat, b: nat, q: nat)
    requires a % 2 == 1 && a < q < b <= a + 14 && Gap(a, b)
    ensures SmallFactor(q)
  {
    hide SmallFactor;
    EvenIsSmall(q);
    if q % 2 == 1 {
      assert q - a in {2, 4, 6, 8, 10, 12};
    }
  }

  lemma Next(a: nat, b: nat)
    requires 17 <= a < b < 361 && b <= a + 14 && a % 2 == 1 && !SmallFactor(b) && Gap(a, b)
    ensures NextPrime(a, b)
  {
    hide Prime, SmallFactor, Gap;
    PrimeBelow361(b);
    forall q | a < q < b ensures !Prime(q) {
      GapMeans(a, b, q);
      PrimeBelow361(q);
    }
  }

  lemma FirstPrimes()
    ensures Prime(2) && Prime(3) && Prime(5) && Prime(7) && Prime(11) && Prime(13) && Prime(17) && Prime(19)
    ensures !Prime(4) && !Prime(6) && !Prime(8) && !Prime(9) && !Prime(10) && !Prime(12) && !Prime(14) && !Prime(15)
    ensures !Prime(16) && !Prime(18)
  {
    PrimeBelow25(5); PrimeBelow25(7); PrimeBelow25(11); PrimeBelow25(13); PrimeBelow25(17); PrimeBelow25(19);
    assert 4 % 2 == 6 % 2 == 8 % 2 == 9 % 3 == 10 % 2 == 12 % 2 == 14 % 2 == 15 % 3 == 16 % 2 == 18 % 2 == 0;
  }

  // The primes in order, eight at a time.

  lemma SmallPrimes()
    ensures !Prime(0) && !Prime(1)
  {
  }

  lemma PrimesTo19()
    ensures NextPrime(0, 2) && NextPrime(2, 3) && NextPrime(3, 5) && NextPrime(5, 7)
    ensures NextPrime(7, 11) && NextPrime(11, 13) && NextPrime(13, 17) && NextPrime(17, 19)
  {
    hide Prime;
    FirstPrimes();
    SmallPrimes();
  }

  lemma PrimesTo53()
    ensures NextPrime(19, 23) && NextPrime(23, 29) && NextPrime(29, 31) && NextPrime(31, 37)
    ensures NextPrime(37, 41) && NextPrime(41, 43) && NextPrime(43, 47) && NextPrime(47, 53)
  {
    hide NextPrime;
    Next(19, 23); Next(23, 29); Next(29, 31); Next(31, 37);
    Next(37, 41); Next(41, 43); Next(43, 47); Next(47, 53);
  }

  lemma PrimesTo89()
    ensures NextPrime(53, 59) && NextPrime(59, 61) && NextPrime(61, 67) && NextPrime(67, 71)
    ensures NextPrime(71, 73) && NextPrime(73, 79) && NextPrime(79, 83) && NextPrime(83, 89)
  {
    hide NextPrime;
    Next(53, 59); Next(59, 61); Next(61, 67); Next(67, 71);
    Next(71, 73); Next(73, 79); Next(79, 83); Next(83, 89);
  }

  lemma PrimesTo131()
    ensures NextPrime(89, 97) && NextPrime(97, 101) && NextPrime(101, 103) && NextPrime(103, 107)
    ensures NextPrime(107, 109) && NextPrime(109, 113) && NextPrime(113, 127) && NextPrime(127, 131)
  {
    hide NextPrime;
    Next(89, 97); Next(97, 101); Next(101, 103); Next(103, 107);
    Next(107, 109); Next(109, 113); Next(113, 127); Next(127, 131);
  }

  lemma PrimesTo173()
    ensures NextPrime(131, 137) && NextPrime(137, 139) && NextPrime(139, 149) && NextPrime(149, 151)
    ensures NextPrime(151, 157) && NextPrime(157, 163) && NextPrime(163, 167) && NextPrime(167, 173)
  {
    hide NextPrime;
    Next(131, 137); Next(137, 139); Next(139, 149); Next(149, 151);
    Next(151, 157); Next(157, 163); Next(163, 167); Next(167, 173);
  }

  lemma PrimesTo223()
    ensures NextPrime(173, 179) && NextPrime(179, 181) && NextPrime(181, 191) && NextPrime(191, 193)
    ensures NextPrime(193, 197) && NextPrime(197, 199) && NextPrime(199, 211) && NextPrime(211, 223)
  {
    hide NextPrime;
    Next(173, 179); Next(179, 181); Next(181, 191); Next(191, 193);
    Next(193, 197); Next(197, 199); Next(199, 211); Next(211, 223);
  }

  lemma PrimesTo263()
    ensures NextPrime(223, 227) && NextPrime(227, 229) && NextPrime(229, 233) && NextPrime(233, 239)
    ensures NextPrime(239, 241) && NextPrime(241, 251) && NextPrime(251, 257) && NextPrime(257, 263)
  {
    hide NextPrime;
    Next(223, 227); Next(227, 229); Next(229, 233); Next(233, 239);
    Next(239, 241); Next(241, 251); Next(251, 257); Next(257, 263);
  }

  lemma PrimesTo311()
    ensures NextPrime(263, 269) && NextPrime(269, 271) && NextPrime(271, 277) && NextPrime(277, 281)
    ensures NextPrime(281, 283) && NextPrime(283, 293) && NextPrime(293, 307) && NextPrime(307, 311)
  {
    hide NextPrime;
    Next(263, 269); Next(269, 271); Next(271, 277); Next(277, 281);
    Next(281, 283); Next(283, 293); Next(293, 307); Next(307, 311);
  }
}
