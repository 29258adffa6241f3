/** Where the constants of SHA-256 come from: the fractional parts of the roots of the first primes. */
module Sha256Constants {
  import opened Bytes
  import opened Sha256Spec

  // ---- primes -----------------------------------------------------------------------------------

  ghost predicate IsPrime(n: nat) {
    n >= 2 && forall d: nat :: 2 <= d < n ==> n % d != 0
  }

  predicate NotBy(n: nat, p: nat)
    requires p > 0
  {
    n % p != 0 || n == p
  }

  /** No prime up to 17 divides `n`, unless it is `n`. */
  predicate Sieve(n: nat) {
    && n >= 2 && NotBy(n, 2) && NotBy(n, 3) && NotBy(n, 5) && NotBy(n, 7)
    && NotBy(n, 11) && NotBy(n, 13) && NotBy(n, 17)
  }

  lemma Divides(n: nat, d: nat, q: nat)
    requires n == d * q && d > 0
    ensures n % d == 0
  {
    var k, r := n / d, n % d;
    assert n == d * k + r;
    if k < q {
      AtLeast(d, k, q);
    } else if q < k {
      AtLeast(d, q, k);
    }
  }

  lemma AtLeast(d: nat, a: nat, b: nat)
    requires a < b
    ensures d * a + d <= d * b
  {
    var c := b - a - 1;
    assert d * b == d * a + d + d * c;
  }

  lemma FactorOfFactor(n: nat, e: nat, p: nat)
    requires e > 0 && p > 0 && n % e == 0 && e % p == 0
    ensures n % p == 0
  {
    var a, b := n / e, e / p;
    assert n == e * a && e == p * b;
    assert n == p * (b * a);
    Divides(n, p, b * a);
  }

  lemma SmallFactor(n: nat, e: nat)
    requires 2 <= e <= 17 && n % e == 0 && e < n
    ensures !Sieve(n)
  {
    if e % 2 == 0 {
      FactorOfFactor(n, e, 2);
    } else if e % 3 == 0 {
      FactorOfFactor(n, e, 3);
    } else if e == 5 || e == 15 {
      FactorOfFactor(n, e, 5);
    } else {
      assert e == 7 || e == 11 || e == 13 || e == 17;
    }
  }

  /** Below 18^2 the sieve finds exactly the primes. */
  lemma SieveExact(n: nat)
    requires n < 324
    ensures Sieve(n) <==> IsPrime(n)
  {
    if Sieve(n) {
      forall d: nat | 2 <= d < n
        ensures n % d != 0
      {
        if n % d == 0 {
          HasSmallFactor(n, d);
        }
      }
    }
  }

  lemma HasSmallFactor(n: nat, d: nat)
    requires 2 <= d < n < 324 && n % d == 0
    ensures !Sieve(n)
  {
    var q := n / d;
    assert n == d * q;
    if d <= 17 {
      SmallFactor(n, d);
    } else {
      if q >= 18 {
        Grows(d, q);
      }
      assert q >= 2 && q < n;
      Divides(n, q, d);
      SmallFactor(n, q);
    }
  }

  lemma Grows(d: nat, q: nat)
    requires d >= 18 && q >= 18
    ensures d * q >= 324
  {
  }

  const PRIMES: seq<nat> :=
    [2, 3, 5, 7, 11, 13, 17, 19] +
    [23, 29, 31, 37, 41, 43, 47, 53] +
    [59, 61, 67, 71, 73, 79, 83, 89] +
    [97, 101, 103, 107, 109, 113, 127, 131] +
    [137, 139, 149, 151, 157, 163, 167, 173] +
    [179, 181, 191, 193, 197, 199, 211, 223] +
    [227, 229, 233, 239, 241, 251, 257, 263] +
    [269, 271, 277, 281, 283, 293, 307, 311]

  /** `q` passes the sieve and nothing between `p` and `q` does. */
  ghost predicate Follows(p: nat, q: nat) {
    p < q && Sieve(q) && forall n: nat :: p < n < q ==> !Sieve(n)
  }

  predicate Clear(p: nat, q: nat)
    decreases q
  {
    q <= p + 1 || (!Sieve(q - 1) && Clear(p, q - 1))
  }

  lemma {:induction false} ClearAt(p: nat, q: nat, n: nat)
    requires Clear(p, q) && p < n < q
    ensures !Sieve(n)
    decreases q
  {
    if n < q - 1 {
      ClearAt(p, q - 1, n);
    }
  }

  lemma FollowsBy(p: nat, q: nat)
    requires p < q && Sieve(q) && Clear(p, q)
    ensures Follows(p, q)
  {
    forall n: nat | p < n < q
      ensures !Sieve(n)
    {
      ClearAt(p, q, n);
    }
  }

  lemma Primes0()
    ensures Follows(1, 2) && Follows(2, 3) && Follows(3, 5) && Follows(5, 7)
  {
    hide Follows;
    FollowsBy(1, 2);
    FollowsBy(2, 3);
    FollowsBy(3, 5);
    FollowsBy(5, 7);
  }

  lemma Primes4()
    ensures Follows(7, 11) && Follows(11, 13) && Follows(13, 17) && Follows(17, 19)
  {
    hide Follows;
    FollowsBy(7, 11);
    FollowsBy(11, 13);
    FollowsBy(13, 17);
    FollowsBy(17, 19);
  }

  lemma Primes8()
    ensures Follows(19, 23) && Follows(23, 29) && Follows(29, 31) && Follows(31, 37)
  {
    hide Follows;
    FollowsBy(19, 23);
    FollowsBy(23, 29);
    FollowsBy(29, 31);
    FollowsBy(31, 37);
  }

  lemma Primes12()
    ensures Follows(37, 41) && Follows(41, 43) && Follows(43, 47) && Follows(47, 53)
  {
    hide Follows;
    FollowsBy(37, 41);
    FollowsBy(41, 43);
    FollowsBy(43, 47);
    FollowsBy(47, 53);
  }

  lemma Primes16()
    ensures Follows(53, 59) && Follows(59, 61) && Follows(61, 67) && Follows(67, 71)
  {
    hide Follows;
    FollowsBy(53, 59);
    FollowsBy(59, 61);
    FollowsBy(61, 67);
    FollowsBy(67, 71);
  }

  lemma Primes20()
    ensures Follows(71, 73) && Follows(73, 79) && Follows(79, 83) && Follows(83, 89)
  {
    hide Follows;
    FollowsBy(71, 73);
    FollowsBy(73, 79);
    FollowsBy(79, 83);
    FollowsBy(83, 89);
  }

  lemma Primes24()
    ensures Follows(89, 97) && Follows(97, 101) && Follows(101, 103) && Follows(103, 107)
  {
    hide Follows;
    FollowsBy(89, 97);
    FollowsBy(97, 101);
    FollowsBy(101, 103);
    FollowsBy(103, 107);
  }

  lemma Primes28()
    ensures Follows(107, 109) && Follows(109, 113) && Follows(113, 127) && Follows(127, 131)
  {
    hide Follows;
    FollowsBy(107, 109);
    FollowsBy(109, 113);
    FollowsBy(113, 127);
    FollowsBy(127, 131);
  }

  lemma Primes32()
    ensures Follows(131, 137) && Follows(137, 139) && Follows(139, 149) && Follows(149, 151)
  {
    hide Follows;
    FollowsBy(131, 137);
    FollowsBy(137, 139);
    FollowsBy(139, 149);
    FollowsBy(149, 151);
  }

  lemma Primes36()
    ensures Follows(151, 157) && Follows(157, 163) && Follows(163, 167) && Follows(167, 173)
  {
    hide Follows;
    FollowsBy(151, 157);
    FollowsBy(157, 163);
    FollowsBy(163, 167);
    FollowsBy(167, 173);
  }

  lemma Primes40()
    ensures Follows(173, 179) && Follows(179, 181) && Follows(181, 191) && Follows(191, 193)
  {
    hide Follows;
    FollowsBy(173, 179);
    FollowsBy(179, 181);
    FollowsBy(181, 191);
    FollowsBy(191, 193);
  }

  lemma Primes44()
    ensures Follows(193, 197) && Follows(197, 199) && Follows(199, 211) && Follows(211, 223)
  {
    hide Follows;
    FollowsBy(193, 197);
    FollowsBy(197, 199);
    FollowsBy(199, 211);
    FollowsBy(211, 223);
  }

  lemma Primes48()
    ensures Follows(223, 227) && Follows(227, 229) && Follows(229, 233) && Follows(233, 239)
  {
    hide Follows;
    FollowsBy(223, 227);
    FollowsBy(227, 229);
    FollowsBy(229, 233);
    FollowsBy(233, 239);
  }

  lemma Primes52()
    ensures Follows(239, 241) && Follows(241, 251) && Follows(251, 257) && Follows(257, 263)
  {
    hide Follows;
    FollowsBy(239, 241);
    FollowsBy(241, 251);
    FollowsBy(251, 257);
    FollowsBy(257, 263);
  }

  lemma Primes56()
    ensures Follows(263, 269) && Follows(269, 271) && Follows(271, 277) && Follows(277, 281)
  {
    hide Follows;
    FollowsBy(263, 269);
    FollowsBy(269, 271);
    FollowsBy(271, 277);
    FollowsBy(277, 281);
  }

  lemma Primes60()
    ensures Follows(281, 283) && Follows(283, 293) && Follows(293, 307) && Follows(307, 311)
  {
    hide Follows;
    FollowsBy(281, 283);
    FollowsBy(283, 293);
    FollowsBy(293, 307);
    FollowsBy(307, 311);
  }

  // ---- roots ------------------------------------------------------------------------------------

  /** `k` is the first 32 bits of the fractional part of the cube root of `p`. */
  ghost predicate CubeRootBits(p: nat, k: Word) {
    exists q: nat :: IsCubeRoot(p, q * TWO32 + k)
  }

  /** `c` is the cube root of `p` in units of 2^-32, rounded down. */
  predicate IsCubeRoot(p: nat, c: nat) {
    c * c * c <= p * 0x1_0000_0000_0000_0000_0000_0000 < (c + 1) * (c + 1) * (c + 1)
  }

  ghost predicate SquareRootBits(p: nat, k: Word) {
    exists q: nat :: IsSquareRoot(p, q * TWO32 + k)
  }

  predicate IsSquareRoot(p: nat, c: nat) {
    c * c <= p * TWO64 < (c + 1) * (c + 1)
  }

  lemma CubeRoot(p: nat, q: nat, k: Word)
    requires IsCubeRoot(p, q * TWO32 + k)
    ensures CubeRootBits(p, k)
  {
  }

  lemma SquareRoot(p: nat, q: nat, k: Word)
    requires IsSquareRoot(p, q * TWO32 + k)
    ensures SquareRootBits(p, k)
  {
  }

  lemma Cubes0()
    ensures CubeRootBits(2, 0x428a2f98) && CubeRootBits(3, 0x71374491)
    ensures CubeRootBits(5, 0xb5c0fbcf) && CubeRootBits(7, 0xe9b5dba5)
    ensures CubeRootBits(11, 0x3956c25b) && CubeRootBits(13, 0x59f111f1)
    ensures CubeRootBits(17, 0x923f82a4) && CubeRootBits(19, 0xab1c5ed5)
  {
    hide CubeRootBits;
    CubeRoot(2, 1, 0x428a2f98);
    CubeRoot(3, 1, 0x71374491);
    CubeRoot(5, 1, 0xb5c0fbcf);
    CubeRoot(7, 1, 0xe9b5dba5);
    CubeRoot(11, 2, 0x3956c25b);
    CubeRoot(13, 2, 0x59f111f1);
    CubeRoot(17, 2, 0x923f82a4);
    CubeRoot(19, 2, 0xab1c5ed5);
  }

  lemma Cubes8()
    ensures CubeRootBits(23, 0xd807aa98) && CubeRootBits(29, 0x12835b01)
    ensures CubeRootBits(31, 0x243185be) && CubeRootBits(37, 0x550c7dc3)
    ensures CubeRootBits(41, 0x72be5d74) && CubeRootBits(43, 0x80deb1fe)
    ensures CubeRootBits(47, 0x9bdc06a7) && CubeRootBits(53, 0xc19bf174)
  {
    hide CubeRootBits;
    CubeRoot(23, 2, 0xd807aa98);
    CubeRoot(29, 3, 0x12835b01);
    CubeRoot(31, 3, 0x243185be);
    CubeRoot(37, 3, 0x550c7dc3);
    CubeRoot(41, 3, 0x72be5d74);
    CubeRoot(43, 3, 0x80deb1fe);
    CubeRoot(47, 3, 0x9bdc06a7);
    CubeRoot(53, 3, 0xc19bf174);
  }

  lemma Cubes16()
    ensures CubeRootBits(59, 0xe49b69c1) && CubeRootBits(61, 0xefbe4786)
    ensures CubeRootBits(67, 0x0fc19dc6) && CubeRootBits(71, 0x240ca1cc)
    ensures CubeRootBits(73, 0x2de92c6f) && CubeRootBits(79, 0x4a7484aa)
    ensures CubeRootBits(83, 0x5cb0a9dc) && CubeRootBits(89, 0x76f988da)
  {
    hide CubeRootBits;
    CubeRoot(59, 3, 0xe49b69c1);
    CubeRoot(61, 3, 0xefbe4786);
    CubeRoot(67, 4, 0x0fc19dc6);
    CubeRoot(71, 4, 0x240ca1cc);
    CubeRoot(73, 4, 0x2de92c6f);
    CubeRoot(79, 4, 0x4a7484aa);
    CubeRoot(83, 4, 0x5cb0a9dc);
    CubeRoot(89, 4, 0x76f988da);
  }

  lemma Cubes24()
    ensures CubeRootBits(97, 0x983e5152) && CubeRootBits(101, 0xa831c66d)
    ensures CubeRootBits(103, 0xb00327c8) && CubeRootBits(107, 0xbf597fc7)
    ensures CubeRootBits(109, 0xc6e00bf3) && CubeRootBits(113, 0xd5a79147)
    ensures CubeRootBits(127, 0x06ca6351) && CubeRootBits(131, 0x14292967)
  {
    hide CubeRootBits;
    CubeRoot(97, 4, 0x983e5152);
    CubeRoot(101, 4, 0xa831c66d);
    CubeRoot(103, 4, 0xb00327c8);
    CubeRoot(107, 4, 0xbf597fc7);
    CubeRoot(109, 4, 0xc6e00bf3);
    CubeRoot(113, 4, 0xd5a79147);
    CubeRoot(127, 5, 0x06ca6351);
    CubeRoot(131, 5, 0x14292967);
  }

  lemma Cubes32()
    ensures CubeRootBits(137, 0x27b70a85) && CubeRootBits(139, 0x2e1b2138)
    ensures CubeRootBits(149, 0x4d2c6dfc) && CubeRootBits(151, 0x53380d13)
    ensures CubeRootBits(157, 0x650a7354) && CubeRootBits(163, 0x766a0abb)
    ensures CubeRootBits(167, 0x81c2c92e) && CubeRootBits(173, 0x92722c85)
  {
    hide CubeRootBits;
    CubeRoot(137, 5, 0x27b70a85);
    CubeRoot(139, 5, 0x2e1b2138);
    CubeRoot(149, 5, 0x4d2c6dfc);
    CubeRoot(151, 5, 0x53380d13);
    CubeRoot(157, 5, 0x650a7354);
    CubeRoot(163, 5, 0x766a0abb);
    CubeRoot(167, 5, 0x81c2c92e);
    CubeRoot(173, 5, 0x92722c85);
  }

  lemma Cubes40()
    ensures CubeRootBits(179, 0xa2bfe8a1) && CubeRootBits(181, 0xa81a664b)
    ensures CubeRootBits(191, 0xc24b8b70) && CubeRootBits(193, 0xc76c51a3)
    ensures CubeRootBits(197, 0xd192e819) && CubeRootBits(199, 0xd6990624)
    ensures CubeRootBits(211, 0xf40e3585) && CubeRootBits(223, 0x106aa070)
  {
    hide CubeRootBits;
    CubeRoot(179, 5, 0xa2bfe8a1);
    CubeRoot(181, 5, 0xa81a664b);
    CubeRoot(191, 5, 0xc24b8b70);
    CubeRoot(193, 5, 0xc76c51a3);
    CubeRoot(197, 5, 0xd192e819);
    CubeRoot(199, 5, 0xd6990624);
    CubeRoot(211, 5, 0xf40e3585);
    CubeRoot(223, 6, 0x106aa070);
  }

  lemma Cubes48()
    ensures CubeRootBits(227, 0x19a4c116) && CubeRootBits(229, 0x1e376c08)
    ensures CubeRootBits(233, 0x2748774c) && CubeRootBits(239, 0x34b0bcb5)
    ensures CubeRootBits(241, 0x391c0cb3) && CubeRootBits(251, 0x4ed8aa4a)
    ensures CubeRootBits(257, 0x5b9cca4f) && CubeRootBits(263, 0x682e6ff3)
  {
    hide CubeRootBits;
    CubeRoot(227, 6, 0x19a4c116);
    CubeRoot(229, 6, 0x1e376c08);
    CubeRoot(233, 6, 0x2748774c);
    CubeRoot(239, 6, 0x34b0bcb5);
    CubeRoot(241, 6, 0x391c0cb3);
    CubeRoot(251, 6, 0x4ed8aa4a);
    CubeRoot(257, 6, 0x5b9cca4f);
    CubeRoot(263, 6, 0x682e6ff3);
  }

  lemma Cubes56()
    ensures CubeRootBits(269, 0x748f82ee) && CubeRootBits(271, 0x78a5636f)
    ensures CubeRootBits(277, 0x84c87814) && CubeRootBits(281, 0x8cc70208)
    ensures CubeRootBits(283, 0x90befffa) && CubeRootBits(293, 0xa4506ceb)
    ensures CubeRootBits(307, 0xbef9a3f7) && CubeRootBits(311, 0xc67178f2)
  {
    hide CubeRootBits;
    CubeRoot(269, 6, 0x748f82ee);
    CubeRoot(271, 6, 0x78a5636f);
    CubeRoot(277, 6, 0x84c87814);
    CubeRoot(281, 6, 0x8cc70208);
    CubeRoot(283, 6, 0x90befffa);
    CubeRoot(293, 6, 0xa4506ceb);
    CubeRoot(307, 6, 0xbef9a3f7);
    CubeRoot(311, 6, 0xc67178f2);
  }

  lemma Squares()
    ensures SquareRootBits(2, 0x6a09e667)
    ensures SquareRootBits(3, 0xbb67ae85)
    ensures SquareRootBits(5, 0x3c6ef372)
    ensures SquareRootBits(7, 0xa54ff53a)
    ensures SquareRootBits(11, 0x510e527f)
    ensures SquareRootBits(13, 0x9b05688c)
    ensures SquareRootBits(17, 0x1f83d9ab)
    ensures SquareRootBits(19, 0x5be0cd19)
  {
    hide SquareRootBits;
    SquareRoot(2, 1, 0x6a09e667);
    SquareRoot(3, 1, 0xbb67ae85);
    SquareRoot(5, 2, 0x3c6ef372);
    SquareRoot(7, 2, 0xa54ff53a);
    SquareRoot(11, 3, 0x510e527f);
    SquareRoot(13, 3, 0x9b05688c);
    SquareRoot(17, 4, 0x1f83d9ab);
    SquareRoot(19, 4, 0x5be0cd19);
  }

  lemma Row0(t: nat)
    requires 0 <= t < 8
    ensures PRIMES[t] < 324 && Follows(if t == 0 then 1 else PRIMES[t - 1], PRIMES[t])
    ensures CubeRootBits(PRIMES[t], K[t])
  {
    hide Follows, CubeRootBits;
    Primes0();
    Primes4();
    Cubes0();
  }

  lemma Row8(t: nat)
    requires 8 <= t < 16
    ensures PRIMES[t] < 324 && Follows(if t == 0 then 1 else PRIMES[t - 1], PRIMES[t])
    ensures CubeRootBits(PRIMES[t], K[t])
  {
    hide Follows, CubeRootBits;
    Primes8();
    Primes12();
    Cubes8();
  }

  lemma Row16(t: nat)
    requires 16 <= t < 24
    ensures PRIMES[t] < 324 && Follows(if t == 0 then 1 else PRIMES[t - 1], PRIMES[t])
    ensures CubeRootBits(PRIMES[t], K[t])
  {
    hide Follows, CubeRootBits;
    Primes16();
    Primes20();
    Cubes16();
  }

  lemma Row24(t: nat)
    requires 24 <= t < 32
    ensures PRIMES[t] < 324 && Follows(if t == 0 then 1 else PRIMES[t - 1], PRIMES[t])
    ensures CubeRootBits(PRIMES[t], K[t])
  {
    hide Follows, CubeRootBits;
    Primes24();
    Primes28();
    Cubes24();
  }

  lemma Row32(t: nat)
    requires 32 <= t < 40
    ensures PRIMES[t] < 324 && Follows(if t == 0 then 1 else PRIMES[t - 1], PRIMES[t])
    ensures CubeRootBits(PRIMES[t], K[t])
  {
    hide Follows, CubeRootBits;
    Primes32();
    Primes36();
    Cubes32();
  }

  lemma Row40(t: nat)
    requires 40 <= t < 48
    ensures PRIMES[t] < 324 && Follows(if t == 0 then 1 else PRIMES[t - 1], PRIMES[t])
    ensures CubeRootBits(PRIMES[t], K[t])
  {
    hide Follows, CubeRootBits;
    Primes40();
    Primes44();
    Cubes40();
  }

  lemma Row48(t: nat)
    requires 48 <= t < 56
    ensures PRIMES[t] < 324 && Follows(if t == 0 then 1 else PRIMES[t - 1], PRIMES[t])
    ensures CubeRootBits(PRIMES[t], K[t])
  {
    hide Follows, CubeRootBits;
    Primes48();
    Primes52();
    Cubes48();
  }

  lemma Row56(t: nat)
    requires 56 <= t < 64
    ensures PRIMES[t] < 324 && Follows(if t == 0 then 1 else PRIMES[t - 1], PRIMES[t])
    ensures CubeRootBits(PRIMES[t], K[t])
  {
    hide Follows, CubeRootBits;
    Primes56();
    Primes60();
    Cubes56();
  }

  lemma Rows(t: nat)
    requires t < 64
    ensures |PRIMES| == |K| == 64 && PRIMES[t] < 324
    ensures Follows(if t == 0 then 1 else PRIMES[t - 1], PRIMES[t]) && CubeRootBits(PRIMES[t], K[t])
  {
    hide Follows, CubeRootBits;
    if t < 8 {
      Row0(t);
    } else if t < 16 {
      Row8(t);
    } else if t < 24 {
      Row16(t);
    } else if t < 32 {
      Row24(t);
    } else if t < 40 {
      Row32(t);
    } else if t < 48 {
      Row40(t);
    } else if t < 56 {
      Row48(t);
    } else {
      Row56(t);
    }
  }

  ghost predicate Linked(ps: seq<nat>, t: nat)
    requires t < |ps|
  {
    ps[t] < 324 && Follows(if t == 0 then 1 else ps[t - 1], ps[t])
  }

  ghost predicate Chain(ps: seq<nat>) {
    forall t :: 0 <= t < |ps| ==> Linked(ps, t)
  }

  lemma TooSmall(n: nat)
    ensures n < 2 ==> !Sieve(n)
  {
  }

  lemma {:induction false} ChainExact(ps: seq<nat>, t: nat)
    requires Chain(ps) && t < |ps|
    ensures forall n: nat :: n <= ps[t] ==> (Sieve(n) <==> n in ps[..t + 1])
  {
    hide Sieve;
    var p, q := if t == 0 then 1 else ps[t - 1], ps[t];
    assert Linked(ps, t);
    if t > 0 {
      ChainExact(ps, t - 1);
    }
    assert ps[..t + 1] == ps[..t] + [q];
    forall n: nat | n <= q
      ensures Sieve(n) <==> n in ps[..t + 1]
    {
      TooSmall(n);
      if n > p {
        Larger(ps, t, n);
      }
    }
  }

  lemma {:induction false} Larger(ps: seq<nat>, t: nat, n: nat)
    requires Chain(ps) && t <= |ps| && (t > 0 ==> n > ps[t - 1])
    ensures n !in ps[..t]
  {
    hide Sieve;
    if t > 0 {
      assert Linked(ps, t - 1);
      assert ps[..t] == ps[..t - 1] + [ps[t - 1]];
      Larger(ps, t - 1, n);
    }
  }

  lemma PrimesChain(ps: seq<nat>)
    requires ps == PRIMES
    ensures |ps| == 64 && Chain(ps)
  {
    hide Follows, CubeRootBits, K, PRIMES;
    Rows(0);
    forall t: nat | t < 64
      ensures Linked(ps, t)
    {
      Rows(t);
    }
  }

  lemma ChainPrimes(ps: seq<nat>, t: nat)
    requires Chain(ps) && t < |ps|
    ensures IsPrime(ps[t])
    ensures forall n: nat :: n < ps[t] ==> (IsPrime(n) <==> n in ps[..t])
  {
    assert Linked(ps, t);
    hide Sieve, IsPrime, Follows;
    ChainExact(ps, t);
    assert ps[..t + 1] == ps[..t] + [ps[t]];
    SieveExact(ps[t]);
    forall n: nat | n < ps[t]
      ensures IsPrime(n) <==> n in ps[..t]
    {
      SieveExact(n);
    }
  }

  /** PRIMES[t] is the prime with exactly the primes PRIMES[..t] below it. */
  lemma PrimesInOrder(t: nat)
    requires t < 64
    ensures |PRIMES| == 64 && IsPrime(PRIMES[t])
    ensures forall n: nat :: n < PRIMES[t] ==> (IsPrime(n) <==> n in PRIMES[..t])
  {
    var ps := PRIMES;
    PrimesChain(ps);
    hide PRIMES, IsPrime, Chain;
    ChainPrimes(ps, t);
  }

  /** The round constants are the cube roots, the initial hash value the square roots. */
  lemma ConstantsAreRoots(t: nat)
    requires t < 64
    ensures |PRIMES| == |K| == 64 && CubeRootBits(PRIMES[t], K[t])
    ensures t < 8 ==> SquareRootBits(PRIMES[t], [H0.a, H0.b, H0.c, H0.d, H0.e, H0.f, H0.g, H0.h][t])
  {
    Rows(t);
    if t < 8 {
      Squares();
    }
  }
}
