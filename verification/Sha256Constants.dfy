/** The constants of SHA-256: the fractional parts of the cube roots of the first 64 primes, and of the square roots
    of the first eight, to 32 bits. */
module Sha256Constants {
  import opened Sha256Spec
  import Arithmetic

  // ---------------------------------------------------------------- the first primes

  ghost predicate IsPrime(n: nat)
  {
    n >= 2 && forall d: nat :: 2 <= d < n ==> n % d != 0
  }

  ghost function PrimesBelow(n: nat): (s: set<nat>)
  {
    set m: nat | m < n && IsPrime(m)
  }

  /** p is the prime with t primes before it. */
  ghost predicate NthPrime(p: nat, t: nat)
  {
    IsPrime(p) && |PrimesBelow(p)| == t
  }

  /** No prime up to 17 divides n, unless it is n. */
  predicate Undivided(n: nat)
  {
    && n >= 2 && (n == 2 || n % 2 != 0) && (n == 3 || n % 3 != 0) && (n == 5 || n % 5 != 0) && (n == 7 || n % 7 != 0)
    && (n == 11 || n % 11 != 0) && (n == 13 || n % 13 != 0) && (n == 17 || n % 17 != 0)
  }

  lemma Divides(n: nat, d: nat, e: nat)
    requires d > 0 && n == d * e
    ensures n % d == 0
  {
    Arithmetic.QuotientUnique(d, e, 0);
  }

  /** A number below 19 that is not one has a prime divisor up to 17. */
  lemma SmallFactor(f: nat) returns (p: nat)
    requires 2 <= f < 19
    ensures p in {2, 3, 5, 7, 11, 13, 17} && f % p == 0
  {
    p := if f % 2 == 0 then 2 else if f % 3 == 0 then 3 else if f % 5 == 0 then 5 else if f % 7 == 0 then 7 else f;
  }

  lemma DividedBy(n: nat, f: nat, e: nat)
    requires n == f * e && 2 <= f < 19 && f < n
    ensures !Undivided(n)
  {
    var p := SmallFactor(f);
    var g := f / p;
    assert f == p * g;
    assert n == p * (g * e) by { assert f * e == p * (g * e); }
    Divides(n, p, g * e);
  }

  lemma SmallOne(n: nat, d: nat, e: nat)
    requires n == d * e && n < 361 && d >= 19
    ensures e < 19
  {
    assert d * e >= 19 * e;
  }

  lemma UndividedPrime(n: nat)
    requires n < 361
    ensures Undivided(n) <==> IsPrime(n)
  {
    if Undivided(n) {
      forall d: nat | 2 <= d < n ensures n % d != 0 {
        if n % d == 0 { NoDivisor(n, d); }
      }
    }
  }

  lemma NoDivisor(n: nat, d: nat)
    requires n < 361 && 2 <= d < n && n % d == 0
    ensures !Undivided(n)
  {
    var e := n / d;
    assert n == d * e;
    assert e != 0 && e != 1;
    if d < 19 {
      DividedBy(n, d, e);
    } else {
      SmallOne(n, d, e);
      assert e * d == d * e;
      assert e < n;
      DividedBy(n, e, d);
    }
  }

  // ---------------------------------------------------------------- from one prime to the next

  predicate NoneFrom(a: nat, b: nat)
    decreases b - a
  {
    a >= b || (!Undivided(a) && NoneFrom(a + 1, b))
  }

  /** q is the next prime after p. */
  predicate Gap(p: nat, q: nat)
  {
    p < q && Undivided(q) && NoneFrom(p + 1, q)
  }

  lemma {:induction false} NoneAt(a: nat, b: nat, m: nat)
    requires NoneFrom(a, b) && a <= m < b
    ensures !Undivided(m)
    decreases b - a
  {
    hide Undivided;
    if m > a { NoneAt(a + 1, b, m); }
  }

  lemma GapNext(p: nat, q: nat, t: nat)
    requires NthPrime(p, t) && Gap(p, q) && q < 361
    ensures NthPrime(q, t + 1)
  {
    UndividedPrime(q);
    hide Undivided;
    forall m: nat | p < m < q ensures !IsPrime(m) {
      NoneAt(p + 1, q, m);
      UndividedPrime(m);
    }
    hide IsPrime;
    assert PrimesBelow(q) == PrimesBelow(p) + {p};
  }

  lemma FirstPrime()
    ensures NthPrime(2, 0)
  {
    assert PrimesBelow(2) == {};
  }

  function Prime0(i: nat): (p: nat)
  {
    match i case 0 => 2 case 1 => 3 case 2 => 5 case 3 => 7 case 4 => 11 case 5 => 13 case 6 => 17 case _ => 19
  }

  function Prime1(i: nat): (p: nat)
  {
    match i case 0 => 23 case 1 => 29 case 2 => 31 case 3 => 37 case 4 => 41 case 5 => 43 case 6 => 47 case _ => 53
  }

  function Prime2(i: nat): (p: nat)
  {
    match i case 0 => 59 case 1 => 61 case 2 => 67 case 3 => 71 case 4 => 73 case 5 => 79 case 6 => 83 case _ => 89
  }

  function Prime3(i: nat): (p: nat)
  {
    match i case 0 => 97 case 1 => 101 case 2 => 103 case 3 => 107 case 4 => 109 case 5 => 113 case 6 => 127 case _ => 131
  }

  function Prime4(i: nat): (p: nat)
  {
    match i case 0 => 137 case 1 => 139 case 2 => 149 case 3 => 151 case 4 => 157 case 5 => 163 case 6 => 167 case _ => 173
  }

  function Prime5(i: nat): (p: nat)
  {
    match i case 0 => 179 case 1 => 181 case 2 => 191 case 3 => 193 case 4 => 197 case 5 => 199 case 6 => 211 case _ => 223
  }

  function Prime6(i: nat): (p: nat)
  {
    match i case 0 => 227 case 1 => 229 case 2 => 233 case 3 => 239 case 4 => 241 case 5 => 251 case 6 => 257 case _ => 263
  }

  function Prime7(i: nat): (p: nat)
  {
    match i case 0 => 269 case 1 => 271 case 2 => 277 case 3 => 281 case 4 => 283 case 5 => 293 case 6 => 307 case _ => 311
  }

  function Prime(t: nat): (p: nat)
  {
    var i := t % 8;
    match t / 8
    case 0 => Prime0(i) case 1 => Prime1(i) case 2 => Prime2(i) case 3 => Prime3(i)
    case 4 => Prime4(i) case 5 => Prime5(i) case 6 => Prime6(i) case _ => Prime7(i)
  }

  // ---------------------------------------------------------------- roots

  /** q and the 32 bits of k after the point are the cube root of p, cut off. */
  predicate CubeRoot(p: nat, q: nat, k: bv32)
  {
    var r := q * 0x1_0000_0000 + k as int;
    r * r * r <= p * 0x1_0000_0000_0000_0000_0000_0000 < (r + 1) * (r + 1) * (r + 1)
  }

  predicate SquareRoot(p: nat, q: nat, k: bv32)
  {
    var r := q * 0x1_0000_0000 + k as int;
    r * r <= p * 0x1_0000_0000_0000_0000 < (r + 1) * (r + 1)
  }

  /** The integer part of the cube root of a small number. */
  function WholeRoot(p: nat): (q: nat)
  {
    if p < 8 then 1 else if p < 27 then 2 else if p < 64 then 3 else if p < 125 then 4 else if p < 216 then 5 else 6
  }

  /** What holds of constant t and of the prime after prime t. */
  predicate Right(t: nat)
  {
    CubeRoot(Prime(t), WholeRoot(Prime(t)), K(t)) && (t < 63 ==> Gap(Prime(t), Prime(t + 1)))
  }

  lemma Cubes0()
    ensures CubeRoot(2, 1, 0x428a2f98)
    ensures CubeRoot(3, 1, 0x71374491)
    ensures CubeRoot(5, 1, 0xb5c0fbcf)
    ensures CubeRoot(7, 1, 0xe9b5dba5)
    ensures CubeRoot(11, 2, 0x3956c25b)
    ensures CubeRoot(13, 2, 0x59f111f1)
    ensures CubeRoot(17, 2, 0x923f82a4)
    ensures CubeRoot(19, 2, 0xab1c5ed5)
  {}

  lemma Gaps0()
    ensures Gap(2, 3) && Gap(3, 5) && Gap(5, 7) && Gap(7, 11) && Gap(11, 13) && Gap(13, 17) && Gap(17, 19) && Gap(19, 23)
  {}

  lemma Right0(t: nat)
    requires 0 <= t < 8
    ensures Right(t)
  {
    Cubes0();
    Gaps0();
    hide CubeRoot, Gap;
    if t == 0 {} else if t == 1 {} else if t == 2 {} else if t == 3 {} else if t == 4 {} else if t == 5 {} else if t == 6 {} else if t == 7 {}
  }

  lemma Cubes1()
    ensures CubeRoot(23, 2, 0xd807aa98)
    ensures CubeRoot(29, 3, 0x12835b01)
    ensures CubeRoot(31, 3, 0x243185be)
    ensures CubeRoot(37, 3, 0x550c7dc3)
    ensures CubeRoot(41, 3, 0x72be5d74)
    ensures CubeRoot(43, 3, 0x80deb1fe)
    ensures CubeRoot(47, 3, 0x9bdc06a7)
    ensures CubeRoot(53, 3, 0xc19bf174)
  {}

  lemma Gaps1()
    ensures Gap(23, 29) && Gap(29, 31) && Gap(31, 37) && Gap(37, 41) && Gap(41, 43) && Gap(43, 47) && Gap(47, 53) && Gap(53, 59)
  {}

  lemma Right1(t: nat)
    requires 8 <= t < 16
    ensures Right(t)
  {
    Cubes1();
    Gaps1();
    hide CubeRoot, Gap;
    if t == 8 {} else if t == 9 {} else if t == 10 {} else if t == 11 {} else if t == 12 {} else if t == 13 {} else if t == 14 {} else if t == 15 {}
  }

  lemma Cubes2()
    ensures CubeRoot(59, 3, 0xe49b69c1)
    ensures CubeRoot(61, 3, 0xefbe4786)
    ensures CubeRoot(67, 4, 0x0fc19dc6)
    ensures CubeRoot(71, 4, 0x240ca1cc)
    ensures CubeRoot(73, 4, 0x2de92c6f)
    ensures CubeRoot(79, 4, 0x4a7484aa)
    ensures CubeRoot(83, 4, 0x5cb0a9dc)
    ensures CubeRoot(89, 4, 0x76f988da)
  {}

  lemma Gaps2()
    ensures Gap(59, 61) && Gap(61, 67) && Gap(67, 71) && Gap(71, 73) && Gap(73, 79) && Gap(79, 83) && Gap(83, 89) && Gap(89, 97)
  {}

  lemma Right2(t: nat)
    requires 16 <= t < 24
    ensures Right(t)
  {
    Cubes2();
    Gaps2();
    hide CubeRoot, Gap;
    if t == 16 {} else if t == 17 {} else if t == 18 {} else if t == 19 {} else if t == 20 {} else if t == 21 {} else if t == 22 {} else if t == 23 {}
  }

  lemma Cubes3()
    ensures CubeRoot(97, 4, 0x983e5152)
    ensures CubeRoot(101, 4, 0xa831c66d)
    ensures CubeRoot(103, 4, 0xb00327c8)
    ensures CubeRoot(107, 4, 0xbf597fc7)
    ensures CubeRoot(109, 4, 0xc6e00bf3)
    ensures CubeRoot(113, 4, 0xd5a79147)
    ensures CubeRoot(127, 5, 0x06ca6351)
    ensures CubeRoot(131, 5, 0x14292967)
  {
    hide *;
    Cubes3Low();
    Cubes3High();
  }

  lemma Cubes3Low()
    ensures CubeRoot(97, 4, 0x983e5152)
    ensures CubeRoot(101, 4, 0xa831c66d)
    ensures CubeRoot(103, 4, 0xb00327c8)
    ensures CubeRoot(107, 4, 0xbf597fc7)
  {}

  lemma Cubes3High()
    ensures CubeRoot(109, 4, 0xc6e00bf3)
    ensures CubeRoot(113, 4, 0xd5a79147)
    ensures CubeRoot(127, 5, 0x06ca6351)
    ensures CubeRoot(131, 5, 0x14292967)
  {}

  lemma Gaps3()
    ensures Gap(97, 101) && Gap(101, 103) && Gap(103, 107) && Gap(107, 109) && Gap(109, 113) && Gap(113, 127) && Gap(127, 131) && Gap(131, 137)
  {}

  lemma Right3(t: nat)
    requires 24 <= t < 32
    ensures Right(t)
  {
    Cubes3();
    Gaps3();
    hide CubeRoot, Gap;
    if t == 24 {} else if t == 25 {} else if t == 26 {} else if t == 27 {} else if t == 28 {} else if t == 29 {} else if t == 30 {} else if t == 31 {}
  }

  lemma Cubes4()
    ensures CubeRoot(137, 5, 0x27b70a85)
    ensures CubeRoot(139, 5, 0x2e1b2138)
    ensures CubeRoot(149, 5, 0x4d2c6dfc)
    ensures CubeRoot(151, 5, 0x53380d13)
    ensures CubeRoot(157, 5, 0x650a7354)
    ensures CubeRoot(163, 5, 0x766a0abb)
    ensures CubeRoot(167, 5, 0x81c2c92e)
    ensures CubeRoot(173, 5, 0x92722c85)
  {
    hide *;
    Cubes4Low();
    Cubes4High();
  }

  lemma Cubes4Low()
    ensures CubeRoot(137, 5, 0x27b70a85)
    ensures CubeRoot(139, 5, 0x2e1b2138)
    ensures CubeRoot(149, 5, 0x4d2c6dfc)
    ensures CubeRoot(151, 5, 0x53380d13)
  {}

  lemma Cubes4High()
    ensures CubeRoot(157, 5, 0x650a7354)
    ensures CubeRoot(163, 5, 0x766a0abb)
    ensures CubeRoot(167, 5, 0x81c2c92e)
    ensures CubeRoot(173, 5, 0x92722c85)
  {}

  lemma Gaps4()
    ensures Gap(137, 139) && Gap(139, 149) && Gap(149, 151) && Gap(151, 157) && Gap(157, 163) && Gap(163, 167) && Gap(167, 173) && Gap(173, 179)
  {}

  lemma Right4(t: nat)
    requires 32 <= t < 40
    ensures Right(t)
  {
    Cubes4();
    Gaps4();
    hide CubeRoot, Gap;
    if t == 32 {} else if t == 33 {} else if t == 34 {} else if t == 35 {} else if t == 36 {} else if t == 37 {} else if t == 38 {} else if t == 39 {}
  }

  lemma Cubes5()
    ensures CubeRoot(179, 5, 0xa2bfe8a1)
    ensures CubeRoot(181, 5, 0xa81a664b)
    ensures CubeRoot(191, 5, 0xc24b8b70)
    ensures CubeRoot(193, 5, 0xc76c51a3)
    ensures CubeRoot(197, 5, 0xd192e819)
    ensures CubeRoot(199, 5, 0xd6990624)
    ensures CubeRoot(211, 5, 0xf40e3585)
    ensures CubeRoot(223, 6, 0x106aa070)
  {}

  lemma Gaps5()
    ensures Gap(179, 181) && Gap(181, 191) && Gap(191, 193) && Gap(193, 197) && Gap(197, 199) && Gap(199, 211) && Gap(211, 223) && Gap(223, 227)
  {}

  lemma Right5(t: nat)
    requires 40 <= t < 48
    ensures Right(t)
  {
    Cubes5();
    Gaps5();
    hide CubeRoot, Gap;
    if t == 40 {} else if t == 41 {} else if t == 42 {} else if t == 43 {} else if t == 44 {} else if t == 45 {} else if t == 46 {} else if t == 47 {}
  }

  lemma Cubes6()
    ensures CubeRoot(227, 6, 0x19a4c116)
    ensures CubeRoot(229, 6, 0x1e376c08)
    ensures CubeRoot(233, 6, 0x2748774c)
    ensures CubeRoot(239, 6, 0x34b0bcb5)
    ensures CubeRoot(241, 6, 0x391c0cb3)
    ensures CubeRoot(251, 6, 0x4ed8aa4a)
    ensures CubeRoot(257, 6, 0x5b9cca4f)
    ensures CubeRoot(263, 6, 0x682e6ff3)
  {}

  lemma Gaps6()
    ensures Gap(227, 229) && Gap(229, 233) && Gap(233, 239) && Gap(239, 241) && Gap(241, 251) && Gap(251, 257) && Gap(257, 263) && Gap(263, 269)
  {}

  lemma Right6(t: nat)
    requires 48 <= t < 56
    ensures Right(t)
  {
    Cubes6();
    Gaps6();
    hide CubeRoot, Gap;
    if t == 48 {} else if t == 49 {} else if t == 50 {} else if t == 51 {} else if t == 52 {} else if t == 53 {} else if t == 54 {} else if t == 55 {}
  }

  lemma Cubes7()
    ensures CubeRoot(269, 6, 0x748f82ee)
    ensures CubeRoot(271, 6, 0x78a5636f)
    ensures CubeRoot(277, 6, 0x84c87814)
    ensures CubeRoot(281, 6, 0x8cc70208)
    ensures CubeRoot(283, 6, 0x90befffa)
    ensures CubeRoot(293, 6, 0xa4506ceb)
    ensures CubeRoot(307, 6, 0xbef9a3f7)
    ensures CubeRoot(311, 6, 0xc67178f2)
  {}

  lemma Gaps7()
    ensures Gap(269, 271) && Gap(271, 277) && Gap(277, 281) && Gap(281, 283) && Gap(283, 293) && Gap(293, 307) && Gap(307, 311)
  {}

  lemma Right7(t: nat)
    requires 56 <= t < 64
    ensures Right(t)
  {
    Cubes7();
    Gaps7();
    hide CubeRoot, Gap;
    if t == 56 {} else if t == 57 {} else if t == 58 {} else if t == 59 {} else if t == 60 {} else if t == 61 {} else if t == 62 {} else if t == 63 {}
  }

  lemma RightAt(t: nat)
    requires t < 64
    ensures Right(t)
  {
    hide *;
    if t < 8 { Right0(t); } else if t < 16 { Right1(t); } else if t < 24 { Right2(t); } else if t < 32 { Right3(t); }
    else if t < 40 { Right4(t); } else if t < 48 { Right5(t); } else if t < 56 { Right6(t); } else { Right7(t); }
  }

  lemma {:induction false} PrimeIs(t: nat)
    requires t < 64
    ensures NthPrime(Prime(t), t)
    decreases t
  {
    if t == 0 {
      FirstPrime();
    } else {
      PrimeIs(t - 1);
      RightAt(t - 1);
      PrimeSmall(t);
      hide Prime, Gap, NthPrime, CubeRoot;
      GapNext(Prime(t - 1), Prime(t), t - 1);
    }
  }

  lemma PrimeSmall(t: nat)
    ensures Prime(t) < 361
  {}

  /** Constant t is the fractional part of the cube root of the prime with t primes before it. */
  lemma ConstantIs(t: nat)
    requires t < 64
    ensures exists p, q :: NthPrime(p, t) && CubeRoot(p, q, Constants()[t])
  {
    PrimeIs(t);
    RightAt(t);
    hide Prime, NthPrime, CubeRoot, WholeRoot, K;
    assert NthPrime(Prime(t), t) && CubeRoot(Prime(t), WholeRoot(Prime(t)), Constants()[t]);
  }

  lemma Squares()
    ensures SquareRoot(2, 1, 0x6a09e667) && SquareRoot(3, 1, 0xbb67ae85) && SquareRoot(5, 2, 0x3c6ef372) && SquareRoot(7, 2, 0xa54ff53a)
    ensures SquareRoot(11, 3, 0x510e527f) && SquareRoot(13, 3, 0x9b05688c) && SquareRoot(17, 4, 0x1f83d9ab) && SquareRoot(19, 4, 0x5be0cd19)
  {}

  /** Word t of the initial hash value is the fractional part of the square root of that prime. */
  lemma InitialIs(t: nat)
    requires t < 8
    ensures exists p, q :: NthPrime(p, t) && SquareRoot(p, q, Register(Initial(), t))
  {
    PrimeIs(t);
    Squares();
    hide NthPrime, SquareRoot;
    var p := Prime(t);
    var q := if p < 4 then 1 else if p < 9 then 2 else if p < 16 then 3 else 4;
    if t == 0 {} else if t == 1 {} else if t == 2 {} else if t == 3 {} else if t == 4 {} else if t == 5 {} else if t == 6 {} else {}
    assert NthPrime(p, t) && SquareRoot(p, q, Register(Initial(), t));
  }
}
