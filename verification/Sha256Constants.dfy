/** Where the words of SHA-256 come from: the fractional parts of the roots of the first primes
    (sections 4.2.2 and 5.3.3 of FIPS 180-4), against the tables of src/core.cpp:93-110. */
module Sha256Constants {
  import opened Types
  import opened Sha256
  import opened Division

  const TWO_96: int := 0x1_0000_0000_0000_0000_0000_0000

  // ------------------------------------------------------------ the first primes

  ghost predicate IsPrime(n: nat) {
    n > 1 && forall d: nat {:trigger n % d} :: 1 < d < n ==> n % d != 0
  }

  ghost function PrimesBelow(n: nat): set<nat> {
    set q: nat | q < n && IsPrime(q)
  }

  /** `p` is a prime and exactly `t` primes are below it. */
  ghost predicate IsNthPrime(t: nat, p: nat) {
    IsPrime(p) && |PrimesBelow(p)| == t
  }

  /** A sieve prime divides `n` properly. */
  predicate Sieved(n: nat) {
    || (n > 2 && n % 2 == 0) || (n > 3 && n % 3 == 0) || (n > 5 && n % 5 == 0) || (n > 7 && n % 7 == 0)
    || (n > 11 && n % 11 == 0) || (n > 13 && n % 13 == 0) || (n > 17 && n % 17 == 0)
  }

  /** Every number from `a` up to `b` falls through the sieve. */
  predicate Gap(a: nat, b: nat)
    decreases b - a
  {
    a >= b || (Sieved(a) && Gap(a + 1, b))
  }

  lemma {:induction false} GapSieves(a: nat, b: nat, q: nat)
    requires a <= q < b && Gap(a, b)
    ensures Sieved(q)
    decreases q - a
  {
    hide Sieved;
    if a < q { GapSieves(a + 1, b, q); }
  }

  /** What divides a divisor divides the number. */
  lemma Through(n: nat, d: nat, f: nat)
    requires d > 0 && f > 0 && n % d == 0 && d % f == 0
    ensures n % f == 0
  {
    var e, g := n / d, d / f;
    assert n == d * e && d == f * g;
    assert n == f * (g * e);
    Multiple(f, g * e);
  }

  lemma SmallDivisor(n: nat, d: nat)
    requires 1 < d < 18 && d < n && n % d == 0
    ensures Sieved(n)
  {
    if d % 2 == 0 { Through(n, d, 2); }
    else if d % 3 == 0 { Through(n, d, 3); }
    else if d % 5 == 0 { Through(n, d, 5); }
  }

  lemma ProductAtLeast(d: nat, e: nat)
    ensures d >= 18 && e >= 18 ==> d * e >= 324
    ensures d > 1 && e > 0 ==> e < d * e
    ensures e == 0 ==> d * e == 0
    ensures e == 1 ==> d * e == d
  {
    if d >= 18 && e >= 18 { assert d * e >= 18 * e; }
  }

  /** Of two factors of a number below 324 one is below 18. */
  lemma SmallFactor(n: nat, d: nat) returns (e: nat)
    requires 1 < d < n < 324 && n % d == 0
    ensures 1 < e < 18 && e < n && n % e == 0
  {
    if d < 18 { return d; }
    e := n / d;
    assert n == d * e;
    ProductAtLeast(d, e);
    Multiple(e, d);
  }

  lemma SieveIsExact(n: nat)
    requires 1 < n < 324
    ensures IsPrime(n) <==> !Sieved(n)
  {
    if !Sieved(n) {
      hide Sieved;
      forall d: nat {:trigger n % d} | 1 < d < n ensures n % d != 0 {
        if n % d == 0 {
          var e := SmallFactor(n, d);
          SmallDivisor(n, e);
        }
      }
    }
  }

  /** The next number that passes the sieve is the next prime. */
  lemma NextPrime(t: nat, p: nat, q: nat)
    requires IsNthPrime(t, p) && p < q < 324 && Gap(p + 1, q) && !Sieved(q)
    ensures IsNthPrime(t + 1, q)
  {
    assert p > 1;
    hide Gap, Sieved, IsPrime;
    SieveIsExact(q);
    forall n: nat | p < n < q ensures !IsPrime(n) {
      GapSieves(p + 1, q, n);
      SieveIsExact(n);
    }
    assert PrimesBelow(q) == PrimesBelow(p) + {p};
  }

  lemma FirstPrime()
    ensures IsNthPrime(0, 2)
  {
    assert PrimesBelow(2) == {};
  }

  lemma Primes0To3()
    ensures IsNthPrime(0, 2) && IsNthPrime(1, 3) && IsNthPrime(2, 5) && IsNthPrime(3, 7)
  {
    hide IsNthPrime;
    FirstPrime();
    assert Gap(3, 3) && !Sieved(3);
    NextPrime(0, 2, 3);
    assert Gap(4, 5) && !Sieved(5);
    NextPrime(1, 3, 5);
    assert Gap(6, 7) && !Sieved(7);
    NextPrime(2, 5, 7);
  }

  lemma Primes4To7()
    ensures IsNthPrime(4, 11) && IsNthPrime(5, 13) && IsNthPrime(6, 17) && IsNthPrime(7, 19)
  {
    hide IsNthPrime;
    Primes0To3();
    assert Gap(8, 11) && !Sieved(11);
    NextPrime(3, 7, 11);
    assert Gap(12, 13) && !Sieved(13);
    NextPrime(4, 11, 13);
    assert Gap(14, 17) && !Sieved(17);
    NextPrime(5, 13, 17);
    assert Gap(18, 19) && !Sieved(19);
    NextPrime(6, 17, 19);
  }

  lemma Primes8To11()
    ensures IsNthPrime(8, 23) && IsNthPrime(9, 29) && IsNthPrime(10, 31) && IsNthPrime(11, 37)
  {
    hide IsNthPrime;
    Primes4To7();
    assert Gap(20, 23) && !Sieved(23);
    NextPrime(7, 19, 23);
    assert Gap(24, 29) && !Sieved(29);
    NextPrime(8, 23, 29);
    assert Gap(30, 31) && !Sieved(31);
    NextPrime(9, 29, 31);
    assert Gap(32, 37) && !Sieved(37);
    NextPrime(10, 31, 37);
  }

  lemma Primes12To15()
    ensures IsNthPrime(12, 41) && IsNthPrime(13, 43) && IsNthPrime(14, 47) && IsNthPrime(15, 53)
  {
    hide IsNthPrime;
    Primes8To11();
    assert Gap(38, 41) && !Sieved(41);
    NextPrime(11, 37, 41);
    assert Gap(42, 43) && !Sieved(43);
    NextPrime(12, 41, 43);
    assert Gap(44, 47) && !Sieved(47);
    NextPrime(13, 43, 47);
    assert Gap(48, 53) && !Sieved(53);
    NextPrime(14, 47, 53);
  }

  lemma Primes16To19()
    ensures IsNthPrime(16, 59) && IsNthPrime(17, 61) && IsNthPrime(18, 67) && IsNthPrime(19, 71)
  {
    hide IsNthPrime;
    Primes12To15();
    assert Gap(54, 59) && !Sieved(59);
    NextPrime(15, 53, 59);
    assert Gap(60, 61) && !Sieved(61);
    NextPrime(16, 59, 61);
    assert Gap(62, 67) && !Sieved(67);
    NextPrime(17, 61, 67);
    assert Gap(68, 71) && !Sieved(71);
    NextPrime(18, 67, 71);
  }

  lemma Primes20To23()
    ensures IsNthPrime(20, 73) && IsNthPrime(21, 79) && IsNthPrime(22, 83) && IsNthPrime(23, 89)
  {
    hide IsNthPrime;
    Primes16To19();
    assert Gap(72, 73) && !Sieved(73);
    NextPrime(19, 71, 73);
    assert Gap(74, 79) && !Sieved(79);
    NextPrime(20, 73, 79);
    assert Gap(80, 83) && !Sieved(83);
    NextPrime(21, 79, 83);
    assert Gap(84, 89) && !Sieved(89);
    NextPrime(22, 83, 89);
  }

  lemma Primes24To27()
    ensures IsNthPrime(24, 97) && IsNthPrime(25, 101) && IsNthPrime(26, 103) && IsNthPrime(27, 107)
  {
    hide IsNthPrime;
    Primes20To23();
    assert Gap(90, 97) && !Sieved(97);
    NextPrime(23, 89, 97);
    assert Gap(98, 101) && !Sieved(101);
    NextPrime(24, 97, 101);
    assert Gap(102, 103) && !Sieved(103);
    NextPrime(25, 101, 103);
    assert Gap(104, 107) && !Sieved(107);
    NextPrime(26, 103, 107);
  }

  lemma Primes28To31()
    ensures IsNthPrime(28, 109) && IsNthPrime(29, 113) && IsNthPrime(30, 127) && IsNthPrime(31, 131)
  {
    hide IsNthPrime;
    Primes24To27();
    assert Gap(108, 109) && !Sieved(109);
    NextPrime(27, 107, 109);
    assert Gap(110, 113) && !Sieved(113);
    NextPrime(28, 109, 113);
    assert Gap(114, 127) && !Sieved(127);
    NextPrime(29, 113, 127);
    assert Gap(128, 131) && !Sieved(131);
    NextPrime(30, 127, 131);
  }

  lemma Primes32To35()
    ensures IsNthPrime(32, 137) && IsNthPrime(33, 139) && IsNthPrime(34, 149) && IsNthPrime(35, 151)
  {
    hide IsNthPrime;
    Primes28To31();
    assert Gap(132, 137) && !Sieved(137);
    NextPrime(31, 131, 137);
    assert Gap(138, 139) && !Sieved(139);
    NextPrime(32, 137, 139);
    assert Gap(140, 149) && !Sieved(149);
    NextPrime(33, 139, 149);
    assert Gap(150, 151) && !Sieved(151);
    NextPrime(34, 149, 151);
  }

  lemma Primes36To39()
    ensures IsNthPrime(36, 157) && IsNthPrime(37, 163) && IsNthPrime(38, 167) && IsNthPrime(39, 173)
  {
    hide IsNthPrime;
    Primes32To35();
    assert Gap(152, 157) && !Sieved(157);
    NextPrime(35, 151, 157);
    assert Gap(158, 163) && !Sieved(163);
    NextPrime(36, 157, 163);
    assert Gap(164, 167) && !Sieved(167);
    NextPrime(37, 163, 167);
    assert Gap(168, 173) && !Sieved(173);
    NextPrime(38, 167, 173);
  }

  lemma Primes40To43()
    ensures IsNthPrime(40, 179) && IsNthPrime(41, 181) && IsNthPrime(42, 191) && IsNthPrime(43, 193)
  {
    hide IsNthPrime;
    Primes36To39();
    assert Gap(174, 179) && !Sieved(179);
    NextPrime(39, 173, 179);
    assert Gap(180, 181) && !Sieved(181);
    NextPrime(40, 179, 181);
    assert Gap(182, 191) && !Sieved(191);
    NextPrime(41, 181, 191);
    assert Gap(192, 193) && !Sieved(193);
    NextPrime(42, 191, 193);
  }

  lemma Primes44To47()
    ensures IsNthPrime(44, 197) && IsNthPrime(45, 199) && IsNthPrime(46, 211) && IsNthPrime(47, 223)
  {
    hide IsNthPrime;
    Primes40To43();
    assert Gap(194, 197) && !Sieved(197);
    NextPrime(43, 193, 197);
    assert Gap(198, 199) && !Sieved(199);
    NextPrime(44, 197, 199);
    assert Gap(200, 211) && !Sieved(211);
    NextPrime(45, 199, 211);
    assert Gap(212, 223) && !Sieved(223);
    NextPrime(46, 211, 223);
  }

  lemma Primes48To51()
    ensures IsNthPrime(48, 227) && IsNthPrime(49, 229) && IsNthPrime(50, 233) && IsNthPrime(51, 239)
  {
    hide IsNthPrime;
    Primes44To47();
    assert Gap(224, 227) && !Sieved(227);
    NextPrime(47, 223, 227);
    assert Gap(228, 229) && !Sieved(229);
    NextPrime(48, 227, 229);
    assert Gap(230, 233) && !Sieved(233);
    NextPrime(49, 229, 233);
    assert Gap(234, 239) && !Sieved(239);
    NextPrime(50, 233, 239);
  }

  lemma Primes52To55()
    ensures IsNthPrime(52, 241) && IsNthPrime(53, 251) && IsNthPrime(54, 257) && IsNthPrime(55, 263)
  {
    hide IsNthPrime;
    Primes48To51();
    assert Gap(240, 241) && !Sieved(241);
    NextPrime(51, 239, 241);
    assert Gap(242, 251) && !Sieved(251);
    NextPrime(52, 241, 251);
    assert Gap(252, 257) && !Sieved(257);
    NextPrime(53, 251, 257);
    assert Gap(258, 263) && !Sieved(263);
    NextPrime(54, 257, 263);
  }

  lemma Primes56To59()
    ensures IsNthPrime(56, 269) && IsNthPrime(57, 271) && IsNthPrime(58, 277) && IsNthPrime(59, 281)
  {
    hide IsNthPrime;
    Primes52To55();
    assert Gap(264, 269) && !Sieved(269);
    NextPrime(55, 263, 269);
    assert Gap(270, 271) && !Sieved(271);
    NextPrime(56, 269, 271);
    assert Gap(272, 277) && !Sieved(277);
    NextPrime(57, 271, 277);
    assert Gap(278, 281) && !Sieved(281);
    NextPrime(58, 277, 281);
  }

  lemma Primes60To63()
    ensures IsNthPrime(60, 283) && IsNthPrime(61, 293) && IsNthPrime(62, 307) && IsNthPrime(63, 311)
  {
    hide IsNthPrime;
    Primes56To59();
    assert Gap(282, 283) && !Sieved(283);
    NextPrime(59, 281, 283);
    assert Gap(284, 293) && !Sieved(293);
    NextPrime(60, 283, 293);
    assert Gap(294, 307) && !Sieved(307);
    NextPrime(61, 293, 307);
    assert Gap(308, 311) && !Sieved(311);
    NextPrime(62, 307, 311);
  }

  // ------------------------------------------------------------ the roots

  predicate IsCubeRoot(n: nat, x: nat) {
    n * n * n <= x < (n + 1) * (n + 1) * (n + 1)
  }

  predicate IsSquareRoot(n: nat, x: nat) {
    n * n <= x < (n + 1) * (n + 1)
  }

  /** `k` is the first 32 bits of the fractional part of the cube root of the `t`-th prime: 2^32 times
      the root, rounded down, without its integer part. */
  ghost predicate IsConstantOf(k: bv32, t: nat) {
    exists p: nat, n: nat ::
      IsNthPrime(t, p) && IsCubeRoot(n, p * TWO_96) && k as int == n % TWO_32
  }

  /** `k` is the first 32 bits of the fractional part of the square root of the `t`-th prime. */
  ghost predicate IsInitialOf(k: bv32, t: nat) {
    exists p: nat, n: nat ::
      IsNthPrime(t, p) && IsSquareRoot(n, p * TWO_64) && k as int == n % TWO_32
  }

  lemma CubeRootWord(t: nat, k: bv32, p: nat, n: nat)
    requires IsNthPrime(t, p) && IsCubeRoot(n, p * TWO_96) && k as int == n % TWO_32
    ensures IsConstantOf(k, t)
  {
  }

  lemma SquareRootWord(t: nat, k: bv32, p: nat, n: nat)
    requires IsNthPrime(t, p) && IsSquareRoot(n, p * TWO_64) && k as int == n % TWO_32
    ensures IsInitialOf(k, t)
  {
  }

  lemma ConstantsOfRow0(i: nat)
    requires i < 8
    ensures IsConstantOf(ConstantRow(0)[i], 0 + i)
  {
    hide IsNthPrime, IsConstantOf;
    Primes0To3();
    Primes4To7();
    match i
    case 0 => CubeRootWord(0, 0x428a2f98, 2, 0x1428a2f98);
    case 1 => CubeRootWord(1, 0x71374491, 3, 0x171374491);
    case 2 => CubeRootWord(2, 0xb5c0fbcf, 5, 0x1b5c0fbcf);
    case 3 => CubeRootWord(3, 0xe9b5dba5, 7, 0x1e9b5dba5);
    case 4 => CubeRootWord(4, 0x3956c25b, 11, 0x23956c25b);
    case 5 => CubeRootWord(5, 0x59f111f1, 13, 0x259f111f1);
    case 6 => CubeRootWord(6, 0x923f82a4, 17, 0x2923f82a4);
    case 7 => CubeRootWord(7, 0xab1c5ed5, 19, 0x2ab1c5ed5);
  }

  lemma ConstantsOfRow1(i: nat)
    requires i < 8
    ensures IsConstantOf(ConstantRow(1)[i], 8 + i)
  {
    hide IsNthPrime, IsConstantOf;
    Primes8To11();
    Primes12To15();
    match i
    case 0 => CubeRootWord(8, 0xd807aa98, 23, 0x2d807aa98);
    case 1 => CubeRootWord(9, 0x12835b01, 29, 0x312835b01);
    case 2 => CubeRootWord(10, 0x243185be, 31, 0x3243185be);
    case 3 => CubeRootWord(11, 0x550c7dc3, 37, 0x3550c7dc3);
    case 4 => CubeRootWord(12, 0x72be5d74, 41, 0x372be5d74);
    case 5 => CubeRootWord(13, 0x80deb1fe, 43, 0x380deb1fe);
    case 6 => CubeRootWord(14, 0x9bdc06a7, 47, 0x39bdc06a7);
    case 7 => CubeRootWord(15, 0xc19bf174, 53, 0x3c19bf174);
  }

  lemma ConstantsOfRow2(i: nat)
    requires i < 8
    ensures IsConstantOf(ConstantRow(2)[i], 16 + i)
  {
    hide IsNthPrime, IsConstantOf;
    Primes16To19();
    Primes20To23();
    match i
    case 0 => CubeRootWord(16, 0xe49b69c1, 59, 0x3e49b69c1);
    case 1 => CubeRootWord(17, 0xefbe4786, 61, 0x3efbe4786);
    case 2 => CubeRootWord(18, 0x0fc19dc6, 67, 0x40fc19dc6);
    case 3 => CubeRootWord(19, 0x240ca1cc, 71, 0x4240ca1cc);
    case 4 => CubeRootWord(20, 0x2de92c6f, 73, 0x42de92c6f);
    case 5 => CubeRootWord(21, 0x4a7484aa, 79, 0x44a7484aa);
    case 6 => CubeRootWord(22, 0x5cb0a9dc, 83, 0x45cb0a9dc);
    case 7 => CubeRootWord(23, 0x76f988da, 89, 0x476f988da);
  }

  lemma ConstantsOfRow3(i: nat)
    requires i < 8
    ensures IsConstantOf(ConstantRow(3)[i], 24 + i)
  {
    hide IsNthPrime, IsConstantOf;
    Primes24To27();
    Primes28To31();
    match i
    case 0 => CubeRootWord(24, 0x983e5152, 97, 0x4983e5152);
    case 1 => CubeRootWord(25, 0xa831c66d, 101, 0x4a831c66d);
    case 2 => CubeRootWord(26, 0xb00327c8, 103, 0x4b00327c8);
    case 3 => CubeRootWord(27, 0xbf597fc7, 107, 0x4bf597fc7);
    case 4 => CubeRootWord(28, 0xc6e00bf3, 109, 0x4c6e00bf3);
    case 5 => CubeRootWord(29, 0xd5a79147, 113, 0x4d5a79147);
    case 6 => CubeRootWord(30, 0x06ca6351, 127, 0x506ca6351);
    case 7 => CubeRootWord(31, 0x14292967, 131, 0x514292967);
  }

  lemma ConstantsOfRow4(i: nat)
    requires i < 8
    ensures IsConstantOf(ConstantRow(4)[i], 32 + i)
  {
    hide IsNthPrime, IsConstantOf;
    Primes32To35();
    Primes36To39();
    match i
    case 0 => CubeRootWord(32, 0x27b70a85, 137, 0x527b70a85);
    case 1 => CubeRootWord(33, 0x2e1b2138, 139, 0x52e1b2138);
    case 2 => CubeRootWord(34, 0x4d2c6dfc, 149, 0x54d2c6dfc);
    case 3 => CubeRootWord(35, 0x53380d13, 151, 0x553380d13);
    case 4 => CubeRootWord(36, 0x650a7354, 157, 0x5650a7354);
    case 5 => CubeRootWord(37, 0x766a0abb, 163, 0x5766a0abb);
    case 6 => CubeRootWord(38, 0x81c2c92e, 167, 0x581c2c92e);
    case 7 => CubeRootWord(39, 0x92722c85, 173, 0x592722c85);
  }

  lemma ConstantsOfRow5(i: nat)
    requires i < 8
    ensures IsConstantOf(ConstantRow(5)[i], 40 + i)
  {
    hide IsNthPrime, IsConstantOf;
    Primes40To43();
    Primes44To47();
    match i
    case 0 => CubeRootWord(40, 0xa2bfe8a1, 179, 0x5a2bfe8a1);
    case 1 => CubeRootWord(41, 0xa81a664b, 181, 0x5a81a664b);
    case 2 => CubeRootWord(42, 0xc24b8b70, 191, 0x5c24b8b70);
    case 3 => CubeRootWord(43, 0xc76c51a3, 193, 0x5c76c51a3);
    case 4 => CubeRootWord(44, 0xd192e819, 197, 0x5d192e819);
    case 5 => CubeRootWord(45, 0xd6990624, 199, 0x5d6990624);
    case 6 => CubeRootWord(46, 0xf40e3585, 211, 0x5f40e3585);
    case 7 => CubeRootWord(47, 0x106aa070, 223, 0x6106aa070);
  }

  lemma ConstantsOfRow6(i: nat)
    requires i < 8
    ensures IsConstantOf(ConstantRow(6)[i], 48 + i)
  {
    hide IsNthPrime, IsConstantOf;
    Primes48To51();
    Primes52To55();
    match i
    case 0 => CubeRootWord(48, 0x19a4c116, 227, 0x619a4c116);
    case 1 => CubeRootWord(49, 0x1e376c08, 229, 0x61e376c08);
    case 2 => CubeRootWord(50, 0x2748774c, 233, 0x62748774c);
    case 3 => CubeRootWord(51, 0x34b0bcb5, 239, 0x634b0bcb5);
    case 4 => CubeRootWord(52, 0x391c0cb3, 241, 0x6391c0cb3);
    case 5 => CubeRootWord(53, 0x4ed8aa4a, 251, 0x64ed8aa4a);
    case 6 => CubeRootWord(54, 0x5b9cca4f, 257, 0x65b9cca4f);
    case 7 => CubeRootWord(55, 0x682e6ff3, 263, 0x6682e6ff3);
  }

  lemma ConstantsOfRow7(i: nat)
    requires i < 8
    ensures IsConstantOf(ConstantRow(7)[i], 56 + i)
  {
    hide IsNthPrime, IsConstantOf;
    Primes56To59();
    Primes60To63();
    match i
    case 0 => CubeRootWord(56, 0x748f82ee, 269, 0x6748f82ee);
    case 1 => CubeRootWord(57, 0x78a5636f, 271, 0x678a5636f);
    case 2 => CubeRootWord(58, 0x84c87814, 277, 0x684c87814);
    case 3 => CubeRootWord(59, 0x8cc70208, 281, 0x68cc70208);
    case 4 => CubeRootWord(60, 0x90befffa, 283, 0x690befffa);
    case 5 => CubeRootWord(61, 0xa4506ceb, 293, 0x6a4506ceb);
    case 6 => CubeRootWord(62, 0xbef9a3f7, 307, 0x6bef9a3f7);
    case 7 => CubeRootWord(63, 0xc67178f2, 311, 0x6c67178f2);
  }

  /** The round constants are those of section 4.2.2: constant `t` comes from the cube root of
      the `t`-th prime. */
  lemma ConstantsAreCubeRoots(t: nat)
    requires t < 64
    ensures IsConstantOf(RoundConstant(t), t)
  {
    hide IsConstantOf, ConstantRow;
    match t / 8
    case 0 => ConstantsOfRow0(t % 8);
    case 1 => ConstantsOfRow1(t % 8);
    case 2 => ConstantsOfRow2(t % 8);
    case 3 => ConstantsOfRow3(t % 8);
    case 4 => ConstantsOfRow4(t % 8);
    case 5 => ConstantsOfRow5(t % 8);
    case 6 => ConstantsOfRow6(t % 8);
    case 7 => ConstantsOfRow7(t % 8);
  }

  /** The initial hash value is that of section 5.3.3: the square roots of the first eight primes. */
  lemma InitialIsSquareRoots()
    ensures IsInitialOf(INITIAL.a, 0)
    ensures IsInitialOf(INITIAL.b, 1)
    ensures IsInitialOf(INITIAL.c, 2)
    ensures IsInitialOf(INITIAL.d, 3)
    ensures IsInitialOf(INITIAL.e, 4)
    ensures IsInitialOf(INITIAL.f, 5)
    ensures IsInitialOf(INITIAL.g, 6)
    ensures IsInitialOf(INITIAL.h, 7)
  {
    hide IsNthPrime, IsInitialOf;
    Primes0To3();
    Primes4To7();
    SquareRootWord(0, 0x6a09e667, 2, 0x16a09e667);
    SquareRootWord(1, 0xbb67ae85, 3, 0x1bb67ae85);
    SquareRootWord(2, 0x3c6ef372, 5, 0x23c6ef372);
    SquareRootWord(3, 0xa54ff53a, 7, 0x2a54ff53a);
    SquareRootWord(4, 0x510e527f, 11, 0x3510e527f);
    SquareRootWord(5, 0x9b05688c, 13, 0x39b05688c);
    SquareRootWord(6, 0x1f83d9ab, 17, 0x41f83d9ab);
    SquareRootWord(7, 0x5be0cd19, 19, 0x45be0cd19);
  }
}
