/**
 Why the constants of Sha256.dfy are those of FIPS 180-4: they are the first 32 bits
 of the fractional parts of the cube and square roots of the first primes, sections 4.2.2 and 5.3.3.
 */
module Sha256Standard {
  import opened Sha256

  // ----- the first primes -----

  ghost predicate IsPrime(p: nat) {
    p >= 2 && forall d: nat :: 2 <= d < p ==> p % d != 0
  }

  /** How many primes there are below `n`. */
  ghost function PrimesBelow(n: nat): nat {
    if n == 0 then 0 else PrimesBelow(n - 1) + if IsPrime(n - 1) then 1 else 0
  }

  /** Below 18 * 18 a number is prime when none of the primes up to 17 divides it, but for itself. */
  predicate SmallPrime(n: nat) {
    && n >= 2
    && (n == 2 || n % 2 != 0) && (n == 3 || n % 3 != 0) && (n == 5 || n % 5 != 0) && (n == 7 || n % 7 != 0)
    && (n == 11 || n % 11 != 0) && (n == 13 || n % 13 != 0) && (n == 17 || n % 17 != 0)
  }

  lemma SmallPrimes(n: nat)
    requires n < 324
    ensures IsPrime(n) <==> SmallPrime(n)
  {
    if IsPrime(n) {
      NotDivided(n, 2);
      NotDivided(n, 3);
      NotDivided(n, 5);
      NotDivided(n, 7);
      NotDivided(n, 11);
      NotDivided(n, 13);
      NotDivided(n, 17);
    }
    if SmallPrime(n) {
      forall d: nat | 2 <= d < n ensures n % d != 0 {
        if n % d == 0 {
          Divided(n, d);
        }
      }
    }
  }

  lemma Divided(n: nat, d: nat)
    requires 2 <= d < n < 324 && n % d == 0
    ensures !SmallPrime(n)
  {
    hide SmallPrime;
    var q := n / d;
    assert n == d * q;
    if d <= 17 {
      SmallFactor(n, d, q);
    } else {
      OtherFactor(d, q);
      SmallFactor(n, q, d);
    }
  }

  lemma NotDivided(n: nat, p: nat)
    requires IsPrime(n) && p >= 2
    ensures n == p || n % p != 0
  {
    if p > n {
      assert n % p == n;
    }
  }

  lemma OtherFactor(d: nat, q: nat)
    requires d > 17 && d * q < 324
    ensures q <= 17
  {
    assert d * q >= 18 * q;
  }

  /** A number with a divisor from 2 to 17, but for itself, is not small prime. */
  lemma SmallFactor(n: nat, d: nat, q: nat)
    requires n == d * q && 2 <= d <= 17 && d < n
    ensures !SmallPrime(n)
  {
    hide SmallPrime;
    match d {
      case 2 => Times2(n, q);
      case 3 => Times3(n, q);
      case 4 => Times2(n, 2 * q);
      case 5 => Times5(n, q);
      case 6 => Times2(n, 3 * q);
      case 7 => Times7(n, q);
      case 8 => Times2(n, 4 * q);
      case 9 => Times3(n, 3 * q);
      case 10 => Times2(n, 5 * q);
      case 11 => Times11(n, q);
      case 12 => Times2(n, 6 * q);
      case 13 => Times13(n, q);
      case 14 => Times2(n, 7 * q);
      case 15 => Times3(n, 5 * q);
      case 16 => Times2(n, 8 * q);
      case _ => Times17(n, q);
    }
  }

  lemma Times2(n: nat, k: nat)
    requires n == 2 * k && n > 2
    ensures !SmallPrime(n)
  {
    assert n % 2 == 0;
  }

  lemma Times3(n: nat, k: nat)
    requires n == 3 * k && n > 3
    ensures !SmallPrime(n)
  {
    assert n % 3 == 0;
  }

  lemma Times5(n: nat, k: nat)
    requires n == 5 * k && n > 5
    ensures !SmallPrime(n)
  {
    assert n % 5 == 0;
  }

  lemma Times7(n: nat, k: nat)
    requires n == 7 * k && n > 7
    ensures !SmallPrime(n)
  {
    assert n % 7 == 0;
  }

  lemma Times11(n: nat, k: nat)
    requires n == 11 * k && n > 11
    ensures !SmallPrime(n)
  {
    assert n % 11 == 0;
  }

  lemma Times13(n: nat, k: nat)
    requires n == 13 * k && n > 13
    ensures !SmallPrime(n)
  {
    assert n % 13 == 0;
  }

  lemma Times17(n: nat, k: nat)
    requires n == 17 * k && n > 17
    ensures !SmallPrime(n)
  {
    assert n % 17 == 0;
  }

  /** The next prime. */
  lemma {:induction false} NextPrime(p: nat, q: nat)
    requires p < q < 324 && SmallPrime(p) && forall n :: p < n < q ==> !SmallPrime(n)
    ensures PrimesBelow(q) == PrimesBelow(p) + 1
    decreases q
  {
    SmallPrimes(q - 1);
    if p < q - 1 {
      NextPrime(p, q - 1);
    }
  }

  /** A prime is told by how many are below it. */
  lemma {:induction false} FewerBelow(p: nat, q: nat)
    requires p < q
    ensures PrimesBelow(p) + (if IsPrime(p) then 1 else 0) <= PrimesBelow(q)
    decreases q
  {
    if p < q - 1 {
      FewerBelow(p, q - 1);
    }
  }

  lemma SamePrime(p: nat, q: nat)
    requires IsPrime(p) && IsPrime(q) && PrimesBelow(p) == PrimesBelow(q)
    ensures p == q
  {
    if p < q {
      FewerBelow(p, q);
    } else if q < p {
      FewerBelow(q, p);
    }
  }

  lemma FirstPrime()
    ensures PrimesBelow(2) == 0 && IsPrime(2)
  {
    assert PrimesBelow(1) == 0;
  }

  lemma Sieve0()
    ensures SmallPrime(2) && SmallPrime(3) && SmallPrime(5) && SmallPrime(7) && SmallPrime(11)
    ensures SmallPrime(13) && SmallPrime(17) && SmallPrime(19)
    ensures !SmallPrime(4) && !SmallPrime(6) && !SmallPrime(8) && !SmallPrime(9) && !SmallPrime(10)
    ensures !SmallPrime(12) && !SmallPrime(14) && !SmallPrime(15) && !SmallPrime(16) && !SmallPrime(18)
  {
  }

  lemma Primes0()
    ensures SmallPrime(2) && SmallPrime(3) && SmallPrime(5) && SmallPrime(7) && SmallPrime(11)
    ensures SmallPrime(13) && SmallPrime(17) && SmallPrime(19)
    ensures PrimesBelow(2) == 0 && PrimesBelow(3) == 1 && PrimesBelow(5) == 2 && PrimesBelow(7) == 3
    ensures PrimesBelow(11) == 4 && PrimesBelow(13) == 5 && PrimesBelow(17) == 6 && PrimesBelow(19) == 7
  {
    hide PrimesBelow, SmallPrime;
    Sieve0();
    FirstPrime();
    NextPrime(2, 3);
    NextPrime(3, 5);
    NextPrime(5, 7);
    NextPrime(7, 11);
    NextPrime(11, 13);
    NextPrime(13, 17);
    NextPrime(17, 19);
  }

  lemma Sieve1()
    ensures SmallPrime(23) && SmallPrime(29) && SmallPrime(31) && SmallPrime(37) && SmallPrime(41)
    ensures SmallPrime(43) && SmallPrime(47) && SmallPrime(53)
    ensures !SmallPrime(20) && !SmallPrime(21) && !SmallPrime(22) && !SmallPrime(24) && !SmallPrime(25)
    ensures !SmallPrime(26) && !SmallPrime(27) && !SmallPrime(28) && !SmallPrime(30) && !SmallPrime(32)
    ensures !SmallPrime(33) && !SmallPrime(34) && !SmallPrime(35) && !SmallPrime(36) && !SmallPrime(38)
    ensures !SmallPrime(39) && !SmallPrime(40) && !SmallPrime(42) && !SmallPrime(44) && !SmallPrime(45)
    ensures !SmallPrime(46) && !SmallPrime(48) && !SmallPrime(49) && !SmallPrime(50) && !SmallPrime(51)
    ensures !SmallPrime(52)
  {
  }

  lemma Primes1()
    ensures SmallPrime(23) && SmallPrime(29) && SmallPrime(31) && SmallPrime(37) && SmallPrime(41)
    ensures SmallPrime(43) && SmallPrime(47) && SmallPrime(53)
    ensures PrimesBelow(23) == 8 && PrimesBelow(29) == 9 && PrimesBelow(31) == 10 && PrimesBelow(37) == 11
    ensures PrimesBelow(41) == 12 && PrimesBelow(43) == 13 && PrimesBelow(47) == 14 && PrimesBelow(53) == 15
  {
    hide PrimesBelow, SmallPrime;
    Sieve1();
    Primes0();
    NextPrime(19, 23);
    NextPrime(23, 29);
    NextPrime(29, 31);
    NextPrime(31, 37);
    NextPrime(37, 41);
    NextPrime(41, 43);
    NextPrime(43, 47);
    NextPrime(47, 53);
  }

  lemma Sieve2()
    ensures SmallPrime(59) && SmallPrime(61) && SmallPrime(67) && SmallPrime(71) && SmallPrime(73)
    ensures SmallPrime(79) && SmallPrime(83) && SmallPrime(89)
    ensures !SmallPrime(54) && !SmallPrime(55) && !SmallPrime(56) && !SmallPrime(57) && !SmallPrime(58)
    ensures !SmallPrime(60) && !SmallPrime(62) && !SmallPrime(63) && !SmallPrime(64) && !SmallPrime(65)
    ensures !SmallPrime(66) && !SmallPrime(68) && !SmallPrime(69) && !SmallPrime(70) && !SmallPrime(72)
    ensures !SmallPrime(74) && !SmallPrime(75) && !SmallPrime(76) && !SmallPrime(77) && !SmallPrime(78)
    ensures !SmallPrime(80) && !SmallPrime(81) && !SmallPrime(82) && !SmallPrime(84) && !SmallPrime(85)
    ensures !SmallPrime(86) && !SmallPrime(87) && !SmallPrime(88)
  {
  }

  lemma Primes2()
    ensures SmallPrime(59) && SmallPrime(61) && SmallPrime(67) && SmallPrime(71) && SmallPrime(73)
    ensures SmallPrime(79) && SmallPrime(83) && SmallPrime(89)
    ensures PrimesBelow(59) == 16 && PrimesBelow(61) == 17 && PrimesBelow(67) == 18 && PrimesBelow(71) == 19
    ensures PrimesBelow(73) == 20 && PrimesBelow(79) == 21 && PrimesBelow(83) == 22 && PrimesBelow(89) == 23
  {
    hide PrimesBelow, SmallPrime;
    Sieve2();
    Primes1();
    NextPrime(53, 59);
    NextPrime(59, 61);
    NextPrime(61, 67);
    NextPrime(67, 71);
    NextPrime(71, 73);
    NextPrime(73, 79);
    NextPrime(79, 83);
    NextPrime(83, 89);
  }

  lemma Sieve3()
    ensures SmallPrime(97) && SmallPrime(101) && SmallPrime(103) && SmallPrime(107) && SmallPrime(109)
    ensures SmallPrime(113) && SmallPrime(127) && SmallPrime(131)
    ensures !SmallPrime(90) && !SmallPrime(91) && !SmallPrime(92) && !SmallPrime(93) && !SmallPrime(94)
    ensures !SmallPrime(95) && !SmallPrime(96) && !SmallPrime(98) && !SmallPrime(99) && !SmallPrime(100)
    ensures !SmallPrime(102) && !SmallPrime(104) && !SmallPrime(105) && !SmallPrime(106) && !SmallPrime(108)
    ensures !SmallPrime(110) && !SmallPrime(111) && !SmallPrime(112) && !SmallPrime(114) && !SmallPrime(115)
    ensures !SmallPrime(116) && !SmallPrime(117) && !SmallPrime(118) && !SmallPrime(119) && !SmallPrime(120)
    ensures !SmallPrime(121) && !SmallPrime(122) && !SmallPrime(123) && !SmallPrime(124) && !SmallPrime(125)
    ensures !SmallPrime(126) && !SmallPrime(128) && !SmallPrime(129) && !SmallPrime(130)
  {
  }

  lemma Primes3()
    ensures SmallPrime(97) && SmallPrime(101) && SmallPrime(103) && SmallPrime(107) && SmallPrime(109)
    ensures SmallPrime(113) && SmallPrime(127) && SmallPrime(131)
    ensures PrimesBelow(97) == 24 && PrimesBelow(101) == 25 && PrimesBelow(103) == 26 && PrimesBelow(107) == 27
    ensures PrimesBelow(109) == 28 && PrimesBelow(113) == 29 && PrimesBelow(127) == 30 && PrimesBelow(131) == 31
  {
    hide PrimesBelow, SmallPrime;
    Sieve3();
    Primes2();
    NextPrime(89, 97);
    NextPrime(97, 101);
    NextPrime(101, 103);
    NextPrime(103, 107);
    NextPrime(107, 109);
    NextPrime(109, 113);
    NextPrime(113, 127);
    NextPrime(127, 131);
  }

  lemma Sieve4()
    ensures SmallPrime(137) && SmallPrime(139) && SmallPrime(149) && SmallPrime(151) && SmallPrime(157)
    ensures SmallPrime(163) && SmallPrime(167) && SmallPrime(173)
    ensures !SmallPrime(132) && !SmallPrime(133) && !SmallPrime(134) && !SmallPrime(135) && !SmallPrime(136)
    ensures !SmallPrime(138) && !SmallPrime(140) && !SmallPrime(141) && !SmallPrime(142) && !SmallPrime(143)
    ensures !SmallPrime(144) && !SmallPrime(145) && !SmallPrime(146) && !SmallPrime(147) && !SmallPrime(148)
    ensures !SmallPrime(150) && !SmallPrime(152) && !SmallPrime(153) && !SmallPrime(154) && !SmallPrime(155)
    ensures !SmallPrime(156) && !SmallPrime(158) && !SmallPrime(159) && !SmallPrime(160) && !SmallPrime(161)
    ensures !SmallPrime(162) && !SmallPrime(164) && !SmallPrime(165) && !SmallPrime(166) && !SmallPrime(168)
    ensures !SmallPrime(169) && !SmallPrime(170) && !SmallPrime(171) && !SmallPrime(172)
  {
  }

  lemma Primes4()
    ensures SmallPrime(137) && SmallPrime(139) && SmallPrime(149) && SmallPrime(151) && SmallPrime(157)
    ensures SmallPrime(163) && SmallPrime(167) && SmallPrime(173)
    ensures PrimesBelow(137) == 32 && PrimesBelow(139) == 33 && PrimesBelow(149) == 34 && PrimesBelow(151) == 35
    ensures PrimesBelow(157) == 36 && PrimesBelow(163) == 37 && PrimesBelow(167) == 38 && PrimesBelow(173) == 39
  {
    hide PrimesBelow, SmallPrime;
    Sieve4();
    Primes3();
    NextPrime(131, 137);
    NextPrime(137, 139);
    NextPrime(139, 149);
    NextPrime(149, 151);
    NextPrime(151, 157);
    NextPrime(157, 163);
    NextPrime(163, 167);
    NextPrime(167, 173);
  }

  lemma Sieve5()
    ensures SmallPrime(179) && SmallPrime(181) && SmallPrime(191) && SmallPrime(193) && SmallPrime(197)
    ensures SmallPrime(199) && SmallPrime(211) && SmallPrime(223)
    ensures !SmallPrime(174) && !SmallPrime(175) && !SmallPrime(176) && !SmallPrime(177) && !SmallPrime(178)
    ensures !SmallPrime(180) && !SmallPrime(182) && !SmallPrime(183) && !SmallPrime(184) && !SmallPrime(185)
    ensures !SmallPrime(186) && !SmallPrime(187) && !SmallPrime(188) && !SmallPrime(189) && !SmallPrime(190)
    ensures !SmallPrime(192) && !SmallPrime(194) && !SmallPrime(195) && !SmallPrime(196) && !SmallPrime(198)
    ensures !SmallPrime(200) && !SmallPrime(201) && !SmallPrime(202) && !SmallPrime(203) && !SmallPrime(204)
    ensures !SmallPrime(205) && !SmallPrime(206) && !SmallPrime(207) && !SmallPrime(208) && !SmallPrime(209)
    ensures !SmallPrime(210) && !SmallPrime(212) && !SmallPrime(213) && !SmallPrime(214) && !SmallPrime(215)
    ensures !SmallPrime(216) && !SmallPrime(217) && !SmallPrime(218) && !SmallPrime(219) && !SmallPrime(220)
    ensures !SmallPrime(221) && !SmallPrime(222)
  {
  }

  lemma Primes5()
    ensures SmallPrime(179) && SmallPrime(181) && SmallPrime(191) && SmallPrime(193) && SmallPrime(197)
    ensures SmallPrime(199) && SmallPrime(211) && SmallPrime(223)
    ensures PrimesBelow(179) == 40 && PrimesBelow(181) == 41 && PrimesBelow(191) == 42 && PrimesBelow(193) == 43
    ensures PrimesBelow(197) == 44 && PrimesBelow(199) == 45 && PrimesBelow(211) == 46 && PrimesBelow(223) == 47
  {
    hide PrimesBelow, SmallPrime;
    Sieve5();
    Primes4();
    NextPrime(173, 179);
    NextPrime(179, 181);
    NextPrime(181, 191);
    NextPrime(191, 193);
    NextPrime(193, 197);
    NextPrime(197, 199);
    NextPrime(199, 211);
    NextPrime(211, 223);
  }

  lemma Sieve6()
    ensures SmallPrime(227) && SmallPrime(229) && SmallPrime(233) && SmallPrime(239) && SmallPrime(241)
    ensures SmallPrime(251) && SmallPrime(257) && SmallPrime(263)
    ensures !SmallPrime(224) && !SmallPrime(225) && !SmallPrime(226) && !SmallPrime(228) && !SmallPrime(230)
    ensures !SmallPrime(231) && !SmallPrime(232) && !SmallPrime(234) && !SmallPrime(235) && !SmallPrime(236)
    ensures !SmallPrime(237) && !SmallPrime(238) && !SmallPrime(240) && !SmallPrime(242) && !SmallPrime(243)
    ensures !SmallPrime(244) && !SmallPrime(245) && !SmallPrime(246) && !SmallPrime(247) && !SmallPrime(248)
    ensures !SmallPrime(249) && !SmallPrime(250) && !SmallPrime(252) && !SmallPrime(253) && !SmallPrime(254)
    ensures !SmallPrime(255) && !SmallPrime(256) && !SmallPrime(258) && !SmallPrime(259) && !SmallPrime(260)
    ensures !SmallPrime(261) && !SmallPrime(262)
  {
  }

  lemma Primes6()
    ensures SmallPrime(227) && SmallPrime(229) && SmallPrime(233) && SmallPrime(239) && SmallPrime(241)
    ensures SmallPrime(251) && SmallPrime(257) && SmallPrime(263)
    ensures PrimesBelow(227) == 48 && PrimesBelow(229) == 49 && PrimesBelow(233) == 50 && PrimesBelow(239) == 51
    ensures PrimesBelow(241) == 52 && PrimesBelow(251) == 53 && PrimesBelow(257) == 54 && PrimesBelow(263) == 55
  {
    hide PrimesBelow, SmallPrime;
    Sieve6();
    Primes5();
    NextPrime(223, 227);
    NextPrime(227, 229);
    NextPrime(229, 233);
    NextPrime(233, 239);
    NextPrime(239, 241);
    NextPrime(241, 251);
    NextPrime(251, 257);
    NextPrime(257, 263);
  }

  lemma Sieve7()
    ensures SmallPrime(269) && SmallPrime(271) && SmallPrime(277) && SmallPrime(281) && SmallPrime(283)
    ensures SmallPrime(293) && SmallPrime(307) && SmallPrime(311)
    ensures !SmallPrime(264) && !SmallPrime(265) && !SmallPrime(266) && !SmallPrime(267) && !SmallPrime(268)
    ensures !SmallPrime(270) && !SmallPrime(272) && !SmallPrime(273) && !SmallPrime(274) && !SmallPrime(275)
    ensures !SmallPrime(276) && !SmallPrime(278) && !SmallPrime(279) && !SmallPrime(280) && !SmallPrime(282)
    ensures !SmallPrime(284) && !SmallPrime(285) && !SmallPrime(286) && !SmallPrime(287) && !SmallPrime(288)
    ensures !SmallPrime(289) && !SmallPrime(290) && !SmallPrime(291) && !SmallPrime(292) && !SmallPrime(294)
    ensures !SmallPrime(295) && !SmallPrime(296) && !SmallPrime(297) && !SmallPrime(298) && !SmallPrime(299)
    ensures !SmallPrime(300) && !SmallPrime(301) && !SmallPrime(302) && !SmallPrime(303) && !SmallPrime(304)
    ensures !SmallPrime(305) && !SmallPrime(306) && !SmallPrime(308) && !SmallPrime(309) && !SmallPrime(310)
  {
  }

  lemma Primes7()
    ensures SmallPrime(269) && SmallPrime(271) && SmallPrime(277) && SmallPrime(281) && SmallPrime(283)
    ensures SmallPrime(293) && SmallPrime(307) && SmallPrime(311)
    ensures PrimesBelow(269) == 56 && PrimesBelow(271) == 57 && PrimesBelow(277) == 58 && PrimesBelow(281) == 59
    ensures PrimesBelow(283) == 60 && PrimesBelow(293) == 61 && PrimesBelow(307) == 62 && PrimesBelow(311) == 63
  {
    hide PrimesBelow, SmallPrime;
    Sieve7();
    Primes6();
    NextPrime(263, 269);
    NextPrime(269, 271);
    NextPrime(271, 277);
    NextPrime(277, 281);
    NextPrime(281, 283);
    NextPrime(283, 293);
    NextPrime(293, 307);
    NextPrime(307, 311);
  }

  // ----- the round constants -----

  /** `k` is the first 32 bits of the fractional part of the cube root of `p`, whose integer part is `c`. */
  predicate IsCubeRoot(p: nat, c: nat, k: nat) {
    var x := c * 0x1_0000_0000 + k;
    k < 0x1_0000_0000 && x * x * x <= p * 0x1_0000_0000_0000_0000_0000_0000 < (x + 1) * (x + 1) * (x + 1)
  }

  ghost predicate HasCubeRoot(p: nat, k: nat) {
    exists c: nat :: IsCubeRoot(p, c, k)
  }

  predicate IsSquareRoot(p: nat, c: nat, h: nat) {
    var x := c * 0x1_0000_0000 + h;
    h < 0x1_0000_0000 && x * x <= p * 0x1_0000_0000_0000_0000 < (x + 1) * (x + 1)
  }

  ghost predicate HasSquareRoot(p: nat, h: nat) {
    exists c: nat :: IsSquareRoot(p, c, h)
  }

  /** Entry `t` of the table belongs to the prime `p`. */
  ghost predicate ConstantIs(t: nat, p: nat) {
    t < 64 && IsPrime(p) && PrimesBelow(p) == t && HasCubeRoot(p, K(t) as nat)
  }

  lemma ConstantFound(t: nat, p: nat, c: nat, k: bv32, n: nat)
    requires t < 64 && p < 324 && SmallPrime(p) && PrimesBelow(p) == t
    requires K(t) == k && k as nat == n && IsCubeRoot(p, c, n)
    ensures ConstantIs(t, p)
  {
    hide K, IsCubeRoot, PrimesBelow, IsPrime, SmallPrime;
    SmallPrimes(p);
    assert IsCubeRoot(p, c, n);
  }

  lemma Words0()
    ensures K(0) == 0x428a2f98 && K(1) == 0x71374491 && K(2) == 0xb5c0fbcf && K(3) == 0xe9b5dba5
    ensures K(4) == 0x3956c25b && K(5) == 0x59f111f1 && K(6) == 0x923f82a4 && K(7) == 0xab1c5ed5
  {
  }

  lemma Cubes0()
    ensures IsCubeRoot(2, 1, 0x428a2f98) && IsCubeRoot(3, 1, 0x71374491) && IsCubeRoot(5, 1, 0xb5c0fbcf)
    ensures IsCubeRoot(7, 1, 0xe9b5dba5) && IsCubeRoot(11, 2, 0x3956c25b) && IsCubeRoot(13, 2, 0x59f111f1)
    ensures IsCubeRoot(17, 2, 0x923f82a4) && IsCubeRoot(19, 2, 0xab1c5ed5)
  {
  }

  lemma Constants0()
    ensures ConstantIs(0, 2) && ConstantIs(1, 3) && ConstantIs(2, 5) && ConstantIs(3, 7)
    ensures ConstantIs(4, 11) && ConstantIs(5, 13) && ConstantIs(6, 17) && ConstantIs(7, 19)
  {
    hide K, IsCubeRoot, PrimesBelow, SmallPrime, ConstantIs;
    Words0();
    Cubes0();
    Primes0();
    ConstantFound(0, 2, 1, 0x428a2f98, 0x428a2f98);
    ConstantFound(1, 3, 1, 0x71374491, 0x71374491);
    ConstantFound(2, 5, 1, 0xb5c0fbcf, 0xb5c0fbcf);
    ConstantFound(3, 7, 1, 0xe9b5dba5, 0xe9b5dba5);
    ConstantFound(4, 11, 2, 0x3956c25b, 0x3956c25b);
    ConstantFound(5, 13, 2, 0x59f111f1, 0x59f111f1);
    ConstantFound(6, 17, 2, 0x923f82a4, 0x923f82a4);
    ConstantFound(7, 19, 2, 0xab1c5ed5, 0xab1c5ed5);
  }

  lemma Words1()
    ensures K(8) == 0xd807aa98 && K(9) == 0x12835b01 && K(10) == 0x243185be && K(11) == 0x550c7dc3
    ensures K(12) == 0x72be5d74 && K(13) == 0x80deb1fe && K(14) == 0x9bdc06a7 && K(15) == 0xc19bf174
  {
  }

  lemma Cubes1()
    ensures IsCubeRoot(23, 2, 0xd807aa98) && IsCubeRoot(29, 3, 0x12835b01) && IsCubeRoot(31, 3, 0x243185be)
    ensures IsCubeRoot(37, 3, 0x550c7dc3) && IsCubeRoot(41, 3, 0x72be5d74) && IsCubeRoot(43, 3, 0x80deb1fe)
    ensures IsCubeRoot(47, 3, 0x9bdc06a7) && IsCubeRoot(53, 3, 0xc19bf174)
  {
  }

  lemma Constants1()
    ensures ConstantIs(8, 23) && ConstantIs(9, 29) && ConstantIs(10, 31) && ConstantIs(11, 37)
    ensures ConstantIs(12, 41) && ConstantIs(13, 43) && ConstantIs(14, 47) && ConstantIs(15, 53)
  {
    hide K, IsCubeRoot, PrimesBelow, SmallPrime, ConstantIs;
    Words1();
    Cubes1();
    Primes1();
    ConstantFound(8, 23, 2, 0xd807aa98, 0xd807aa98);
    ConstantFound(9, 29, 3, 0x12835b01, 0x12835b01);
    ConstantFound(10, 31, 3, 0x243185be, 0x243185be);
    ConstantFound(11, 37, 3, 0x550c7dc3, 0x550c7dc3);
    ConstantFound(12, 41, 3, 0x72be5d74, 0x72be5d74);
    ConstantFound(13, 43, 3, 0x80deb1fe, 0x80deb1fe);
    ConstantFound(14, 47, 3, 0x9bdc06a7, 0x9bdc06a7);
    ConstantFound(15, 53, 3, 0xc19bf174, 0xc19bf174);
  }

  lemma Words2()
    ensures K(16) == 0xe49b69c1 && K(17) == 0xefbe4786 && K(18) == 0x0fc19dc6 && K(19) == 0x240ca1cc
    ensures K(20) == 0x2de92c6f && K(21) == 0x4a7484aa && K(22) == 0x5cb0a9dc && K(23) == 0x76f988da
  {
  }

  lemma Cubes2()
    ensures IsCubeRoot(59, 3, 0xe49b69c1) && IsCubeRoot(61, 3, 0xefbe4786) && IsCubeRoot(67, 4, 0x0fc19dc6)
    ensures IsCubeRoot(71, 4, 0x240ca1cc) && IsCubeRoot(73, 4, 0x2de92c6f) && IsCubeRoot(79, 4, 0x4a7484aa)
    ensures IsCubeRoot(83, 4, 0x5cb0a9dc) && IsCubeRoot(89, 4, 0x76f988da)
  {
  }

  lemma Constants2()
    ensures ConstantIs(16, 59) && ConstantIs(17, 61) && ConstantIs(18, 67) && ConstantIs(19, 71)
    ensures ConstantIs(20, 73) && ConstantIs(21, 79) && ConstantIs(22, 83) && ConstantIs(23, 89)
  {
    hide K, IsCubeRoot, PrimesBelow, SmallPrime, ConstantIs;
    Words2();
    Cubes2();
    Primes2();
    ConstantFound(16, 59, 3, 0xe49b69c1, 0xe49b69c1);
    ConstantFound(17, 61, 3, 0xefbe4786, 0xefbe4786);
    ConstantFound(18, 67, 4, 0x0fc19dc6, 0x0fc19dc6);
    ConstantFound(19, 71, 4, 0x240ca1cc, 0x240ca1cc);
    ConstantFound(20, 73, 4, 0x2de92c6f, 0x2de92c6f);
    ConstantFound(21, 79, 4, 0x4a7484aa, 0x4a7484aa);
    ConstantFound(22, 83, 4, 0x5cb0a9dc, 0x5cb0a9dc);
    ConstantFound(23, 89, 4, 0x76f988da, 0x76f988da);
  }

  lemma Words3()
    ensures K(24) == 0x983e5152 && K(25) == 0xa831c66d && K(26) == 0xb00327c8 && K(27) == 0xbf597fc7
    ensures K(28) == 0xc6e00bf3 && K(29) == 0xd5a79147 && K(30) == 0x06ca6351 && K(31) == 0x14292967
  {
  }

  lemma Cubes3()
    ensures IsCubeRoot(97, 4, 0x983e5152) && IsCubeRoot(101, 4, 0xa831c66d) && IsCubeRoot(103, 4, 0xb00327c8)
    ensures IsCubeRoot(107, 4, 0xbf597fc7) && IsCubeRoot(109, 4, 0xc6e00bf3) && IsCubeRoot(113, 4, 0xd5a79147)
    ensures IsCubeRoot(127, 5, 0x06ca6351) && IsCubeRoot(131, 5, 0x14292967)
  {
  }

  lemma Constants3()
    ensures ConstantIs(24, 97) && ConstantIs(25, 101) && ConstantIs(26, 103) && ConstantIs(27, 107)
    ensures ConstantIs(28, 109) && ConstantIs(29, 113) && ConstantIs(30, 127) && ConstantIs(31, 131)
  {
    hide K, IsCubeRoot, PrimesBelow, SmallPrime, ConstantIs;
    Words3();
    Cubes3();
    Primes3();
    ConstantFound(24, 97, 4, 0x983e5152, 0x983e5152);
    ConstantFound(25, 101, 4, 0xa831c66d, 0xa831c66d);
    ConstantFound(26, 103, 4, 0xb00327c8, 0xb00327c8);
    ConstantFound(27, 107, 4, 0xbf597fc7, 0xbf597fc7);
    ConstantFound(28, 109, 4, 0xc6e00bf3, 0xc6e00bf3);
    ConstantFound(29, 113, 4, 0xd5a79147, 0xd5a79147);
    ConstantFound(30, 127, 5, 0x06ca6351, 0x06ca6351);
    ConstantFound(31, 131, 5, 0x14292967, 0x14292967);
  }

  lemma Words4()
    ensures K(32) == 0x27b70a85 && K(33) == 0x2e1b2138 && K(34) == 0x4d2c6dfc && K(35) == 0x53380d13
    ensures K(36) == 0x650a7354 && K(37) == 0x766a0abb && K(38) == 0x81c2c92e && K(39) == 0x92722c85
  {
  }

  lemma Cubes4()
    ensures IsCubeRoot(137, 5, 0x27b70a85) && IsCubeRoot(139, 5, 0x2e1b2138) && IsCubeRoot(149, 5, 0x4d2c6dfc)
    ensures IsCubeRoot(151, 5, 0x53380d13) && IsCubeRoot(157, 5, 0x650a7354) && IsCubeRoot(163, 5, 0x766a0abb)
    ensures IsCubeRoot(167, 5, 0x81c2c92e) && IsCubeRoot(173, 5, 0x92722c85)
  {
  }

  lemma Constants4()
    ensures ConstantIs(32, 137) && ConstantIs(33, 139) && ConstantIs(34, 149) && ConstantIs(35, 151)
    ensures ConstantIs(36, 157) && ConstantIs(37, 163) && ConstantIs(38, 167) && ConstantIs(39, 173)
  {
    hide K, IsCubeRoot, PrimesBelow, SmallPrime, ConstantIs;
    Words4();
    Cubes4();
    Primes4();
    ConstantFound(32, 137, 5, 0x27b70a85, 0x27b70a85);
    ConstantFound(33, 139, 5, 0x2e1b2138, 0x2e1b2138);
    ConstantFound(34, 149, 5, 0x4d2c6dfc, 0x4d2c6dfc);
    ConstantFound(35, 151, 5, 0x53380d13, 0x53380d13);
    ConstantFound(36, 157, 5, 0x650a7354, 0x650a7354);
    ConstantFound(37, 163, 5, 0x766a0abb, 0x766a0abb);
    ConstantFound(38, 167, 5, 0x81c2c92e, 0x81c2c92e);
    ConstantFound(39, 173, 5, 0x92722c85, 0x92722c85);
  }

  lemma Words5()
    ensures K(40) == 0xa2bfe8a1 && K(41) == 0xa81a664b && K(42) == 0xc24b8b70 && K(43) == 0xc76c51a3
    ensures K(44) == 0xd192e819 && K(45) == 0xd6990624 && K(46) == 0xf40e3585 && K(47) == 0x106aa070
  {
  }

  lemma Cubes5()
    ensures IsCubeRoot(179, 5, 0xa2bfe8a1) && IsCubeRoot(181, 5, 0xa81a664b) && IsCubeRoot(191, 5, 0xc24b8b70)
    ensures IsCubeRoot(193, 5, 0xc76c51a3) && IsCubeRoot(197, 5, 0xd192e819) && IsCubeRoot(199, 5, 0xd6990624)
    ensures IsCubeRoot(211, 5, 0xf40e3585) && IsCubeRoot(223, 6, 0x106aa070)
  {
  }

  lemma Constants5()
    ensures ConstantIs(40, 179) && ConstantIs(41, 181) && ConstantIs(42, 191) && ConstantIs(43, 193)
    ensures ConstantIs(44, 197) && ConstantIs(45, 199) && ConstantIs(46, 211) && ConstantIs(47, 223)
  {
    hide K, IsCubeRoot, PrimesBelow, SmallPrime, ConstantIs;
    Words5();
    Cubes5();
    Primes5();
    ConstantFound(40, 179, 5, 0xa2bfe8a1, 0xa2bfe8a1);
    ConstantFound(41, 181, 5, 0xa81a664b, 0xa81a664b);
    ConstantFound(42, 191, 5, 0xc24b8b70, 0xc24b8b70);
    ConstantFound(43, 193, 5, 0xc76c51a3, 0xc76c51a3);
    ConstantFound(44, 197, 5, 0xd192e819, 0xd192e819);
    ConstantFound(45, 199, 5, 0xd6990624, 0xd6990624);
    ConstantFound(46, 211, 5, 0xf40e3585, 0xf40e3585);
    ConstantFound(47, 223, 6, 0x106aa070, 0x106aa070);
  }

  lemma Words6()
    ensures K(48) == 0x19a4c116 && K(49) == 0x1e376c08 && K(50) == 0x2748774c && K(51) == 0x34b0bcb5
    ensures K(52) == 0x391c0cb3 && K(53) == 0x4ed8aa4a && K(54) == 0x5b9cca4f && K(55) == 0x682e6ff3
  {
  }

  lemma Cubes6()
    ensures IsCubeRoot(227, 6, 0x19a4c116) && IsCubeRoot(229, 6, 0x1e376c08) && IsCubeRoot(233, 6, 0x2748774c)
    ensures IsCubeRoot(239, 6, 0x34b0bcb5) && IsCubeRoot(241, 6, 0x391c0cb3) && IsCubeRoot(251, 6, 0x4ed8aa4a)
    ensures IsCubeRoot(257, 6, 0x5b9cca4f) && IsCubeRoot(263, 6, 0x682e6ff3)
  {
  }

  lemma Constants6()
    ensures ConstantIs(48, 227) && ConstantIs(49, 229) && ConstantIs(50, 233) && ConstantIs(51, 239)
    ensures ConstantIs(52, 241) && ConstantIs(53, 251) && ConstantIs(54, 257) && ConstantIs(55, 263)
  {
    hide K, IsCubeRoot, PrimesBelow, SmallPrime, ConstantIs;
    Words6();
    Cubes6();
    Primes6();
    ConstantFound(48, 227, 6, 0x19a4c116, 0x19a4c116);
    ConstantFound(49, 229, 6, 0x1e376c08, 0x1e376c08);
    ConstantFound(50, 233, 6, 0x2748774c, 0x2748774c);
    ConstantFound(51, 239, 6, 0x34b0bcb5, 0x34b0bcb5);
    ConstantFound(52, 241, 6, 0x391c0cb3, 0x391c0cb3);
    ConstantFound(53, 251, 6, 0x4ed8aa4a, 0x4ed8aa4a);
    ConstantFound(54, 257, 6, 0x5b9cca4f, 0x5b9cca4f);
    ConstantFound(55, 263, 6, 0x682e6ff3, 0x682e6ff3);
  }

  lemma Words7()
    ensures K(56) == 0x748f82ee && K(57) == 0x78a5636f && K(58) == 0x84c87814 && K(59) == 0x8cc70208
    ensures K(60) == 0x90befffa && K(61) == 0xa4506ceb && K(62) == 0xbef9a3f7 && K(63) == 0xc67178f2
  {
  }

  lemma Cubes7()
    ensures IsCubeRoot(269, 6, 0x748f82ee) && IsCubeRoot(271, 6, 0x78a5636f) && IsCubeRoot(277, 6, 0x84c87814)
    ensures IsCubeRoot(281, 6, 0x8cc70208) && IsCubeRoot(283, 6, 0x90befffa) && IsCubeRoot(293, 6, 0xa4506ceb)
    ensures IsCubeRoot(307, 6, 0xbef9a3f7) && IsCubeRoot(311, 6, 0xc67178f2)
  {
  }

  lemma Constants7()
    ensures ConstantIs(56, 269) && ConstantIs(57, 271) && ConstantIs(58, 277) && ConstantIs(59, 281)
    ensures ConstantIs(60, 283) && ConstantIs(61, 293) && ConstantIs(62, 307) && ConstantIs(63, 311)
  {
    hide K, IsCubeRoot, PrimesBelow, SmallPrime, ConstantIs;
    Words7();
    Cubes7();
    Primes7();
    ConstantFound(56, 269, 6, 0x748f82ee, 0x748f82ee);
    ConstantFound(57, 271, 6, 0x78a5636f, 0x78a5636f);
    ConstantFound(58, 277, 6, 0x84c87814, 0x84c87814);
    ConstantFound(59, 281, 6, 0x8cc70208, 0x8cc70208);
    ConstantFound(60, 283, 6, 0x90befffa, 0x90befffa);
    ConstantFound(61, 293, 6, 0xa4506ceb, 0xa4506ceb);
    ConstantFound(62, 307, 6, 0xbef9a3f7, 0xbef9a3f7);
    ConstantFound(63, 311, 6, 0xc67178f2, 0xc67178f2);
  }

  lemma ConstantsAll(t: nat) returns (p: nat)
    requires t < 64
    ensures ConstantIs(t, p)
  {
    hide ConstantIs;
    if t < 8 {
      Constants0();
      p := [2, 3, 5, 7, 11, 13, 17, 19][t];
    } else if t < 16 {
      Constants1();
      p := [23, 29, 31, 37, 41, 43, 47, 53][t - 8];
    } else if t < 24 {
      Constants2();
      p := [59, 61, 67, 71, 73, 79, 83, 89][t - 16];
    } else if t < 32 {
      Constants3();
      p := [97, 101, 103, 107, 109, 113, 127, 131][t - 24];
    } else if t < 40 {
      Constants4();
      p := [137, 139, 149, 151, 157, 163, 167, 173][t - 32];
    } else if t < 48 {
      Constants5();
      p := [179, 181, 191, 193, 197, 199, 211, 223][t - 40];
    } else if t < 56 {
      Constants6();
      p := [227, 229, 233, 239, 241, 251, 257, 263][t - 48];
    } else if t < 64 {
      Constants7();
      p := [269, 271, 277, 281, 283, 293, 307, 311][t - 56];
    }
  }

  /** Section 4.2.2: entry `t` of the table is the first 32 bits of the fractional part of the cube root of the t-th prime
      (2 is the 0-th). */
  lemma RoundConstants(t: nat, p: nat)
    requires t < 64 && IsPrime(p) && PrimesBelow(p) == t
    ensures HasCubeRoot(p, K(t) as nat)
  {
    hide K, IsCubeRoot, IsPrime, PrimesBelow;
    var q := ConstantsAll(t);
    SamePrime(p, q);
  }

  ghost predicate InitialIs(t: nat, p: nat) {
    t < 8 && IsPrime(p) && PrimesBelow(p) == t && HasSquareRoot(p, H0()[t] as nat)
  }

  lemma InitialFound(t: nat, p: nat, c: nat, h: bv32, n: nat)
    requires t < 8 && p < 324 && SmallPrime(p) && PrimesBelow(p) == t
    requires H0()[t] == h && h as nat == n && IsSquareRoot(p, c, n)
    ensures InitialIs(t, p)
  {
    hide IsSquareRoot, PrimesBelow, IsPrime, SmallPrime;
    SmallPrimes(p);
    assert IsSquareRoot(p, c, n);
  }

  lemma InitialAll(t: nat) returns (p: nat)
    requires t < 8
    ensures InitialIs(t, p)
  {
    hide IsSquareRoot, PrimesBelow, SmallPrime, InitialIs;
    Primes0();
    Squares();
    InitialFound(0, 2, 1, 0x6a09e667, 0x6a09e667);
    InitialFound(1, 3, 1, 0xbb67ae85, 0xbb67ae85);
    InitialFound(2, 5, 2, 0x3c6ef372, 0x3c6ef372);
    InitialFound(3, 7, 2, 0xa54ff53a, 0xa54ff53a);
    InitialFound(4, 11, 3, 0x510e527f, 0x510e527f);
    InitialFound(5, 13, 3, 0x9b05688c, 0x9b05688c);
    InitialFound(6, 17, 4, 0x1f83d9ab, 0x1f83d9ab);
    InitialFound(7, 19, 4, 0x5be0cd19, 0x5be0cd19);
    p := [2, 3, 5, 7, 11, 13, 17, 19][t];
  }

  /** Section 5.3.3: word `t` of the initial hash value likewise, from the square root. */
  lemma InitialValues(t: nat, p: nat)
    requires t < 8 && IsPrime(p) && PrimesBelow(p) == t
    ensures HasSquareRoot(p, H0()[t] as nat)
  {
    hide IsSquareRoot, IsPrime, PrimesBelow;
    var q := InitialAll(t);
    SamePrime(p, q);
  }

  lemma Squares()
    ensures IsSquareRoot(2, 1, 0x6a09e667) && IsSquareRoot(3, 1, 0xbb67ae85) && IsSquareRoot(5, 2, 0x3c6ef372)
    ensures IsSquareRoot(7, 2, 0xa54ff53a) && IsSquareRoot(11, 3, 0x510e527f) && IsSquareRoot(13, 3, 0x9b05688c)
    ensures IsSquareRoot(17, 4, 0x1f83d9ab) && IsSquareRoot(19, 4, 0x5be0cd19)
  {
  }}
