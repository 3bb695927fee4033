/**
 The constants of SHA-256 (section 5.1 of RFC 6234): the round constants are the first 32 fractional bits of
 the cube roots of the first 64 primes, the initial words those of the square roots of the first eight.
 */
module HashConstants {
  import opened Bits

  const K256: seq<seq<Word32>> := [
    [0x428a2f98, 0x71374491, 0xb5c0fbcf, 0xe9b5dba5, 0x3956c25b, 0x59f111f1, 0x923f82a4, 0xab1c5ed5],
    [0xd807aa98, 0x12835b01, 0x243185be, 0x550c7dc3, 0x72be5d74, 0x80deb1fe, 0x9bdc06a7, 0xc19bf174],
    [0xe49b69c1, 0xefbe4786, 0x0fc19dc6, 0x240ca1cc, 0x2de92c6f, 0x4a7484aa, 0x5cb0a9dc, 0x76f988da],
    [0x983e5152, 0xa831c66d, 0xb00327c8, 0xbf597fc7, 0xc6e00bf3, 0xd5a79147, 0x06ca6351, 0x14292967],
    [0x27b70a85, 0x2e1b2138, 0x4d2c6dfc, 0x53380d13, 0x650a7354, 0x766a0abb, 0x81c2c92e, 0x92722c85],
    [0xa2bfe8a1, 0xa81a664b, 0xc24b8b70, 0xc76c51a3, 0xd192e819, 0xd6990624, 0xf40e3585, 0x106aa070],
    [0x19a4c116, 0x1e376c08, 0x2748774c, 0x34b0bcb5, 0x391c0cb3, 0x4ed8aa4a, 0x5b9cca4f, 0x682e6ff3],
    [0x748f82ee, 0x78a5636f, 0x84c87814, 0x8cc70208, 0x90befffa, 0xa4506ceb, 0xbef9a3f7, 0xc67178f2]
  ]

  /** The t-th entry of the table of round constants. */
  function RoundConstant(t: nat): Word32
    requires t < 64
  {
    K256[t / 8][t % 8]
  }

  const H256: seq<Word32> := [
    0x6a09e667, 0xbb67ae85, 0x3c6ef372, 0xa54ff53a, 0x510e527f, 0x9b05688c, 0x1f83d9ab, 0x5be0cd19
  ]

  const PRIMES: seq<seq<nat>> := [
    [  2,   3,   5,   7,  11,  13,  17,  19],
    [ 23,  29,  31,  37,  41,  43,  47,  53],
    [ 59,  61,  67,  71,  73,  79,  83,  89],
    [ 97, 101, 103, 107, 109, 113, 127, 131],
    [137, 139, 149, 151, 157, 163, 167, 173],
    [179, 181, 191, 193, 197, 199, 211, 223],
    [227, 229, 233, 239, 241, 251, 257, 263],
    [269, 271, 277, 281, 283, 293, 307, 311]
  ]

  function Prime(t: nat): nat
    requires t < 64
  {
    PRIMES[t / 8][t % 8]
  }

  // ----- the first 64 primes -----

  predicate Divides(d: nat, n: nat)
    requires d > 0
  {
    n % d == 0
  }

  ghost predicate IsPrime(n: nat) {
    n >= 2 && forall d :: 2 <= d < n ==> !Divides(d, n)
  }

  /** None of the primes up to 17 divides n. */
  predicate Sieved(n: nat) {
    n % 2 != 0 && n % 3 != 0 && n % 5 != 0 && n % 7 != 0 && n % 11 != 0 && n % 13 != 0 && n % 17 != 0
  }

  lemma Multiple(n: nat, d: nat, e: nat, q: nat, k: nat)
    requires q > 0 && d == q * k && n == d * e
    ensures n % q == 0
  {
    assert n == (k * e) * q;
    DivModUnique(n, k * e, q, 0);
  }

  lemma SmallFactorFound(n: nat, d: nat, e: nat)
    requires 2 <= d <= 18 && n == d * e
    ensures !Sieved(n)
  {
    if d % 2 == 0 {
      Multiple(n, d, e, 2, d / 2);
    } else if d % 3 == 0 {
      Multiple(n, d, e, 3, d / 3);
    } else {
      assert d == 5 || d == 7 || d == 11 || d == 13 || d == 17;
      Multiple(n, d, e, d, 1);
    }
  }

  lemma LargeProduct(d: nat, e: nat)
    requires d > 18 && e > 18
    ensures d * e >= 361
  {
    assert d * e >= 19 * e;
  }

  lemma OneIsSmall(n: nat, d: nat, e: nat)
    requires n == d * e && n < 361
    ensures d <= 18 || e <= 18
  {
    if d > 18 && e > 18 {
      LargeProduct(d, e);
    }
  }

  /** Below 19 * 19 the sieve decides. */
  lemma SieveDecides(n: nat)
    requires 17 < n < 361
    ensures IsPrime(n) <==> Sieved(n)
  {
    if Sieved(n) {
      forall d | 2 <= d < n
        ensures !Divides(d, n)
      {
        if Divides(d, n) {
          FactorFound(n, d);
        }
      }
    } else {
      assert Divides(2, n) || Divides(3, n) || Divides(5, n) || Divides(7, n) || Divides(11, n) || Divides(13, n) || Divides(17, n);
    }
  }

  lemma Cofactor(d: nat, e: nat)
    requires d < d * e
    ensures e >= 2
  {}

  lemma FactorFound(n: nat, d: nat)
    requires 17 < n < 361 && 2 <= d < n && Divides(d, n)
    ensures !Sieved(n)
  {
    hide Sieved;
    var e := n / d;
    DivModSplit(n, d);
    assert n == d * e && n == e * d;
    Cofactor(d, e);
    OneIsSmall(n, d, e);
    if d <= 18 {
      SmallFactorFound(n, d, e);
    } else {
      SmallFactorFound(n, e, d);
    }
  }

  lemma Gaps0(n: nat)
    requires 17 < n <= 19
    ensures Sieved(n) <==> n in PRIMES[0]
  {
    if n % 2 != 0 && n % 3 != 0 {
      match n / 6
      case 3 => assert n == 19 || n == 23;
    }
  }

  lemma Gaps1(n: nat)
    requires 19 < n <= 53
    ensures Sieved(n) <==> n in PRIMES[1]
  {
    if n % 2 != 0 && n % 3 != 0 {
      match n / 6
      case 3 => assert n == 19 || n == 23;
      case 4 => assert n == 25 || n == 29;
      case 5 => assert n == 31 || n == 35;
      case 6 => assert n == 37 || n == 41;
      case 7 => assert n == 43 || n == 47;
      case 8 => assert n == 49 || n == 53;
    }
  }

  lemma Gaps2(n: nat)
    requires 53 < n <= 89
    ensures Sieved(n) <==> n in PRIMES[2]
  {
    if n % 2 != 0 && n % 3 != 0 {
      match n / 6
      case 9 => assert n == 55 || n == 59;
      case 10 => assert n == 61 || n == 65;
      case 11 => assert n == 67 || n == 71;
      case 12 => assert n == 73 || n == 77;
      case 13 => assert n == 79 || n == 83;
      case 14 => assert n == 85 || n == 89;
    }
  }

  lemma Gaps3(n: nat)
    requires 89 < n <= 131
    ensures Sieved(n) <==> n in PRIMES[3]
  {
    if n % 2 != 0 && n % 3 != 0 {
      match n / 6
      case 15 => assert n == 91 || n == 95;
      case 16 => assert n == 97 || n == 101;
      case 17 => assert n == 103 || n == 107;
      case 18 => assert n == 109 || n == 113;
      case 19 => assert n == 115 || n == 119;
      case 20 => assert n == 121 || n == 125;
      case 21 => assert n == 127 || n == 131;
    }
  }

  lemma Gaps4(n: nat)
    requires 131 < n <= 173
    ensures Sieved(n) <==> n in PRIMES[4]
  {
    if n % 2 != 0 && n % 3 != 0 {
      match n / 6
      case 22 => assert n == 133 || n == 137;
      case 23 => assert n == 139 || n == 143;
      case 24 => assert n == 145 || n == 149;
      case 25 => assert n == 151 || n == 155;
      case 26 => assert n == 157 || n == 161;
      case 27 => assert n == 163 || n == 167;
      case 28 => assert n == 169 || n == 173;
    }
  }

  lemma Gaps5(n: nat)
    requires 173 < n <= 223
    ensures Sieved(n) <==> n in PRIMES[5]
  {
    if n % 2 != 0 && n % 3 != 0 {
      match n / 6
      case 29 => assert n == 175 || n == 179;
      case 30 => assert n == 181 || n == 185;
      case 31 => assert n == 187 || n == 191;
      case 32 => assert n == 193 || n == 197;
      case 33 => assert n == 199 || n == 203;
      case 34 => assert n == 205 || n == 209;
      case 35 => assert n == 211 || n == 215;
      case 36 => assert n == 217 || n == 221;
      case 37 => assert n == 223 || n == 227;
    }
  }

  lemma Gaps6(n: nat)
    requires 223 < n <= 263
    ensures Sieved(n) <==> n in PRIMES[6]
  {
    if n % 2 != 0 && n % 3 != 0 {
      match n / 6
      case 37 => assert n == 223 || n == 227;
      case 38 => assert n == 229 || n == 233;
      case 39 => assert n == 235 || n == 239;
      case 40 => assert n == 241 || n == 245;
      case 41 => assert n == 247 || n == 251;
      case 42 => assert n == 253 || n == 257;
      case 43 => assert n == 259 || n == 263;
    }
  }

  lemma Gaps7(n: nat)
    requires 263 < n <= 311
    ensures Sieved(n) <==> n in PRIMES[7]
  {
    if n % 2 != 0 && n % 3 != 0 {
      match n / 6
      case 44 => assert n == 265 || n == 269;
      case 45 => assert n == 271 || n == 275;
      case 46 => assert n == 277 || n == 281;
      case 47 => assert n == 283 || n == 287;
      case 48 => assert n == 289 || n == 293;
      case 49 => assert n == 295 || n == 299;
      case 50 => assert n == 301 || n == 305;
      case 51 => assert n == 307 || n == 311;
    }
  }

  lemma SmallPrimes(n: nat)
    requires n <= 17
    ensures IsPrime(n) <==> n in PRIMES[0]
  {
    assert n > 2 && n % 2 == 0 ==> Divides(2, n);
    assert n > 3 && n % 3 == 0 ==> Divides(3, n);
  }

  /** The row in which a number up to 311 would be listed. */
  function RowOf(n: nat): nat {
    if n <= 19 then 0 else if n <= 53 then 1 else if n <= 89 then 2 else if n <= 131 then 3
    else if n <= 173 then 4 else if n <= 223 then 5 else if n <= 263 then 6 else 7
  }

  lemma RowDecides(n: nat)
    requires n <= 311
    ensures IsPrime(n) <==> n in PRIMES[RowOf(n)]
  {
    hide IsPrime, Sieved;
    if n <= 17 {
      SmallPrimes(n);
    } else {
      SieveDecides(n);
      match RowOf(n)
      case 0 => Gaps0(n);
      case 1 => Gaps1(n);
      case 2 => Gaps2(n);
      case 3 => Gaps3(n);
      case 4 => Gaps4(n);
      case 5 => Gaps5(n);
      case 6 => Gaps6(n);
      case 7 => Gaps7(n);
    }
  }

  /** Every entry lies in the range of its row. */
  lemma RowRange(r: nat, l: nat)
    requires r < 8 && l < 8
    ensures PRIMES[r][l] <= 311 && RowOf(PRIMES[r][l]) == r
  {}

  /** The table lists exactly the primes up to 311. */
  lemma FirstPrimes(n: nat)
    requires n <= 311
    ensures IsPrime(n) <==> exists t: nat :: t < 64 && Prime(t) == n
  {
    hide IsPrime;
    RowDecides(n);
    if n in PRIMES[RowOf(n)] {
      Listed(n, RowOf(n));
    }
    if t: nat :| t < 64 && Prime(t) == n {
      RowRange(t / 8, t % 8);
    }
  }

  /** In increasing order, so that entry t is the prime with index t. */
  lemma PrimesIncrease(t: nat)
    requires t < 63
    ensures Prime(t) < Prime(t + 1)
  {
    if t % 8 == 7 {
      DivModUnique(t + 1, t / 8 + 1, 8, 0);
      RowEnds(t / 8);
    } else {
      DivModUnique(t + 1, t / 8, 8, t % 8 + 1);
      RowIncreases(t / 8, t % 8);
    }
  }

  lemma RowEnds(r: nat)
    requires r < 7
    ensures PRIMES[r][7] < PRIMES[r + 1][0]
  {}

  lemma RowIncreases(r: nat, l: nat)
    requires r < 8 && l < 7
    ensures PRIMES[r][l] < PRIMES[r][l + 1]
  {}

  lemma Listed(n: nat, r: nat)
    requires r < 8 && n in PRIMES[r]
    ensures exists t: nat :: t < 64 && Prime(t) == n
  {
    var l :| 0 <= l < |PRIMES[r]| && PRIMES[r][l] == n;
    DivModUnique(8 * r + l, r, 8, l);
    assert Prime(8 * r + l) == n;
  }

  // ----- the roots -----

  function Cube(n: nat): nat {
    n * n * n
  }

  /** n is the integer part of 2^32 times the cube root of p. */
  predicate IsCubeRoot(p: nat, n: nat) {
    Cube(n) <= p * 0x1_00000000_00000000_00000000 < Cube(n + 1)
  }

  /** k holds the first 32 fractional bits of the cube root of p. */
  ghost predicate CubeRootBits(p: nat, k: Word32) {
    exists n: nat :: IsCubeRoot(p, n) && n % 0x1_0000_0000 == k
  }

  lemma CubeMonotone(m: nat, n: nat)
    requires m <= n
    ensures Cube(m) <= Cube(n)
  {
    ProductMonotone(m, n, m, n);
    ProductMonotone(m * m, n * n, m, n);
  }

  lemma ProductMonotone(a: nat, b: nat, c: nat, d: nat)
    requires a <= b && c <= d
    ensures a * c <= b * d
  {
    assert a * c <= a * d;
    assert a * d <= b * d;
  }

  /** A number has at most one such word. */
  lemma CubeRootBitsUnique(p: nat, k: Word32, l: Word32)
    requires CubeRootBits(p, k) && CubeRootBits(p, l)
    ensures k == l
  {
    hide Cube;
    var m: nat :| IsCubeRoot(p, m) && m % 0x1_0000_0000 == k;
    var n: nat :| IsCubeRoot(p, n) && n % 0x1_0000_0000 == l;
    if m < n {
      CubeMonotone(m + 1, n);
    } else if n < m {
      CubeMonotone(n + 1, m);
    }
  }

  /** n is the integer part of 2^32 times the square root of p. */
  predicate IsSquareRoot(p: nat, n: nat) {
    n * n <= p * 0x1_00000000_00000000 < (n + 1) * (n + 1)
  }

  ghost predicate SquareRootBits(p: nat, k: Word32) {
    exists n: nat :: IsSquareRoot(p, n) && n % 0x1_0000_0000 == k
  }

  lemma CubeRoots0(l: nat)
    requires l < 8
    ensures CubeRootBits(PRIMES[0][l], K256[0][l])
  {
    assert IsCubeRoot(2, 0x1_428a2f98);
    assert IsCubeRoot(3, 0x1_71374491);
    assert IsCubeRoot(5, 0x1_b5c0fbcf);
    assert IsCubeRoot(7, 0x1_e9b5dba5);
    assert IsCubeRoot(11, 0x2_3956c25b);
    assert IsCubeRoot(13, 0x2_59f111f1);
    assert IsCubeRoot(17, 0x2_923f82a4);
    assert IsCubeRoot(19, 0x2_ab1c5ed5);
  }

  lemma CubeRoots1(l: nat)
    requires l < 8
    ensures CubeRootBits(PRIMES[1][l], K256[1][l])
  {
    assert IsCubeRoot(23, 0x2_d807aa98);
    assert IsCubeRoot(29, 0x3_12835b01);
    assert IsCubeRoot(31, 0x3_243185be);
    assert IsCubeRoot(37, 0x3_550c7dc3);
    assert IsCubeRoot(41, 0x3_72be5d74);
    assert IsCubeRoot(43, 0x3_80deb1fe);
    assert IsCubeRoot(47, 0x3_9bdc06a7);
    assert IsCubeRoot(53, 0x3_c19bf174);
  }

  lemma CubeRoots2(l: nat)
    requires l < 8
    ensures CubeRootBits(PRIMES[2][l], K256[2][l])
  {
    assert IsCubeRoot(59, 0x3_e49b69c1);
    assert IsCubeRoot(61, 0x3_efbe4786);
    assert IsCubeRoot(67, 0x4_0fc19dc6);
    assert IsCubeRoot(71, 0x4_240ca1cc);
    assert IsCubeRoot(73, 0x4_2de92c6f);
    assert IsCubeRoot(79, 0x4_4a7484aa);
    assert IsCubeRoot(83, 0x4_5cb0a9dc);
    assert IsCubeRoot(89, 0x4_76f988da);
  }

  lemma CubeRoots3(l: nat)
    requires l < 8
    ensures CubeRootBits(PRIMES[3][l], K256[3][l])
  {
    assert IsCubeRoot(97, 0x4_983e5152);
    assert IsCubeRoot(101, 0x4_a831c66d);
    assert IsCubeRoot(103, 0x4_b00327c8);
    assert IsCubeRoot(107, 0x4_bf597fc7);
    assert IsCubeRoot(109, 0x4_c6e00bf3);
    assert IsCubeRoot(113, 0x4_d5a79147);
    assert IsCubeRoot(127, 0x5_06ca6351);
    assert IsCubeRoot(131, 0x5_14292967);
  }

  lemma CubeRoots4(l: nat)
    requires l < 8
    ensures CubeRootBits(PRIMES[4][l], K256[4][l])
  {
    assert IsCubeRoot(137, 0x5_27b70a85);
    assert IsCubeRoot(139, 0x5_2e1b2138);
    assert IsCubeRoot(149, 0x5_4d2c6dfc);
    assert IsCubeRoot(151, 0x5_53380d13);
    assert IsCubeRoot(157, 0x5_650a7354);
    assert IsCubeRoot(163, 0x5_766a0abb);
    assert IsCubeRoot(167, 0x5_81c2c92e);
    assert IsCubeRoot(173, 0x5_92722c85);
  }

  lemma CubeRoots5(l: nat)
    requires l < 8
    ensures CubeRootBits(PRIMES[5][l], K256[5][l])
  {
    assert IsCubeRoot(179, 0x5_a2bfe8a1);
    assert IsCubeRoot(181, 0x5_a81a664b);
    assert IsCubeRoot(191, 0x5_c24b8b70);
    assert IsCubeRoot(193, 0x5_c76c51a3);
    assert IsCubeRoot(197, 0x5_d192e819);
    assert IsCubeRoot(199, 0x5_d6990624);
    assert IsCubeRoot(211, 0x5_f40e3585);
    assert IsCubeRoot(223, 0x6_106aa070);
  }

  lemma CubeRoots6(l: nat)
    requires l < 8
    ensures CubeRootBits(PRIMES[6][l], K256[6][l])
  {
    assert IsCubeRoot(227, 0x6_19a4c116);
    assert IsCubeRoot(229, 0x6_1e376c08);
    assert IsCubeRoot(233, 0x6_2748774c);
    assert IsCubeRoot(239, 0x6_34b0bcb5);
    assert IsCubeRoot(241, 0x6_391c0cb3);
    assert IsCubeRoot(251, 0x6_4ed8aa4a);
    assert IsCubeRoot(257, 0x6_5b9cca4f);
    assert IsCubeRoot(263, 0x6_682e6ff3);
  }

  lemma CubeRoots7(l: nat)
    requires l < 8
    ensures CubeRootBits(PRIMES[7][l], K256[7][l])
  {
    assert IsCubeRoot(269, 0x6_748f82ee);
    assert IsCubeRoot(271, 0x6_78a5636f);
    assert IsCubeRoot(277, 0x6_84c87814);
    assert IsCubeRoot(281, 0x6_8cc70208);
    assert IsCubeRoot(283, 0x6_90befffa);
    assert IsCubeRoot(293, 0x6_a4506ceb);
    assert IsCubeRoot(307, 0x6_bef9a3f7);
    assert IsCubeRoot(311, 0x6_c67178f2);
  }

  /** The round constants are the fractional bits of the cube roots of the first 64 primes. */
  lemma RoundConstants(t: nat)
    requires t < 64
    ensures CubeRootBits(Prime(t), RoundConstant(t))
  {
    hide CubeRootBits;
    match t / 8
    case 0 => CubeRoots0(t % 8);
    case 1 => CubeRoots1(t % 8);
    case 2 => CubeRoots2(t % 8);
    case 3 => CubeRoots3(t % 8);
    case 4 => CubeRoots4(t % 8);
    case 5 => CubeRoots5(t % 8);
    case 6 => CubeRoots6(t % 8);
    case 7 => CubeRoots7(t % 8);
  }

  /** The initial words are the fractional bits of the square roots of the first eight primes. */
  lemma InitialWords(l: nat)
    requires l < 8
    ensures |H256| == 8 && SquareRootBits(Prime(l), H256[l])
  {
    assert IsSquareRoot(2, 0x1_6a09e667);
    assert IsSquareRoot(3, 0x1_bb67ae85);
    assert IsSquareRoot(5, 0x2_3c6ef372);
    assert IsSquareRoot(7, 0x2_a54ff53a);
    assert IsSquareRoot(11, 0x3_510e527f);
    assert IsSquareRoot(13, 0x3_9b05688c);
    assert IsSquareRoot(17, 0x4_1f83d9ab);
    assert IsSquareRoot(19, 0x4_5be0cd19);
  }
}
