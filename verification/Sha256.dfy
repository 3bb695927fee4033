/**
 The hand-written SHA-256 of the token signer against sections 4.1, 5 and 6.2 of RFC 6234.

 Words are natural numbers below 2^32 and unsigned addition is reduced modulo 2^32. The reference puts
 octets together and rotates words arithmetically, the code does both with shifts and `|`.
 */
module Sha256 {
  import opened Bits
  import opened HashConstants

  // ----- padding -----

  /** The k low-order octets of n, most significant first. */
  function BigEndian(n: nat, k: nat): (s: seq<Octet>)
    ensures |s| == k
  {
    if k == 0 then [] else BigEndian(n / 256, k - 1) + [n % 256]
  }

  function Zeros(k: nat): (s: seq<Octet>)
    ensures |s| == k
  {
    seq(k, _ => 0)
  }

  /** The number of zero octets between the marker octet and the length field. */
  function ZeroCount(len: nat): (k: nat)
    ensures k < 64 && (len + 1 + k) % 64 == 56
  {
    (119 - len % 64) % 64
  }

  function Padded(msg: seq<Octet>): seq<Octet> {
    msg + [0x80] + Zeros(ZeroCount(|msg|)) + BigEndian(|msg| * 8 % 0x1_0000_0000_0000_0000, 8)
  }

  /** The padded message is the shortest whole number of 64-octet blocks that has room for the suffix. */
  lemma PaddedIsShortest(msg: seq<Octet>, n: nat)
    ensures |Padded(msg)| % 64 == 0 && |Padded(msg)| >= |msg| + 9
    ensures n % 64 == 0 && n >= |msg| + 9 ==> n >= |Padded(msg)|
  {
    NextMultiple(|msg| + 1 + ZeroCount(|msg|), |msg| + 1, n);
  }

  lemma NextMultiple(p: nat, l: nat, n: nat)
    requires p % 64 == 56 && l <= p < l + 64
    ensures (p + 8) % 64 == 0
    ensures n % 64 == 0 && n >= l + 8 ==> n >= p + 8
  {
    var q, m := p / 64, n / 64;
    assert p == q * 64 + 56;
    if n % 64 == 0 && n >= l + 8 {
      assert n == m * 64;
    }
  }

  function Pow256(k: nat): nat {
    if k == 0 then 1 else 256 * Pow256(k - 1)
  }

  lemma {:induction false} BigEndianInjective(m: nat, n: nat, k: nat)
    requires BigEndian(m, k) == BigEndian(n, k) && m < Pow256(k) && n < Pow256(k)
    ensures m == n
  {
    if k > 0 {
      var a, b := BigEndian(m / 256, k - 1), BigEndian(n / 256, k - 1);
      assert (a + [m % 256])[k - 1] == (b + [n % 256])[k - 1];
      assert a == (a + [m % 256])[..k - 1] == (b + [n % 256])[..k - 1] == b;
      BigEndianInjective(m / 256, n / 256, k - 1);
    }
  }

  /** Equal bit lengths modulo 2^64 of messages of nearly equal length are equal lengths. */
  lemma NearLengths(a: nat, b: nat)
    requires a * 8 % 0x1_0000_0000_0000_0000 == b * 8 % 0x1_0000_0000_0000_0000
    requires -64 < a - b < 64
    ensures a == b
  {
    var q := a * 8 / 0x1_0000_0000_0000_0000 - b * 8 / 0x1_0000_0000_0000_0000;
    assert (a - b) * 8 == q * 0x1_0000_0000_0000_0000;
  }

  /** No two messages, of any length, have the same padding. */
  lemma PaddingInjective(m: seq<Octet>, n: seq<Octet>)
    requires Padded(m) == Padded(n)
    ensures m == n
  {
    var p := Padded(m);
    var u, v := |m| * 8 % 0x1_0000_0000_0000_0000, |n| * 8 % 0x1_0000_0000_0000_0000;
    assert p[|p| - 8..] == BigEndian(u, 8) == BigEndian(v, 8);
    assert Pow256(8) == 0x1_0000_0000_0000_0000;
    BigEndianInjective(u, v, 8);
    NearLengths(|m|, |n|);
    assert m == p[..|m|] && n == p[..|n|];
  }

  /** The number that octets spell, most significant first. */
  function Spelled(s: seq<Octet>): nat {
    if s == [] then 0 else Spelled(s[..|s| - 1]) * 256 + s[|s| - 1]
  }

  lemma {:induction false} BigEndianSpells(n: nat, k: nat)
    requires n < Pow256(k)
    ensures Spelled(BigEndian(n, k)) == n
  {
    if k > 0 {
      var init := BigEndian(n / 256, k - 1);
      assert (init + [n % 256])[..k - 1] == init;
      BigEndianSpells(n / 256, k - 1);
    }
  }

  lemma {:induction false} SpelledBigEndian(s: seq<Octet>)
    ensures BigEndian(Spelled(s), |s|) == s
  {
    if s != [] {
      var init := s[..|s| - 1];
      SpelledBigEndian(init);
      DivModUnique(Spelled(s), Spelled(init), 256, s[|s| - 1]);
      assert s == init + [s[|s| - 1]];
    }
  }

  /** Section 4.1 of RFC 6234, octet by octet: the message, a one bit, zero bits, the length of the message in bits. */
  ghost predicate IsPadding(msg: seq<Octet>, p: seq<Octet>) {
    && |p| % 64 == 0 && |msg| + 9 <= |p| < |msg| + 9 + 64
    && p[..|msg|] == msg
    && p[|msg|] == 0x80
    && (forall i :: |msg| < i < |p| - 8 ==> p[i] == 0)
    && Spelled(p[|p| - 8..]) == |msg| * 8 % 0x1_0000_0000_0000_0000
  }

  lemma PaddedIsPadding(msg: seq<Octet>)
    ensures IsPadding(msg, Padded(msg))
  {
    var q, len := Padded(msg), |msg| * 8 % 0x1_0000_0000_0000_0000;
    PaddedIsShortest(msg, 0);
    assert Pow256(8) == 0x1_0000_0000_0000_0000;
    hide BigEndian, Spelled, Pow256;
    BigEndianSpells(len, 8);
    assert q[|q| - 8..] == BigEndian(len, 8);
  }

  lemma PaddingLength(msg: seq<Octet>, p: seq<Octet>)
    requires IsPadding(msg, p)
    ensures |p| == |msg| + 1 + ZeroCount(|msg|) + 8
  {
    PaddedIsShortest(msg, 0);
    SameMultiple(|p|, |Padded(msg)|, |msg| + 9);
  }

  /** The padding laid out by the code is the one and only. */
  lemma PaddedExactly(msg: seq<Octet>, p: seq<Octet>)
    ensures IsPadding(msg, Padded(msg))
    ensures IsPadding(msg, p) ==> p == Padded(msg)
  {
    PaddedIsPadding(msg);
    if IsPadding(msg, p) {
      PaddingLength(msg, p);
      hide BigEndian, Spelled, ZeroCount;
      SpelledBigEndian(p[|p| - 8..]);
      assert p[|msg| + 1..|p| - 8] == Zeros(ZeroCount(|msg|));
      assert p == p[..|msg|] + [p[|msg|]] + p[|msg| + 1..|p| - 8] + p[|p| - 8..];
    }
  }

  lemma SameMultiple(m: nat, n: nat, least: nat)
    requires m % 64 == n % 64 == 0 && least <= m < least + 64 && least <= n < least + 64
    ensures m == n
  {
    assert m == m / 64 * 64 && n == n / 64 * 64;
  }

  // ----- the compression function -----

  function Not(x: Word32): Word32 {
    0xFFFF_FFFF - x
  }

  function Ch(x: Word32, y: Word32, z: Word32): nat {
    Xor(And(x, y), And(Not(x), z))
  }

  function Maj(x: Word32, y: Word32, z: Word32): nat {
    Xor(Xor(And(x, y), And(x, z)), And(y, z))
  }

  /** ROTR^n(x): the n low bits of x move to the top. */
  function Rotate(x: Word32, n: nat): nat
    requires n < 32
  {
    Turned(x, Pow2(n), Pow2(32 - n))
  }

  function Turned(x: nat, p: nat, q: nat): nat
    requires p > 0
  {
    x / p + Times(x % p, q)
  }

  function BigSigma0(x: Word32): nat {
    Xor(Xor(Rotate(x, 2), Rotate(x, 13)), Rotate(x, 22))
  }

  function BigSigma1(x: Word32): nat {
    Xor(Xor(Rotate(x, 6), Rotate(x, 11)), Rotate(x, 25))
  }

  function SmallSigma0(x: Word32): nat {
    Xor(Xor(Rotate(x, 7), Rotate(x, 18)), x / 8)
  }

  function SmallSigma1(x: Word32): nat {
    Xor(Xor(Rotate(x, 17), Rotate(x, 19)), x / 1024)
  }

  /** Unsigned 32-bit addition. */
  function Sum(x: nat): Word32 {
    x % 0x1_0000_0000
  }

  function Plus(x: nat, y: nat): Word32 {
    Sum(x + y)
  }

  /** The t-th word of the message schedule of a block. */
  function Schedule(block: seq<Octet>, t: nat): Word32
    requires |block| == 64 && t < 64
  {
    if t < 16 then Word(block[4 * t], block[4 * t + 1], block[4 * t + 2], block[4 * t + 3])
    else Sum(SmallSigma1(Schedule(block, t - 2)) + Schedule(block, t - 7)
             + SmallSigma0(Schedule(block, t - 15)) + Schedule(block, t - 16))
  }

  datatype State = State(a: Word32, b: Word32, c: Word32, d: Word32,
                         e: Word32, f: Word32, g: Word32, h: Word32)

  const INITIAL := State(H256[0], H256[1], H256[2], H256[3], H256[4], H256[5], H256[6], H256[7])

  function Round(s: State, k: Word32, w: Word32): State {
    var t1 := Sum(s.h + BigSigma1(s.e) + Ch(s.e, s.f, s.g) + k + w);
    var t2 := Sum(BigSigma0(s.a) + Maj(s.a, s.b, s.c));
    State(Plus(t1, t2), s.a, s.b, s.c, Plus(s.d, t1), s.e, s.f, s.g)
  }

  function Rounds(s: State, block: seq<Octet>, t: nat): State
    requires |block| == 64 && t <= 64
  {
    if t == 0 then s else Round(Rounds(s, block, t - 1), RoundConstant(t - 1), Schedule(block, t - 1))
  }

  function Add(s: State, r: State): State {
    State(Plus(s.a, r.a), Plus(s.b, r.b), Plus(s.c, r.c), Plus(s.d, r.d),
          Plus(s.e, r.e), Plus(s.f, r.f), Plus(s.g, r.g), Plus(s.h, r.h))
  }

  function Compress(s: State, block: seq<Octet>): State
    requires |block| == 64
  {
    Add(s, Rounds(s, block, 64))
  }

  /** The state after the first n blocks. */
  function Absorb(blocks: seq<Octet>, n: nat): State
    requires 64 * n <= |blocks|
  {
    if n == 0 then INITIAL else Compress(Absorb(blocks, n - 1), blocks[64 * (n - 1)..64 * n])
  }

  function DigestOf(s: State): (d: seq<Octet>)
    ensures |d| == 32
  {
    BigEndian(s.a, 4) + BigEndian(s.b, 4) + BigEndian(s.c, 4) + BigEndian(s.d, 4)
    + BigEndian(s.e, 4) + BigEndian(s.f, 4) + BigEndian(s.g, 4) + BigEndian(s.h, 4)
  }

  /** The reference hash. */
  function Hash(msg: seq<Octet>): (d: seq<Octet>)
    ensures |d| == 32
  {
    PaddedIsShortest(msg, 0);
    var p := Padded(msg);
    DigestOf(Absorb(p, |p| / 64))
  }

  // ----- the reference, told in other ways -----

  /** Bit by bit, Ch chooses between y and z by x, and Maj is the majority. */
  lemma ChoiceAndMajority(x: Word32, y: Word32, z: Word32, i: nat)
    requires i < 32
    ensures Bit(Ch(x, y, z), i) == if Bit(x, i) == 1 then Bit(y, i) else Bit(z, i)
    ensures Bit(Maj(x, y, z), i) == 1 <==> Bit(x, i) + Bit(y, i) + Bit(z, i) >= 2
  {
    hide And, Xor, Bit, Pow2;
    Pow2Words();
    ComplementBits(x, 32, i);
    OperatorBits(x, y, i);
    OperatorBits(Not(x), z, i);
    OperatorBits(And(x, y), And(Not(x), z), i);
    OperatorBits(x, z, i);
    OperatorBits(y, z, i);
    OperatorBits(And(x, y), And(x, z), i);
    OperatorBits(Xor(And(x, y), And(x, z)), And(y, z), i);
  }

  /** Rotation moves bit i + n, counted around the word, to place i. */
  lemma RotateBits(x: Word32, n: nat, i: nat)
    requires 0 < n < 32 && i < 32
    ensures Bit(Rotate(x, n), i) == Bit(x, (i + n) % 32)
  {
    hide Bit, Pow2, Shr, Low;
    RotateParts(x, n);
    SumBits(Shr(x, n), Low(x, n), 32 - n, i);
    if i < 32 - n {
      ShrBits(x, n, i);
    } else {
      LowBits(x, n, i - (32 - n));
      DivModUnique(i + n, 1, 32, i + n - 32);
    }
  }

  lemma RotateParts(x: Word32, n: nat)
    requires 0 < n < 32
    ensures Shr(x, n) < Pow2(32 - n) && Rotate(x, n) == Shr(x, n) + Low(x, n) * Pow2(32 - n)
  {
    hide Pow2, Shr, Low;
    Pow2Add(n, 32 - n);
    Pow2Words();
    QuotientBound(x, Pow2(n), Pow2(32 - n));
    ShrIsDiv(x, n);
    LowIsMod(x, n);
  }

  /** The parity of three bits. */
  function Parity(a: nat, b: nat, c: nat): nat {
    (a + b + c) % 2
  }

  lemma XorParity(a: nat, b: nat, c: nat, i: nat)
    ensures Bit(Xor(Xor(a, b), c), i) == Parity(Bit(a, i), Bit(b, i), Bit(c, i))
  {
    hide Xor, And, Or, Bit;
    OperatorBits(a, b, i);
    OperatorBits(Xor(a, b), c, i);
  }

  /** Every bit of the sigma functions is the parity of three bits of the word. */
  lemma SigmaBits(x: Word32, i: nat)
    requires i < 32
    ensures Bit(BigSigma0(x), i) == Parity(Bit(x, (i + 2) % 32), Bit(x, (i + 13) % 32), Bit(x, (i + 22) % 32))
    ensures Bit(BigSigma1(x), i) == Parity(Bit(x, (i + 6) % 32), Bit(x, (i + 11) % 32), Bit(x, (i + 25) % 32))
    ensures Bit(SmallSigma0(x), i) == Parity(Bit(x, (i + 7) % 32), Bit(x, (i + 18) % 32), Bit(x, i + 3))
    ensures Bit(SmallSigma1(x), i) == Parity(Bit(x, (i + 17) % 32), Bit(x, (i + 19) % 32), Bit(x, i + 10))
  {
    hide Xor, Bit, Rotate, Parity;
    XorParity(Rotate(x, 2), Rotate(x, 13), Rotate(x, 22), i);
    XorParity(Rotate(x, 6), Rotate(x, 11), Rotate(x, 25), i);
    XorParity(Rotate(x, 7), Rotate(x, 18), x / 8, i);
    XorParity(Rotate(x, 17), Rotate(x, 19), x / 1024, i);
    RotatedBits(x, i);
    ShiftedBits(x, i);
  }

  lemma RotatedBits(x: Word32, i: nat)
    requires i < 32
    ensures Bit(Rotate(x, 2), i) == Bit(x, (i + 2) % 32) && Bit(Rotate(x, 13), i) == Bit(x, (i + 13) % 32)
    ensures Bit(Rotate(x, 22), i) == Bit(x, (i + 22) % 32) && Bit(Rotate(x, 6), i) == Bit(x, (i + 6) % 32)
    ensures Bit(Rotate(x, 11), i) == Bit(x, (i + 11) % 32) && Bit(Rotate(x, 25), i) == Bit(x, (i + 25) % 32)
    ensures Bit(Rotate(x, 7), i) == Bit(x, (i + 7) % 32) && Bit(Rotate(x, 18), i) == Bit(x, (i + 18) % 32)
    ensures Bit(Rotate(x, 17), i) == Bit(x, (i + 17) % 32) && Bit(Rotate(x, 19), i) == Bit(x, (i + 19) % 32)
  {
    hide Bit, Rotate;
    RotateBits(x, 2, i);
    RotateBits(x, 13, i);
    RotateBits(x, 22, i);
    RotateBits(x, 6, i);
    RotateBits(x, 11, i);
    RotateBits(x, 25, i);
    RotateBits(x, 7, i);
    RotateBits(x, 18, i);
    RotateBits(x, 17, i);
    RotateBits(x, 19, i);
  }

  lemma ShiftedBits(x: Word32, i: nat)
    ensures Bit(x / 8, i) == Bit(x, i + 3) && Bit(x / 1024, i) == Bit(x, i + 10)
  {
    assert Pow2(3) == 8 && Pow2(10) == 1024;
    ShrIsDiv(x, 3);
    ShrIsDiv(x, 10);
    ShrBits(x, 3, i);
    ShrBits(x, 10, i);
  }

  /** The first sixteen words of the schedule are spelled by the octets of the block. */
  lemma FirstWords(block: seq<Octet>, t: nat)
    requires |block| == 64 && t < 16
    ensures Schedule(block, t) == Spelled(block[4 * t..4 * t + 4])
  {
    FourSpelled(block[4 * t..4 * t + 4]);
  }

  lemma FourSpelled(s: seq<Octet>)
    requires |s| == 4
    ensures Spelled(s) == Word(s[0], s[1], s[2], s[3])
  {
    var b0: int, b1: int, b2: int := s[0], s[1], s[2];
    assert s[..3][..2] == s[..2] && s[..2][..1] == s[..1] && s[..1][..0] == [];
    assert Spelled(s[..1]) == b0;
    assert Spelled(s[..2]) == b0 * 256 + b1;
    assert Spelled(s[..3]) == (b0 * 256 + b1) * 256 + b2;
  }

  /** Every later word is made of four earlier ones. */
  lemma LaterWords(block: seq<Octet>, t: nat)
    requires |block| == 64 && 16 <= t < 64
    ensures Schedule(block, t) == (Schedule(block, t - 16) + SmallSigma0(Schedule(block, t - 15))
                                   + Schedule(block, t - 7) + SmallSigma1(Schedule(block, t - 2))) % 0x1_0000_0000
  {
    hide SmallSigma0, SmallSigma1;
  }

  // The eight registers only ever hold four successive terms of each of two sequences of words. The first
  // four terms of either are the registers a round starts from.

  function SequenceA(s: State, block: seq<Octet>, t: nat): Word32
    requires |block| == 64 && t < 68
    decreases t, 1
  {
    if t < 4 then [s.d, s.c, s.b, s.a][t]
    else
      var x, y, z := SequenceA(s, block, t - 1), SequenceA(s, block, t - 2), SequenceA(s, block, t - 3);
      (Mixed(s, block, t - 4) + BigSigma0(x) + Maj(x, y, z)) % 0x1_0000_0000
  }

  function SequenceE(s: State, block: seq<Octet>, t: nat): Word32
    requires |block| == 64 && t < 68
    decreases t, 1
  {
    if t < 4 then [s.h, s.g, s.f, s.e][t]
    else (SequenceA(s, block, t - 4) + Mixed(s, block, t - 4)) % 0x1_0000_0000
  }

  /** What step t brings in: the message word, the constant and the older terms of the second sequence. */
  function Mixed(s: State, block: seq<Octet>, t: nat): nat
    requires |block| == 64 && t < 64
    decreases t + 4, 0
  {
    var x, y, z := SequenceE(s, block, t + 3), SequenceE(s, block, t + 2), SequenceE(s, block, t + 1);
    SequenceE(s, block, t) + BigSigma1(x) + Ch(x, y, z) + RoundConstant(t) + Schedule(block, t)
  }

  lemma SumOfSums(x: nat, y: nat)
    ensures Plus(Sum(x), Sum(y)) == (x + y) % 0x1_0000_0000
    ensures Plus(x, Sum(y)) == (x + y) % 0x1_0000_0000
  {
    var m := 0x1_0000_0000;
    DivModUnique(x + y, x / m + y / m + (x % m + y % m) / m, m, (x % m + y % m) % m);
    DivModUnique(x + y, y / m + (x + y % m) / m, m, (x + y % m) % m);
  }

  /** The next term of either sequence, from the registers that hold the terms before it. */
  lemma NextTerms(s: State, block: seq<Octet>, t: nat, r: State)
    requires |block| == 64 && t < 64 && Registers(s, block, t, r)
    ensures var m := r.h + BigSigma1(r.e) + Ch(r.e, r.f, r.g) + RoundConstant(t) + Schedule(block, t);
            && SequenceA(s, block, t + 4) == (m + (BigSigma0(r.a) + Maj(r.a, r.b, r.c))) % 0x1_0000_0000
            && SequenceE(s, block, t + 4) == (r.d + m) % 0x1_0000_0000
  {
    hide Schedule, BigSigma0, BigSigma1, Ch, Maj, RoundConstant;
  }

  /** The registers hold terms t to t + 3 of the two sequences. */
  ghost predicate Registers(s: State, block: seq<Octet>, t: nat, r: State)
    requires |block| == 64 && t <= 64
  {
    && r.a == SequenceA(s, block, t + 3) && r.b == SequenceA(s, block, t + 2)
    && r.c == SequenceA(s, block, t + 1) && r.d == SequenceA(s, block, t)
    && r.e == SequenceE(s, block, t + 3) && r.f == SequenceE(s, block, t + 2)
    && r.g == SequenceE(s, block, t + 1) && r.h == SequenceE(s, block, t)
  }

  lemma OneRound(r: State, k: Word32, w: Word32)
    ensures var m := r.h + BigSigma1(r.e) + Ch(r.e, r.f, r.g) + k + w;
            Round(r, k, w) == State(Sum(m + (BigSigma0(r.a) + Maj(r.a, r.b, r.c))), r.a, r.b, r.c, Sum(r.d + m), r.e, r.f, r.g)
  {
    hide BigSigma0, BigSigma1, Ch, Maj, Plus;
    var m := r.h + BigSigma1(r.e) + Ch(r.e, r.f, r.g) + k + w;
    SumOfSums(m, BigSigma0(r.a) + Maj(r.a, r.b, r.c));
    SumOfSums(r.d, m);
  }

  /** The registers after t rounds are terms t to t + 3 of the two sequences. */
  lemma {:induction false} RoundsAreSequences(s: State, block: seq<Octet>, t: nat)
    requires |block| == 64 && t <= 64
    ensures Registers(s, block, t, Rounds(s, block, t))
  {
    if t > 0 {
      hide Schedule, Round, RoundConstant, SequenceA, SequenceE, Registers;
      RoundsAreSequences(s, block, t - 1);
      RegistersMove(s, block, t - 1, Rounds(s, block, t - 1));
    }
  }

  lemma RegistersMove(s: State, block: seq<Octet>, t: nat, r: State)
    requires |block| == 64 && t < 64 && Registers(s, block, t, r)
    ensures Registers(s, block, t + 1, Round(r, RoundConstant(t), Schedule(block, t)))
  {
    hide Schedule, BigSigma0, BigSigma1, Ch, Maj, Round, RoundConstant, SequenceA, SequenceE;
    NextTerms(s, block, t, r);
    OneRound(r, RoundConstant(t), Schedule(block, t));
  }

  /** Compressing a block adds the last four terms of either sequence to the registers. */
  lemma CompressionAdds(s: State, block: seq<Octet>)
    requires |block| == 64
    ensures var c := Compress(s, block);
            && c.a == (s.a + SequenceA(s, block, 67)) % 0x1_0000_0000
            && c.b == (s.b + SequenceA(s, block, 66)) % 0x1_0000_0000
            && c.c == (s.c + SequenceA(s, block, 65)) % 0x1_0000_0000
            && c.d == (s.d + SequenceA(s, block, 64)) % 0x1_0000_0000
            && c.e == (s.e + SequenceE(s, block, 67)) % 0x1_0000_0000
            && c.f == (s.f + SequenceE(s, block, 66)) % 0x1_0000_0000
            && c.g == (s.g + SequenceE(s, block, 65)) % 0x1_0000_0000
            && c.h == (s.h + SequenceE(s, block, 64)) % 0x1_0000_0000
  {
    hide Rounds, SequenceA, SequenceE, Add;
    RoundsAreSequences(s, block, 64);
    AddSpelled(s, Rounds(s, block, 64));
  }

  lemma AddSpelled(s: State, r: State)
    ensures Add(s, r) == State((s.a + r.a) % 0x1_0000_0000, (s.b + r.b) % 0x1_0000_0000, (s.c + r.c) % 0x1_0000_0000,
                               (s.d + r.d) % 0x1_0000_0000, (s.e + r.e) % 0x1_0000_0000, (s.f + r.f) % 0x1_0000_0000,
                               (s.g + r.g) % 0x1_0000_0000, (s.h + r.h) % 0x1_0000_0000)
  {}

  /** The words a hash starts from are the fractional bits of the square roots of the first eight primes, in order. */
  lemma InitialState()
    ensures SquareRootBits(2, INITIAL.a) && SquareRootBits(3, INITIAL.b) && SquareRootBits(5, INITIAL.c)
    ensures SquareRootBits(7, INITIAL.d) && SquareRootBits(11, INITIAL.e) && SquareRootBits(13, INITIAL.f)
    ensures SquareRootBits(17, INITIAL.g) && SquareRootBits(19, INITIAL.h)
  {
    hide SquareRootBits;
    InitialWords(0);
    InitialWords(1);
    InitialWords(2);
    InitialWords(3);
    InitialWords(4);
    InitialWords(5);
    InitialWords(6);
    InitialWords(7);
  }

  /** The states of a chain: each is the one before it with the next block compressed into it. */
  ghost predicate IsChain(p: seq<Octet>, states: seq<State>) {
    && 64 * (|states| - 1) == |p|
    && states[0] == INITIAL
    && forall i :: 0 <= i < |states| - 1 ==> states[i + 1] == Compress(states[i], p[64 * i..64 * i + 64])
  }

  lemma {:induction false} ChainAbsorbs(p: seq<Octet>, states: seq<State>, n: nat)
    requires IsChain(p, states) && n < |states|
    ensures Absorb(p, n) == states[n]
  {
    hide Compress;
    if n > 0 {
      ChainAbsorbs(p, states, n - 1);
      assert p[64 * (n - 1)..64 * (n - 1) + 64] == p[64 * (n - 1)..64 * n];
    }
  }

  /**
   The hash of a message without the functions above: it spells, most significant octets first, the eight
   words at the end of the chain of compressions over the one padding of the message.
   */
  lemma HashExactly(msg: seq<Octet>, p: seq<Octet>, states: seq<State>)
    requires IsPadding(msg, p) && IsChain(p, states)
    ensures var d, s := Hash(msg), states[|states| - 1];
            && Spelled(d[..4]) == s.a && Spelled(d[4..8]) == s.b && Spelled(d[8..12]) == s.c && Spelled(d[12..16]) == s.d
            && Spelled(d[16..20]) == s.e && Spelled(d[20..24]) == s.f && Spelled(d[24..28]) == s.g && Spelled(d[28..]) == s.h
  {
    hide Padded, IsPadding, Compress, DigestOf, Absorb, Spelled;
    PaddedExactly(msg, p);
    ChainAbsorbs(p, states, |states| - 1);
    DivModUnique(64 * (|states| - 1), |states| - 1, 64, 0);
    DigestSpells(states[|states| - 1]);
  }

  lemma DigestSpells(s: State)
    ensures var d := DigestOf(s);
            && Spelled(d[..4]) == s.a && Spelled(d[4..8]) == s.b && Spelled(d[8..12]) == s.c && Spelled(d[12..16]) == s.d
            && Spelled(d[16..20]) == s.e && Spelled(d[20..24]) == s.f && Spelled(d[24..28]) == s.g && Spelled(d[28..]) == s.h
  {
    hide Spelled, BigEndian;
    DigestCuts(s);
    WordSpells(s.a);
    WordSpells(s.b);
    WordSpells(s.c);
    WordSpells(s.d);
    WordSpells(s.e);
    WordSpells(s.f);
    WordSpells(s.g);
    WordSpells(s.h);
  }

  lemma WordSpells(w: Word32)
    ensures Spelled(BigEndian(w, 4)) == w
  {
    assert Pow256(4) == 0x1_0000_0000;
    BigEndianSpells(w, 4);
  }

  lemma DigestCuts(s: State)
    ensures var d := DigestOf(s);
            && d[..4] == BigEndian(s.a, 4) && d[4..8] == BigEndian(s.b, 4) && d[8..12] == BigEndian(s.c, 4)
            && d[12..16] == BigEndian(s.d, 4) && d[16..20] == BigEndian(s.e, 4) && d[20..24] == BigEndian(s.f, 4)
            && d[24..28] == BigEndian(s.g, 4) && d[28..] == BigEndian(s.h, 4)
  {
    hide BigEndian;
  }

  // ----- the implementation -----

  /** `rotr`. */
  function Rotr(x: Word32, n: nat): nat
    requires 0 < n < 32
  {
    Or(Shr(x, n), ShiftLeft(x, 32 - n))
  }

  function ShiftLeft(x: Word32, n: nat): nat {
    Sum(Times(x, Pow2(n)))
  }

  function Times(x: nat, y: nat): nat {
    x * y
  }

  lemma RotrIsRotate(x: Word32, n: nat)
    requires 0 < n < 32
    ensures Rotr(x, n) == Rotate(x, n)
  {
    Pow2Add(n, 32 - n);
    Pow2Words();
    ShrIsDiv(x, n);
    LowProduct(x, Pow2(n), Pow2(32 - n));
    RotrParts(x, Pow2(n), Pow2(32 - n), 32 - n);
  }

  lemma RotrParts(x: nat, p: nat, q: nat, k: nat)
    requires p > 0 && x < p * q && q == Pow2(k)
    ensures Or(x / p, x % p * q) == x / p + x % p * q
  {
    QuotientBound(x, p, q);
    OrShifted(x % p, x / p, k);
    OrComm(x / p, x % p * q);
  }

  lemma QuotientBound(x: nat, p: nat, q: nat)
    requires p > 0 && x < p * q
    ensures x / p < q
  {
    if x / p >= q {
      MulMonotone(q, x / p, p);
    }
  }

  lemma LowProduct(x: nat, p: nat, q: nat)
    requires p > 0 && q > 0 && p * q > 0
    ensures x * q % (p * q) == x % p * q
  {
    var h, l := x / p, x % p;
    assert x == h * p + l;
    assert x * q == h * (p * q) + l * q;
    MulMonotone(l + 1, p, q);
    DivModUnique(x * q, h, p * q, l * q);
  }

  lemma MulMonotone(a: nat, b: nat, c: nat)
    requires a <= b
    ensures a * c <= b * c
  {}

  /** The sigma functions as the code writes them. */
  function CodeSigma(x: Word32, i: nat, j: nat, last: nat): nat
    requires 0 < i < 32 && 0 < j < 32
  {
    Xor(Xor(Rotr(x, i), Rotr(x, j)), last)
  }

  lemma SigmasRefine(x: Word32)
    ensures CodeSigma(x, 2, 13, Rotr(x, 22)) == BigSigma0(x)
    ensures CodeSigma(x, 6, 11, Rotr(x, 25)) == BigSigma1(x)
    ensures CodeSigma(x, 7, 18, x / 8) == SmallSigma0(x)
    ensures CodeSigma(x, 17, 19, x / 1024) == SmallSigma1(x)
  {
    RotrIsRotate(x, 2);
    RotrIsRotate(x, 13);
    RotrIsRotate(x, 22);
    RotrIsRotate(x, 6);
    RotrIsRotate(x, 11);
    RotrIsRotate(x, 25);
    RotrIsRotate(x, 7);
    RotrIsRotate(x, 18);
    RotrIsRotate(x, 17);
    RotrIsRotate(x, 19);
  }

  lemma ShrStep(n: nat, m: nat)
    ensures Shr(n, m) / 256 == Shr(n, m + 8)
    decreases m
  {
    if m > 0 {
      ShrStep(n / 2, m - 1);
    } else {
      assert Pow2(8) == 256;
      ShrIsDiv(n, 8);
    }
  }

  method Pad(msg: seq<Octet>) returns (padded: seq<Octet>)
    ensures padded == Padded(msg)
  {
    padded := msg + [0x80];
    ghost var k := 0;
    while |padded| % 64 != 56
      invariant k <= ZeroCount(|msg|) && padded == msg + [0x80] + Zeros(k)
      decreases ZeroCount(|msg|) - k
    {
      StillPadding(|msg|, k);
      padded := padded + [0x00];
      k := k + 1;
    }
    PaddingDone(|msg|, k);
    var bitLen := |msg| * 8 % 0x1_0000_0000_0000_0000;
    ghost var body := padded;
    Shr64(bitLen);
    for i := 0 to 8
      invariant padded == body + BigEndian(Shr(bitLen, (8 - i) * 8), i)
    {
      var octet := And(Shr(bitLen, (7 - i) * 8), 0xFF);
      AndLiterals(Shr(bitLen, (7 - i) * 8));
      ShrStep(bitLen, (7 - i) * 8);
      padded := padded + [octet];
    }
  }

  lemma StillPadding(len: nat, k: nat)
    requires k <= ZeroCount(len) && (len + 1 + k) % 64 != 56
    ensures k < ZeroCount(len)
  {}

  lemma PaddingDone(len: nat, k: nat)
    requires k <= ZeroCount(len) && (len + 1 + k) % 64 == 56
    ensures k == ZeroCount(len)
  {
    assert (ZeroCount(len) - k) % 64 == 0;
  }

  lemma Shr64(n: nat)
    requires n < 0x1_0000_0000_0000_0000
    ensures Shr(n, 64) == 0
  {
    ShrIsDiv(n, 64);
    Pow2Words();
    DivModUnique(n, 0, 0x1_0000_0000_0000_0000, n);
  }

  lemma LoadedWord(padded: seq<Octet>, chunk: nat, i: nat)
    requires chunk + 64 <= |padded| && i < 16
    ensures var base := chunk + i * 4;
            Load(padded[base], padded[base + 1], padded[base + 2], padded[base + 3])
            == Schedule(padded[chunk..chunk + 64], i)
  {
    var base := chunk + i * 4;
    LoadIsWord(padded[base], padded[base + 1], padded[base + 2], padded[base + 3]);
  }

  lemma ScheduledWord(block: seq<Octet>, i: nat)
    requires |block| == 64 && 16 <= i < 64
    ensures var x, y := Schedule(block, i - 15), Schedule(block, i - 2);
            Sum(Schedule(block, i - 16) + CodeSigma(x, 7, 18, x / 8) + Schedule(block, i - 7) + CodeSigma(y, 17, 19, y / 1024))
            == Schedule(block, i)
  {
    hide Xor, And, Rotr, CodeSigma, SmallSigma0, SmallSigma1;
    SigmasRefine(Schedule(block, i - 15));
    SigmasRefine(Schedule(block, i - 2));
  }

  /** The message schedule of the block at `chunk`; every read of `padded` is in bounds. */
  method Expand(padded: seq<Octet>, chunk: nat, w: array<Word32>)
    requires chunk + 64 <= |padded| && w.Length == 64
    modifies w
    ensures forall t :: 0 <= t < 64 ==> w[t] == Schedule(padded[chunk..chunk + 64], t)
  {
    hide Xor, And, Or, Rotr, Sum, Schedule, Load, CodeSigma;
    ghost var block := padded[chunk..chunk + 64];
    for i := 0 to 16
      invariant forall t :: 0 <= t < i ==> w[t] == Schedule(block, t)
    {
      var base := chunk + i * 4;
      LoadedWord(padded, chunk, i);
      w[i] := Load(padded[base], padded[base + 1], padded[base + 2], padded[base + 3]);
    }
    for i := 16 to 64
      invariant forall t :: 0 <= t < i ==> w[t] == Schedule(block, t)
    {
      ScheduledWord(block, i);
      var s0 := CodeSigma(w[i - 15], 7, 18, w[i - 15] / 8);
      var s1 := CodeSigma(w[i - 2], 17, 19, w[i - 2] / 1024);
      w[i] := Sum(w[i - 16] + s0 + w[i - 7] + s1);
    }
  }

  /** The 64 rounds on one block. */
  method RunRounds(s: State, w: array<Word32>, ghost block: seq<Octet>) returns (r: State)
    requires |block| == 64 && w.Length == 64
    requires forall t :: 0 <= t < 64 ==> w[t] == Schedule(block, t)
    ensures r == Rounds(s, block, 64)
  {
    hide Xor, And, Rotr, Sum, Not, Schedule, CodeSigma, BigSigma0, BigSigma1;
    var a: Word32, b: Word32, c: Word32, d: Word32 := s.a, s.b, s.c, s.d;
    var e: Word32, f: Word32, g: Word32, h: Word32 := s.e, s.f, s.g, s.h;
    for i := 0 to 64
      invariant State(a, b, c, d, e, f, g, h) == Rounds(s, block, i)
    {
      SigmasRefine(e);
      SigmasRefine(a);
      var bigS1 := CodeSigma(e, 6, 11, Rotr(e, 25));
      var ch := Xor(And(e, f), And(Not(e), g));
      var t1 := Sum(h + bigS1 + ch + RoundConstant(i) + w[i]);
      var bigS0 := CodeSigma(a, 2, 13, Rotr(a, 22));
      var maj := Xor(Xor(And(a, b), And(a, c)), And(b, c));
      var t2 := Sum(bigS0 + maj);
      h := g;
      g := f;
      f := e;
      e := Plus(d, t1);
      d := c;
      c := b;
      b := a;
      a := Plus(t1, t2);
    }
    r := State(a, b, c, d, e, f, g, h);
  }

  /** `put`: four octets of the digest, written in place. */
  method Put(digest: array<Octet>, off: nat, v: Word32)
    requires off + 4 <= digest.Length
    modifies digest
    ensures digest[..off + 4] == old(digest[..off]) + BigEndian(v, 4)
    ensures digest[off + 4..] == old(digest[off + 4..])
  {
    PutOctets(v);
    StoredOctets(v);
    digest[off] := And(v / 0x100_0000, 0xFF);
    digest[off + 1] := And(v / 0x1_0000, 0xFF);
    digest[off + 2] := And(v / 0x100, 0xFF);
    digest[off + 3] := And(v, 0xFF);
  }

  lemma PutOctets(v: Word32)
    ensures BigEndian(v, 4) == Stored(v)
  {
    StoredOctets(v);
    assert v / 256 / 256 == v / 0x1_0000 && v / 0x1_0000 / 256 == v / 0x100_0000;
    assert BigEndian(v, 4) == BigEndian(v / 0x1_0000, 2) + [v / 256 % 256, v % 256];
    assert BigEndian(v / 0x1_0000, 2) == [v / 0x100_0000 % 256, v / 0x1_0000 % 256];
  }

  /** `sha256`. */
  method ComputeHash(msg: seq<Octet>) returns (digest: seq<Octet>)
    ensures digest == Hash(msg)
  {
    hide Padded, Rounds, Schedule, DigestOf, Add;
    var s := INITIAL;
    var padded := Pad(msg);
    PaddedIsShortest(msg, 0);
    var chunk := 0;
    ghost var n := 0;
    while chunk < |padded|
      invariant chunk == 64 * n <= |padded|
      invariant s == Absorb(padded, n)
    {
      var w := new Word32[64];
      Expand(padded, chunk, w);
      ghost var block := padded[chunk..chunk + 64];
      assert block == padded[64 * n..64 * (n + 1)];
      var r := RunRounds(s, w, block);
      s := Add(s, r);
      chunk, n := chunk + 64, n + 1;
    }
    var out := WriteDigest(s);
    digest := out;
  }

  method WriteDigest(s: State) returns (d: seq<Octet>)
    ensures d == DigestOf(s)
  {
    hide BigEndian;
    var digest := new Octet[32](_ => 0);
    Put(digest, 0, s.a);
    Put(digest, 4, s.b);
    Put(digest, 8, s.c);
    Put(digest, 12, s.d);
    Put(digest, 16, s.e);
    Put(digest, 20, s.f);
    Put(digest, 24, s.g);
    Put(digest, 28, s.h);
    assert digest[..] == digest[..32];
    d := digest[..];
  }
}
