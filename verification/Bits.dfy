/**
 Bit operators on natural numbers.

 The C++ sources mask, shift and combine unsigned words. Here a word is a natural number, a shift is a
 multiplication or division by a power of two, and `&`, `|` and `^` are defined bit by bit. The lemmas
 turn the few shapes the sources use back into ordinary arithmetic.
 */
module Bits {

  type Octet = x: int | 0 <= x < 256
  type Word32 = x: int | 0 <= x < 0x1_0000_0000
  type Word64 = x: int | 0 <= x < 0x1_0000_0000_0000_0000

  function Pow2(n: nat): (p: nat)
    ensures p > 0
  {
    if n == 0 then 1 else 2 * Pow2(n - 1)
  }

  function And(a: nat, b: nat): nat {
    if a == 0 || b == 0 then 0
    else 2 * And(a / 2, b / 2) + (if a % 2 == 1 && b % 2 == 1 then 1 else 0)
  }

  function Or(a: nat, b: nat): nat {
    if a == 0 then b
    else if b == 0 then a
    else 2 * Or(a / 2, b / 2) + (if a % 2 == 1 || b % 2 == 1 then 1 else 0)
  }

  function Xor(a: nat, b: nat): nat {
    if a == 0 then b
    else if b == 0 then a
    else 2 * Xor(a / 2, b / 2) + (if a % 2 != b % 2 then 1 else 0)
  }

  /** Division with remainder is unique. */
  lemma DivModUnique(x: int, q: int, d: int, r: int)
    requires d > 0 && 0 <= r < d && x == q * d + r
    ensures x / d == q && x % d == r
  {
    var e := x / d - q;
    assert x == (x / d) * d + x % d;
    Distribute(q, e, d);
    if e > 0 {
      MulAtLeast(e, d);
    } else if e < 0 {
      MulAtLeast(-e, d);
      Distribute(e, -e, d);
    }
  }

  lemma DivModSplit(x: int, d: int)
    requires d > 0
    ensures x == x / d * d + x % d && 0 <= x % d < d
  {}

  lemma Distribute(a: int, b: int, d: int)
    ensures (a + b) * d == a * d + b * d
  {}

  lemma MulAtLeast(n: int, d: int)
    requires n >= 1 && d > 0
    ensures n * d >= d
  {
    assert n * d == (n - 1) * d + d;
  }

  /** Splitting off the lowest bit commutes with reducing modulo a power of two. */
  lemma ModPow2Step(x: nat, k: nat)
    ensures x % Pow2(k + 1) == 2 * ((x / 2) % Pow2(k)) + x % 2
  {
    var p := Pow2(k);
    var q, r := (x / 2) / p, (x / 2) % p;
    assert x / 2 == q * p + r;
    assert x == q * (2 * p) + (2 * r + x % 2);
    DivModUnique(x, q, 2 * p, 2 * r + x % 2);
  }

  /** `x & (2^k - 1)` keeps the k low bits. */
  lemma {:induction false} AndMask(x: nat, k: nat)
    ensures And(x, Pow2(k) - 1) == x % Pow2(k)
  {
    if k > 0 {
      ModPow2Step(x, k - 1);
      AndMask(x / 2, k - 1);
      var p := Pow2(k - 1);
      assert (2 * p - 1) / 2 == p - 1 && (2 * p - 1) % 2 == 1;
    }
  }

  /** `(x << k) | y` is a sum when y fits in the k bits that the shift freed. */
  lemma {:induction false} OrShifted(x: nat, y: nat, k: nat)
    requires y < Pow2(k)
    ensures Or(x * Pow2(k), y) == x * Pow2(k) + y
  {
    if x != 0 && y != 0 {
      var p := Pow2(k - 1);
      var a := x * Pow2(k);
      assert a == 2 * (x * p);
      assert a / 2 == x * p && a % 2 == 0;
      assert a != 0 by {
        if a == 0 { assert x * p == 0; MulPositive(x, p); }
      }
      OrShifted(x, y / 2, k - 1);
    }
  }

  lemma {:induction false} Pow2Add(m: nat, n: nat)
    ensures Pow2(m) * Pow2(n) == Pow2(m + n)
  {
    if m > 0 { Pow2Add(m - 1, n); }
  }

  lemma Pow2Words()
    ensures Pow2(16) == 0x1_0000 && Pow2(32) == 0x1_0000_0000
    ensures Pow2(48) == 0x1_0000_0000_0000 && Pow2(64) == 0x1_0000_0000_0000_0000
  {
    assert Pow2(8) == 256;
    hide Pow2;
    Pow2Add(8, 8);
    Pow2Add(16, 16);
    Pow2Add(32, 16);
    Pow2Add(32, 32);
  }

  lemma MulPositive(x: nat, p: nat)
    requires x > 0 && p > 0
    ensures x * p > 0
  {}

  /** `x >> k`, one bit at a time. */
  function Shr(x: nat, k: nat): nat {
    if k == 0 then x else Shr(x / 2, k - 1)
  }

  /** The k low bits of x. */
  function Low(x: nat, k: nat): nat {
    if k == 0 then 0 else 2 * Low(x / 2, k - 1) + x % 2
  }

  lemma {:induction false} ShrIsDiv(x: nat, k: nat)
    ensures Shr(x, k) == x / Pow2(k)
  {
    if k > 0 {
      ShrIsDiv(x / 2, k - 1);
      DivPow2Step(x, k - 1);
    }
  }

  lemma {:induction false} LowIsMod(x: nat, k: nat)
    ensures Low(x, k) == x % Pow2(k)
  {
    if k > 0 {
      LowIsMod(x / 2, k - 1);
      ModPow2Step(x, k - 1);
    }
  }

  lemma DivPow2Step(x: nat, k: nat)
    ensures x / Pow2(k + 1) == (x / 2) / Pow2(k)
  {
    var p := Pow2(k);
    var q, r := (x / 2) / p, (x / 2) % p;
    assert x / 2 == q * p + r;
    assert x == q * (2 * p) + (2 * r + x % 2);
    DivModUnique(x, q, 2 * p, 2 * r + x % 2);
  }

  lemma ZeroMasks()
    ensures And(0, 0) == 0 && Or(0, 0) == 0
  {}

  lemma MaskStep(a: nat, m: nat)
    ensures And(a, m) / 2 == And(a / 2, m / 2)
    ensures And(a, m) % 2 == (if a % 2 == 1 && m % 2 == 1 then 1 else 0)
    ensures Or(a, m) / 2 == Or(a / 2, m / 2)
    ensures Or(a, m) % 2 == (if a % 2 == 1 || m % 2 == 1 then 1 else 0)
  {}

  /** `(a & m) >> k` is `(a >> k) & (m >> k)`, and the same for `|`. */
  lemma {:induction false} MaskShift(a: nat, m: nat, k: nat)
    ensures Shr(And(a, m), k) == And(Shr(a, k), Shr(m, k))
    ensures Shr(Or(a, m), k) == Or(Shr(a, k), Shr(m, k))
  {
    if k > 0 {
      MaskStep(a, m);
      MaskShift(a / 2, m / 2, k - 1);
    }
  }

  /** The k low bits of `a & m` depend on the k low bits of the operands only. */
  lemma {:induction false} AndLow(a: nat, m: nat, k: nat)
    ensures Low(And(a, m), k) == And(Low(a, k), Low(m, k))
  {
    hide And, Or;
    if k == 0 {
      ZeroMasks();
    } else {
      MaskStep(a, m);
      AndLow(a / 2, m / 2, k - 1);
      MaskStep(Low(a, k), Low(m, k));
    }
  }

  /** The same for `a | m`. */
  lemma {:induction false} OrLow(a: nat, m: nat, k: nat)
    ensures Low(Or(a, m), k) == Or(Low(a, k), Low(m, k))
  {
    hide And, Or;
    if k == 0 {
      ZeroMasks();
    } else {
      MaskStep(a, m);
      OrLow(a / 2, m / 2, k - 1);
      MaskStep(Low(a, k), Low(m, k));
    }
  }

  lemma {:induction false} OrComm(a: nat, b: nat)
    ensures Or(a, b) == Or(b, a)
  {
    if a != 0 && b != 0 { OrComm(a / 2, b / 2); }
  }

  lemma OrIsZero(a: nat, b: nat)
    ensures Or(a, b) == 0 <==> a == 0 && b == 0
  {}

  lemma {:induction false} XorIsZero(a: nat, b: nat)
    ensures Xor(a, b) == 0 <==> a == b
  {
    if a != 0 && b != 0 { XorIsZero(a / 2, b / 2); }
  }

  lemma XorStep(a: nat, b: nat)
    ensures Xor(a, b) / 2 == Xor(a / 2, b / 2)
    ensures Xor(a, b) % 2 == (if a % 2 != b % 2 then 1 else 0)
  {}

  lemma {:induction false} XorBound(a: nat, b: nat, k: nat)
    requires a < Pow2(k) && b < Pow2(k)
    ensures Xor(a, b) < Pow2(k)
  {
    if a != 0 && b != 0 { XorBound(a / 2, b / 2, k - 1); }
  }

  /** The masks and shifts with the constants the sources use. */
  lemma AndLiterals(x: nat)
    ensures And(x, 0x03) == x % 4
    ensures And(x, 0x0F) == x % 16
    ensures And(x, 0x3F) == x % 64
    ensures And(x, 0xFF) == x % 256
  {
    AndMask(x, 2);
    AndMask(x, 4);
    AndMask(x, 6);
    AndMask(x, 8);
    assert Pow2(2) == 4 && Pow2(4) == 16 && Pow2(6) == 64 && Pow2(8) == 256;
  }

  lemma OrLiterals(x: nat, y: nat)
    ensures y < 4 ==> Or(x * 4, y) == x * 4 + y
    ensures y < 16 ==> Or(x * 16, y) == x * 16 + y
    ensures y < 64 ==> Or(x * 64, y) == x * 64 + y
    ensures y < 256 ==> Or(x * 256, y) == x * 256 + y
  {
    assert Pow2(2) == 4 && Pow2(4) == 16 && Pow2(6) == 64 && Pow2(8) == 256;
    if y < 4 { OrShifted(x, y, 2); }
    if y < 16 { OrShifted(x, y, 4); }
    if y < 64 { OrShifted(x, y, 6); }
    if y < 256 { OrShifted(x, y, 8); }
  }

  // ----- bit by bit -----

  /** Bit i of x, counting from the least significant. */
  function Bit(x: nat, i: nat): (b: nat)
    ensures b < 2
  {
    Shr(x, i) % 2
  }

  /** What the operators do to every single bit. */
  lemma {:induction false} OperatorBits(a: nat, b: nat, i: nat)
    ensures Bit(And(a, b), i) == (if Bit(a, i) == 1 && Bit(b, i) == 1 then 1 else 0)
    ensures Bit(Or(a, b), i) == (if Bit(a, i) == 1 || Bit(b, i) == 1 then 1 else 0)
    ensures Bit(Xor(a, b), i) == (if Bit(a, i) != Bit(b, i) then 1 else 0)
  {
    hide And, Or, Xor;
    MaskStep(a, b);
    XorStep(a, b);
    if i > 0 {
      OperatorBits(a / 2, b / 2, i - 1);
    }
  }

  /** Complementing a k-bit word complements each of its bits. */
  lemma {:induction false} ComplementBits(x: nat, k: nat, i: nat)
    requires x < Pow2(k) && i < k
    ensures Bit(Pow2(k) - 1 - x, i) == 1 - Bit(x, i)
  {
    var p := Pow2(k - 1);
    assert (2 * p - 1 - x) / 2 == p - 1 - x / 2 && (2 * p - 1 - x) % 2 == 1 - x % 2;
    if i > 0 {
      ComplementBits(x / 2, k - 1, i - 1);
    }
  }

  /** A sum whose second term is a multiple of 2^k: the bits below k are those of the first term, the others those of the factor. */
  lemma {:induction false} SumBits(a: nat, b: nat, k: nat, i: nat)
    requires a < Pow2(k)
    ensures Bit(a + b * Pow2(k), i) == if i < k then Bit(a, i) else Bit(b, i - k)
    decreases k
  {
    if k > 0 {
      var p := Pow2(k - 1);
      assert b * Pow2(k) == 2 * (b * p);
      assert (a + 2 * (b * p)) / 2 == a / 2 + b * p && (a + 2 * (b * p)) % 2 == a % 2;
      if i > 0 {
        SumBits(a / 2, b, k - 1, i - 1);
      }
    } else {
      assert b * Pow2(0) == b;
    }
  }

  lemma {:induction false} ShrBits(x: nat, k: nat, i: nat)
    ensures Bit(Shr(x, k), i) == Bit(x, i + k)
  {
    if k > 0 {
      ShrBits(x / 2, k - 1, i);
    }
  }

  lemma {:induction false} LowBits(x: nat, k: nat, i: nat)
    ensures Bit(Low(x, k), i) == if i < k then Bit(x, i) else 0
  {
    if k == 0 {
      ZeroBits(i);
    } else if i > 0 {
      LowBits(x / 2, k - 1, i - 1);
    }
  }

  lemma {:induction false} ZeroBits(i: nat)
    ensures Bit(0, i) == 0
  {
    if i > 0 {
      ZeroBits(i - 1);
    }
  }

  // ----- words and octets -----

  /** The word with the given octets, most significant first. */
  function Word(b0: Octet, b1: Octet, b2: Octet, b3: Octet): Word32 {
    b0 * 0x100_0000 + b1 * 0x1_0000 + b2 * 0x100 + b3
  }

  /** Four octets, combined with shifts and `|`. */
  function Load(b0: Octet, b1: Octet, b2: Octet, b3: Octet): nat {
    Or(Or(Or(b0 * 0x100_0000, b1 * 0x1_0000), b2 * 0x100), b3)
  }

  lemma LoadIsWord(b0: Octet, b1: Octet, b2: Octet, b3: Octet)
    ensures Load(b0, b1, b2, b3) == Word(b0, b1, b2, b3)
  {
    assert Pow2(8) == 256 && Pow2(16) == 0x1_0000 && Pow2(24) == 0x100_0000;
    OrShifted(b0, b1 * 0x1_0000, 24);
    OrShifted(b0 * 256 + b1, b2 * 0x100, 16);
    OrShifted(b0 * 0x1_0000 + b1 * 256 + b2, b3, 8);
  }

  /** The four octets of a word, cut out with shifts and masks. */
  function Stored(v: Word32): (s: seq<Octet>)
    ensures |s| == 4
  {
    AndLiterals(v / 0x100_0000);
    AndLiterals(v / 0x1_0000);
    AndLiterals(v / 0x100);
    AndLiterals(v);
    [And(v / 0x100_0000, 0xFF), And(v / 0x1_0000, 0xFF), And(v / 0x100, 0xFF), And(v, 0xFF)]
  }

  lemma StoredOctets(v: Word32)
    ensures Stored(v) == [v / 0x100_0000 % 256, v / 0x1_0000 % 256, v / 0x100 % 256, v % 256]
  {
    AndLiterals(v / 0x100_0000);
    AndLiterals(v / 0x1_0000);
    AndLiterals(v / 0x100);
    AndLiterals(v);
  }

  /** Storing a word and loading it again gives it back. */
  lemma LoadStored(v: Word32)
    ensures Load(Stored(v)[0], Stored(v)[1], Stored(v)[2], Stored(v)[3]) == v
  {
    StoredOctets(v);
    hide Stored, Load;
    LoadIsWord(v / 0x100_0000 % 256, v / 0x1_0000 % 256, v / 0x100 % 256, v % 256);
    assert v / 0x100_0000 == v / 0x1_0000 / 256 && v / 0x1_0000 == v / 0x100 / 256;
  }
}
