/**
 The two base64url encoders and the decoder behind the token classes.

 Section 4 of RFC 4648 is the reference: three octets form a 24-bit group, read off as four 6-bit values;
 a final group of one or two octets is filled up with zero bits, and the characters that would hold only
 fill bits are not written.
 */
module Base64Url {
  import opened Bits

  /** The URL-safe alphabet "A".."Z", "a".."z", "0".."9", "-", "_", as octets. */
  function AlphaAt(i: nat): Octet
    requires i < 64
  {
    if i < 26 then 65 + i
    else if i < 52 then 97 + (i - 26)
    else if i < 62 then 48 + (i - 52)
    else if i == 62 then 45
    else 95
  }

  /** `decode_char`: also accepts the standard alphabet's '+' and '/'; -1 for every other octet. */
  function DecodeChar(c: Octet): int {
    if 65 <= c <= 90 then c - 65
    else if 97 <= c <= 122 then c - 97 + 26
    else if 48 <= c <= 57 then c - 48 + 52
    else if c == 43 || c == 45 then 62
    else if c == 47 || c == 95 then 63
    else -1
  }

  predicate IsUrlSafe(c: Octet) {
    65 <= c <= 90 || 97 <= c <= 122 || 48 <= c <= 57 || c == 45 || c == 95
  }

  /** The alphabet of section 5 of RFC 4648, written out. */
  const ALPHABET: seq<string> := [
    "ABCDEFGH", "IJKLMNOP", "QRSTUVWX", "YZabcdef",
    "ghijklmn", "opqrstuv", "wxyz0123", "456789-_"
  ]

  lemma AlphabetWrittenOut(i: nat)
    requires i < 64
    ensures AlphaAt(i) == ALPHABET[i / 8][i % 8] as int
  {
    match i / 8
    case 0 => case 1 => case 2 => case 3 => case 4 => case 5 => case 6 => case 7 =>
  }

  /** A character decodes to i exactly when it is the i-th of the alphabet, or '+' for 62, or '/' for 63. */
  lemma DecodeCharExactly(c: Octet, i: nat)
    requires i < 64
    ensures -1 <= DecodeChar(c) < 64
    ensures DecodeChar(c) == i <==> c == AlphaAt(i) || (i == 62 && c == '+' as int) || (i == 63 && c == '/' as int)
  {}

  // ----- the reference codec -----

  function At(data: seq<int>, i: nat): int {
    if i < |data| then data[i] else 0
  }

  /** The g-th 24-bit group of the octets, zero-filled. */
  function Group24(data: seq<Octet>, g: nat): int {
    At(data, 3 * g) * 65536 + At(data, 3 * g + 1) * 256 + At(data, 3 * g + 2)
  }

  /** The r-th 6-bit value of a 24-bit group. */
  function Sextet(n: int, r: nat): (s: int)
    ensures 0 <= s < 64
  {
    (if r == 0 then n / 262144 else if r == 1 then n / 4096 else if r == 2 then n / 64 else n) % 64
  }

  function EncodedLength(n: nat): nat {
    (4 * n + 2) / 3
  }

  /** The k-th character of the encoding. */
  function CharAt(data: seq<Octet>, k: nat): (c: Octet)
    ensures IsUrlSafe(c)
  {
    AlphaAt(Sextet(Group24(data, k / 4), k % 4))
  }

  function Encode(data: seq<Octet>): (out: seq<Octet>)
    ensures |out| == EncodedLength(|data|)
    ensures forall k :: 0 <= k < |out| ==> IsUrlSafe(out[k])
  {
    seq(EncodedLength(|data|), k requires 0 <= k => CharAt(data, k))
  }

  /** The 6-bit values of the characters that decode; all others are skipped. */
  function Values(text: seq<Octet>): (vs: seq<int>)
    ensures |vs| <= |text|
    ensures forall k :: 0 <= k < |vs| ==> 0 <= vs[k] < 64
  {
    if text == [] then []
    else
      var v := DecodeChar(text[|text| - 1]);
      Values(text[..|text| - 1]) + (if v < 0 then [] else [v])
  }

  /** The g-th 24-bit group of the 6-bit values, zero-filled. */
  function Group24Of(vs: seq<int>, g: nat): int {
    At(vs, 4 * g) * 262144 + At(vs, 4 * g + 1) * 4096 + At(vs, 4 * g + 2) * 64 + At(vs, 4 * g + 3)
  }

  /** The r-th octet of a 24-bit group. */
  function OctetOf(n: int, r: nat): Octet {
    (if r == 0 then n / 65536 else if r == 1 then n / 256 else n) % 256
  }

  function DecodeValues(vs: seq<int>): (out: seq<Octet>)
    ensures |out| == |vs| * 3 / 4
  {
    seq(|vs| * 3 / 4, j requires 0 <= j => OctetOf(Group24Of(vs, j / 3), j % 3))
  }

  function Decode(text: seq<Octet>): seq<Octet> {
    DecodeValues(Values(text))
  }

  // ----- 32-bit accumulators -----

  /** Conversion to a two's-complement 32-bit `int`. */
  function Wrap(x: int): (r: int)
    ensures -0x8000_0000 <= r < 0x8000_0000
    ensures (r - x) % 0x1_0000_0000 == 0
  {
    var u := x % 0x1_0000_0000;
    if u < 0x8000_0000 then u else u - 0x1_0000_0000
  }

  /** `x >> n` on an `int`: an arithmetic shift, rounding down. */
  function Sar(x: int, n: nat): int
    decreases n
  {
    if n == 0 then x else Sar(x / 2, n - 1)
  }

  /** `x & m` on an `int` with a non-negative mask. */
  function AndInt(x: int, m: nat): nat {
    And(x % 0x1_0000_0000, m)
  }

  /** The accumulator as it would be without a width limit. */
  function Value(data: seq<Octet>): nat {
    if data == [] then 0 else Value(data[..|data| - 1]) * 256 + data[|data| - 1]
  }

  lemma SarTwice(x: int, n: nat)
    requires n >= 2
    ensures Sar(x, n) == Sar(x / 4, n - 2)
  {
    assert Sar(x, n) == Sar(x / 2, n - 1) == Sar(x / 2 / 2, n - 2);
    assert x / 2 / 2 == x / 4;
  }

  lemma SarEven(x: int)
    ensures Sar(x, 2) == x / 4
    ensures Sar(x, 4) == x / 16
    ensures Sar(x, 6) == x / 64
  {
    SarTwice(x, 2);
    SarTwice(x, 4);
    SarTwice(x, 6);
    SarTwice(x / 4, 2);
    SarTwice(x / 4, 4);
    SarTwice(x / 16, 2);
    assert x / 4 / 4 == x / 16;
    assert x / 16 / 4 == x / 64;
  }

  lemma MaskInt(x: int)
    ensures AndInt(x, 0x3F) == x % 64
    ensures AndInt(x, 0xFF) == x % 256
  {
    AndLiterals(x % 0x1_0000_0000);
    WordMod(x, x % 0x1_0000_0000, x / 0x1_0000_0000);
  }

  lemma WordMod(x: int, u: int, q: int)
    requires x == u + q * 0x1_0000_0000
    ensures u % 64 == x % 64 && u % 256 == x % 256
  {
    DivModUnique(x, u / 64 + q * 0x400_0000, 64, u % 64);
    DivModUnique(x, u / 256 + q * 0x100_0000, 256, u % 256);
  }

  predicate SameWord(x: int, v: int) {
    (x - v) % 0x1_0000_0000 == 0
  }

  lemma IsSameWord(x: int, v: int, d: int)
    requires x == v + d * 0x1_0000_0000
    ensures SameWord(x, v)
  {
    DivModUnique(x - v, d, 0x1_0000_0000, 0);
  }

  /** The encoder's masked read sees the same bits in the 32-bit and in the unbounded accumulator. */
  lemma SextetReadRefines(x: int, v: int, n: nat)
    requires SameWord(x, v)
    requires n == 0 || n == 2 || n == 4 || n == 6
    ensures AndInt(Sar(x, n), 0x3F) == Sar(v, n) % 64
  {
    MaskInt(Sar(x, n));
    SarEven(x);
    SarEven(v);
    ShiftedReads(x, v);
  }

  /** Words that agree modulo 2^32 agree in every low bit that is read after a short shift. */
  lemma ShiftedReads(x: int, v: int)
    requires SameWord(x, v)
    ensures x % 64 == v % 64 && x / 4 % 64 == v / 4 % 64 && x / 16 % 64 == v / 16 % 64 && x / 64 % 64 == v / 64 % 64
    ensures x % 256 == v % 256 && x / 4 % 256 == v / 4 % 256 && x / 16 % 256 == v / 16 % 256
  {
    var d := (x - v) / 0x1_0000_0000;
    assert x == v + d * 0x1_0000_0000;
    DivModUnique(x, v / 4 + d * 0x4000_0000, 4, v % 4);
    DivModUnique(x, v / 16 + d * 0x1000_0000, 16, v % 16);
    DivModUnique(x, v / 64 + d * 0x400_0000, 64, v % 64);
    WordMod(x, v, d);
    AddMultiple(v / 4, d * 0x40_0000);
    AddMultiple(v / 16, d * 0x10_0000);
    AddMultiple(v / 64, d * 0x4_0000);
  }

  lemma AddMultiple(a: int, q: int)
    ensures (a + q * 256) % 256 == a % 256 && (a + q * 256) % 64 == a % 64
  {
    DivModUnique(a + q * 256, a / 256 + q, 256, a % 256);
    DivModUnique(a + q * 256, a / 64 + q * 4, 64, a % 64);
  }

  /** The decoder's masked read sees the same bits in the 32-bit and in the unbounded accumulator. */
  lemma OctetReadRefines(x: int, v: int, n: nat)
    requires SameWord(x, v)
    requires n == 0 || n == 2 || n == 4
    ensures AndInt(Sar(x, n), 0xFF) == Sar(v, n) % 256
  {
    MaskInt(Sar(x, n));
    SarEven(x);
    SarEven(v);
    ShiftedReads(x, v);
  }

  /** The last two octets are the low 16 bits of the accumulator. */
  lemma ValueLow(data: seq<Octet>, i: nat)
    requires i < |data|
    ensures Value(data[..i + 1]) % 256 == data[i]
    ensures i > 0 ==> Value(data[..i + 1]) % 4096 == At(data, i - 1) % 16 * 256 + data[i]
  {
    assert data[..i + 1][..i] == data[..i];
    if i > 0 {
      assert data[..i][..i - 1] == data[..i - 1];
      LowPair(Value(data[..i - 1]), data[i - 1], data[i]);
    }
  }

  lemma LowPair(v: int, a: int, b: int)
    requires 0 <= a < 256 && 0 <= b < 256
    ensures ((v * 256 + a) * 256 + b) % 4096 == a % 16 * 256 + b
  {
    assert a == a / 16 * 16 + a % 16;
    DivModUnique((v * 256 + a) * 256 + b, v * 16 + a / 16, 4096, a % 16 * 256 + b);
  }

  /** The four ways in which a 6-bit value ends inside an octet. */
  lemma SextetPositions(a: int, b: int, c: int)
    requires 0 <= a < 256 && 0 <= b < 256 && 0 <= c < 256
    ensures var n := a * 65536 + b * 256 + c;
            && Sextet(n, 0) == a / 4
            && Sextet(n, 1) == a % 4 * 16 + b / 16
            && Sextet(n, 2) == b % 16 * 4 + c / 64
            && Sextet(n, 3) == c % 64
  {
    HighSextets(a, b, c, a / 4, a % 4, b / 16, b % 16);
    LowSextets(a, b, c, b / 16, b % 16, c / 64, c % 64);
  }

  lemma HighSextets(a: int, b: int, c: int, ah: int, al: int, bh: int, bl: int)
    requires 0 <= al < 4 && 0 <= bh < 16 && 0 <= bl < 16 && 0 <= ah < 64 && 0 <= c < 256
    requires a == ah * 4 + al && b == bh * 16 + bl
    ensures var n := a * 65536 + b * 256 + c; Sextet(n, 0) == ah && Sextet(n, 1) == al * 16 + bh
  {
    var n := a * 65536 + b * 256 + c;
    DivModUnique(n, ah, 262144, al * 65536 + b * 256 + c);
    DivModUnique(ah, 0, 64, ah);
    DivModUnique(n, a * 16 + bh, 4096, bl * 256 + c);
    Mod64(ah, al * 16 + bh);
  }

  lemma LowSextets(a: int, b: int, c: int, bh: int, bl: int, ch: int, cl: int)
    requires 0 <= bl < 16 && 0 <= ch < 4 && 0 <= cl < 64
    requires b == bh * 16 + bl && c == ch * 64 + cl
    ensures var n := a * 65536 + b * 256 + c; Sextet(n, 2) == bl * 4 + ch && Sextet(n, 3) == cl
  {
    DivModUnique(a * 65536 + b * 256 + c, a * 1024 + b * 4 + ch, 64, cl);
    Mod64(a * 16 + bh, bl * 4 + ch);
  }

  lemma TailSextets(v: int, a: int, b: int)
    requires 0 <= a < 256 && 0 <= b < 256 && v % 4096 == a % 16 * 256 + b
    ensures v / 16 % 64 == a % 4 * 16 + b / 16
    ensures v / 64 % 64 == a % 16 * 4 + b / 64
    ensures v % 64 == b % 64
  {
    var q, h := v / 4096, a % 16;
    assert v == q * 4096 + h * 256 + b;
    DivModUnique(v, q * 64 + h * 4 + b / 64, 64, b % 64);
    DivModUnique(v, q * 256 + h * 16 + b / 16, 16, b % 16);
    Mod64(q, h * 4 + b / 64);
    DivModUnique(a, a / 16 * 4 + h / 4, 4, h % 4);
    Mod64(q * 4 + h / 4, h % 4 * 16 + b / 16);
  }

  lemma Mod64(q: int, r: int)
    requires 0 <= r < 64
    ensures (q * 64 + r) % 64 == r
  {
    DivModUnique(q * 64 + r, q, 64, r);
  }

  lemma FirstSextet(v: int, b: int)
    requires 0 <= b < 256 && v % 256 == b
    ensures v / 4 % 64 == b / 4
  {
    DivModUnique(v, v / 256 * 64 + b / 4, 4, b % 4);
    Mod64(v / 256, b / 4);
  }

  /** The 6-bit value emitted while `bits` unread bits follow it is the reference one. */
  lemma EmittedSextet(data: seq<Octet>, i: nat, k: nat, bits: nat)
    requires i < |data| && bits <= 6 && bits + 6 == 8 * (i + 1) - 6 * k
    ensures bits % 2 == 0
    ensures Sar(Value(data[..i + 1]), bits) % 64 == Sextet(Group24(data, k / 4), k % 4)
  {
    var g := k / 4;
    ValueLow(data, i);
    SextetSlot(i, k, bits);
    SlotRead(Value(data[..i + 1]), At(data, 3 * g), At(data, 3 * g + 1), At(data, 3 * g + 2), k % 4, bits);
  }

  /** Reading the accumulator after the octet in which the r-th value of a group ends. */
  lemma SlotRead(v: int, a: int, b: int, c: int, r: nat, bits: nat)
    requires 0 <= a < 256 && 0 <= b < 256 && 0 <= c < 256
    requires (r == 0 && bits == 2 && v % 256 == a)
          || (r == 1 && bits == 4 && v % 4096 == a % 16 * 256 + b)
          || (r == 2 && bits == 6 && v % 4096 == b % 16 * 256 + c)
          || (r == 3 && bits == 0 && v % 4096 == b % 16 * 256 + c)
    ensures Sar(v, bits) % 64 == Sextet(a * 65536 + b * 256 + c, r)
  {
    SextetPositions(a, b, c);
    if r == 0 {
      FirstSextet(v, a);
      SarEven(v);
    } else if r == 1 {
      TailReads(v, a, b);
    } else {
      TailReads(v, b, c);
    }
  }

  lemma TailReads(v: int, a: int, b: int)
    requires 0 <= a < 256 && 0 <= b < 256 && v % 4096 == a % 16 * 256 + b
    ensures Sar(v, 4) % 64 == a % 4 * 16 + b / 16
    ensures Sar(v, 6) % 64 == a % 16 * 4 + b / 64
    ensures Sar(v, 0) % 64 == b % 64
  {
    SarEven(v);
    TailSextets(v, a, b);
  }

  lemma SextetSlot(i: nat, k: nat, bits: nat)
    requires bits <= 6 && bits + 6 == 8 * (i + 1) - 6 * k
    ensures (bits == 2 && k % 4 == 0 && i == 3 * (k / 4))
         || (bits == 4 && k % 4 == 1 && i == 3 * (k / 4) + 1)
         || (bits == 6 && k % 4 == 2 && i == 3 * (k / 4) + 2)
         || (bits == 0 && k % 4 == 3 && i == 3 * (k / 4) + 2)
  {}

  /** The last, zero-filled value: `bits + 6` data bits are left over. */
  lemma FinalSextet(data: seq<Octet>, k: nat, bits: int)
    requires |data| > 0 && -6 < bits < 0 && bits + 6 == 8 * |data| - 6 * k
    ensures bits == -4 || bits == -2
    ensures Sar(Value(data) * 256, bits + 8) % 64 == Sextet(Group24(data, k / 4), k % 4)
    ensures k + 1 == EncodedLength(|data|)
  {
    hide Sar, Sextet, Value;
    var n := |data|;
    ValueLow(data, n - 1);
    assert data[..n] == data;
    var v, g := Value(data), k / 4;
    SarEven(v * 256);
    SextetPositions(At(data, 3 * g), At(data, 3 * g + 1), At(data, 3 * g + 2));
    LastByteSextets(v, data[n - 1]);
    assert (bits == -4 && k % 4 == 1 && n == 3 * g + 1) || (bits == -2 && k % 4 == 2 && n == 3 * g + 2);
  }

  lemma LastByteSextets(v: int, b: int)
    requires v % 256 == b
    ensures v * 256 / 16 % 64 == b % 4 * 16
    ensures v * 256 / 64 % 64 == b % 16 * 4
  {
    var q := v / 256;
    assert v == q * 256 + b;
    DivModUnique(v * 256, v * 16, 16, 0);
    DivModUnique(v * 256, v * 4, 64, 0);
    Mod64(q * 64 + b / 4, b % 4 * 16);
    Mod64(q * 16 + b / 16, b % 16 * 4);
  }

  /** Shifting an octet into the wrapped accumulator shifts it into the unbounded one. */
  lemma ShiftInOctet(x: int, v: int, b: int)
    requires SameWord(x, v) && 0 <= b < 256
    ensures SameWord(Wrap(x * 256) + b, v * 256 + b)
    ensures -0x8000_0000 <= Wrap(x * 256) + b < 0x8000_0000
  {
    var d, w := (x - v) / 0x1_0000_0000, Wrap(x * 256);
    var e := (w - x * 256) / 0x1_0000_0000;
    assert x - v == d * 0x1_0000_0000 && w - x * 256 == e * 0x1_0000_0000;
    IsSameWord(w + b, v * 256 + b, d * 256 + e);
    DivModUnique(w, x + e * 0x100_0000, 256, 0);
  }

  /** `out` is what the reference encoder writes first. */
  ghost predicate IsPrefix(data: seq<Octet>, out: seq<Octet>) {
    && |out| <= EncodedLength(|data|)
    && forall k :: 0 <= k < |out| ==> out[k] == CharAt(data, k)
  }

  lemma WholePrefix(data: seq<Octet>, out: seq<Octet>)
    requires IsPrefix(data, out) && |out| == EncodedLength(|data|)
    ensures out == Encode(data)
  {}

  lemma StreamStep(data: seq<Octet>, i: nat, out: seq<Octet>, val: int, bits: nat)
    requires i < |data| && bits <= 6 && bits + 6 == 8 * (i + 1) - 6 * |out|
    requires SameWord(val, Value(data[..i + 1])) && IsPrefix(data, out)
    ensures AndInt(Sar(val, bits), 0x3F) < 64
    ensures IsPrefix(data, out + [AlphaAt(AndInt(Sar(val, bits), 0x3F))])
  {
    hide Sar, AndInt, Sextet, Group24, Value, SameWord, AlphaAt, EncodedLength;
    EmittedSextet(data, i, |out|, bits);
    SextetReadRefines(val, Value(data[..i + 1]), bits);
    RoomLeft(|data|, i, |out|);
  }

  lemma RoomLeft(n: nat, i: nat, k: nat)
    requires i < n && 6 <= 8 * (i + 1) - 6 * k
    ensures k < EncodedLength(n)
  {}

  lemma StreamEnd(data: seq<Octet>, out: seq<Octet>, val: int, bits: int)
    requires -6 < bits < 0 && bits + 6 == 8 * |data| - 6 * |out|
    requires SameWord(val, Value(data)) && IsPrefix(data, out)
    ensures bits + 8 >= 0 && AndInt(Sar(Wrap(val * 256), bits + 8), 0x3F) < 64
    ensures out + [AlphaAt(AndInt(Sar(Wrap(val * 256), bits + 8), 0x3F))] == Encode(data)
  {
    hide Sar, AndInt, Sextet, Group24, Value, SameWord, Wrap, AlphaAt, EncodedLength;
    ShiftInOctet(val, Value(data), 0);
    FinalSextet(data, |out|, bits);
    SextetReadRefines(Wrap(val * 256), Value(data) * 256, bits + 8);
    WholePrefix(data, out + [AlphaAt(AndInt(Sar(Wrap(val * 256), bits + 8), 0x3F))]);
  }

  /** `base64url_encode_impl` of the signer: a running 32-bit accumulator. */
  method EncodeStreaming(data: seq<Octet>) returns (out: seq<Octet>)
    ensures out == Encode(data)
  {
    out := [];
    var val, bits := 0, -6;
    for i := 0 to |data|
      invariant SameWord(val, Value(data[..i]))
      invariant -6 <= bits < 0 && bits + 6 == 8 * i - 6 * |out|
      invariant IsPrefix(data, out)
    {
      ShiftInOctet(val, Value(data[..i]), data[i]);
      assert data[..i + 1][..i] == data[..i];
      val := Wrap(val * 256) + data[i];
      bits := bits + 8;
      while bits >= 0
        invariant -6 <= bits <= 6 && bits + 6 == 8 * (i + 1) - 6 * |out|
        invariant IsPrefix(data, out)
      {
        StreamStep(data, i, out, val, bits);
        out := out + [AlphaAt(AndInt(Sar(val, bits), 0x3F))];
        bits := bits - 6;
      }
    }
    assert data[..|data|] == data;
    if bits > -6 {
      StreamEnd(data, out, val, bits);
      out := out + [AlphaAt(AndInt(Sar(Wrap(val * 256), bits + 8), 0x3F))];
    } else {
      WholePrefix(data, out);
    }
  }

  /** `SecureRandom::base64url_encode`: three octets at a time. */
  method EncodeBlocks(data: seq<Octet>) returns (out: seq<Octet>)
    ensures out == Encode(data)
  {
    out := [];
    var i := 0;
    ghost var g := 0;
    while i < |data|
      invariant i == 3 * g
      invariant |out| == (if i <= |data| then 4 * g else EncodedLength(|data|))
      invariant IsPrefix(data, out)
    {
      var b0 := data[i];
      var b1 := if i + 1 < |data| then data[i + 1] else 0;
      var b2 := if i + 2 < |data| then data[i + 2] else 0;
      BlockLengths(|data|, g);
      BlockStep(data, g, out, 0, b0, b1, b2);
      out := out + [AlphaAt(Cut(b0, b1, b2, 0))];
      BlockStep(data, g, out, 1, b0, b1, b2);
      out := out + [AlphaAt(Cut(b0, b1, b2, 1))];
      if i + 1 < |data| {
        BlockStep(data, g, out, 2, b0, b1, b2);
        out := out + [AlphaAt(Cut(b0, b1, b2, 2))];
      }
      if i + 2 < |data| {
        BlockStep(data, g, out, 3, b0, b1, b2);
        out := out + [AlphaAt(Cut(b0, b1, b2, 3))];
      }
      i, g := i + 3, g + 1;
    }
    assert i == |data| ==> EncodedLength(|data|) == 4 * g;
    WholePrefix(data, out);
  }

  lemma BlockLengths(n: nat, g: nat)
    requires 3 * g < n
    ensures 4 * g + 1 < EncodedLength(n)
    ensures 3 * g + 1 == n ==> EncodedLength(n) == 4 * g + 2
    ensures 3 * g + 2 == n ==> EncodedLength(n) == 4 * g + 3
    ensures 3 * g + 3 <= n ==> 4 * g + 3 < EncodedLength(n)
  {}

  lemma CharInGroup(data: seq<Octet>, g: nat, r: nat)
    requires r < 4
    ensures CharAt(data, 4 * g + r) == AlphaAt(Sextet(Group24(data, g), r))
  {
    assert (4 * g + r) / 4 == g && (4 * g + r) % 4 == r;
  }

  /** The 6-bit values that the block encoder's masks cut out of three octets. */
  function Cut(b0: Octet, b1: Octet, b2: Octet, r: nat): nat {
    if r == 0 then And(b0 / 4, 0x3F)
    else if r == 1 then Or(And(b0, 0x03) * 16, b1 / 16)
    else if r == 2 then Or(And(b1, 0x0F) * 4, b2 / 64)
    else And(b2, 0x3F)
  }

  lemma CutIsSextet(b0: Octet, b1: Octet, b2: Octet, r: nat)
    requires r < 4
    ensures Cut(b0, b1, b2, r) == Sextet(b0 * 65536 + b1 * 256 + b2, r)
  {
    hide And, Or, Sextet;
    SextetPositions(b0, b1, b2);
    if r == 0 {
      AndLiterals(b0 / 4);
      DivModUnique(b0 / 4, 0, 64, b0 / 4);
    } else if r == 1 {
      AndLiterals(b0);
      OrLiterals(b0 % 4, b1 / 16);
    } else if r == 2 {
      AndLiterals(b1);
      OrLiterals(b1 % 16, b2 / 64);
    } else {
      AndLiterals(b2);
    }
  }

  /** One more character of the block that starts at octet 3 * g. */
  lemma BlockStep(data: seq<Octet>, g: nat, out: seq<Octet>, r: nat, b0: Octet, b1: Octet, b2: Octet)
    requires IsPrefix(data, out) && |out| == 4 * g + r < EncodedLength(|data|) && r < 4
    requires b0 == At(data, 3 * g) && b1 == At(data, 3 * g + 1) && b2 == At(data, 3 * g + 2)
    ensures Cut(b0, b1, b2, r) < 64 && IsPrefix(data, out + [AlphaAt(Cut(b0, b1, b2, r))])
  {
    CutIsSextet(b0, b1, b2, r);
    CharInGroup(data, g, r);
  }

  // ----- the decoder -----

  /** `x | y` on an `int` with a non-negative right operand. */
  function OrInt(x: int, y: nat): int {
    Wrap(Or(x % 0x1_0000_0000, y))
  }

  /** The decoder's accumulator without a width limit. */
  function ValueOf(vs: seq<int>): int {
    if vs == [] then 0 else ValueOf(vs[..|vs| - 1]) * 64 + vs[|vs| - 1]
  }

  ghost predicate AreSextets(vs: seq<int>) {
    forall k :: 0 <= k < |vs| ==> 0 <= vs[k] < 64
  }

  /** Shifting a 6-bit value into the wrapped accumulator shifts it into the unbounded one. */
  lemma ShiftInSextet(x: int, v: int, s: int)
    requires SameWord(x, v) && 0 <= s < 64
    ensures SameWord(OrInt(Wrap(x * 64), s), v * 64 + s)
  {
    var w := Wrap(x * 64);
    var u := w % 0x1_0000_0000;
    SameScaled(x, v);
    SameTrans(w, x * 64, v * 64);
    SameTrans(u, w, v * 64);
    WordMultiple(w, x);
    ShiftedWord(u, u / 64, s);
    SameTrans(Wrap(u + s), u + s, v * 64 + s);
  }

  lemma SameTrans(a: int, b: int, c: int)
    requires SameWord(a, b) && SameWord(b, c)
    ensures SameWord(a, c)
  {
    var d, e := (a - b) / 0x1_0000_0000, (b - c) / 0x1_0000_0000;
    assert a - b == d * 0x1_0000_0000 && b - c == e * 0x1_0000_0000;
    IsSameWord(a, c, d + e);
  }

  lemma SameScaled(x: int, v: int)
    requires SameWord(x, v)
    ensures SameWord(x * 64, v * 64)
  {
    var d := (x - v) / 0x1_0000_0000;
    assert x - v == d * 0x1_0000_0000;
    IsSameWord(x * 64, v * 64, d * 64);
  }

  lemma WordMultiple(w: int, x: int)
    requires SameWord(w, x * 64)
    ensures w % 0x1_0000_0000 == w % 0x1_0000_0000 / 64 * 64
  {
    var e, f := (w - x * 64) / 0x1_0000_0000, w / 0x1_0000_0000;
    assert w % 0x1_0000_0000 == (x + (e - f) * 0x400_0000) * 64;
  }

  lemma ShiftedWord(u: nat, q: int, s: nat)
    requires u == q * 64 && s < 64
    ensures Or(u, s) == u + s
  {
    OrLiterals(q, s);
  }

  lemma ValueOfLow(vs: seq<int>)
    requires AreSextets(vs) && |vs| > 1
    ensures exists q: int :: ValueOf(vs) == q * 4096 + vs[|vs| - 2] * 64 + vs[|vs| - 1]
  {
    var init := vs[..|vs| - 1];
    var q := ValueOf(init[..|init| - 1]);
    assert ValueOf(vs) == q * 4096 + vs[|vs| - 2] * 64 + vs[|vs| - 1];
  }

  /** The three ways in which an octet ends inside a 6-bit value. */
  lemma OctetPositions(q: int, a: int, b: int)
    requires 0 <= a < 64 && 0 <= b < 64
    ensures var v := q * 4096 + a * 64 + b;
            && v / 16 % 256 == a * 4 + b / 16
            && v / 4 % 256 == a % 16 * 16 + b / 4
            && v % 256 == a % 4 * 64 + b
  {
    OctetAt16(q, a, b);
    OctetAt4(q, a, b);
    DivModUnique(q * 4096 + a * 64 + b, q * 16 + a / 4, 256, a % 4 * 64 + b);
  }

  lemma OctetAt16(q: int, a: int, b: int)
    requires 0 <= a < 64 && 0 <= b < 64
    ensures (q * 4096 + a * 64 + b) / 16 % 256 == a * 4 + b / 16
  {
    DivModUnique(q * 4096 + a * 64 + b, q * 256 + a * 4 + b / 16, 16, b % 16);
    DivModUnique(q * 256 + a * 4 + b / 16, q, 256, a * 4 + b / 16);
  }

  lemma OctetAt4(q: int, a: int, b: int)
    requires 0 <= a < 64 && 0 <= b < 64
    ensures (q * 4096 + a * 64 + b) / 4 % 256 == a % 16 * 16 + b / 4
  {
    DivModUnique(q * 4096 + a * 64 + b, q * 1024 + a * 16 + b / 4, 4, b % 4);
    DivModUnique(q * 1024 + a * 16 + b / 4, q * 4 + a / 16, 256, a % 16 * 16 + b / 4);
  }

  lemma GroupOctets(a: int, b: int, c: int, d: int)
    requires 0 <= a < 64 && 0 <= b < 64 && 0 <= c < 64 && 0 <= d < 64
    ensures var n := a * 262144 + b * 4096 + c * 64 + d;
            && OctetOf(n, 0) == a * 4 + b / 16
            && OctetOf(n, 1) == b % 16 * 16 + c / 4
            && OctetOf(n, 2) == c % 4 * 64 + d
  {
    var n := a * 262144 + b * 4096 + c * 64 + d;
    DivModUnique(n, a * 4 + b / 16, 65536, b % 16 * 4096 + c * 64 + d);
    DivModUnique(n, a * 1024 + b * 16 + c / 4, 256, c % 4 * 64 + d);
    DivModUnique(a * 1024 + b * 16 + c / 4, a * 4 + b / 16, 256, b % 16 * 16 + c / 4);
  }

  /** The octet written when `bits` unread bits are left is the reference one. */
  lemma EmittedOctet(vs: seq<int>, j: nat, bits: nat)
    requires AreSextets(vs) && bits < 6 && bits + 8 == 6 * |vs| - 8 * j
    ensures bits == 0 || bits == 2 || bits == 4
    ensures Sar(ValueOf(vs), bits) % 256 == OctetOf(Group24Of(vs, j / 3), j % 3)
  {
    ValueOfLow(vs);
    var n, g := |vs|, j / 3;
    var q :| ValueOf(vs) == q * 4096 + vs[n - 2] * 64 + vs[n - 1];
    OctetSlot(n, j, bits);
    OctetSlotRead(ValueOf(vs), q, At(vs, 4 * g), At(vs, 4 * g + 1), At(vs, 4 * g + 2), At(vs, 4 * g + 3), j % 3, bits);
  }

  /** Reading the accumulator after the value in which the r-th octet of a group ends. */
  lemma OctetSlotRead(v: int, q: int, a: int, b: int, c: int, d: int, r: nat, bits: nat)
    requires 0 <= a < 64 && 0 <= b < 64 && 0 <= c < 64 && 0 <= d < 64
    requires (r == 0 && bits == 4 && v == q * 4096 + a * 64 + b)
          || (r == 1 && bits == 2 && v == q * 4096 + b * 64 + c)
          || (r == 2 && bits == 0 && v == q * 4096 + c * 64 + d)
    ensures Sar(v, bits) % 256 == OctetOf(a * 262144 + b * 4096 + c * 64 + d, r)
  {
    hide Sar, OctetOf;
    GroupOctets(a, b, c, d);
    SarEven(v);
    if r == 0 {
      OctetPositions(q, a, b);
    } else if r == 1 {
      OctetPositions(q, b, c);
    } else {
      OctetPositions(q, c, d);
      assert Sar(v, 0) == v by { SarZero(v); }
    }
  }

  lemma SarZero(v: int)
    ensures Sar(v, 0) == v
  {}

  lemma OctetSlot(n: nat, j: nat, bits: nat)
    requires bits < 6 && bits + 8 == 6 * n - 8 * j
    ensures (bits == 4 && j % 3 == 0 && n == 4 * (j / 3) + 2)
         || (bits == 2 && j % 3 == 1 && n == 4 * (j / 3) + 3)
         || (bits == 0 && j % 3 == 2 && n == 4 * (j / 3) + 4)
  {}

  /** An octet that is complete does not depend on later values. */
  lemma GroupExtends(vs: seq<int>, v: int, j: nat)
    requires AreSextets(vs) && 0 <= v < 64 && j < |vs| * 3 / 4
    ensures OctetOf(Group24Of(vs, j / 3), j % 3) == OctetOf(Group24Of(vs + [v], j / 3), j % 3)
  {
    hide OctetOf;
    var g, ws := j / 3, vs + [v];
    GroupOctets(At(vs, 4 * g), At(vs, 4 * g + 1), At(vs, 4 * g + 2), At(vs, 4 * g + 3));
    GroupOctets(At(ws, 4 * g), At(ws, 4 * g + 1), At(ws, 4 * g + 2), At(ws, 4 * g + 3));
    assert j % 3 == 0 ==> 4 * g + 1 < |vs|;
    assert j % 3 == 1 ==> 4 * g + 2 < |vs|;
    assert j % 3 == 2 ==> 4 * g + 3 < |vs|;
  }

  /** One more value adds one octet, or none when fewer than eight bits are available. */
  lemma DecodeStep(vs: seq<int>, v: int, buf: int, bits: nat)
    requires AreSextets(vs) && 0 <= v < 64 && SameWord(buf, ValueOf(vs + [v]))
    requires bits == 6 * (|vs| + 1) - 8 * (|vs| * 3 / 4)
    ensures bits < 8 ==> DecodeValues(vs + [v]) == DecodeValues(vs)
    ensures bits >= 8 ==> DecodeValues(vs + [v]) == DecodeValues(vs) + [AndInt(Sar(buf, bits - 8), 0xFF)]
  {
    hide Sar, AndInt, OctetOf, Group24Of, ValueOf, SameWord;
    var ws := vs + [v];
    forall j | 0 <= j < |vs| * 3 / 4
      ensures DecodeValues(ws)[j] == DecodeValues(vs)[j]
    {
      GroupExtends(vs, v, j);
    }
    if bits >= 8 {
      EmittedOctet(ws, |vs| * 3 / 4, bits - 8);
      OctetReadRefines(buf, ValueOf(ws), bits - 8);
    }
  }

  lemma ValuesSnoc(text: seq<Octet>, i: nat)
    requires i < |text|
    ensures var v := DecodeChar(text[i]);
            Values(text[..i + 1]) == if v < 0 then Values(text[..i]) else Values(text[..i]) + [v]
  {
    assert text[..i + 1][..i] == text[..i];
  }

  lemma InitialWord()
    ensures SameWord(0, ValueOf([]))
  {}

  lemma ValueOfSnoc(vs: seq<int>, v: int)
    ensures ValueOf(vs + [v]) == ValueOf(vs) * 64 + v
  {
    assert (vs + [v])[..|vs|] == vs;
  }

  /** `base64url_decode`: skips what does not decode and drops an incomplete last octet. */
  method DecodeStreaming(text: seq<Octet>) returns (out: seq<Octet>)
    ensures out == Decode(text)
  {
    hide Sar, OrInt, AndInt, Wrap, ValueOf, SameWord, Values, DecodeValues, Group24Of, OctetOf;
    out := [];
    var buf, bits := 0, 0;
    InitialWord();
    for i := 0 to |text|
      invariant SameWord(buf, ValueOf(Values(text[..i])))
      invariant bits == 6 * |Values(text[..i])| - 8 * |out| && 0 <= bits < 8
      invariant out == DecodeValues(Values(text[..i]))
    {
      ghost var vs := Values(text[..i]);
      ValuesSnoc(text, i);
      var val := DecodeChar(text[i]);
      if val < 0 {
        continue;
      }
      ValueOfSnoc(vs, val);
      ShiftInSextet(buf, ValueOf(vs), val);
      buf := OrInt(Wrap(buf * 64), val);
      bits := bits + 6;
      DecodeStep(vs, val, buf, bits);
      if bits >= 8 {
        bits := bits - 8;
        out := out + [AndInt(Sar(buf, bits), 0xFF)];
      }
    }
    assert text[..|text|] == text;
  }

  // ----- round trip -----

  /** Text within the URL-safe alphabet decodes character by character. */
  lemma {:induction false} ValuesOfSafeText(text: seq<Octet>)
    requires forall k :: 0 <= k < |text| ==> IsUrlSafe(text[k])
    ensures |Values(text)| == |text|
    ensures forall k :: 0 <= k < |text| ==> Values(text)[k] == DecodeChar(text[k])
  {
    if text != [] {
      ValuesOfSafeText(text[..|text| - 1]);
    }
  }

  lemma DecodeAlpha(i: nat)
    requires i < 64
    ensures DecodeChar(AlphaAt(i)) == i
  {}

  lemma EncodedValues(data: seq<Octet>)
    ensures |Values(Encode(data))| == EncodedLength(|data|)
    ensures forall k :: 0 <= k < EncodedLength(|data|) ==> Values(Encode(data))[k] == Sextet(Group24(data, k / 4), k % 4)
  {
    ValuesOfSafeText(Encode(data));
    forall k | 0 <= k < EncodedLength(|data|)
      ensures DecodeChar(Encode(data)[k]) == Sextet(Group24(data, k / 4), k % 4)
    {
      DecodeAlpha(Sextet(Group24(data, k / 4), k % 4));
    }
  }

  /** A value that was not written holds fill bits only. */
  lemma EncodedValueAt(data: seq<Octet>, g: nat, r: nat)
    requires 3 * g < |data| && r < 4
    ensures At(Values(Encode(data)), 4 * g + r) == Sextet(Group24(data, g), r)
  {
    hide Values, Encode, Sextet, Group24;
    var k := 4 * g + r;
    EncodedValues(data);
    DivModUnique(k, g, 4, r);
    if k >= EncodedLength(|data|) {
      BlockLengths(|data|, g);
      UnwrittenSextet(data, g, r);
    }
  }

  lemma UnwrittenSextet(data: seq<Octet>, g: nat, r: nat)
    requires (3 * g + 1 == |data| && 2 <= r <= 3) || (3 * g + 2 == |data| && r == 3)
    ensures Sextet(Group24(data, g), r) == 0
  {
    hide Sextet;
    SextetPositions(At(data, 3 * g), At(data, 3 * g + 1), At(data, 3 * g + 2));
  }

  lemma SextetsRebuild(n: int)
    requires 0 <= n < 16777216
    ensures Sextet(n, 0) * 262144 + Sextet(n, 1) * 4096 + Sextet(n, 2) * 64 + Sextet(n, 3) == n
  {
    var n1 := n / 64;
    var n2 := n1 / 64;
    var n3 := n2 / 64;
    DivModUnique(n, n2, 4096, n1 % 64 * 64 + n % 64);
    DivModUnique(n, n3, 262144, n2 % 64 * 4096 + n1 % 64 * 64 + n % 64);
  }

  lemma OctetsOfGroup(a: int, b: int, c: int)
    requires 0 <= a < 256 && 0 <= b < 256 && 0 <= c < 256
    ensures var n := a * 65536 + b * 256 + c; OctetOf(n, 0) == a && OctetOf(n, 1) == b && OctetOf(n, 2) == c
  {
    var n := a * 65536 + b * 256 + c;
    DivModUnique(n, a, 65536, b * 256 + c);
    DivModUnique(n, a * 256 + b, 256, c);
    DivModUnique(a * 256 + b, a, 256, b);
  }

  lemma GroupBound(data: seq<Octet>, g: nat)
    ensures 0 <= Group24(data, g) < 16777216
  {}

  lemma GroupSurvives(data: seq<Octet>, g: nat)
    requires 3 * g < |data|
    ensures Group24Of(Values(Encode(data)), g) == Group24(data, g)
  {
    hide Sextet, Values, Encode, At;
    GroupBound(data, g);
    EncodedValueAt(data, g, 0);
    EncodedValueAt(data, g, 1);
    EncodedValueAt(data, g, 2);
    EncodedValueAt(data, g, 3);
    SextetsRebuild(Group24(data, g));
  }

  lemma OctetSurvives(data: seq<Octet>, j: nat)
    requires j < |data|
    ensures OctetOf(Group24Of(Values(Encode(data)), j / 3), j % 3) == data[j]
  {
    hide OctetOf, Values, Encode, Group24Of;
    var g := j / 3;
    GroupSurvives(data, g);
    OctetsOfGroup(At(data, 3 * g), At(data, 3 * g + 1), At(data, 3 * g + 2));
    assert j == 3 * g + j % 3;
  }

  /** Decoding an encoding gives back the octets, for every octet string. */
  lemma RoundTrip(data: seq<Octet>)
    ensures Decode(Encode(data)) == data
  {
    EncodedValues(data);
    assert EncodedLength(|data|) * 3 / 4 == |data|;
    forall j | 0 <= j < |data|
      ensures Decode(Encode(data))[j] == data[j]
    {
      OctetSurvives(data, j);
    }
  }

  lemma {:induction false} ValuesConcat(s: seq<Octet>, t: seq<Octet>)
    ensures Values(s + t) == Values(s) + Values(t)
  {
    if t == [] {
      assert s + t == s;
    } else {
      var n := |t| - 1;
      hide DecodeChar;
      assert (s + t)[..|s| + n] == s + t[..n];
      ValuesConcat(s, t[..n]);
    }
  }

  /** Characters outside the two base64 alphabets, padding and line breaks among them, are as good as absent. */
  lemma OthersIgnored(s: seq<Octet>, c: Octet, t: seq<Octet>)
    requires DecodeChar(c) < 0
    ensures Decode(s + [c] + t) == Decode(s + t)
  {
    hide DecodeValues;
    assert [c][..0] == [] && Values([c]) == [];
    hide Values, DecodeChar;
    ValuesConcat(s, [c]);
    ValuesConcat(s + [c], t);
    ValuesConcat(s, t);
    assert Values(s + [c] + t) == Values(s) + [] + Values(t) == Values(s + t);
  }

  /** Text in the standard alphabet decodes as its URL-safe form does. */
  function UrlSafe(text: seq<Octet>): (r: seq<Octet>)
    ensures |r| == |text|
  {
    seq(|text|, i requires 0 <= i < |text| =>
      if text[i] == '+' as int then '-' as int else if text[i] == '/' as int then '_' as int else text[i])
  }

  lemma {:induction false} UrlSafeValues(text: seq<Octet>)
    ensures Values(UrlSafe(text)) == Values(text)
  {
    if text != [] {
      var n := |text| - 1;
      assert UrlSafe(text)[..n] == UrlSafe(text[..n]);
      UrlSafeValues(text[..n]);
    }
  }

  lemma StandardAlphabetToo(text: seq<Octet>)
    ensures Decode(UrlSafe(text)) == Decode(text)
  {
    hide Values, DecodeValues;
    UrlSafeValues(text);
  }

  /** Hence no two octet strings share an encoding. */
  lemma EncodeInjective(a: seq<Octet>, b: seq<Octet>)
    requires Encode(a) == Encode(b)
    ensures a == b
  {
    RoundTrip(a);
    RoundTrip(b);
  }

  // ----- one number in two bases -----

  /** The bits that the encoder fills in behind n octets, as a factor. */
  function Filled(n: nat): nat {
    if n % 3 == 0 then 1 else if n % 3 == 1 then 16 else 4
  }

  /** The bits that the decoder leaves behind n characters, as a factor. */
  function LeftOver(n: nat): nat {
    if n % 4 == 0 then 1 else if n % 4 == 1 then 64 else if n % 4 == 2 then 16 else 4
  }

  lemma ValueNext(data: seq<Octet>, i: nat)
    requires i < |data|
    ensures Value(data[..i + 1]) == Value(data[..i]) * 256 + data[i]
  {
    assert data[..i + 1][..i] == data[..i];
  }

  lemma ValueOfNext(vs: seq<int>, i: nat)
    requires i < |vs|
    ensures ValueOf(vs[..i + 1]) == ValueOf(vs[..i]) * 64 + vs[i]
  {
    assert vs[..i + 1][..i] == vs[..i];
  }

  lemma ThreeOctets(data: seq<Octet>, i: nat)
    requires i + 3 <= |data|
    ensures Value(data[..i + 3]) == Value(data[..i]) * 16777216 + At(data, i) * 65536 + At(data, i + 1) * 256 + At(data, i + 2)
  {
    hide Value;
    ValueNext(data, i);
    ValueNext(data, i + 1);
    ValueNext(data, i + 2);
  }

  lemma FourValues(vs: seq<int>, i: nat)
    requires i + 4 <= |vs|
    ensures ValueOf(vs[..i + 4]) == ValueOf(vs[..i]) * 16777216 + vs[i] * 262144 + vs[i + 1] * 4096 + vs[i + 2] * 64 + vs[i + 3]
  {
    hide ValueOf;
    ValueOfNext(vs, i);
    ValueOfNext(vs, i + 1);
    ValueOfNext(vs, i + 2);
    ValueOfNext(vs, i + 3);
  }

  /** g whole groups on either side, the characters belonging to the octets group by group. */
  ghost predicate Groupwise(data: seq<Octet>, vs: seq<int>, g: nat) {
    && 3 * g <= |data| && 4 * g <= |vs|
    && forall j :: 0 <= j < g ==> SameGroup(data, vs, j)
  }

  ghost predicate SameGroup(data: seq<Octet>, vs: seq<int>, j: nat)
    requires 3 * j + 3 <= |data| && 4 * j + 4 <= |vs|
  {
    At(data, 3 * j) * 65536 + At(data, 3 * j + 1) * 256 + At(data, 3 * j + 2)
    == vs[4 * j] * 262144 + vs[4 * j + 1] * 4096 + vs[4 * j + 2] * 64 + vs[4 * j + 3]
  }

  lemma {:induction false} SameNumber(data: seq<Octet>, vs: seq<int>, g: nat)
    requires Groupwise(data, vs, g)
    ensures Value(data[..3 * g]) == ValueOf(vs[..4 * g])
  {
    if g > 0 {
      hide Value, ValueOf;
      SameNumber(data, vs, g - 1);
      assert SameGroup(data, vs, g - 1);
      ThreeOctets(data, 3 * (g - 1));
      FourValues(vs, 4 * (g - 1));
    } else {
      assert data[..0] == [] && vs[..0] == [];
    }
  }

  lemma EncodedGroup(data: seq<Octet>, j: nat)
    requires 3 * j + 3 <= |data|
    ensures 4 * j + 4 <= |Values(Encode(data))| && SameGroup(data, Values(Encode(data)), j)
  {
    hide Values, Encode, Sextet;
    EncodedValues(data);
    BlockLengths(|data|, j);
    GroupSurvives(data, j);
  }

  /** The last, incomplete group on either side when octets are encoded. */
  ghost predicate EncodedRest(data: seq<Octet>, vs: seq<int>, g: nat) {
    && (|data| == 3 * g ==> |vs| == 4 * g)
    && (|data| == 3 * g + 1 ==>
          && |vs| == 4 * g + 2
          && At(vs, 4 * g) * 64 + At(vs, 4 * g + 1) == At(data, 3 * g) * 16)
    && (|data| == 3 * g + 2 ==>
          && |vs| == 4 * g + 3
          && At(vs, 4 * g) * 4096 + At(vs, 4 * g + 1) * 64 + At(vs, 4 * g + 2)
             == (At(data, 3 * g) * 256 + At(data, 3 * g + 1)) * 4)
  }

  lemma EncodedTail(data: seq<Octet>, g: nat)
    requires g == |data| / 3
    ensures EncodedRest(data, Values(Encode(data)), g)
  {
    hide Values, Encode, Sextet, Group24;
    EncodedValues(data);
    if |data| > 3 * g {
      BlockLengths(|data|, g);
      TailSextetsOf(data, g);
      EncodedValueAt(data, g, 0);
      EncodedValueAt(data, g, 1);
      EncodedValueAt(data, g, 2);
    }
  }

  lemma TailSextetsOf(data: seq<Octet>, g: nat)
    requires 3 * g < |data| < 3 * g + 3
    ensures var n := Group24(data, g);
            && (|data| == 3 * g + 1 ==> Sextet(n, 0) * 64 + Sextet(n, 1) == At(data, 3 * g) * 16)
            && (|data| == 3 * g + 2 ==>
                  Sextet(n, 0) * 4096 + Sextet(n, 1) * 64 + Sextet(n, 2) == (At(data, 3 * g) * 256 + At(data, 3 * g + 1)) * 4)
  {
    hide Sextet;
    SextetPositions(At(data, 3 * g), At(data, 3 * g + 1), At(data, 3 * g + 2));
  }

  /** The encoding is the octets' number, moved up by the fill bits, in base 64. */
  lemma EncodingSpellsNumber(data: seq<Octet>)
    ensures ValueOf(Values(Encode(data))) == Value(data) * Filled(|data|)
  {
    hide Value, ValueOf, Values, Encode;
    var g, vs := |data| / 3, Values(Encode(data));
    forall j | 0 <= j < g
      ensures 4 * j + 4 <= |vs| && SameGroup(data, vs, j)
    {
      EncodedGroup(data, j);
    }
    EncodedTail(data, g);
    SameNumber(data, vs, g);
    EncodingTailNumber(data, vs, g);
  }

  lemma EncodingTailNumber(data: seq<Octet>, vs: seq<int>, g: nat)
    requires g == |data| / 3 && 4 * g <= |vs| && Value(data[..3 * g]) == ValueOf(vs[..4 * g])
    requires EncodedRest(data, vs, g)
    ensures ValueOf(vs) == Value(data) * Filled(|data|)
  {
    hide Value, ValueOf;
    assert data[..|data|] == data && vs[..|vs|] == vs;
    if |data| > 3 * g {
      ValueNext(data, 3 * g);
      ValueOfNext(vs, 4 * g);
      ValueOfNext(vs, 4 * g + 1);
    }
    if |data| > 3 * g + 1 {
      ValueNext(data, 3 * g + 1);
      ValueOfNext(vs, 4 * g + 2);
    }
  }

  lemma OctetsRebuild(n: int)
    requires 0 <= n < 16777216
    ensures OctetOf(n, 0) * 65536 + OctetOf(n, 1) * 256 + OctetOf(n, 2) == n
  {
    var n1 := n / 256;
    DivModUnique(n, n1 / 256, 65536, n1 % 256 * 256 + n % 256);
    DivModUnique(n1 / 256, 0, 256, n1 / 256);
  }

  lemma DecodedAt(vs: seq<int>, j: nat)
    requires j < |vs| * 3 / 4
    ensures DecodeValues(vs)[j] == OctetOf(Group24Of(vs, j / 3), j % 3)
  {}

  lemma DecodedGroup(vs: seq<int>, j: nat)
    requires AreSextets(vs) && 4 * j + 4 <= |vs|
    ensures 3 * j + 3 <= |DecodeValues(vs)| && SameGroup(DecodeValues(vs), vs, j)
  {
    hide DecodeValues, OctetOf;
    DivModUnique(3 * j, j, 3, 0);
    DivModUnique(3 * j + 1, j, 3, 1);
    DivModUnique(3 * j + 2, j, 3, 2);
    DecodedAt(vs, 3 * j);
    DecodedAt(vs, 3 * j + 1);
    DecodedAt(vs, 3 * j + 2);
    OctetsRebuild(Group24Of(vs, j));
  }

  /** The last, incomplete group on either side when values are decoded. */
  ghost predicate DecodedRest(out: seq<Octet>, vs: seq<int>, g: nat) {
    && (|vs| <= 4 * g + 1 ==> |out| == 3 * g)
    && (|vs| == 4 * g + 2 ==>
          && |out| == 3 * g + 1
          && At(out, 3 * g) == At(vs, 4 * g) * 4 + At(vs, 4 * g + 1) / 16)
    && (|vs| == 4 * g + 3 ==>
          && |out| == 3 * g + 2
          && At(out, 3 * g) * 256 + At(out, 3 * g + 1)
             == At(vs, 4 * g) * 1024 + At(vs, 4 * g + 1) * 16 + At(vs, 4 * g + 2) / 4)
  }

  lemma DecodedTail(vs: seq<int>, g: nat)
    requires AreSextets(vs) && g == |vs| / 4
    ensures DecodedRest(DecodeValues(vs), vs, g)
  {
    hide DecodeValues, OctetOf;
    if |vs| > 4 * g + 1 {
      DivModUnique(3 * g, g, 3, 0);
      DivModUnique(3 * g + 1, g, 3, 1);
      DecodedAt(vs, 3 * g);
      GroupOctets(At(vs, 4 * g), At(vs, 4 * g + 1), At(vs, 4 * g + 2), At(vs, 4 * g + 3));
      if |vs| > 4 * g + 2 {
        DecodedAt(vs, 3 * g + 1);
      }
    }
  }

  lemma ValuesAreSextets(text: seq<Octet>)
    ensures AreSextets(Values(text))
  {}

  /** The decoding of any text is the number its characters spell in base 64, without the bits of an incomplete octet. */
  lemma DecodingSpellsNumber(text: seq<Octet>)
    ensures Value(Decode(text)) == ValueOf(Values(text)) / LeftOver(|Values(text)|)
  {
    ValuesAreSextets(text);
    hide Value, ValueOf, Values, DecodeValues;
    var vs := Values(text);
    var g, out := |vs| / 4, DecodeValues(vs);
    forall j | 0 <= j < g
      ensures 3 * j + 3 <= |out| && SameGroup(out, vs, j)
    {
      DecodedGroup(vs, j);
    }
    DecodedTail(vs, g);
    SameNumber(out, vs, g);
    DecodingTailNumber(out, vs, g);
  }

  lemma DecodingTailNumber(out: seq<Octet>, vs: seq<int>, g: nat)
    requires AreSextets(vs) && g == |vs| / 4 && 3 * g <= |out| && Value(out[..3 * g]) == ValueOf(vs[..4 * g])
    requires DecodedRest(out, vs, g)
    ensures Value(out) == ValueOf(vs) / LeftOver(|vs|)
  {
    hide Value, ValueOf, LeftOver, AreSextets;
    assert out[..|out|] == out && vs[..|vs|] == vs;
    LeftOverIs(|vs|, g, |vs| - 4 * g);
    var v := Value(out[..3 * g]);
    if |vs| == 4 * g + 1 {
      ValueOfNext(vs, 4 * g);
      OneLeft(v, vs[4 * g], vs);
    } else if |vs| == 4 * g + 2 {
      ValueNext(out, 3 * g);
      TwoValues(vs, 4 * g);
      TwoLeft(v, vs[4 * g], vs[4 * g + 1]);
    } else if |vs| == 4 * g + 3 {
      ValueNext(out, 3 * g);
      ValueNext(out, 3 * g + 1);
      TwoValues(vs, 4 * g);
      ValueOfNext(vs, 4 * g + 2);
      ThreeLeft(v, vs[4 * g], vs[4 * g + 1], vs[4 * g + 2]);
    }
  }

  lemma LeftOverIs(n: nat, g: nat, r: nat)
    requires n == 4 * g + r && r < 4
    ensures LeftOver(n) == if r == 0 then 1 else if r == 1 then 64 else if r == 2 then 16 else 4
  {
    DivModUnique(n, g, 4, r);
  }

  lemma TwoValues(vs: seq<int>, i: nat)
    requires i + 2 <= |vs|
    ensures ValueOf(vs[..i + 2]) == (ValueOf(vs[..i]) * 64 + vs[i]) * 64 + vs[i + 1]
  {
    hide ValueOf;
    ValueOfNext(vs, i);
    ValueOfNext(vs, i + 1);
  }

  lemma OneLeft(v: int, a: int, vs: seq<int>)
    requires AreSextets(vs) && a in vs
    ensures (v * 64 + a) / 64 == v
  {
    DivModUnique(v * 64 + a, v, 64, a);
  }

  lemma TwoLeft(v: int, a: int, b: int)
    ensures ((v * 64 + a) * 64 + b) / 16 == v * 256 + (a * 4 + b / 16)
  {
    DivModUnique((v * 64 + a) * 64 + b, v * 256 + (a * 4 + b / 16), 16, b % 16);
  }

  lemma ThreeLeft(v: int, a: int, b: int, c: int)
    ensures (((v * 64 + a) * 64 + b) * 64 + c) / 4 == v * 65536 + (a * 1024 + b * 16 + c / 4)
  {
    DivModUnique(((v * 64 + a) * 64 + b) * 64 + c, v * 65536 + (a * 1024 + b * 16 + c / 4), 4, c % 4);
  }
}
