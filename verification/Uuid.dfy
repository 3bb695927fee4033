/** The 128-bit identifier: its text forms, its order and the version-4 masks (sections 3 and 4.4 of RFC 4122). */
module Uuid {
  import opened Bits
  import opened Options

  datatype UUID = UUID(hi: Word64, lo: Word64)

  // ----- hexadecimal -----

  function DigitChar(d: nat): char
    requires d < 16
  {
    if d < 10 then ('0' as int + d) as char else ('a' as int + (d - 10)) as char
  }

  /** The value of a hexadecimal digit of either case, or -1. */
  function DigitValue(c: char): int {
    if '0' <= c <= '9' then c as int - '0' as int
    else if 'a' <= c <= 'f' then c as int - 'a' as int + 10
    else if 'A' <= c <= 'F' then c as int - 'A' as int + 10
    else -1
  }

  predicate IsHex(s: string) {
    forall i :: 0 <= i < |s| ==> DigitValue(s[i]) >= 0
  }

  /** `{:0wx}`: the w low hexadecimal digits of v, most significant first. */
  function Hex(v: nat, w: nat): (s: string)
    ensures |s| == w
  {
    if w == 0 then "" else Hex(v / 16, w - 1) + [DigitChar(v % 16)]
  }

  function HexValue(s: string): nat
    requires IsHex(s)
  {
    if s == "" then 0 else HexValue(s[..|s| - 1]) * 16 + DigitValue(s[|s| - 1])
  }

  function Pow16(w: nat): (p: nat)
    ensures p > 0
  {
    if w == 0 then 1 else 16 * Pow16(w - 1)
  }

  function LowerChar(c: char): char {
    if 'A' <= c <= 'F' then (c as int + 32) as char else c
  }

  function Lower(s: string): (t: string)
    ensures |t| == |s|
    ensures forall i :: 0 <= i < |s| ==> t[i] == LowerChar(s[i])
  {
    seq(|s|, i requires 0 <= i < |s| => LowerChar(s[i]))
  }

  const LOWER_DIGITS := "0123456789abcdef"
  const UPPER_DIGITS := "0123456789ABCDEF"

  /** The digits written out: d is printed as the d-th lower-case digit and read from that or the d-th upper-case one. */
  lemma DigitsWrittenOut(d: nat, c: char)
    requires d < 16
    ensures DigitChar(d) == LOWER_DIGITS[d]
    ensures DigitValue(c) == d <==> c == LOWER_DIGITS[d] || c == UPPER_DIGITS[d]
    ensures -1 <= DigitValue(c) < 16
  {}

  lemma {:induction false} HexIsHex(v: nat, w: nat)
    ensures IsHex(Hex(v, w))
  {
    if w > 0 { HexIsHex(v / 16, w - 1); }
  }

  lemma {:induction false} HexValueOfHex(v: nat, w: nat)
    requires v < Pow16(w)
    ensures IsHex(Hex(v, w)) && HexValue(Hex(v, w)) == v
  {
    HexIsHex(v, w);
    if w > 0 {
      HexValueOfHex(v / 16, w - 1);
      assert Hex(v, w)[..w - 1] == Hex(v / 16, w - 1);
    }
  }

  lemma {:induction false} HexOfHexValue(s: string)
    requires IsHex(s)
    ensures HexValue(s) < Pow16(|s|) && Hex(HexValue(s), |s|) == Lower(s)
  {
    if s != "" {
      var init, d := s[..|s| - 1], DigitValue(s[|s| - 1]);
      HexOfHexValue(init);
      assert HexValue(s) / 16 == HexValue(init) && HexValue(s) % 16 == d;
      assert DigitChar(d) == LowerChar(s[|s| - 1]);
      assert Lower(s) == Lower(init) + [LowerChar(s[|s| - 1])];
    }
  }

  /** v without its b low hexadecimal digits, and those digits. */
  function HighDigits(v: nat, b: nat): nat {
    if b == 0 then v else HighDigits(v / 16, b - 1)
  }

  function LowDigits(v: nat, b: nat): nat {
    if b == 0 then 0 else 16 * LowDigits(v / 16, b - 1) + v % 16
  }

  lemma Regroup(v: int, q: int, p: int, r: int, s: int)
    requires v == 16 * (q * p + r) + s
    ensures v == q * (16 * p) + (16 * r + s)
  {
    assert q * (16 * p) == 16 * (q * p);
  }

  lemma {:induction false} DigitsAreDivMod(v: nat, b: nat)
    ensures HighDigits(v, b) == v / Pow16(b) && LowDigits(v, b) == v % Pow16(b)
  {
    if b > 0 {
      var p := Pow16(b - 1);
      var q, r := v / 16 / p, v / 16 % p;
      DigitsAreDivMod(v / 16, b - 1);
      DivModSplit(v / 16, p);
      Regroup(v, q, p, r, v % 16);
      DivModUnique(v, q, 16 * p, 16 * r + v % 16);
    }
  }

  /** Printing with more digits prints the high part and then the low part. */
  lemma {:induction false} HexSplit(v: nat, a: nat, b: nat)
    ensures Hex(v, a + b) == Hex(HighDigits(v, b), a) + Hex(LowDigits(v, b), b)
  {
    if b > 0 {
      HexSplit(v / 16, a, b - 1);
      assert LowDigits(v, b) / 16 == LowDigits(v / 16, b - 1) && LowDigits(v, b) % 16 == v % 16;
    }
  }

  // ----- the text form -----

  function ToString(u: UUID): (s: string)
    ensures |s| == 36
  {
    Hex(u.hi / 0x1_0000_0000, 8) + "-" + Hex(u.hi / 0x1_0000 % 0x1_0000, 4) + "-" + Hex(u.hi % 0x1_0000, 4) + "-"
    + Hex(u.lo / 0x1_0000_0000_0000, 4) + "-" + Hex(And(u.lo, 0xFFFF_FFFF_FFFF), 12)
  }

  function ToStringNoDashes(u: UUID): string {
    Hex(u.hi, 16) + Hex(u.lo, 16)
  }

  /** 8-4-4-4-12 hexadecimal digits of either case, separated by dashes. */
  predicate WellFormed(s: string) {
    && |s| == 36
    && s[8] == '-' && s[13] == '-' && s[18] == '-' && s[23] == '-'
    && IsHex(s[..8]) && IsHex(s[9..13]) && IsHex(s[14..18]) && IsHex(s[19..23]) && IsHex(s[24..])
  }

  function Parse(s: string): (r: Option<UUID>)
    ensures r.Some? <==> WellFormed(s)
  {
    if !WellFormed(s) then None
    else
      GroupBounds(s);
      Some(UUID(HexValue(s[..8]) * 0x1_0000_0000 + HexValue(s[9..13]) * 0x1_0000 + HexValue(s[14..18]),
                HexValue(s[19..23]) * 0x1_0000_0000_0000 + HexValue(s[24..])))
  }

  lemma GroupBounds(s: string)
    requires WellFormed(s)
    ensures HexValue(s[..8]) < 0x1_0000_0000 && HexValue(s[9..13]) < 0x1_0000 && HexValue(s[14..18]) < 0x1_0000
    ensures HexValue(s[19..23]) < 0x1_0000 && HexValue(s[24..]) < 0x1_0000_0000_0000
  {
    Pow16Values();
    HexOfHexValue(s[..8]);
    HexOfHexValue(s[9..13]);
    HexOfHexValue(s[14..18]);
    HexOfHexValue(s[19..23]);
    HexOfHexValue(s[24..]);
  }

  lemma Pow16Values()
    ensures Pow16(4) == 0x1_0000 && Pow16(8) == 0x1_0000_0000 && Pow16(12) == 0x1_0000_0000_0000
    ensures Pow16(16) == 0x1_0000_0000_0000_0000
  {
    assert Pow16(4) == 0x1_0000;
    Pow16Add(4, 4);
    Pow16Add(8, 4);
    Pow16Add(8, 8);
  }

  lemma {:induction false} Pow16Add(a: nat, b: nat)
    ensures Pow16(a) * Pow16(b) == Pow16(a + b)
  {
    if a > 0 { Pow16Add(a - 1, b); }
  }

  /** `read_hex`. */
  method ReadHex(src: string) returns (ok: bool, out: Word64)
    ensures ok <==> IsHex(src)
    ensures ok && |src| <= 16 ==> out == HexValue(src)
  {
    hide HexValue, DigitValue, Or;
    var v: Word64 := 0;
    HexValueEmpty();
    for i := 0 to |src|
      invariant IsHex(src[..i])
      invariant i <= 16 ==> v == HexValue(src[..i])
    {
      var d := DigitValue(src[i]);
      if d < 0 {
        return false, 0;
      }
      HexSnoc(src, i);
      if i < 16 {
        BelowWord(src[..i + 1]);
      }
      OrDigit(v, d);
      v := Or(v * 16 % 0x1_0000_0000_0000_0000, d);
    }
    assert src[..|src|] == src;
    return true, v;
  }

  lemma HexValueEmpty()
    ensures HexValue("") == 0
  {}

  lemma HexSnoc(s: string, i: nat)
    requires i < |s| && IsHex(s[..i]) && DigitValue(s[i]) >= 0
    ensures DigitValue(s[i]) < 16
    ensures IsHex(s[..i + 1]) && HexValue(s[..i + 1]) == HexValue(s[..i]) * 16 + DigitValue(s[i])
  {
    assert s[..i + 1][..i] == s[..i];
  }

  lemma BelowWord(s: string)
    requires IsHex(s) && |s| <= 16
    ensures HexValue(s) < 0x1_0000_0000_0000_0000
  {
    hide Pow16, HexValue;
    HexOfHexValue(s);
    Pow16Values();
    Pow16Add(|s|, 16 - |s|);
    MulAtLeast(Pow16(16 - |s|), Pow16(|s|));
  }

  lemma OrDigit(v: Word64, d: nat)
    requires d < 16
    ensures Or(v * 16 % 0x1_0000_0000_0000_0000, d) == (v * 16 + d) % 0x1_0000_0000_0000_0000
  {
    hide Or;
    var q, x := v / 0x1000_0000_0000_0000, v % 0x1000_0000_0000_0000;
    DivModUnique(v * 16, q, 0x1_0000_0000_0000_0000, x * 16);
    DivModUnique(v * 16 + d, q, 0x1_0000_0000_0000_0000, x * 16 + d);
    OrLiterals(x, d);
  }

  /** `from_string`. */
  method FromString(s: string) returns (r: Option<UUID>)
    ensures r == Parse(s)
  {
    hide Or, HexValue, IsHex;
    if |s| != 36 {
      return None;
    }
    if s[8] != '-' || s[13] != '-' || s[18] != '-' || s[23] != '-' {
      return None;
    }
    var ok, p1 := ReadHex(s[..8]);
    if !ok { return None; }
    var p2;
    ok, p2 := ReadHex(s[9..13]);
    if !ok { return None; }
    var p3;
    ok, p3 := ReadHex(s[14..18]);
    if !ok { return None; }
    var p4;
    ok, p4 := ReadHex(s[19..23]);
    if !ok { return None; }
    var p5;
    ok, p5 := ReadHex(s[24..]);
    if !ok { return None; }
    GroupBounds(s);
    OrGroups(p1, p2, p3, p4, p5);
    var hi := Or(Or(p1 * 0x1_0000_0000 % 0x1_0000_0000_0000_0000, p2 * 0x1_0000 % 0x1_0000_0000_0000_0000), p3);
    var lo := Or(p4 * 0x1_0000_0000_0000 % 0x1_0000_0000_0000_0000, p5);
    r := Some(UUID(hi, lo));
  }

  lemma OrGroups(p1: nat, p2: nat, p3: nat, p4: nat, p5: nat)
    requires p1 < 0x1_0000_0000 && p2 < 0x1_0000 && p3 < 0x1_0000 && p4 < 0x1_0000 && p5 < 0x1_0000_0000_0000
    ensures Or(Or(p1 * 0x1_0000_0000 % 0x1_0000_0000_0000_0000, p2 * 0x1_0000 % 0x1_0000_0000_0000_0000), p3)
            == p1 * 0x1_0000_0000 + p2 * 0x1_0000 + p3
    ensures Or(p4 * 0x1_0000_0000_0000 % 0x1_0000_0000_0000_0000, p5) == p4 * 0x1_0000_0000_0000 + p5
  {
    hide Or, Pow2;
    Pow2Words();
    OrHigh(p1, p2, p3);
    SmallWord(p4 * 0x1_0000_0000_0000);
    OrShifted(p4, p5, 48);
  }

  lemma OrHigh(p1: nat, p2: nat, p3: nat)
    requires p1 < 0x1_0000_0000 && p2 < 0x1_0000 && p3 < 0x1_0000
    ensures Or(Or(p1 * 0x1_0000_0000 % 0x1_0000_0000_0000_0000, p2 * 0x1_0000 % 0x1_0000_0000_0000_0000), p3)
            == p1 * 0x1_0000_0000 + p2 * 0x1_0000 + p3
  {
    hide Or, Pow2;
    Pow2Words();
    SmallWord(p1 * 0x1_0000_0000);
    SmallWord(p2 * 0x1_0000);
    OrShifted(p1, p2 * 0x1_0000, 32);
    OrShifted(p1 * 0x1_0000 + p2, p3, 16);
  }

  lemma SmallWord(x: nat)
    requires x < 0x1_0000_0000_0000_0000
    ensures x % 0x1_0000_0000_0000_0000 == x
  {}

  // ----- laws -----

  lemma LowWord(u: UUID)
    ensures And(u.lo, 0xFFFF_FFFF_FFFF) == u.lo % 0x1_0000_0000_0000
  {
    Pow2Words();
    AndMask(u.lo, 48);
  }

  /** The five groups that are printed. */
  function Groups(u: UUID): (g: seq<nat>)
    ensures |g| == 5
  {
    [u.hi / 0x1_0000_0000, u.hi / 0x1_0000 % 0x1_0000, u.hi % 0x1_0000,
     u.lo / 0x1_0000_0000_0000, u.lo % 0x1_0000_0000_0000]
  }

  lemma PrintedGroups(u: UUID)
    ensures var s, g := ToString(u), Groups(u);
            && s[..8] == Hex(g[0], 8) && s[9..13] == Hex(g[1], 4) && s[14..18] == Hex(g[2], 4)
            && s[19..23] == Hex(g[3], 4) && s[24..] == Hex(g[4], 12)
            && s[8] == '-' && s[13] == '-' && s[18] == '-' && s[23] == '-'
  {
    hide Hex, And;
    LowWord(u);
  }

  lemma GroupsRebuild(u: UUID)
    ensures var g := Groups(u);
            && u.hi == g[0] * 0x1_0000_0000 + g[1] * 0x1_0000 + g[2]
            && u.lo == g[3] * 0x1_0000_0000_0000 + g[4]
            && g[0] < 0x1_0000_0000 && g[1] < 0x1_0000 && g[2] < 0x1_0000 && g[3] < 0x1_0000 && g[4] < 0x1_0000_0000_0000
  {
    assert u.hi / 0x1_0000 / 0x1_0000 == u.hi / 0x1_0000_0000;
  }

  /** Parsing what was printed gives back the identifier, for all 128-bit values. */
  lemma ParseToString(u: UUID)
    ensures Parse(ToString(u)) == Some(u)
  {
    var g := Groups(u);
    Pow16Values();
    PrintedGroups(u);
    GroupsRebuild(u);
    hide Hex, HexValue, Pow16, ToString, Groups;
    HexValueOfHex(g[0], 8);
    HexValueOfHex(g[1], 4);
    HexValueOfHex(g[2], 4);
    HexValueOfHex(g[3], 4);
    HexValueOfHex(g[4], 12);
  }

  /** Printing what was parsed gives the lower-case form of the text, for all accepted texts. */
  lemma ToStringParse(s: string)
    requires Parse(s).Some?
    ensures ToString(Parse(s).value) == Lower(s)
  {
    hide Hex, HexValue, Pow16, ToString, Groups, IsHex;
    var u := Parse(s).value;
    GroupBounds(s);
    PrintedGroups(u);
    HexOfHexValue(s[..8]);
    HexOfHexValue(s[9..13]);
    HexOfHexValue(s[14..18]);
    HexOfHexValue(s[19..23]);
    HexOfHexValue(s[24..]);
    GroupsOf(HexValue(s[..8]), HexValue(s[9..13]), HexValue(s[14..18]), HexValue(s[19..23]), HexValue(s[24..]));
    Assemble(s, ToString(u));
  }

  /** A text is accepted exactly when its lower-case form is what some identifier prints. */
  lemma AcceptsExactly(s: string)
    ensures Parse(s).Some? <==> exists u :: Lower(s) == ToString(u)
  {
    hide ToString, Parse, WellFormed;
    if Parse(s).Some? {
      ToStringParse(s);
    }
    if u :| Lower(s) == ToString(u) {
      ParseToString(u);
      LowerAccepted(s);
    }
  }

  lemma LowerAccepted(s: string)
    requires Parse(Lower(s)).Some?
    ensures Parse(s).Some?
  {
    hide HexValue;
    var t := Lower(s);
    assert t[8] == '-' && t[13] == '-' && t[18] == '-' && t[23] == '-';
    assert t[..8] == Lower(s[..8]) && t[9..13] == Lower(s[9..13]) && t[14..18] == Lower(s[14..18]);
    assert t[19..23] == Lower(s[19..23]) && t[24..] == Lower(s[24..]);
    LowerHex(s[..8]);
    LowerHex(s[9..13]);
    LowerHex(s[14..18]);
    LowerHex(s[19..23]);
    LowerHex(s[24..]);
  }

  lemma LowerHex(s: string)
    ensures IsHex(Lower(s)) <==> IsHex(s)
  {
    assert forall i :: 0 <= i < |s| ==> (DigitValue(Lower(s)[i]) >= 0 <==> DigitValue(s[i]) >= 0);
  }

  lemma Assemble(s: string, t: string)
    requires |s| == |t| == 36
    requires s[8] == s[13] == s[18] == s[23] == '-' && t[8] == t[13] == t[18] == t[23] == '-'
    requires t[..8] == Lower(s[..8]) && t[9..13] == Lower(s[9..13]) && t[14..18] == Lower(s[14..18])
    requires t[19..23] == Lower(s[19..23]) && t[24..] == Lower(s[24..])
    ensures t == Lower(s)
  {
    forall i | 0 <= i < 36
      ensures t[i] == LowerChar(s[i])
    {
      if i < 8 { assert t[i] == t[..8][i]; }
      else if 9 <= i < 13 { assert t[i] == t[9..13][i - 9]; }
      else if 14 <= i < 18 { assert t[i] == t[14..18][i - 14]; }
      else if 19 <= i < 23 { assert t[i] == t[19..23][i - 19]; }
      else if 24 <= i { assert t[i] == t[24..][i - 24]; }
    }
  }

  lemma GroupsOf(p1: nat, p2: nat, p3: nat, p4: nat, p5: nat)
    requires p1 < 0x1_0000_0000 && p2 < 0x1_0000 && p3 < 0x1_0000 && p4 < 0x1_0000 && p5 < 0x1_0000_0000_0000
    ensures Groups(UUID(p1 * 0x1_0000_0000 + p2 * 0x1_0000 + p3, p4 * 0x1_0000_0000_0000 + p5)) == [p1, p2, p3, p4, p5]
  {
    var hi := p1 * 0x1_0000_0000 + p2 * 0x1_0000 + p3;
    DivModUnique(hi, p1, 0x1_0000_0000, p2 * 0x1_0000 + p3);
    DivModUnique(hi, p1 * 0x1_0000 + p2, 0x1_0000, p3);
    DivModUnique(p1 * 0x1_0000 + p2, p1, 0x1_0000, p2);
    DivModUnique(p4 * 0x1_0000_0000_0000 + p5, p4, 0x1_0000_0000_0000, p5);
  }

  function Undash(s: string): string {
    if s == "" then "" else (if s[0] == '-' then "" else [s[0]]) + Undash(s[1..])
  }

  lemma {:induction false} UndashConcat(s: string, t: string)
    ensures Undash(s + t) == Undash(s) + Undash(t)
  {
    if s == "" {
      assert s + t == t;
    } else {
      assert (s + t)[1..] == s[1..] + t;
      UndashConcat(s[1..], t);
    }
  }

  lemma {:induction false} UndashHex(s: string)
    requires IsHex(s)
    ensures Undash(s) == s
  {
    if s != "" {
      assert DigitValue(s[0]) >= 0;
      UndashHex(s[1..]);
    }
  }

  lemma UndashGroup(v: nat, w: nat, rest: string)
    ensures Undash(Hex(v, w) + "-" + rest) == Hex(v, w) + Undash(rest)
  {
    HexIsHex(v, w);
    UndashHex(Hex(v, w));
    UndashConcat(Hex(v, w), "-");
    UndashConcat(Hex(v, w) + "-", rest);
  }

  /** The undashed form is the dashed form without its dashes. */
  lemma NoDashesIsUndashed(u: UUID)
    ensures Undash(ToString(u)) == ToStringNoDashes(u)
  {
    var g := Groups(u);
    LowWord(u);
    HiDigits(u.hi);
    LoDigits(u.lo);
    hide Hex, Undash;
    var e := Hex(g[4], 12);
    var d := Hex(g[3], 4) + "-" + e;
    var c := Hex(g[2], 4) + "-" + d;
    var b := Hex(g[1], 4) + "-" + c;
    assert ToString(u) == Hex(g[0], 8) + "-" + b;
    UndashGroup(g[0], 8, b);
    UndashGroup(g[1], 4, c);
    UndashGroup(g[2], 4, d);
    UndashGroup(g[3], 4, e);
    HexIsHex(g[4], 12);
    UndashHex(e);
  }

  lemma HiDigits(v: Word64)
    ensures Hex(v, 16) == Hex(v / 0x1_0000_0000, 8) + Hex(v / 0x1_0000 % 0x1_0000, 4) + Hex(v % 0x1_0000, 4)
  {
    Pow16Values();
    hide Hex, Pow16;
    HexSplit(v, 12, 4);
    DigitsAreDivMod(v, 4);
    HexSplit(v / 0x1_0000, 8, 4);
    DigitsAreDivMod(v / 0x1_0000, 4);
    assert v / 0x1_0000 / 0x1_0000 == v / 0x1_0000_0000;
  }

  lemma LoDigits(v: Word64)
    ensures Hex(v, 16) == Hex(v / 0x1_0000_0000_0000, 4) + Hex(v % 0x1_0000_0000_0000, 12)
  {
    Pow16Values();
    hide Hex, Pow16;
    HexSplit(v, 4, 12);
    DigitsAreDivMod(v, 12);
  }

  // ----- order -----

  /** `operator<`. */
  predicate Less(u: UUID, v: UUID) {
    if u.hi != v.hi then u.hi < v.hi else u.lo < v.lo
  }

  /** Lexicographic order on strings. */
  predicate LexLess(s: string, t: string) {
    if t == "" then false
    else if s == "" then true
    else s[0] < t[0] || (s[0] == t[0] && LexLess(s[1..], t[1..]))
  }

  lemma {:induction false} LexConcat(s: string, s': string, t: string, t': string)
    requires |s| == |t|
    ensures LexLess(s + s', t + t') <==> LexLess(s, t) || (s == t && LexLess(s', t'))
  {
    if s == "" {
      assert s + s' == s' && t + t' == t';
    } else {
      assert (s + s')[1..] == s[1..] + s' && (t + t')[1..] == t[1..] + t';
      assert s == t <==> s[0] == t[0] && s[1..] == t[1..];
      LexConcat(s[1..], s', t[1..], t');
    }
  }

  lemma LexIrreflexive(s: string)
    ensures !LexLess(s, s)
  {}

  lemma HexInjective(a: nat, b: nat, w: nat)
    requires a < Pow16(w) && b < Pow16(w) && Hex(a, w) == Hex(b, w)
    ensures a == b
  {
    HexValueOfHex(a, w);
    HexValueOfHex(b, w);
  }

  lemma {:induction false} HexOrder(a: nat, b: nat, w: nat)
    requires a < Pow16(w) && b < Pow16(w)
    ensures LexLess(Hex(a, w), Hex(b, w)) <==> a < b
  {
    if w > 0 {
      HexOrder(a / 16, b / 16, w - 1);
      LexConcat(Hex(a / 16, w - 1), [DigitChar(a % 16)], Hex(b / 16, w - 1), [DigitChar(b % 16)]);
      if Hex(a / 16, w - 1) == Hex(b / 16, w - 1) {
        HexInjective(a / 16, b / 16, w - 1);
      }
      assert LexLess([DigitChar(a % 16)], [DigitChar(b % 16)]) <==> a % 16 < b % 16;
    }
  }

  /** A group decides the order of the texts unless it is the same on both sides. */
  lemma GroupOrder(a: nat, b: nat, w: nat, s: string, t: string)
    requires a < Pow16(w) && b < Pow16(w)
    ensures LexLess(Hex(a, w) + "-" + s, Hex(b, w) + "-" + t) <==> a < b || (a == b && LexLess(s, t))
  {
    HexOrder(a, b, w);
    LexConcat(Hex(a, w), "-" + s, Hex(b, w), "-" + t);
    assert Hex(a, w) + "-" + s == Hex(a, w) + ("-" + s) && Hex(b, w) + "-" + t == Hex(b, w) + ("-" + t);
    LexConcat("-", s, "-", t);
    LexIrreflexive("-");
    if Hex(a, w) == Hex(b, w) {
      HexInjective(a, b, w);
    }
  }

  /** Identifiers are ordered as their texts are. */
  lemma OrderAgrees(u: UUID, v: UUID)
    ensures Less(u, v) <==> LexLess(ToString(u), ToString(v))
  {
    var g, h := Groups(u), Groups(v);
    GroupsRebuild(u);
    GroupsRebuild(v);
    Pow16Values();
    TextOrder(u, v);
    hide ToString, LexLess, Groups, Pow16;
    assert u.hi == v.hi <==> (g[0] == h[0] && g[1] == h[1] && g[2] == h[2]);
  }

  lemma TextOrder(u: UUID, v: UUID)
    ensures var g, h := Groups(u), Groups(v);
            LexLess(ToString(u), ToString(v)) <==>
              (g[0] < h[0] || (g[0] == h[0] && (g[1] < h[1] || (g[1] == h[1] && (g[2] < h[2] || (g[2] == h[2] &&
                (g[3] < h[3] || (g[3] == h[3] && g[4] < h[4]))))))))
  {
    var g, h := Groups(u), Groups(v);
    LowWord(u);
    LowWord(v);
    GroupsRebuild(u);
    GroupsRebuild(v);
    Pow16Values();
    hide Hex, LexLess, Pow16, And;
    var e, e' := Hex(g[4], 12), Hex(h[4], 12);
    var d, d' := Hex(g[3], 4) + "-" + e, Hex(h[3], 4) + "-" + e';
    var c, c' := Hex(g[2], 4) + "-" + d, Hex(h[2], 4) + "-" + d';
    var b, b' := Hex(g[1], 4) + "-" + c, Hex(h[1], 4) + "-" + c';
    assert ToString(u) == Hex(g[0], 8) + "-" + b;
    assert ToString(v) == Hex(h[0], 8) + "-" + b';
    hide ToString, Groups;
    GroupOrder(g[0], h[0], 8, b, b');
    GroupOrder(g[1], h[1], 4, c, c');
    GroupOrder(g[2], h[2], 4, d, d');
    GroupOrder(g[3], h[3], 4, e, e');
    HexOrder(g[4], h[4], 12);
  }

  // ----- version 4 -----

  lemma ShrLow(x: nat, k: nat, p: nat)
    requires p == Pow2(k)
    ensures Shr(x, k) == x / p && Low(x, k) == x % p
  {
    ShrIsDiv(x, k);
    LowIsMod(x, k);
  }

  /** The version mask replaces the digit above the 12 low bits by 4 and keeps all other bits. */
  lemma VersionMask(a: Word64)
    ensures var y := Or(And(a, 0xFFFF_FFFF_FFFF_0FFF), 0x4000);
            && y / 0x1_0000 == a / 0x1_0000 && y / 0x1000 % 16 == 4 && y % 0x1000 == a % 0x1000
  {
    hide And, Or;
    HighPart(a);
    VersionDigit(a);
    LowPart(a);
  }

  lemma HighPart(a: Word64)
    ensures Or(And(a, 0xFFFF_FFFF_FFFF_0FFF), 0x4000) / 0x1_0000 == a / 0x1_0000
  {
    hide And, Or, Pow2, Shr, Low;
    var m, x := 0xFFFF_FFFF_FFFF_0FFF, And(a, 0xFFFF_FFFF_FFFF_0FFF);
    Pow2Words();
    calc {
      Or(x, 0x4000) / 0x1_0000;
      { ShrLow(Or(x, 0x4000), 16, 0x1_0000); }
      Shr(Or(x, 0x4000), 16);
      { MaskShift(x, 0x4000, 16); ShrLow(0x4000, 16, 0x1_0000); }
      Or(Shr(x, 16), 0);
      { OrZero(Shr(x, 16)); }
      Shr(x, 16);
      { MaskShift(a, m, 16); ShrLow(a, 16, 0x1_0000); ShrLow(m, 16, 0x1_0000); }
      And(a / 0x1_0000, 0xFFFF_FFFF_FFFF);
      { AndMask(a / 0x1_0000, 48); }
      a / 0x1_0000 % 0x1_0000_0000_0000;
      a / 0x1_0000;
    }
  }

  lemma OrZero(x: nat)
    ensures Or(x, 0) == x && And(x, 0) == 0 && Or(0, x) == x
  {}

  lemma VersionDigit(a: Word64)
    ensures Or(And(a, 0xFFFF_FFFF_FFFF_0FFF), 0x4000) / 0x1000 % 16 == 4
  {
    hide And, Or, Pow2, Shr, Low;
    var m, x := 0xFFFF_FFFF_FFFF_0FFF, And(a, 0xFFFF_FFFF_FFFF_0FFF);
    SmallPow2();
    calc {
      Or(x, 0x4000) / 0x1000 % 16;
      { ShrLow(Or(x, 0x4000), 12, 0x1000); }
      Shr(Or(x, 0x4000), 12) % 16;
      { MaskShift(x, 0x4000, 12); ShrLow(0x4000, 12, 0x1000); }
      Or(Shr(x, 12), 4) % 16;
      { ShrLow(Or(Shr(x, 12), 4), 4, 16); OrLow(Shr(x, 12), 4, 4); ShrLow(4, 4, 16); }
      Or(Low(Shr(x, 12), 4), 4);
      { MaskShift(a, m, 12); ShrLow(m, 12, 0x1000); }
      Or(Low(And(Shr(a, 12), 0xF_FFFF_FFFF_FFF0), 4), 4);
      { AndLow(Shr(a, 12), 0xF_FFFF_FFFF_FFF0, 4); ShrLow(0xF_FFFF_FFFF_FFF0, 4, 16); OrZero(Low(Shr(a, 12), 4)); }
      Or(0, 4);
      { OrZero(4); }
      4;
    }
  }

  lemma SmallPow2()
    ensures Pow2(4) == 16 && Pow2(12) == 0x1000
  {}

  lemma LowPart(a: Word64)
    ensures Or(And(a, 0xFFFF_FFFF_FFFF_0FFF), 0x4000) % 0x1000 == a % 0x1000
  {
    hide And, Or, Pow2, Shr, Low;
    var m, x := 0xFFFF_FFFF_FFFF_0FFF, And(a, 0xFFFF_FFFF_FFFF_0FFF);
    SmallPow2();
    calc {
      Or(x, 0x4000) % 0x1000;
      { ShrLow(Or(x, 0x4000), 12, 0x1000); }
      Low(Or(x, 0x4000), 12);
      { OrLow(x, 0x4000, 12); ShrLow(0x4000, 12, 0x1000); }
      Or(Low(x, 12), 0);
      { OrZero(Low(x, 12)); }
      Low(x, 12);
      { AndLow(a, m, 12); ShrLow(a, 12, 0x1000); ShrLow(m, 12, 0x1000); }
      And(a % 0x1000, 0xFFF);
      { AndMask(a % 0x1000, 12); }
      a % 0x1000 % 0x1000;
      a % 0x1000;
    }
  }

  /** The variant mask sets the two top bits to 10 and keeps the other 62. */
  lemma VariantMask(b: Word64)
    ensures Or(And(b, 0x3FFF_FFFF_FFFF_FFFF), 0x8000_0000_0000_0000) == 0x8000_0000_0000_0000 + b % 0x4000_0000_0000_0000
  {
    hide And, Or, Pow2;
    TopPow2();
    AndMask(b, 62);
    var r := b % 0x4000_0000_0000_0000;
    OrShifted(1, r, 63);
    OrComm(r, 0x8000_0000_0000_0000);
  }

  lemma TopPow2()
    ensures Pow2(63) == 0x8000_0000_0000_0000 && Pow2(62) == 0x4000_0000_0000_0000
  {
    Pow2Words();
    assert Pow2(64) == 2 * Pow2(63);
    assert Pow2(63) == 2 * Pow2(62);
  }

  lemma MaskedWords(a: Word64, b: Word64)
    ensures var hi, lo := Or(And(a, 0xFFFF_FFFF_FFFF_0FFF), 0x4000), Or(And(b, 0x3FFF_FFFF_FFFF_FFFF), 0x8000_0000_0000_0000);
            && hi < 0x1_0000_0000_0000_0000 && lo < 0x1_0000_0000_0000_0000
            && hi / 0x1_0000 == a / 0x1_0000 && hi / 0x1000 % 16 == 4 && hi % 0x1000 == a % 0x1000
            && lo / 0x4000_0000_0000_0000 == 2 && lo % 0x4000_0000_0000_0000 == b % 0x4000_0000_0000_0000
  {
    hide And, Or;
    VersionMask(a);
    VariantMask(b);
    var lo, r := Or(And(b, 0x3FFF_FFFF_FFFF_FFFF), 0x8000_0000_0000_0000), b % 0x4000_0000_0000_0000;
    DivModUnique(lo, 2, 0x4000_0000_0000_0000, r);
  }

  /** `generate`, from two drawn words: 122 of the 128 drawn bits are kept. */
  function Generate(a: Word64, b: Word64): (u: UUID)
    ensures u.hi / 0x1_0000 == a / 0x1_0000 && u.hi / 0x1000 % 16 == 4 && u.hi % 0x1000 == a % 0x1000
    ensures u.lo / 0x4000_0000_0000_0000 == 2 && u.lo % 0x4000_0000_0000_0000 == b % 0x4000_0000_0000_0000
  {
    MaskedWords(a, b);
    UUID(Or(And(a, 0xFFFF_FFFF_FFFF_0FFF), 0x4000), Or(And(b, 0x3FFF_FFFF_FFFF_FFFF), 0x8000_0000_0000_0000))
  }

  lemma FirstDigit(v: nat)
    requires v < 0x1_0000
    ensures Hex(v, 4)[0] == DigitChar(v / 0x1000)
  {
    FirstChar(v, 4);
    FirstChar(v / 16, 3);
    FirstChar(v / 256, 2);
    assert v / 16 / 16 == v / 256 && v / 256 / 16 == v / 0x1000;
    assert Hex(v / 0x1000, 1) == [DigitChar(v / 0x1000)];
  }

  lemma FirstChar(v: nat, w: nat)
    requires w > 1
    ensures Hex(v, w)[0] == Hex(v / 16, w - 1)[0]
  {}

  /** A generated identifier prints as version 4, variant 10. */
  lemma GeneratedText(a: Word64, b: Word64)
    ensures var s := ToString(Generate(a, b)); s[14] == '4' && s[19] in "89ab"
  {
    var u := Generate(a, b);
    hide Generate;
    PrintedGroups(u);
    var s, g := ToString(u), Groups(u);
    hide ToString, Hex;
    assert s[14] == s[14..18][0] && s[19] == s[19..23][0];
    GroupsRebuild(u);
    FirstDigit(g[2]);
    FirstDigit(g[3]);
    TopNibbles(u.hi, u.lo);
  }

  lemma TopNibbles(hi: Word64, lo: Word64)
    ensures hi % 0x1_0000 / 0x1000 == hi / 0x1000 % 16
    ensures lo / 0x4000_0000_0000_0000 == 2 ==> 8 <= lo / 0x1_0000_0000_0000 / 0x1000 < 12
  {
    var q, r := hi / 0x1_0000, hi % 0x1_0000;
    assert hi / 0x1000 == q * 16 + r / 0x1000;
    DivModUnique(hi / 0x1000, q, 16, r / 0x1000);
    assert lo / 0x1_0000_0000_0000 / 0x1000 == lo / 0x1000_0000_0000_0000;
  }
}
