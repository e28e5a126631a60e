/** Run ids: the `Uuid` of the uuid crate as a 128-bit number, printed and parsed. */
module Uuids {
  import opened Basics

  type Uuid = n: nat | n < 0x1_0000_0000_0000_0000_0000_0000_0000_0000

  predicate IsLowerHex(c: char) { IsDigit(c) || 'a' <= c <= 'f' }

  function HexDigit(d: nat): char
    requires d < 16
  {
    "0123456789abcdef"[d]
  }

  /** `{:0width x}` for a number that fits. */
  function Hex(n: nat, width: nat): (s: string)
    ensures |s| == width && forall i | 0 <= i < width :: IsLowerHex(s[i])
  {
    if width == 0 then [] else Hex(n / 16, width - 1) + [HexDigit(n % 16)]
  }

  /** The hyphenated lower-case text of `Uuid::to_string`. */
  function UuidText(id: Uuid): (s: string)
    ensures |s| == 36
    ensures forall i | 0 <= i < 36 :: s[i] == '-' || IsLowerHex(s[i])
  {
    Hyphenate(Hex(id, 32))
  }

  function Hyphenate(h: string): string
    requires |h| == 32
  {
    h[..8] + ['-'] + h[8..12] + ['-'] + h[12..16] + ['-'] + h[16..20] + ['-'] + h[20..]
  }

  function Unhyphenate(s: string): (h: string)
    requires |s| == 36
    ensures |h| == 32
  {
    s[..8] + s[9..13] + s[14..18] + s[19..23] + s[24..]
  }

  function HexValue(c: char): Option<nat> {
    if '0' <= c <= '9' then Some(c as int - '0' as int)
    else if 'a' <= c <= 'f' then Some(c as int - 'a' as int + 10)
    else if 'A' <= c <= 'F' then Some(c as int - 'A' as int + 10)
    else None
  }

  function ParseHex(s: string): (n: Option<nat>)
    ensures n.Some? ==> n.value < Pow16(|s|)
  {
    if s == [] then Some(0)
    else
      match (ParseHex(s[..|s| - 1]), HexValue(s[|s| - 1]))
      case (Some(high), Some(low)) => if low < 16 then Some(high * 16 + low) else None
      case _ => None
  }

  function ParseSimple(s: string): Option<Uuid>
    requires |s| == 32
  {
    Pow16Words(0);
    ParseHex(s)
  }

  function ParseHyphenated(s: string): Option<Uuid> {
    if |s| == 36 && s[8] == '-' && s[13] == '-' && s[18] == '-' && s[23] == '-' then ParseSimple(Unhyphenate(s)) else None
  }

  /** `Uuid::parse_str`: plain, hyphenated, braced and URN spellings, letters of either case. */
  function ParseUuid(s: string): Option<Uuid> {
    if |s| == 32 then ParseSimple(s)
    else if |s| == 36 then ParseHyphenated(s)
    else if |s| == 38 && s[0] == '{' && s[37] == '}' then ParseHyphenated(s[1..37])
    else if |s| == 45 && s[..9] == "urn:uuid:" then ParseHyphenated(s[9..])
    else None
  }

  lemma HexDigitBack(d: nat)
    requires d < 16
    ensures HexValue(HexDigit(d)) == Some(d)
  {
  }

  function Pow16(k: nat): (p: nat)
    ensures p > 0
  {
    if k == 0 then 1 else 16 * Pow16(k - 1)
  }

  lemma HexSplits(n: nat, width: nat)
    requires width > 0
    ensures Hex(n, width)[..width - 1] == Hex(n / 16, width - 1)
    ensures Hex(n, width)[width - 1] == HexDigit(n % 16)
  {
  }

  lemma {:induction false} ParseHexBack(n: nat, width: nat)
    requires n < Pow16(width)
    ensures ParseHex(Hex(n, width)) == Some(n)
  {
    if width > 0 {
      HexSplits(n, width);
      HexDigitBack(n % 16);
      ParseHexBack(n / 16, width - 1);
    }
  }

  /** The lower-case digits of a number are the only ones that parse to it. */
  lemma {:induction false} HexIsTheText(s: string)
    requires forall i | 0 <= i < |s| :: IsLowerHex(s[i])
    ensures ParseHex(s).Some? && s == Hex(ParseHex(s).value, |s|)
  {
    hide HexDigit, HexValue, IsLowerHex;
    if s != [] {
      var front, last := s[..|s| - 1], s[|s| - 1];
      HexIsTheText(front);
      HexValueBack(last);
      TimesSixteen(ParseHex(front).value, HexValue(last).value);
      assert s == front + [last];
    }
  }

  lemma TimesSixteen(high: nat, low: nat)
    requires low < 16
    ensures (high * 16 + low) / 16 == high && (high * 16 + low) % 16 == low
  {
  }

  lemma HexValueBack(c: char)
    requires IsLowerHex(c)
    ensures HexValue(c).Some? && HexValue(c).value < 16 && HexDigit(HexValue(c).value) == c
  {
  }

  lemma HexInjective(a: nat, b: nat, width: nat)
    requires a < Pow16(width) && b < Pow16(width)
    requires Hex(a, width) == Hex(b, width)
    ensures a == b
  {
    ParseHexBack(a, width);
    ParseHexBack(b, width);
  }

  lemma Pow16Four(k: nat)
    ensures Pow16(k + 4) == 0x1_0000 * Pow16(k)
  {
    assert Pow16(k + 2) == 256 * Pow16(k);
    assert Pow16(k + 4) == 256 * Pow16(k + 2);
  }

  // The widths of a checksum and of a Uuid, for k = 0.
  lemma Pow16Words(k: nat)
    requires k == 0
    ensures Pow16(k + 16) == MAX_U64 + 1
    ensures Pow16(k + 32) == 0x1_0000_0000_0000_0000_0000_0000_0000_0000
  {
    Pow16Four(k);
    Pow16Four(k + 4);
    Pow16Four(k + 8);
    Pow16Four(k + 12);
    Pow16Four(k + 16);
    Pow16Four(k + 20);
    Pow16Four(k + 24);
    Pow16Four(k + 28);
  }

  lemma HyphensComeOff(h: string)
    requires |h| == 32
    ensures Unhyphenate(Hyphenate(h)) == h
  {
    var s := Hyphenate(h);
    assert s[..8] == h[..8] && s[9..13] == h[8..12] && s[14..18] == h[12..16];
    assert s[19..23] == h[16..20] && s[24..] == h[20..];
    assert h[..8] + h[8..12] == h[..12];
    assert h[..12] + h[12..16] == h[..16];
    assert h[..16] + h[16..20] == h[..20];
    assert h[..20] + h[20..] == h;
  }

  lemma HyphensStand(h: string)
    requires |h| == 32
    ensures var s := Hyphenate(h); |s| == 36 && s[8] == '-' && s[13] == '-' && s[18] == '-' && s[23] == '-'
  {
  }

  /** Printing and parsing are inverse: every run id text names its own run. */
  lemma ParseUuidText(id: Uuid)
    ensures ParseUuid(UuidText(id)) == Some(id)
  {
    Pow16Words(0);
    ParseHexBack(id, 32);
    HyphensComeOff(Hex(id, 32));
    HyphensStand(Hex(id, 32));
  }

  lemma UuidTextInjective(id: Uuid, other: Uuid)
    requires UuidText(id) == UuidText(other)
    ensures id == other
  {
    ParseUuidText(id);
    ParseUuidText(other);
  }

  // ---- What is printed, and what is parsed ----------------------------------------------------

  /** How many hyphens stand before a place in the text. */
  function HyphensBefore(i: nat): nat {
    (if i > 8 then 1 else 0) + (if i > 13 then 1 else 0) + (if i > 18 then 1 else 0) + if i > 23 then 1 else 0
  }

  /** The digits with four hyphens among them. */
  predicate Grouped(s: string, h: string) {
    |s| == 36 && |h| == 32 && forall i | 0 <= i < 36 :: s[i] == if i in {8, 13, 18, 23} then '-' else h[i - HyphensBefore(i)]
  }

  /** The digits alone, with hyphens, these in braces, or these as a URN. */
  predicate Spells(s: string, h: string) {
    || s == h
    || Grouped(s, h)
    || (|s| == 38 && s[0] == '{' && s[37] == '}' && Grouped(s[1..37], h))
    || (|s| == 45 && s[..9] == "urn:uuid:" && Grouped(s[9..], h))
  }

  function Lower(c: char): char {
    if 'A' <= c <= 'F' then "abcdef"[c as int - 'A' as int] else c
  }

  function Lowered(s: string): string { seq(|s|, i requires 0 <= i < |s| => Lower(s[i])) }

  /** The 32 digits of a number, in either case. */
  predicate DigitsOf(h: string, id: Uuid) { Lowered(h) == Hex(id, 32) }

  lemma ValueOfLower(c: char)
    ensures HexValue(Lower(c)) == HexValue(c) && (HexValue(c).Some? ==> IsLowerHex(Lower(c)))
  {
  }

  lemma {:induction false} ParseLowered(s: string)
    ensures ParseHex(s) == ParseHex(Lowered(s))
    ensures ParseHex(s).Some? ==> forall i | 0 <= i < |s| :: IsLowerHex(Lowered(s)[i])
  {
    hide HexValue, Lower, IsLowerHex;
    if s != [] {
      ParseLowered(s[..|s| - 1]);
      ValueOfLower(s[|s| - 1]);
      assert Lowered(s) == Lowered(s[..|s| - 1]) + [Lower(s[|s| - 1])];
    }
  }

  lemma DigitsParse(h: string, id: Uuid)
    ensures DigitsOf(h, id) <==> |h| == 32 && ParseHex(h) == Some(id)
  {
    DigitsOfWidth(h, id, 32);
  }

  // With the width as a variable, which no proof unrolls.
  lemma DigitsOfWidth(h: string, id: Uuid, width: nat)
    requires width == 32
    ensures Lowered(h) == Hex(id, width) <==> |h| == width && ParseHex(h) == Some(id)
  {
    hide HexValue, Lower, Hex, ParseHex, Pow16, IsLowerHex;
    Pow16Words(0);
    ParseLowered(h);
    ParseHexBack(id, width);
    if |h| == width && ParseHex(h).Some? {
      HexIsTheText(Lowered(h));
    }
  }

  lemma GroupedIs(s: string, h: string)
    ensures Grouped(s, h) <==> |h| == 32 && s == Hyphenate(h)
  {
  }

  /** A text parses to an id exactly when it spells digits of it, in either case, in one of the four ways. */
  lemma ParsedExactly(s: string, id: Uuid)
    ensures ParseUuid(s) == Some(id) <==> exists h :: DigitsOf(h, id) && Spells(s, h)
  {
    hide ParseHex, Grouped, Hyphenate, Unhyphenate, DigitsOf;
    Pow16Words(0);
    if ParseUuid(s) == Some(id) {
      var core := Core(s);
      var h := if |core| == 36 then Unhyphenate(core) else core;
      if |core| == 36 {
        HyphensGoBack(core);
        GroupedIs(core, h);
      }
      DigitsParse(h, id);
      assert DigitsOf(h, id) && Spells(s, h);
    }
    forall h | DigitsOf(h, id) && Spells(s, h)
      ensures ParseUuid(s) == Some(id)
    {
      DigitsParse(h, id);
      GroupedIs(s, h);
      GroupedIs(Core(s), h);
      HyphensComeOff(h);
      HyphensStand(h);
    }
  }

  // Without braces or prefix.
  function Core(s: string): string {
    if |s| == 38 then s[1..37] else if |s| == 45 then s[9..] else s
  }

  lemma HyphensGoBack(s: string)
    requires |s| == 36 && s[8] == '-' && s[13] == '-' && s[18] == '-' && s[23] == '-'
    ensures Hyphenate(Unhyphenate(s)) == s
  {
    var h := Unhyphenate(s);
    assert h[..8] == s[..8] && h[8..12] == s[9..13] && h[12..16] == s[14..18] && h[16..20] == s[19..23] && h[20..] == s[24..];
  }

  /** An id is printed as its 32 lower-case digits in five groups. */
  lemma PrintedExactly(id: Uuid) returns (h: string)
    ensures DigitsOf(h, id) && Lowered(h) == h && Grouped(UuidText(id), h)
  {
    hide Grouped, Hyphenate;
    h := Hex(id, 32);
    assert Lowered(h) == h;
    GroupedIs(UuidText(id), h);
  }
}
