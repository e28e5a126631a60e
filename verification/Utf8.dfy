/**
 `String::from_utf8`: the byte strings it accepts (section 4 of RFC 3629) and the
 characters it yields, with what happens when a valid string is cut in two.
 */
module Utf8 {
  import opened Basics

  predicate IsTail(b: byte) { 0x80 <= b <= 0xBF }

  predicate TailsAt(s: Bytes, i: nat, j: nat)
    requires i <= j
  {
    j <= |s| && forall k | i <= k < j :: IsTail(s[k])
  }

  /** Length of the well-formed sequence that starts s, or 0 when there is none. */
  function ScalarLength(s: Bytes): (n: nat)
    ensures n <= |s|
    ensures n > 0 ==> !IsTail(s[0]) && TailsAt(s, 1, n)
  {
    if |s| >= 1 && s[0] <= 0x7F then 1
    else if |s| >= 2 && 0xC2 <= s[0] <= 0xDF && IsTail(s[1]) then 2
    else if |s| >= 3 && IsTail(s[2]) && WideSecond(s[0], s[1]) then 3
    else if |s| >= 4 && TailsAt(s, 2, 4) && WidestSecond(s[0], s[1]) then 4
    else 0
  }

  // Three bytes, without overlong forms and without surrogates.
  predicate WideSecond(lead: byte, second: byte) {
    || (lead == 0xE0 && 0xA0 <= second <= 0xBF)
    || (0xE1 <= lead <= 0xEC && IsTail(second))
    || (lead == 0xED && 0x80 <= second <= 0x9F)
    || (0xEE <= lead <= 0xEF && IsTail(second))
  }

  // Four bytes, without overlong forms and within U+10FFFF.
  predicate WidestSecond(lead: byte, second: byte) {
    || (lead == 0xF0 && 0x90 <= second <= 0xBF)
    || (0xF1 <= lead <= 0xF3 && IsTail(second))
    || (lead == 0xF4 && 0x80 <= second <= 0x8F)
  }

  function Scalar(s: Bytes): char
    requires ScalarLength(s) > 0
  {
    var n := ScalarLength(s);
    if n == 1 then s[0] as char
    else if n == 2 then Extend(Low(s[0], 0xC0), s[1]) as char
    else if n == 3 then Extend(Extend(Low(s[0], 0xE0), s[1]), s[2]) as char
    else Extend(Extend(Extend(Low(s[0], 0xF0), s[1]), s[2]), s[3]) as char
  }

  function Low(b: int, marker: int): int { b - marker }

  function Extend(high: int, tail: int): int { high * 0x40 + (tail - 0x80) }

  function Decode(s: Bytes): Option<string> {
    if s == [] then Some([])
    else
      var n := ScalarLength(s);
      if n == 0 then None
      else
        match Decode(s[n..])
        case None => None
        case Some(rest) => Some([Scalar(s)] + rest)
  }

  predicate Valid(s: Bytes) { Decode(s).Some? }

  function Text(s: Bytes): string
    requires Valid(s)
  {
    Decode(s).value
  }

  /** The bytes of one character: the table of section 3 of RFC 3629. */
  function EncodeScalar(c: char): Bytes {
    var v := c as int;
    if v < 0x80 then [v]
    else if v < 0x800 then [0xC0 + v / 0x40, 0x80 + v % 0x40]
    else if v < 0x1_0000 then [0xE0 + v / 0x40 / 0x40, 0x80 + v / 0x40 % 0x40, 0x80 + v % 0x40]
    else [0xF0 + v / 0x40 / 0x40 / 0x40, 0x80 + v / 0x40 / 0x40 % 0x40, 0x80 + v / 0x40 % 0x40, 0x80 + v % 0x40]
  }

  function Encode(text: string): Bytes {
    if text == [] then [] else EncodeScalar(text[0]) + Encode(text[1..])
  }

  lemma EncodeThenScalar(c: char)
    ensures ScalarLength(EncodeScalar(c)) == |EncodeScalar(c)| > 0
    ensures Scalar(EncodeScalar(c)) == c
  {
    var v := c as int;
    var s := EncodeScalar(c);
    if v < 0x80 {
    } else if v < 0x800 {
    } else if v < 0x1_0000 {
      assert Extend(Low(s[0], 0xE0), s[1]) == v / 0x40;
    } else {
      assert Extend(Low(s[0], 0xF0), s[1]) == v / 0x40 / 0x40;
      assert Extend(v / 0x40 / 0x40, s[2]) == v / 0x40;
    }
  }

  lemma ScalarThenEncode(s: Bytes)
    requires ScalarLength(s) > 0
    ensures EncodeScalar(Scalar(s)) == s[..ScalarLength(s)]
  {
    var n, v := ScalarLength(s), Scalar(s) as int;
    if n == 3 {
      ExtendSplits(Low(s[0], 0xE0), s[1]);
      ExtendSplits(Extend(Low(s[0], 0xE0), s[1]), s[2]);
    } else if n == 4 {
      ExtendSplits(Low(s[0], 0xF0), s[1]);
      ExtendSplits(Extend(Low(s[0], 0xF0), s[1]), s[2]);
      ExtendSplits(Extend(Extend(Low(s[0], 0xF0), s[1]), s[2]), s[3]);
    }
  }

  lemma ExtendSplits(high: nat, tail: byte)
    requires IsTail(tail)
    ensures Extend(high, tail) / 0x40 == high
    ensures 0x80 + Extend(high, tail) % 0x40 == tail
  {
  }

  /** Decoding undoes encoding on every text, and nothing else is valid. */
  lemma {:induction false} DecodeInvertsEncode(text: string)
    ensures Decode(Encode(text)) == Some(text)
  {
    if text != [] {
      var head, tail := EncodeScalar(text[0]), Encode(text[1..]);
      EncodeThenScalar(text[0]);
      ScalarLengthStable(head, head + tail);
      assert (head + tail)[|head|..] == tail;
      DecodeInvertsEncode(text[1..]);
      assert [text[0]] + text[1..] == text;
    }
  }

  lemma EncodeCons(c: char, rest: string)
    ensures Encode([c] + rest) == EncodeScalar(c) + Encode(rest)
  {
    assert ([c] + rest)[1..] == rest;
  }

  lemma {:induction false} EncodeInvertsDecode(s: Bytes)
    requires Valid(s)
    ensures Encode(Text(s)) == s
    decreases |s|
  {
    hide ScalarLength, Scalar, EncodeScalar, TailsAt;
    if s != [] {
      var n := ScalarLength(s);
      ScalarThenEncode(s);
      EncodeInvertsDecode(s[n..]);
      EncodeCons(Scalar(s), Text(s[n..]));
      assert s == s[..n] + s[n..];
    }
  }

  // What follows a well-formed sequence does not change it.
  lemma ScalarLengthStable(s: Bytes, t: Bytes)
    requires ScalarLength(s) > 0 && s <= t
    ensures ScalarLength(t) == ScalarLength(s) && Scalar(t) == Scalar(s)
  {
  }

  lemma {:induction false} DecodeConcat(a: Bytes, b: Bytes)
    requires Valid(a)
    ensures Valid(a + b) <==> Valid(b)
    ensures Valid(b) ==> Text(a + b) == Text(a) + Text(b)
    decreases |a|
  {
    if a == [] {
      assert a + b == b;
    } else {
      var n := ScalarLength(a);
      ScalarLengthStable(a, a + b);
      assert (a + b)[n..] == a[n..] + b;
      DecodeConcat(a[n..], b);
      assert Valid(b) ==> [Scalar(a)] + (Text(a[n..]) + Text(b)) == Text(a) + Text(b);
    }
  }

  /** A valid string may be cut exactly where the next byte does not continue a character. */
  lemma {:induction false} CutExactlyAtBoundaries(s: Bytes, i: nat)
    requires Valid(s) && i <= |s|
    ensures i == |s| || !IsTail(s[i]) <==> Valid(s[..i])
    ensures Valid(s[..i]) ==> Valid(s[i..]) && Text(s) == Text(s[..i]) + Text(s[i..])
    decreases |s|
  {
    hide ScalarLength, Scalar, IsTail;
    assert s == s[..i] + s[i..];
    if 0 < i {
      var n := ScalarLength(s);
      if i < n {
        ShortPrefixInvalid(s, i);
      } else {
        CutExactlyAtBoundaries(s[n..], i - n);
        FirstStands(s, i);
        assert s[..i][n..] == s[n..][..i - n];
        assert s[n..][i - n..] == s[i..];
      }
    }
    if Valid(s[..i]) {
      DecodeConcat(s[..i], s[i..]);
    }
  }

  lemma FirstStands(s: Bytes, i: nat)
    requires 0 < ScalarLength(s) <= i <= |s|
    ensures ScalarLength(s[..i]) == ScalarLength(s) && Scalar(s[..i]) == Scalar(s)
  {
  }

  lemma ShortPrefixInvalid(s: Bytes, i: nat)
    requires 0 < i < ScalarLength(s)
    ensures !Valid(s[..i])
  {
    assert ScalarLength(s[..i]) == 0;
  }

  const NEWLINE: byte := 10

  /** Two cuts, each right after a line feed or at an end, enclose valid text. */
  lemma CutBetweenLines(s: Bytes, i: nat, j: nat)
    requires Valid(s) && i <= j <= |s|
    requires i == 0 || i == |s| || s[i - 1] == NEWLINE
    requires j == 0 || j == |s| || s[j - 1] == NEWLINE
    ensures Valid(s[i..j])
  {
    NoTailAfterNewline(s, j);
    CutExactlyAtBoundaries(s, j);
    NoTailAfterNewline(s[..j], i);
    CutExactlyAtBoundaries(s[..j], i);
    assert s[..j][i..] == s[i..j];
  }

  lemma {:induction false} NoTailAfterNewline(s: Bytes, i: nat)
    requires Valid(s) && i <= |s|
    requires i == 0 || i == |s| || s[i - 1] == NEWLINE
    ensures i == |s| || !IsTail(s[i])
    decreases |s|
  {
    if s != [] {
      var n := ScalarLength(s);
      if i >= n {
        NoTailAfterNewline(s[n..], i - n);
      }
    }
  }
}
