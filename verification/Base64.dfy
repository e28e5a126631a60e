/** `decode_base64` and `base64_value` of `src/redactor.rs`, against the encoder of section 4 of RFC 4648. */
module Base64 {
  import opened Basics

  const PAD: byte := 0x3D

  type Sextet = v: byte | v < 64

  function Value(c: byte): Option<Sextet> {
    if 0x41 <= c <= 0x5A then Some(c - 0x41)
    else if 0x61 <= c <= 0x7A then Some(c - 0x61 + 26)
    else if 0x30 <= c <= 0x39 then Some(c - 0x30 + 52)
    else if c == 0x2B then Some(62)
    else if c == 0x2F then Some(63)
    else None
  }

  // ---- The decoder -----------------------------------------------------------------

  datatype Quad = Quad(v0: Sextet, v1: Sextet, v2: Sextet, v3: Sextet, padding: nat)

  /** The inner loop over one group of four: padding may only be followed by padding. */
  function ReadFrom(chunk: Bytes, values: seq<Sextet>, padding: nat): Option<Quad>
    requires |chunk| == 4 && |values| <= 4
    decreases 4 - |values|
  {
    if |values| == 4 then Some(Quad(values[0], values[1], values[2], values[3], padding))
    else
      var c := chunk[|values|];
      if c == PAD then ReadFrom(chunk, values + [0], padding + 1)
      else if padding > 0 || Value(c).None? then None
      else ReadFrom(chunk, values + [Value(c).value], padding)
  }

  // The three bytes of a group. A left shift of a `u8` by k keeps its low 8 - k bits, and the
  // operands of each bitwise or share no bit, so the or is a sum.
  function First(v0: Sextet, v1: Sextet): byte { v0 * 4 + v1 / 16 }

  function Second(v1: Sextet, v2: Sextet): byte { v1 % 16 * 16 + v2 / 4 }

  function Third(v2: Sextet, v3: Sextet): byte { v2 % 4 * 64 + v3 }

  function BytesOf(q: Quad): Bytes {
    if q.padding >= 2 then [First(q.v0, q.v1)]
    else if q.padding == 1 then [First(q.v0, q.v1), Second(q.v1, q.v2)]
    else [First(q.v0, q.v1), Second(q.v1, q.v2), Third(q.v2, q.v3)]
  }

  function DecodeGroups(input: Bytes): Option<Bytes> {
    if |input| < 4 then Some([])
    else
      match ReadFrom(input[..4], [], 0)
      case None => None
      case Some(q) =>
        match DecodeGroups(input[4..])
        case None => None
        case Some(rest) => Some(BytesOf(q) + rest)
  }

  function Decode(input: Bytes): Option<Bytes> {
    if |input| % 4 != 0 then None else DecodeGroups(input)
  }

  lemma {:induction false} GroupsAppend(a: Bytes, b: Bytes)
    requires |a| % 4 == 0
    ensures DecodeGroups(a).Some? && DecodeGroups(b).Some?
        ==> DecodeGroups(a + b) == Some(DecodeGroups(a).value + DecodeGroups(b).value)
    ensures DecodeGroups(a).None? || DecodeGroups(b).None? ==> DecodeGroups(a + b).None?
    decreases |a|
  {
    if a == [] {
      assert a + b == b;
      if DecodeGroups(b).Some? {
        assert [] + DecodeGroups(b).value == DecodeGroups(b).value;
      }
    } else {
      assert (a + b)[..4] == a[..4] && (a + b)[4..] == a[4..] + b;
      GroupsAppend(a[4..], b);
      if ReadFrom(a[..4], [], 0).Some? && DecodeGroups(a[4..]).Some? && DecodeGroups(b).Some? {
        var head := BytesOf(ReadFrom(a[..4], [], 0).value);
        assert head + (DecodeGroups(a[4..]).value + DecodeGroups(b).value)
            == (head + DecodeGroups(a[4..]).value) + DecodeGroups(b).value;
      }
    }
  }

  lemma GroupStep(input: Bytes, at: nat, output: Bytes)
    requires at % 4 == 0 && at + 4 <= |input|
    requires DecodeGroups(input[..at]) == Some(output)
    ensures var q := ReadFrom(input[at..at + 4], [], 0);
            if q.None? then DecodeGroups(input).None?
            else DecodeGroups(input[..at + 4]) == Some(output + BytesOf(q.value))
  {
    var before, chunk := input[..at], input[at..at + 4];
    OneGroup(chunk);
    assert before + chunk == input[..at + 4];
    GroupsAppend(before, chunk);
    if ReadFrom(chunk, [], 0).None? {
      assert input[..at + 4] + input[at + 4..] == input;
      GroupsAppend(input[..at + 4], input[at + 4..]);
    }
  }

  lemma OneGroup(chunk: Bytes)
    requires |chunk| == 4
    ensures var q := ReadFrom(chunk, [], 0);
            DecodeGroups(chunk) == if q.None? then None else Some(BytesOf(q.value))
  {
    assert chunk[..4] == chunk && chunk[4..] == [];
    var q := ReadFrom(chunk, [], 0);
    if q.Some? {
      assert BytesOf(q.value) + [] == BytesOf(q.value);
    }
  }

  method DecodeBase64(input: Bytes) returns (r: Option<Bytes>)
    ensures r == Decode(input)
  {
    if |input| % 4 != 0 {
      return None;
    }
    var output: Bytes, groups: nat := [], |input| / 4;
    assert |input| == 4 * groups;
    for k := 0 to groups
      invariant DecodeGroups(input[..4 * k]) == Some(output)
    {
      var more := AppendGroup(input, k, output);
      if more.None? {
        return None;
      }
      output := more.value;
    }
    assert input[..4 * groups] == input;
    r := Some(output);
  }

  // The body of the loop over groups.
  method AppendGroup(input: Bytes, k: nat, output: Bytes) returns (r: Option<Bytes>)
    requires 4 * k + 4 <= |input| && DecodeGroups(input[..4 * k]) == Some(output)
    ensures r.None? ==> DecodeGroups(input).None?
    ensures r.Some? ==> DecodeGroups(input[..4 * (k + 1)]) == r
  {
    GroupStep(input, 4 * k, output);
    var q := ReadQuad(input[4 * k..4 * k + 4]);
    if q.None? {
      return None;
    }
    var bytes := Push(q.value);
    r := Some(output + bytes);
  }

  method Push(q: Quad) returns (output: Bytes)
    ensures output == BytesOf(q)
  {
    output := [First(q.v0, q.v1)];
    if q.padding < 2 {
      output := output + [Second(q.v1, q.v2)];
    }
    if q.padding == 0 {
      output := output + [Third(q.v2, q.v3)];
    }
  }

  method ReadQuad(chunk: Bytes) returns (q: Option<Quad>)
    requires |chunk| == 4
    ensures q == ReadFrom(chunk, [], 0)
  {
    var values: seq<Sextet>, padding: nat := [], 0;
    for index := 0 to 4
      invariant |values| == index
      invariant ReadFrom(chunk, values, padding) == ReadFrom(chunk, [], 0)
    {
      if chunk[index] == PAD {
        padding := padding + 1;
        values := values + [0];
      } else if padding > 0 {
        return None;
      } else {
        var v := Value(chunk[index]);
        if v.None? {
          return None;
        }
        values := values + [v.value];
      }
    }
    q := Some(Quad(values[0], values[1], values[2], values[3], padding));
  }

  // ---- The encoder of the standard ---------------------------------------------------

  function Letter(v: Sextet): byte {
    if v < 26 then 0x41 + v
    else if v < 52 then 0x61 + (v - 26)
    else if v < 62 then 0x30 + (v - 52)
    else if v == 62 then 0x2B
    else 0x2F
  }

  // The four sextets of three bytes.
  function High(a: byte): Sextet { a / 4 }

  function Middle(a: byte, b: byte): Sextet { a % 4 * 16 + b / 16 }

  function MiddleEnd(a: byte): Sextet { a % 4 * 16 }

  function Lower(b: byte, c: byte): Sextet { b % 16 * 4 + c / 64 }

  function LowerEnd(b: byte): Sextet { b % 16 * 4 }

  function Lowest(c: byte): Sextet { c % 64 }

  function EncodeGroup(s: Bytes): (e: Bytes)
    requires 1 <= |s| <= 3
    ensures |e| == 4
  {
    if |s| == 1 then [Letter(High(s[0])), Letter(MiddleEnd(s[0])), PAD, PAD]
    else if |s| == 2 then [Letter(High(s[0])), Letter(Middle(s[0], s[1])), Letter(LowerEnd(s[1])), PAD]
    else [Letter(High(s[0])), Letter(Middle(s[0], s[1])), Letter(Lower(s[1], s[2])), Letter(Lowest(s[2]))]
  }

  function Encode(s: Bytes): Bytes {
    if s == [] then []
    else if |s| <= 3 then EncodeGroup(s)
    else EncodeGroup(s[..3]) + Encode(s[3..])
  }

  lemma ValueOfLetter(v: Sextet)
    ensures Letter(v) != PAD && Value(Letter(v)) == Some(v)
  {
  }

  lemma LetterOfValue(c: byte)
    ensures Value(PAD).None?
    ensures Value(c).Some? ==> c != PAD && Letter(Value(c).value) == c
  {
  }

  // ---- Which groups are read, and as what ---------------------------------------------

  function ValueOrZero(c: byte): Sextet { if Value(c).Some? then Value(c).value else 0 }

  /** How many characters of the group come before the first that is not a letter of the alphabet. */
  function Letters(chunk: Bytes, from: nat): (n: nat)
    requires |chunk| == 4 && from <= 4
    ensures from <= n <= 4
    ensures forall i | from <= i < n :: Value(chunk[i]).Some?
    ensures n < 4 ==> Value(chunk[n]).None?
    decreases 4 - from
  {
    if from < 4 && Value(chunk[from]).Some? then Letters(chunk, from + 1) else from
  }

  predicate PadsFrom(chunk: Bytes, n: nat)
    requires |chunk| == 4
  {
    forall i | n <= i < 4 :: chunk[i] == PAD
  }

  lemma {:induction false} ReadFromMeaning(chunk: Bytes, values: seq<Sextet>, padding: nat)
    requires |chunk| == 4 && |values| <= 4
    requires forall i | 0 <= i < |values| :: values[i] == ValueOrZero(chunk[i])
    requires var n := Letters(chunk, 0);
             padding == (if |values| <= n then 0 else |values| - n) && forall i | n <= i < |values| :: chunk[i] == PAD
    ensures var n := Letters(chunk, 0);
            ReadFrom(chunk, values, padding) ==
            if PadsFrom(chunk, n)
            then Some(Quad(ValueOrZero(chunk[0]), ValueOrZero(chunk[1]), ValueOrZero(chunk[2]), ValueOrZero(chunk[3]), 4 - n))
            else None
    decreases 4 - |values|
  {
    assert Value(PAD).None?;
    if |values| < 4 {
      var c := chunk[|values|];
      if c == PAD {
        ReadFromMeaning(chunk, values + [0], padding + 1);
      } else if padding == 0 && Value(c).Some? {
        ReadFromMeaning(chunk, values + [Value(c).value], padding);
      }
    }
  }

  /** A group is accepted exactly when it is letters followed by nothing but padding. */
  lemma GroupMeaning(chunk: Bytes)
    requires |chunk| == 4
    ensures var n := Letters(chunk, 0);
            ReadFrom(chunk, [], 0) ==
            if PadsFrom(chunk, n)
            then Some(Quad(ValueOrZero(chunk[0]), ValueOrZero(chunk[1]), ValueOrZero(chunk[2]), ValueOrZero(chunk[3]), 4 - n))
            else None
  {
    ReadFromMeaning(chunk, [], 0);
  }

  /** Letters then padding, in every group of four. */
  predicate WellFormed(input: Bytes)
    requires |input| % 4 == 0
  {
    input == [] || (PadsFrom(input[..4], Letters(input[..4], 0)) && WellFormed(input[4..]))
  }

  function Lost(input: Bytes): nat
    requires |input| % 4 == 0
  {
    if input == [] then 0
    else (4 - Letters(input[..4], 0)) + Lost(input[4..])
  }

  function LostBeyondTwo(input: Bytes): nat
    requires |input| % 4 == 0
  {
    if input == [] then 0
    else (if Letters(input[..4], 0) < 2 then 2 - Letters(input[..4], 0) else 0) + LostBeyondTwo(input[4..])
  }

  /**
   Decoding succeeds exactly on well-formed input. Its length is three bytes for each group,
   less one for each padding character, except that no group yields fewer than one byte.
   */
  lemma {:induction false} DecodeAcceptsExactly(input: Bytes)
    ensures Decode(input).Some? <==> |input| % 4 == 0 && WellFormed(input)
    ensures Decode(input).Some? ==> |Decode(input).value| == 3 * (|input| / 4) - Lost(input) + LostBeyondTwo(input)
    decreases |input|
  {
    if |input| % 4 == 0 && input != [] {
      GroupMeaning(input[..4]);
      DecodeAcceptsExactly(input[4..]);
    }
  }

  /** A group of nothing but padding is accepted, and yields one zero byte. */
  lemma PaddingAloneDecodes(chunk: Bytes)
    requires |chunk| == 4 && PadsFrom(chunk, 0)
    ensures Decode(chunk) == Some([0])
  {
    GroupMeaning(chunk);
    OneGroup(chunk);
  }

  // ---- Round trips -------------------------------------------------------------------

  lemma BytesOfSextets(a: byte, b: byte, c: byte)
    ensures First(High(a), Middle(a, b)) == a
    ensures Second(Middle(a, b), Lower(b, c)) == b
    ensures Third(Lower(b, c), Lowest(c)) == c
    ensures First(High(a), MiddleEnd(a)) == a
    ensures Second(Middle(a, b), LowerEnd(b)) == b
  {
  }

  // A group that starts with n letters decodes to the bytes of their values.
  lemma DecodeLetters(chunk: Bytes, n: nat)
    requires |chunk| == 4 && 2 <= n <= 4 && PadsFrom(chunk, n)
    requires forall i | 0 <= i < n :: Value(chunk[i]).Some?
    ensures var q := Quad(ValueOrZero(chunk[0]), ValueOrZero(chunk[1]), ValueOrZero(chunk[2]), ValueOrZero(chunk[3]), 4 - n);
            DecodeGroups(chunk) == Some(BytesOf(q))
  {
    assert Value(PAD).None?;
    GroupMeaning(chunk);
    OneGroup(chunk);
    assert Letters(chunk, 0) == n;
  }

  lemma DecodeFour(v0: Sextet, v1: Sextet, v2: Sextet, v3: Sextet)
    ensures DecodeGroups([Letter(v0), Letter(v1), Letter(v2), Letter(v3)]) == Some([First(v0, v1), Second(v1, v2), Third(v2, v3)])
    ensures DecodeGroups([Letter(v0), Letter(v1), Letter(v2), PAD]) == Some([First(v0, v1), Second(v1, v2)])
    ensures DecodeGroups([Letter(v0), Letter(v1), PAD, PAD]) == Some([First(v0, v1)])
  {
    ValueOfLetter(v0);
    ValueOfLetter(v1);
    ValueOfLetter(v2);
    ValueOfLetter(v3);
    DecodeLetters([Letter(v0), Letter(v1), Letter(v2), Letter(v3)], 4);
    DecodeLetters([Letter(v0), Letter(v1), Letter(v2), PAD], 3);
    DecodeLetters([Letter(v0), Letter(v1), PAD, PAD], 2);
  }

  lemma ThreeRoundTrip(a: byte, b: byte, c: byte)
    ensures DecodeGroups(EncodeGroup([a, b, c])) == Some([a, b, c])
  {
    BytesOfSextets(a, b, c);
    DecodeFour(High(a), Middle(a, b), Lower(b, c), Lowest(c));
  }

  lemma TwoRoundTrip(a: byte, b: byte)
    ensures DecodeGroups(EncodeGroup([a, b])) == Some([a, b])
  {
    BytesOfSextets(a, b, b);
    DecodeFour(High(a), Middle(a, b), LowerEnd(b), Lowest(b));
  }

  lemma OneRoundTrip(a: byte)
    ensures DecodeGroups(EncodeGroup([a])) == Some([a])
  {
    BytesOfSextets(a, a, a);
    DecodeFour(High(a), MiddleEnd(a), Lowest(a), Lowest(a));
  }

  lemma GroupRoundTrip(s: Bytes)
    requires 1 <= |s| <= 3
    ensures DecodeGroups(EncodeGroup(s)) == Some(s)
  {
    if |s| == 1 {
      OneRoundTrip(s[0]);
      assert s == [s[0]];
    } else if |s| == 2 {
      TwoRoundTrip(s[0], s[1]);
      assert s == [s[0], s[1]];
    } else {
      ThreeRoundTrip(s[0], s[1], s[2]);
      assert s == [s[0], s[1], s[2]];
    }
  }

  lemma Prepend(head: Bytes, tail: Bytes, x: Bytes, y: Bytes)
    requires |head| == 4 && DecodeGroups(head) == Some(x)
    requires Decode(tail) == Some(y)
    ensures Decode(head + tail) == Some(x + y)
  {
    assert |head + tail| == 4 + |tail|;
    GroupsAppend(head, tail);
  }

  lemma EncodeSplits(s: Bytes) returns (head: Bytes, tail: Bytes)
    requires s != []
    ensures Encode(s) == head + tail && |head| == 4
    ensures var n := if |s| <= 3 then |s| else 3;
            DecodeGroups(head) == Some(s[..n]) && tail == Encode(s[n..])
  {
    var n := if |s| <= 3 then |s| else 3;
    head, tail := EncodeGroup(s[..n]), Encode(s[n..]);
    GroupRoundTrip(s[..n]);
    if |s| <= 3 {
      assert s[..n] == s;
      assert head + [] == head;
    }
  }

  /** Decoding undoes encoding, on every sequence of bytes. */
  lemma {:induction false} DecodeInvertsEncode(s: Bytes)
    ensures Decode(Encode(s)) == Some(s)
    decreases |s|
  {
    if s != [] {
      var head, tail := EncodeSplits(s);
      var n := if |s| <= 3 then |s| else 3;
      DecodeInvertsEncode(s[n..]);
      Prepend(head, tail, s[..n], s[n..]);
      assert s[..n] + s[n..] == s;
    }
  }

  // Padding only ends the input, leaves at least one byte, and no bits beyond the bytes are set.
  predicate Canonical(input: Bytes)
    requires |input| % 4 == 0
  {
    if input == [] then true
    else
      && (|input| > 4 ==> Letters(input[..4], 0) == 4)
      && CanonicalGroup(input[..4])
      && Canonical(input[4..])
  }

  // The sextets come back, the last one only when its unused bits are clear.
  lemma SextetsComeBack(v0: Sextet, v1: Sextet, v2: Sextet, v3: Sextet)
    ensures High(First(v0, v1)) == v0
    ensures MiddleEnd(First(v0, v1)) == v1 <==> v1 % 16 == 0
    ensures Middle(First(v0, v1), Second(v1, v2)) == v1
    ensures LowerEnd(Second(v1, v2)) == v2 <==> v2 % 4 == 0
    ensures Lower(Second(v1, v2), Third(v2, v3)) == v2
    ensures Lowest(Third(v2, v3)) == v3
  {
  }

  lemma LetterInjective(v: Sextet, w: Sextet)
    ensures Letter(v) == Letter(w) <==> v == w
  {
    ValueOfLetter(v);
    ValueOfLetter(w);
  }

  predicate CanonicalGroup(chunk: Bytes)
    requires |chunk| == 4
  {
    var n := Letters(chunk, 0);
    && n >= 2
    && (n == 2 ==> ValueOrZero(chunk[1]) % 16 == 0)
    && (n == 3 ==> ValueOrZero(chunk[2]) % 4 == 0)
  }

  lemma FourComeBack(v0: Sextet, v1: Sextet, v2: Sextet, v3: Sextet)
    ensures EncodeGroup([First(v0, v1), Second(v1, v2), Third(v2, v3)]) == [Letter(v0), Letter(v1), Letter(v2), Letter(v3)]
  {
    SextetsComeBack(v0, v1, v2, v3);
  }

  lemma ThreeComeBack(v0: Sextet, v1: Sextet, v2: Sextet)
    ensures EncodeGroup([First(v0, v1), Second(v1, v2)]) == [Letter(v0), Letter(v1), Letter(v2), PAD] <==> v2 % 4 == 0
  {
    SextetsComeBack(v0, v1, v2, v2);
    var back := LowerEnd(Second(v1, v2));
    assert EncodeGroup([First(v0, v1), Second(v1, v2)]) == [Letter(v0), Letter(v1), Letter(back), PAD];
    OneLetterApart(Letter(v0), Letter(v1), back, v2, PAD);
  }

  lemma OneLetterApart(x: byte, y: byte, v: Sextet, w: Sextet, z: byte)
    ensures [x, y, Letter(v), z] == [x, y, Letter(w), z] <==> v == w
    ensures [x, Letter(v), y, z] == [x, Letter(w), y, z] <==> v == w
  {
    LetterInjective(v, w);
    assert [x, y, Letter(v), z] == [x, y, Letter(w), z] ==> [x, y, Letter(v), z][2] == [x, y, Letter(w), z][2];
    assert [x, Letter(v), y, z] == [x, Letter(w), y, z] ==> [x, Letter(v), y, z][1] == [x, Letter(w), y, z][1];
  }

  lemma TwoComeBack(v0: Sextet, v1: Sextet)
    ensures EncodeGroup([First(v0, v1)]) == [Letter(v0), Letter(v1), PAD, PAD] <==> v1 % 16 == 0
  {
    SextetsComeBack(v0, v1, v1, v1);
    var back := MiddleEnd(First(v0, v1));
    assert EncodeGroup([First(v0, v1)]) == [Letter(v0), Letter(back), PAD, PAD];
    OneLetterApart(Letter(v0), PAD, back, v1, PAD);
  }

  lemma OneDoesNotComeBack(v: byte, chunk: Bytes)
    requires |chunk| == 4 && chunk[1] == PAD
    ensures EncodeGroup([v]) != chunk
  {
    ValueOfLetter(MiddleEnd(v));
    assert EncodeGroup([v])[1] == Letter(MiddleEnd(v));
  }

  lemma GroupComesBack(chunk: Bytes)
    requires |chunk| == 4 && PadsFrom(chunk, Letters(chunk, 0))
    ensures ReadFrom(chunk, [], 0).Some?
    ensures EncodeGroup(BytesOf(ReadFrom(chunk, [], 0).value)) == chunk <==> CanonicalGroup(chunk)
  {
    GroupMeaning(chunk);
    var n := Letters(chunk, 0);
    if n < 2 {
      OneDoesNotComeBack(First(ValueOrZero(chunk[0]), ValueOrZero(chunk[1])), chunk);
    } else {
      var v0, v1, v2, v3 := Spelled(chunk, n);
      if n == 2 {
        TwoComeBack(v0, v1);
      } else if n == 3 {
        ThreeComeBack(v0, v1, v2);
      } else {
        FourComeBack(v0, v1, v2, v3);
      }
    }
  }

  lemma Spelled(chunk: Bytes, n: nat) returns (v0: Sextet, v1: Sextet, v2: Sextet, v3: Sextet)
    requires |chunk| == 4 && 2 <= n <= 4 && PadsFrom(chunk, n)
    requires forall i | 0 <= i < n :: Value(chunk[i]).Some?
    ensures v0 == ValueOrZero(chunk[0]) && v1 == ValueOrZero(chunk[1])
    ensures v2 == ValueOrZero(chunk[2]) && v3 == ValueOrZero(chunk[3])
    ensures chunk == [Letter(v0), Letter(v1), if n > 2 then Letter(v2) else PAD, if n > 3 then Letter(v3) else PAD]
  {
    v0, v1, v2, v3 := ValueOrZero(chunk[0]), ValueOrZero(chunk[1]), ValueOrZero(chunk[2]), ValueOrZero(chunk[3]);
    LetterOfValue(chunk[0]);
    LetterOfValue(chunk[1]);
    LetterOfValue(chunk[2]);
    LetterOfValue(chunk[3]);
  }

  lemma EncodeJoins(head: Bytes, rest: Bytes)
    requires |head| == 3 && rest != []
    ensures Encode(head + rest) == EncodeGroup(head) + Encode(rest)
  {
    assert (head + rest)[..3] == head && (head + rest)[3..] == rest;
  }

  lemma GroupsCompare(a: Bytes, b: Bytes, c: Bytes, d: Bytes)
    requires |a| == |c|
    ensures a + b == c + d <==> a == c && b == d
  {
    assert a + b == c + d ==> (a + b)[..|a|] == (c + d)[..|a|] && (a + b)[|a|..] == (c + d)[|a|..];
  }

  lemma DecodeSplits(input: Bytes) returns (q: Quad, rest: Bytes)
    requires Decode(input).Some? && input != []
    ensures |input| >= 4 && ReadFrom(input[..4], [], 0) == Some(q) && Decode(input[4..]) == Some(rest)
    ensures Decode(input).value == BytesOf(q) + rest
    ensures PadsFrom(input[..4], Letters(input[..4], 0))
    ensures |input| > 4 ==> rest != []
  {
    q, rest := ReadFrom(input[..4], [], 0).value, Decode(input[4..]).value;
    GroupMeaning(input[..4]);
    if |input| > 4 {
      NotEmpty(input[4..]);
    }
  }

  lemma FirstGroupComesBack(chunk: Bytes, tail: Bytes, q: Quad, rest: Bytes)
    requires |chunk| == 4 && ReadFrom(chunk, [], 0) == Some(q) && PadsFrom(chunk, Letters(chunk, 0))
    requires tail != [] && rest != []
    ensures Encode(BytesOf(q) + rest) == chunk + tail <==> Letters(chunk, 0) == 4 && Encode(rest) == tail
  {
    PaddingOf(chunk);
    if q.padding == 0 {
      GroupComesBack(chunk);
      EncodeJoins(BytesOf(q), rest);
      GroupsCompare(EncodeGroup(BytesOf(q)), Encode(rest), chunk, tail);
    } else {
      PaddedGroupDiffers(BytesOf(q) + rest, chunk + tail);
    }
  }

  /** Encoding what was decoded gives the input back exactly when the input is canonical. */
  lemma {:induction false} EncodeInvertsDecodeExactly(input: Bytes)
    requires Decode(input).Some?
    ensures |input| % 4 == 0
    ensures Encode(Decode(input).value) == input <==> Canonical(input)
    decreases |input|
  {
    if input != [] {
      var q, rest := DecodeSplits(input);
      var chunk, tail := input[..4], input[4..];
      assert input == chunk + tail;
      if tail == [] {
        assert BytesOf(q) + rest == BytesOf(q) && chunk == input;
        GroupComesBack(chunk);
      } else {
        EncodeInvertsDecodeExactly(tail);
        FirstGroupComesBack(chunk, tail, q, rest);
      }
    }
  }

  lemma PaddingOf(chunk: Bytes)
    requires |chunk| == 4 && ReadFrom(chunk, [], 0).Some?
    ensures ReadFrom(chunk, [], 0).value.padding == 4 - Letters(chunk, 0)
    ensures Letters(chunk, 0) < 4 ==> chunk[3] == PAD
  {
    GroupMeaning(chunk);
  }

  lemma NotEmpty(input: Bytes)
    requires input != [] && Decode(input).Some?
    ensures Decode(input).value != []
  {
  }

  lemma PaddedGroupDiffers(s: Bytes, input: Bytes)
    requires |input| > 4 && input[3] == PAD
    ensures Encode(s) != input
  {
    if |s| > 3 {
      ValueOfLetter(Lowest(s[2]));
      assert Encode(s)[3] == EncodeGroup(s[..3])[3];
    }
  }
}
