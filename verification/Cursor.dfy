/**
 The search cursor of `src/storage.rs`: `make_cursor`, `cursor_binding`, `parse_cursor`.
 A literal is its UTF-8 bytes.
 */
module Cursor {
  import opened Basics
  import opened Uuids
  import Fnv

  datatype Stream = Stdout | Stderr

  function StreamName(stream: Stream): string {
    match stream
    case Stdout => "stdout"
    case Stderr => "stderr"
  }

  // ---- Splitting and numbers --------------------------------------------------------

  /** `str::split` on one character. */
  function Split(s: string, sep: char): (parts: seq<string>)
    ensures |parts| > 0
  {
    if s == [] then [[]]
    else
      var rest := Split(s[1..], sep);
      if s[0] == sep then [[]] + rest else [[s[0]] + rest[0]] + rest[1..]
  }

  function Join(parts: seq<string>, sep: char): string
    requires |parts| > 0
  {
    if |parts| == 1 then parts[0] else parts[0] + [sep] + Join(parts[1..], sep)
  }

  lemma {:induction false} SplitField(field: string, rest: string, sep: char)
    requires sep !in field
    ensures Split(field + [sep] + rest, sep) == [field] + Split(rest, sep)
    ensures Split(field, sep) == [field]
  {
    var s := field + [sep] + rest;
    if field == [] {
      assert s[1..] == rest;
    } else {
      SplitField(field[1..], rest, sep);
      assert s[1..] == field[1..] + [sep] + rest;
      assert [field[0]] + field[1..] == field;
      assert Split(s, sep)[1..] == Split(rest, sep);
    }
  }

  lemma {:induction false} JoinSplit(s: string, sep: char)
    ensures Join(Split(s, sep), sep) == s
  {
    if s != [] {
      JoinSplit(s[1..], sep);
      var rest := Split(s[1..], sep);
      if s[0] == sep {
        assert Split(s, sep)[1..] == rest;
      } else {
        assert Split(s, sep)[1..] == rest[1..];
      }
    }
  }

  function DigitValue(c: char): nat
    requires IsDigit(c)
  {
    (c as int) - ('0' as int)
  }

  function NumberValue(s: string): nat
    requires AllDigits(s)
  {
    if s == [] then 0 else NumberValue(s[..|s| - 1]) * 10 + DigitValue(s[|s| - 1])
  }

  /** `str::parse::<u64>`: an optional plus sign, then at least one digit, within range. */
  function ParseU64(s: string): Option<u64> {
    var digits := if s != [] && s[0] == '+' then s[1..] else s;
    if digits != [] && AllDigits(digits) && NumberValue(digits) <= MAX_U64
    then Some(NumberValue(digits))
    else None
  }

  lemma {:induction false} DecimalHasItsValue(n: nat)
    ensures AllDigits(Decimal(n)) && NumberValue(Decimal(n)) == n
  {
    DecimalIsDigits(n);
    if n >= 10 {
      var s := Decimal(n);
      DecimalHasItsValue(n / 10);
      assert s[..|s| - 1] == Decimal(n / 10);
    }
  }

  lemma ParseDecimal(n: u64)
    ensures ParseU64(Decimal(n)) == Some(n)
  {
    DecimalHasItsValue(n);
    DecimalIsDigits(n);
    assert IsDigit(Decimal(n)[0]);
  }

  function Zeros(k: nat): string {
    if k == 0 then [] else Zeros(k - 1) + ['0']
  }

  /** A number as it may be written: a plus sign, and any zeros in front. */
  function Spelled(n: nat, plus: bool, zeros: nat): string {
    (if plus then ['+'] else []) + (Zeros(zeros) + Decimal(n))
  }

  lemma {:induction false} ZerosAddNothing(zeros: nat, s: string)
    requires AllDigits(s)
    ensures AllDigits(Zeros(zeros) + s) && NumberValue(Zeros(zeros) + s) == NumberValue(s)
    decreases |s| + zeros
  {
    var padded := Zeros(zeros) + s;
    if s != [] {
      ZerosAddNothing(zeros, s[..|s| - 1]);
      assert padded[..|padded| - 1] == Zeros(zeros) + s[..|s| - 1];
    } else if zeros > 0 {
      ZerosAddNothing(zeros - 1, s);
      assert padded[..|padded| - 1] == Zeros(zeros - 1) + s;
    }
  }

  lemma OneDigitMore(v: nat, c: char)
    requires IsDigit(c)
    ensures Decimal(v * 10 + DigitValue(c)) == if v == 0 then [c] else Decimal(v) + [c]
  {
    assert Digit(DigitValue(c)) == c;
    assert (v * 10 + DigitValue(c)) / 10 == v && (v * 10 + DigitValue(c)) % 10 == DigitValue(c);
  }

  /** Digits are the number they stand for, after some zeros. */
  lemma {:induction false} DigitsSpell(s: string) returns (zeros: nat)
    requires s != [] && AllDigits(s)
    ensures s == Zeros(zeros) + Decimal(NumberValue(s))
  {
    hide Decimal, DigitValue, Zeros;
    var front, last := s[..|s| - 1], s[|s| - 1];
    var v := NumberValue(front);
    OneDigitMore(v, last);
    assert s == front + [last];
    if front == [] {
      NoZeros(s);
      zeros := 0;
    } else {
      zeros := DigitsSpell(front);
      if v == 0 {
        ZeroIsOne(zeros);
        zeros := zeros + 1;
      } else {
        assert s == Zeros(zeros) + (Decimal(v) + [last]);
      }
    }
  }

  lemma NoZeros(s: string)
    ensures Zeros(0) + s == s
  {
  }

  lemma ZeroIsOne(zeros: nat)
    ensures Zeros(zeros) + Decimal(0) == Zeros(zeros + 1)
  {
    assert Decimal(0) == ['0'];
  }

  /** `str::parse::<u64>` accepts exactly the spellings of the numbers in its range. */
  lemma ParsedExactly(s: string, n: u64)
    ensures ParseU64(s) == Some(n) <==> exists plus: bool, zeros: nat :: s == Spelled(n, plus, zeros)
  {
    hide NumberValue, Decimal, Zeros;
    if ParseU64(s) == Some(n) {
      var zeros := DigitsSpell(if s[0] == '+' then s[1..] else s);
      assert s == Spelled(n, s[0] == '+', zeros);
    }
    forall plus: bool, zeros: nat | s == Spelled(n, plus, zeros)
      ensures ParseU64(s) == Some(n)
    {
      SpelledParses(n, plus, zeros);
    }
  }

  lemma SpelledParses(n: u64, plus: bool, zeros: nat)
    ensures ParseU64(Spelled(n, plus, zeros)) == Some(n)
  {
    hide NumberValue, Decimal, Zeros;
    var digits := Zeros(zeros) + Decimal(n);
    DecimalHasItsValue(n);
    DecimalIsDigits(n);
    ZerosAddNothing(zeros, Decimal(n));
    assert IsDigit(digits[0]);
    if plus {
      assert Spelled(n, plus, zeros)[1..] == digits;
    } else {
      assert Spelled(n, plus, zeros) == digits;
    }
  }

  // ---- The cursor ------------------------------------------------------------------

  function AsciiBytes(s: string): Bytes
    requires forall i | 0 <= i < |s| :: s[i] < 128 as char
  {
    seq(|s|, i requires 0 <= i < |s| => s[i] as int)
  }

  function Binding(run: Uuid, stream: Stream, literal: Bytes, nextLine: u64): u64 {
    DecimalIsDigits(nextLine);
    Fnv.Checksum(AsciiBytes(UuidText(run) + ":" + StreamName(stream) + ":") + literal + AsciiBytes(":" + Decimal(nextLine)))
  }

  function BindingText(run: Uuid, stream: Stream, literal: Bytes, nextLine: u64): string {
    Hex(Binding(run, stream, literal, nextLine), 16)
  }

  // Version, run, stream, hash and line, separated by colons.
  function CursorText(run: Uuid, stream: Stream, hash: string, numeral: string): string {
    "v1" + [':'] + (UuidText(run) + [':'] + (StreamName(stream) + [':'] + (hash + [':'] + numeral)))
  }

  function MakeCursor(run: Uuid, stream: Stream, literal: Bytes, nextLine: u64): string {
    CursorText(run, stream, BindingText(run, stream, literal, nextLine), Decimal(nextLine))
  }

  function ParseCursor(cursor: string, run: Uuid, stream: Stream, literal: Bytes): Result<u64, Error> {
    var parts := Split(cursor, ':');
    if |parts| <= 4 then Err(InvalidInput)
    else
      match ParseU64(parts[4])
      case None => Err(InvalidInput)
      case Some(nextLine) =>
        if || |parts| != 5
           || parts[0] != "v1"
           || parts[1] != UuidText(run)
           || parts[2] != StreamName(stream)
           || parts[3] != BindingText(run, stream, literal, nextLine)
        then Err(InvalidInput)
        else Ok(nextLine)
  }

  lemma SplitCursor(run: Uuid, stream: Stream, hash: string, numeral: string)
    requires ':' !in hash && ':' !in numeral
    ensures Split(CursorText(run, stream, hash, numeral), ':') == ["v1", UuidText(run), StreamName(stream), hash, numeral]
  {
    var tail3 := hash + [':'] + numeral;
    var tail2 := StreamName(stream) + [':'] + tail3;
    var tail1 := UuidText(run) + [':'] + tail2;
    SplitField("v1", tail1, ':');
    SplitField(UuidText(run), tail2, ':');
    SplitField(StreamName(stream), tail3, ':');
    SplitField(hash, numeral, ':');
    SplitField(numeral, [], ':');
  }

  lemma AcceptedAsPrinted(cursor: string, run: Uuid, stream: Stream, literal: Bytes, n: u64)
    ensures ParseCursor(cursor, run, stream, literal) == Ok(n)
       <==> exists numeral ::
              ParseU64(numeral) == Some(n)
              && cursor == CursorText(run, stream, BindingText(run, stream, literal, n), numeral)
  {
    var hash := BindingText(run, stream, literal, n);
    if ParseCursor(cursor, run, stream, literal) == Ok(n) {
      var numeral := AcceptedShape(cursor, run, stream, literal, n);
    }
    forall numeral | ParseU64(numeral) == Some(n) && cursor == CursorText(run, stream, hash, numeral)
      ensures ParseCursor(cursor, run, stream, literal) == Ok(n)
    {
      NumeralHasNoColon(numeral);
      SplitCursor(run, stream, hash, numeral);
    }
  }

  lemma AcceptedShape(cursor: string, run: Uuid, stream: Stream, literal: Bytes, n: u64) returns (numeral: string)
    requires ParseCursor(cursor, run, stream, literal) == Ok(n)
    ensures ParseU64(numeral) == Some(n)
    ensures cursor == CursorText(run, stream, BindingText(run, stream, literal, n), numeral)
  {
    var parts := Split(cursor, ':');
    numeral := parts[4];
    JoinSplit(cursor, ':');
    JoinFive(parts, ':');
  }

  lemma JoinFive(p: seq<string>, sep: char)
    requires |p| == 5
    ensures Join(p, sep) == p[0] + [sep] + (p[1] + [sep] + (p[2] + [sep] + (p[3] + [sep] + p[4])))
  {
    var p1, p2, p3 := p[1..], p[2..], p[3..];
    assert p1[1..] == p2 && p2[1..] == p3 && p3[1..] == [p[4]];
    assert Join(p3, sep) == p[3] + [sep] + p[4];
    assert Join(p2, sep) == p[2] + [sep] + Join(p3, sep);
    assert Join(p1, sep) == p[1] + [sep] + Join(p2, sep);
  }

  lemma NumeralHasNoColon(numeral: string)
    requires ParseU64(numeral).Some?
    ensures ':' !in numeral
  {
    assert forall i | 1 <= i < |numeral| :: numeral[i] == numeral[1..][i - 1];
  }

  /** Every cursor handed out is read back, for the same query, as the line it was made for. */
  lemma CursorRoundTrip(run: Uuid, stream: Stream, literal: Bytes, n: u64)
    ensures ParseCursor(MakeCursor(run, stream, literal, n), run, stream, literal) == Ok(n)
  {
    CursorShape(run, stream, literal, n);
    ParseDecimal(n);
    AcceptedAsPrinted(MakeCursor(run, stream, literal, n), run, stream, literal, n);
  }

  lemma CursorShape(run: Uuid, stream: Stream, literal: Bytes, n: u64)
    ensures Split(MakeCursor(run, stream, literal, n), ':')
         == ["v1", UuidText(run), StreamName(stream), BindingText(run, stream, literal, n), Decimal(n)]
  {
    DecimalIsDigits(n);
    SplitCursor(run, stream, BindingText(run, stream, literal, n), Decimal(n));
  }

  // ---- What the hash binds --------------------------------------------------------------------

  const COLON: byte := 58

  function Colons(a: Bytes, b: Bytes, c: Bytes, d: Bytes): Bytes { a + [COLON] + b + [COLON] + c + [COLON] + d }

  function NameBytes(stream: Stream): Bytes { AsciiBytes(if stream == Stdout then "stdout" else "stderr") }

  /** The bytes that are hashed: run, stream, literal and line, separated by colons. */
  function Hashed(run: Uuid, stream: Stream, literal: Bytes, n: u64): Bytes {
    DecimalIsDigits(n);
    Colons(AsciiBytes(UuidText(run)), NameBytes(stream), literal, AsciiBytes(Decimal(n)))
  }

  lemma AsciiJoin(a: string, b: string)
    requires forall i | 0 <= i < |a| :: a[i] < 128 as char
    requires forall i | 0 <= i < |b| :: b[i] < 128 as char
    ensures AsciiBytes(a + b) == AsciiBytes(a) + AsciiBytes(b)
  {
  }

  lemma ColonsJoin(a: Bytes, b: Bytes, c: Bytes, d: Bytes)
    ensures a + [COLON] + b + [COLON] + c + ([COLON] + d) == Colons(a, b, c, d)
  {
  }

  lemma BindingIsOfHashed(run: Uuid, stream: Stream, literal: Bytes, n: u64)
    ensures Binding(run, stream, literal, n) == Fnv.Checksum(Hashed(run, stream, literal, n))
  {
    hide Fnv.Checksum, UuidText, Decimal, Colons;
    DecimalIsDigits(n);
    var id, name, digits := UuidText(run), StreamName(stream), Decimal(n);
    assert AsciiBytes(":") == [COLON];
    AsciiJoin(id, ":");
    AsciiJoin(id + ":", name);
    AsciiJoin(id + ":" + name, ":");
    AsciiJoin(":", digits);
    ColonsJoin(AsciiBytes(id), AsciiBytes(name), literal, AsciiBytes(digits));
  }

  /** A number in sixteen lower-case hexadecimal digits. */
  predicate SixteenDigits(s: string, x: u64) {
    |s| == 16 && (forall i | 0 <= i < 16 :: IsLowerHex(s[i])) && ParseHex(s) == Some(x)
  }

  lemma SixteenDigitsAre(s: string, x: u64)
    ensures SixteenDigits(s, x) <==> s == Hex(x, 16)
  {
    Pow16Words(0);
    ParseHexBack(x, 16);
    if SixteenDigits(s, x) {
      HexIsTheText(s);
    }
  }

  /** The fourth field of a cursor is the checksum of these bytes. */
  lemma HashFieldIs(run: Uuid, stream: Stream, literal: Bytes, n: u64)
    ensures var fields := Split(MakeCursor(run, stream, literal, n), ':');
            |fields| == 5 && SixteenDigits(fields[3], Fnv.Checksum(Hashed(run, stream, literal, n)))
  {
    hide Binding, Hashed, Split, SixteenDigits, Hex;
    CursorShape(run, stream, literal, n);
    BindingIsOfHashed(run, stream, literal, n);
    SixteenDigitsAre(BindingText(run, stream, literal, n), Binding(run, stream, literal, n));
  }

  /**
   A cursor is accepted for line n exactly when it is the version, the run, the stream, the checksum of run,
   stream, literal and n, and a numeral for n.
   */
  lemma AcceptedExactly(cursor: string, run: Uuid, stream: Stream, literal: Bytes, n: u64)
    ensures ParseCursor(cursor, run, stream, literal) == Ok(n)
       <==> exists hash, numeral ::
              && ParseU64(numeral) == Some(n) && SixteenDigits(hash, Fnv.Checksum(Hashed(run, stream, literal, n)))
              && cursor == CursorText(run, stream, hash, numeral)
  {
    hide Binding, Hashed, Hex, SixteenDigits, ParseU64, ParseCursor, CursorText;
    BindingIsOfHashed(run, stream, literal, n);
    AcceptedAsPrinted(cursor, run, stream, literal, n);
    forall hash
      ensures SixteenDigits(hash, Binding(run, stream, literal, n)) <==> hash == BindingText(run, stream, literal, n)
    {
      SixteenDigitsAre(hash, Binding(run, stream, literal, n));
    }
  }

  lemma SameHash(run: Uuid, stream: Stream, literal: Bytes, n: u64, run': Uuid, stream': Stream, literal': Bytes, n': u64)
    ensures BindingText(run, stream, literal, n) == BindingText(run', stream', literal', n')
       <==> Fnv.Checksum(Hashed(run, stream, literal, n)) == Fnv.Checksum(Hashed(run', stream', literal', n'))
  {
    hide Binding, Hashed, Hex;
    BindingIsOfHashed(run, stream, literal, n);
    BindingIsOfHashed(run', stream', literal', n');
    Pow16Words(0);
    if BindingText(run, stream, literal, n) == BindingText(run', stream', literal', n') {
      HexInjective(Binding(run, stream, literal, n), Binding(run', stream', literal', n'), 16);
    }
  }

  /** A cursor whose run, stream and numeral were exchanged; the hash stays as it was. */
  function Edited(cursor: string, run: Uuid, stream: Stream, numeral: string): string
    requires |Split(cursor, ':')| == 5
  {
    CursorText(run, stream, Split(cursor, ':')[3], numeral)
  }

  /**
   A cursor made for one query and line, edited to another run, stream and line, is accepted there if and only
   if both hash alike, and then for the line it says.
   */
  lemma EditedCursor(run: Uuid, stream: Stream, literal: Bytes, n: u64, run': Uuid, stream': Stream, literal': Bytes,
                     numeral: string, n': u64)
    requires ParseU64(numeral) == Some(n')
    ensures |Split(MakeCursor(run, stream, literal, n), ':')| == 5
    ensures var alike := Fnv.Checksum(Hashed(run, stream, literal, n)) == Fnv.Checksum(Hashed(run', stream', literal', n'));
            ParseCursor(Edited(MakeCursor(run, stream, literal, n), run', stream', numeral), run', stream', literal')
            == if alike then Ok(n') else Err(InvalidInput)
  {
    hide Binding, Hashed, Hex, ParseU64;
    CursorShape(run, stream, literal, n);
    var hash := BindingText(run, stream, literal, n);
    NumeralHasNoColon(numeral);
    SplitCursor(run', stream', hash, numeral);
    SameHash(run, stream, literal, n, run', stream', literal', n');
  }

  /** Unedited, it is accepted for another query if and only if run and stream agree and both literals hash alike. */
  lemma CursorIsBound(run: Uuid, stream: Stream, literal: Bytes, n: u64, run': Uuid, stream': Stream, literal': Bytes)
    ensures ParseCursor(MakeCursor(run, stream, literal, n), run', stream', literal').Ok?
       <==> run == run' && stream == stream'
            && Fnv.Checksum(Hashed(run, stream, literal, n)) == Fnv.Checksum(Hashed(run, stream, literal', n))
  {
    hide Binding, Hashed, Hex;
    CursorShape(run, stream, literal, n);
    ParseDecimal(n);
    if UuidText(run) == UuidText(run') {
      UuidTextInjective(run, run');
    }
    SameHash(run, stream, literal, n, run, stream, literal', n);
  }

  lemma RefusalIsInvalidInput(cursor: string, run: Uuid, stream: Stream, literal: Bytes)
    ensures var r := ParseCursor(cursor, run, stream, literal); r.Err? ==> r == Err(InvalidInput)
  {
    hide Split, ParseU64;
  }

  /** Equal length, and at most one position where the characters disagree. */
  ghost predicate OneOff(s: string, t: string) {
    && |s| == |t|
    && forall i, j | 0 <= i < |s| && 0 <= j < |s| && s[i] != t[i] && s[j] != t[j] :: i == j
  }

  // A change of one byte between the same bytes changes the checksum.
  lemma ChangedBetween(before: Bytes, s: Bytes, t: Bytes, after: Bytes)
    requires s != t && Fnv.DifferAtMostOnce(s, t)
    ensures Fnv.Checksum(before + s + after) != Fnv.Checksum(before + t + after)
  {
    hide Fnv.Checksum;
    var x, y := before + s + after, before + t + after;
    forall i, j | 0 <= i < |x| && 0 <= j < |x| && x[i] != y[i] && x[j] != y[j]
      ensures i == j
    {
      assert s[i - |before|] != t[i - |before|];
      assert s[j - |before|] != t[j - |before|];
    }
    var k :| 0 <= k < |s| && s[k] != t[k];
    assert x[|before| + k] != y[|before| + k];
    Fnv.OneByteChangesChecksum(x, y);
  }

  // So it does in the first, the third or the last of four parts.
  lemma ChangedPart(a: Bytes, b: Bytes, c: Bytes, d: Bytes, s: Bytes, t: Bytes)
    requires s != t && Fnv.DifferAtMostOnce(s, t)
    ensures Fnv.Checksum(Colons(s, b, c, d)) != Fnv.Checksum(Colons(t, b, c, d))
    ensures Fnv.Checksum(Colons(a, b, s, d)) != Fnv.Checksum(Colons(a, b, t, d))
    ensures Fnv.Checksum(Colons(a, b, c, s)) != Fnv.Checksum(Colons(a, b, c, t))
  {
    hide Fnv.Checksum, Fnv.DifferAtMostOnce;
    var first, last := [COLON] + b + [COLON] + c + [COLON] + d, a + [COLON] + b + [COLON] + c + [COLON];
    assert Colons(s, b, c, d) == [] + s + first && Colons(t, b, c, d) == [] + t + first;
    ChangedBetween([], s, t, first);
    var before, after := a + [COLON] + b + [COLON], [COLON] + d;
    assert Colons(a, b, s, d) == before + s + after && Colons(a, b, t, d) == before + t + after;
    ChangedBetween(before, s, t, after);
    assert Colons(a, b, c, s) == last + s + [] && Colons(a, b, c, t) == last + t + [];
    ChangedBetween(last, s, t, []);
  }

  lemma OneOffBytes(s: string, t: string)
    requires s != t && OneOff(s, t) && (forall i | 0 <= i < |s| :: s[i] < 128 as char && t[i] < 128 as char)
    ensures AsciiBytes(s) != AsciiBytes(t) && Fnv.DifferAtMostOnce(AsciiBytes(s), AsciiBytes(t))
  {
    var k :| 0 <= k < |s| && s[k] != t[k];
    assert AsciiBytes(s)[k] != AsciiBytes(t)[k];
  }

  /** In particular a literal with one byte changed never reuses the cursor. */
  lemma OneByteOffLiteralIsRefused(run: Uuid, stream: Stream, literal: Bytes, literal': Bytes, n: u64)
    requires literal != literal' && Fnv.DifferAtMostOnce(literal, literal')
    ensures ParseCursor(MakeCursor(run, stream, literal, n), run, stream, literal') == Err(InvalidInput)
  {
    hide Binding, Hex, ParseCursor, MakeCursor, Split, UuidText, Decimal, Colons, Fnv.Checksum, Fnv.DifferAtMostOnce;
    DecimalIsDigits(n);
    var id, digits := AsciiBytes(UuidText(run)), AsciiBytes(Decimal(n));
    ChangedPart(id, NameBytes(stream), [], digits, literal, literal');
    CursorIsBound(run, stream, literal, n, run, stream, literal');
    RefusalIsInvalidInput(MakeCursor(run, stream, literal, n), run, stream, literal');
  }

  /** Nor is a cursor accepted whose line number was changed in one digit, however the new one is spelled. */
  lemma OneDigitOffLineIsRefused(run: Uuid, stream: Stream, literal: Bytes, n: u64, numeral: string, n': u64)
    requires ParseU64(numeral) == Some(n') && n != n' && OneOff(Decimal(n), Decimal(n'))
    ensures |Split(MakeCursor(run, stream, literal, n), ':')| == 5
    ensures ParseCursor(Edited(MakeCursor(run, stream, literal, n), run, stream, numeral), run, stream, literal) == Err(InvalidInput)
  {
    hide Binding, Hex, ParseCursor, MakeCursor, Split, ParseU64, Edited, UuidText, Decimal, Colons, Fnv.Checksum, Fnv.DifferAtMostOnce;
    DecimalIsDigits(n);
    DecimalIsDigits(n');
    DecimalHasItsValue(n);
    DecimalHasItsValue(n');
    OneOffBytes(Decimal(n), Decimal(n'));
    ChangedPart(AsciiBytes(UuidText(run)), NameBytes(stream), literal, [], AsciiBytes(Decimal(n)), AsciiBytes(Decimal(n')));
    EditedCursor(run, stream, literal, n, run, stream, literal, numeral, n');
  }

  /** Nor one whose run id was changed in one character. */
  lemma OneCharacterOffRunIsRefused(run: Uuid, stream: Stream, literal: Bytes, n: u64, run': Uuid)
    requires run != run' && OneOff(UuidText(run), UuidText(run'))
    ensures |Split(MakeCursor(run, stream, literal, n), ':')| == 5
    ensures ParseCursor(Edited(MakeCursor(run, stream, literal, n), run', stream, Decimal(n)), run', stream, literal) == Err(InvalidInput)
  {
    hide Binding, Hex, ParseCursor, MakeCursor, Split, ParseU64, Edited, UuidText, Decimal, Colons, Fnv.Checksum, Fnv.DifferAtMostOnce;
    DecimalIsDigits(n);
    ParseDecimal(n);
    if UuidText(run) == UuidText(run') {
      UuidTextInjective(run, run');
    }
    OneOffBytes(UuidText(run), UuidText(run'));
    ChangedPart([], NameBytes(stream), literal, AsciiBytes(Decimal(n)), AsciiBytes(UuidText(run)), AsciiBytes(UuidText(run')));
    EditedCursor(run, stream, literal, n, run', stream, literal, Decimal(n), n);
  }

  /** The numeral is not canonical: a plus sign is accepted too. */
  lemma SignedCursorIsAccepted(run: Uuid, stream: Stream, literal: Bytes)
    ensures var signed := CursorText(run, stream, BindingText(run, stream, literal, 5), "+5");
            signed != MakeCursor(run, stream, literal, 5)
            && ParseCursor(signed, run, stream, literal) == Ok(5)
  {
    CursorShape(run, stream, literal, 5);
    SplitCursor(run, stream, BindingText(run, stream, literal, 5), "+5");
    SignedFive();
  }

  lemma SignedFive()
    ensures ParseU64("+5") == Some(5) && Decimal(5) == "5"
  {
    assert "+5"[1..] == "5";
    assert NumberValue("5") == 5;
  }
}
