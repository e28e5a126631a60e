/**
 The text shown with a search match: `bounded_match_line` of `src/storage.rs`. A long line is cut
 around the literal, which is looked for again after the line feed has been trimmed away.
 */
module MatchLine {
  import opened Basics
  import Envelope
  import Utf8

  const MAX_MATCH_LINE_CHARS := 16 * 1024

  /** `trim_end_matches('\n')`. */
  function Trimmed(line: string): (t: string)
    ensures t <= line && forall i | |t| <= i < |line| :: line[i] == '\n'
    ensures t != [] ==> t[|t| - 1] != '\n'
  {
    if line != [] && line[|line| - 1] == '\n' then Trimmed(line[..|line| - 1]) else line
  }

  /** `str::find`: where the pattern occurs first. */
  function FindFrom(text: string, pattern: string, i: nat): (at: Option<nat>)
    ensures at.Some? ==> i <= at.value <= |text| - |pattern| && OccursAt(text, pattern, at.value)
    ensures at.Some? ==> forall k | i <= k < at.value :: !OccursAt(text, pattern, k)
    ensures at.None? ==> forall k | i <= k <= |text| - |pattern| :: !OccursAt(text, pattern, k)
    decreases |text| - i
  {
    if i + |pattern| > |text| then None
    else if OccursAt(text, pattern, i) then Some(i)
    else FindFrom(text, pattern, i + 1)
  }

  /** How many characters the first n bytes of a text are; None inside a character, and past the end. */
  function CharsIn(text: string, n: nat): (k: Option<nat>)
    ensures k.Some? ==> k.value <= |text|
  {
    if n == 0 then Some(0)
    else if text == [] || |Utf8.EncodeScalar(text[0])| > n then None
    else
      match CharsIn(text[1..], n - |Utf8.EncodeScalar(text[0])|)
      case None => None
      case Some(k) => Some(k + 1)
  }

  /** The literal between the ends of what stands around it; the marker tells that there was more. */
  function Around(before: string, literal: string, after: string): string
    requires |literal| + |Envelope.MARKER| < MAX_MATCH_LINE_CHARS
  {
    var budget := MAX_MATCH_LINE_CHARS - |Envelope.MARKER| - |literal|;
    var first := budget / 2;
    before[|before| - Min(|before|, first)..] + Envelope.MARKER + literal + after[..Min(|after|, budget - first)]
  }

  /**
   What is shown. Where the trimmed line does not hold the literal, as many bytes as it has are
   taken off the start of the line; Fault marks a cut inside a character, which stops the program.
   */
  function BoundedMatchLine(line: string, literal: string): Result<string, Error> {
    if |line| <= MAX_MATCH_LINE_CHARS then Ok(line)
    else if |literal| + |Envelope.MARKER| >= MAX_MATCH_LINE_CHARS then
      Ok(Envelope.FitToCharBudget(line, MAX_MATCH_LINE_CHARS).0)
    else
      match FindFrom(line, literal, 0)
      case Some(at) => Ok(Around(line[..at], literal, line[at + |literal|..]))
      case None =>
        var skipped := CharsIn(line, |Utf8.Encode(literal)|);
        if skipped.None? then Err(Fault) else Ok(Around([], literal, line[skipped.value..]))
  }

  /** The text shown for a stored line and a literal, both given as bytes. */
  function ShownOf(line: Bytes, literal: Bytes): Result<string, Error> {
    if !Utf8.Valid(line) || !Utf8.Valid(literal) then Err(Fault)
    else BoundedMatchLine(Trimmed(Utf8.Text(line)), Utf8.Text(literal))
  }

  // ---- Laws -----------------------------------------------------------------------------------

  /** The literal where it occurs, with so many characters before it and after. */
  ghost predicate CutAt(line: string, literal: string, shown: string, at: nat, before: nat, after: nat) {
    && before <= at && at + |literal| + after <= |line| && OccursAt(line, literal, at)
    && shown == line[at - before..at] + Envelope.MARKER + literal + line[at + |literal|..at + |literal| + after]
  }

  /** It is the first occurrence, with half of what the limit leaves shown on either side, the odd character after it. */
  ghost predicate Balanced(line: string, literal: string, at: nat, before: nat, after: nat) {
    var room := MAX_MATCH_LINE_CHARS - |Envelope.MARKER| - |literal|;
    && room >= 0 && at + |literal| <= |line| && (forall k | 0 <= k < at :: !OccursAt(line, literal, k))
    && before == Min(at, room / 2) && after == Min(|line| - at - |literal|, room - room / 2)
  }

  ghost predicate CutAroundLiteral(line: string, literal: string, shown: string) {
    exists at: nat, before: nat, after: nat :: CutAt(line, literal, shown, at, before, after) && Balanced(line, literal, at, before, after)
  }

  lemma CutHoldsLiteral(line: string, literal: string, shown: string, at: nat, before: nat, after: nat)
    requires CutAt(line, literal, shown, at, before, after)
    ensures |shown| == before + |Envelope.MARKER| + |literal| + after && Contains(shown, literal)
  {
    assert OccursAt(shown, literal, before + |Envelope.MARKER|);
  }

  lemma AroundIsCut(line: string, literal: string, at: nat) returns (before: nat, after: nat)
    requires at + |literal| <= |line| && OccursAt(line, literal, at) && |literal| + |Envelope.MARKER| < MAX_MATCH_LINE_CHARS
    requires forall k | 0 <= k < at :: !OccursAt(line, literal, k)
    ensures Balanced(line, literal, at, before, after)
    ensures CutAt(line, literal, Around(line[..at], literal, line[at + |literal|..]), at, before, after)
    ensures before + |Envelope.MARKER| + |literal| + after <= MAX_MATCH_LINE_CHARS
  {
    var budget := MAX_MATCH_LINE_CHARS - |Envelope.MARKER| - |literal|;
    before, after := Min(at, budget / 2), Min(|line| - at - |literal|, budget - budget / 2);
    assert line[..at][at - before..] == line[at - before..at];
    assert line[at + |literal|..][..after] == line[at + |literal|..at + |literal| + after];
  }

  /**
   A line that holds the literal is shown whole, or cut around the first occurrence of it, within the
   limit; for the literals a search accepts it always holds the literal.
   */
  lemma ShownHoldsLiteral(line: string, literal: string)
    requires Contains(line, literal) && |literal| + |Envelope.MARKER| < MAX_MATCH_LINE_CHARS
    ensures var shown := BoundedMatchLine(line, literal);
            && shown.Ok? && |shown.value| <= MAX_MATCH_LINE_CHARS && Contains(shown.value, literal)
            && if |line| <= MAX_MATCH_LINE_CHARS then shown.value == line else CutAroundLiteral(line, literal, shown.value)
  {
    hide Around, CutAt, Balanced;
    if |line| > MAX_MATCH_LINE_CHARS {
      var at := FindFrom(line, literal, 0).value;
      var before, after := AroundIsCut(line, literal, at);
      CutHoldsLiteral(line, literal, BoundedMatchLine(line, literal).value, at, before, after);
    }
  }

  /** A literal that does not end in a line feed is still there when the line is trimmed. */
  lemma TrimmingKeepsLiteral(line: string, literal: string)
    requires Contains(line, literal) && (literal == [] || literal[|literal| - 1] != '\n')
    ensures Contains(Trimmed(line), literal)
  {
    var at :| 0 <= at <= |line| - |literal| && OccursAt(line, literal, at);
    var t := Trimmed(line);
    if literal == [] {
      assert OccursAt(t, literal, 0);
    } else {
      assert line[at + |literal| - 1] == literal[|literal| - 1];
      assert line[at..at + |literal|] == t[at..at + |literal|];
      assert OccursAt(t, literal, at);
    }
  }

  /** What is found among the bytes is found among the characters. */
  lemma ContainsAsText(line: Bytes, literal: Bytes)
    requires Utf8.Valid(line) && Utf8.Valid(literal) && Contains(line, literal)
    ensures Contains(Utf8.Text(line), Utf8.Text(literal))
  {
    hide Utf8.Decode, Utf8.ScalarLength;
    if literal == [] {
      Utf8.DecodeConcat([], []);
      EmptyText();
      assert OccursAt(Utf8.Text(line), Utf8.Text(literal), 0);
    } else {
      var at: nat :| at <= |line| - |literal| && OccursAt(line, literal, at);
      FirstIsNoTail(literal);
      assert line[at] == literal[0];
      Utf8.CutExactlyAtBoundaries(line, at);
      var rest := line[at + |literal|..];
      assert line[at..] == literal + rest;
      Utf8.DecodeConcat(literal, rest);
      assert OccursAt(Utf8.Text(line), Utf8.Text(literal), |Utf8.Text(line[..at])|);
    }
  }

  lemma EmptyText()
    ensures Utf8.Valid([]) && Utf8.Text([]) == []
  {
  }

  lemma FirstIsNoTail(s: Bytes)
    requires Utf8.Valid(s) && s != []
    ensures !Utf8.IsTail(s[0])
  {
  }

  /** A matching line is shown, and its text holds the literal, unless the literal ends in a line feed. */
  lemma MatchIsShown(line: Bytes, literal: Bytes)
    requires Utf8.Valid(line) && Utf8.Valid(literal) && Contains(line, literal)
    requires var text := Utf8.Text(literal);
             |text| + |Envelope.MARKER| < MAX_MATCH_LINE_CHARS && (text == [] || text[|text| - 1] != '\n')
    ensures ShownOf(line, literal).Ok? && Contains(ShownOf(line, literal).value, Utf8.Text(literal))
  {
    hide Utf8.Valid, Utf8.Decode, BoundedMatchLine, Trimmed;
    ContainsAsText(line, literal);
    TrimmingKeepsLiteral(Utf8.Text(line), Utf8.Text(literal));
    ShownHoldsLiteral(Trimmed(Utf8.Text(line)), Utf8.Text(literal));
  }

  lemma {:induction false} TextIsShorter(s: Bytes)
    requires Utf8.Valid(s)
    ensures |Utf8.Text(s)| <= |s|
    decreases |s|
  {
    if s != [] {
      TextIsShorter(s[Utf8.ScalarLength(s)..]);
    }
  }

  /** A line feed at the end of a text is one at the end of its bytes. */
  lemma {:induction false} LastAsText(s: Bytes)
    requires Utf8.Valid(s)
    ensures s == [] <==> Utf8.Text(s) == []
    ensures s != [] && Utf8.Text(s)[|Utf8.Text(s)| - 1] == '\n' ==> s[|s| - 1] == Utf8.NEWLINE
    decreases |s|
  {
    if s != [] {
      var n := Utf8.ScalarLength(s);
      Utf8.ScalarThenEncode(s);
      LastAsText(s[n..]);
    }
  }

  // ---- When nothing can be shown ----------------------------------------------------------------

  /** So many bytes are whole characters if and only if no character continues there. */
  lemma {:induction false} CharsInAreBoundaries(text: string, n: nat)
    ensures var b := Utf8.Encode(text); CharsIn(text, n).Some? <==> n == |b| || (n < |b| && !Utf8.IsTail(b[n]))
  {
    if text != [] {
      var head, rest := Utf8.EncodeScalar(text[0]), Utf8.Encode(text[1..]);
      Utf8.EncodeThenScalar(text[0]);
      if n >= |head| {
        CharsInAreBoundaries(text[1..], n - |head|);
      }
    }
  }

  lemma {:induction false} CharsInIs(text: string, k: nat)
    requires k <= |text|
    ensures CharsIn(text, |Utf8.Encode(text[..k])|) == Some(k)
  {
    if k > 0 {
      assert text[..k][1..] == text[1..][..k - 1];
      Utf8.EncodeThenScalar(text[0]);
      CharsInIs(text[1..], k - 1);
    }
  }

  /**
   A long line that does not hold the literal is shown from after as many bytes as the literal has, if so many
   bytes are whole characters, with the literal in front.
   */
  lemma UnfoundIsShown(line: string, literal: string, k: nat)
    requires |line| > MAX_MATCH_LINE_CHARS && |literal| + |Envelope.MARKER| < MAX_MATCH_LINE_CHARS && !Contains(line, literal)
    requires k <= |line| && |Utf8.Encode(line[..k])| == |Utf8.Encode(literal)|
    ensures var room := MAX_MATCH_LINE_CHARS - |Envelope.MARKER| - |literal|;
            BoundedMatchLine(line, literal) == Ok(Envelope.MARKER + literal + line[k..k + Min(|line| - k, room - room / 2)])
  {
    hide Utf8.Encode, CharsIn, Around;
    CharsInIs(line, k);
    FoundIfContained(line, literal);
    AroundNothing(literal, line, k);
  }

  /** Past the limit a literal that leaves no room around it plays no part: the line is fitted to the limit. */
  lemma LongLiteralIsIgnored(line: string, literal: string)
    requires |line| > MAX_MATCH_LINE_CHARS && |literal| + |Envelope.MARKER| >= MAX_MATCH_LINE_CHARS
    ensures BoundedMatchLine(line, literal).Ok?
    ensures Envelope.FittedTo(line, BoundedMatchLine(line, literal).value, MAX_MATCH_LINE_CHARS)
  {
    hide Envelope.FitToCharBudget, Envelope.CutAround, FindFrom, CharsIn;
    Envelope.FitIsFitted(line, MAX_MATCH_LINE_CHARS);
  }

  lemma FoundIfContained(text: string, pattern: string)
    ensures FindFrom(text, pattern, 0).Some? <==> Contains(text, pattern)
  {
    if FindFrom(text, pattern, 0).Some? {
      assert OccursAt(text, pattern, FindFrom(text, pattern, 0).value);
    }
  }

  lemma AroundNothing(literal: string, line: string, k: nat)
    requires |literal| + |Envelope.MARKER| < MAX_MATCH_LINE_CHARS && k <= |line|
    ensures var room := MAX_MATCH_LINE_CHARS - |Envelope.MARKER| - |literal|;
            Around([], literal, line[k..]) == Envelope.MARKER + literal + line[k..k + Min(|line| - k, room - room / 2)]
  {
    var room := MAX_MATCH_LINE_CHARS - |Envelope.MARKER| - |literal|;
    var after := Min(|line| - k, room - room / 2);
    assert line[k..][..after] == line[k..k + after];
    assert [] + Envelope.MARKER == Envelope.MARKER;
  }

  /** Nothing can be shown of a matching line exactly under the guard of the last branch, and then the literal ends in a line feed. */
  lemma NotShownExactly(line: Bytes, literal: Bytes)
    requires Utf8.Valid(line) && Utf8.Valid(literal) && Contains(line, literal)
    ensures var text, l := Trimmed(Utf8.Text(line)), Utf8.Text(literal);
            && (ShownOf(line, literal).Err? <==>
                  && |text| > MAX_MATCH_LINE_CHARS && |l| + |Envelope.MARKER| < MAX_MATCH_LINE_CHARS
                  && !Contains(text, l) && CharsIn(text, |literal|).None?)
            && (ShownOf(line, literal).Err? ==> l != [] && l[|l| - 1] == '\n')
  {
    hide Utf8.Decode, Around, Envelope.FitToCharBudget;
    Utf8.EncodeInvertsDecode(literal);
    if ShownOf(line, literal).Ok? {
      var text, l := Trimmed(Utf8.Text(line)), Utf8.Text(literal);
      if FindFrom(text, l, 0).Some? {
        assert OccursAt(text, l, FindFrom(text, l, 0).value);
      }
    } else if Utf8.Text(literal) == [] || Utf8.Text(literal)[|Utf8.Text(literal)| - 1] != '\n' {
      MatchIsShown(line, literal);
    }
  }

  const EURO := '\U{20AC}'

  /** More characters of three bytes than are shown, and a last one of one byte. */
  function LongText(n: nat): string { seq(n, i => EURO) + "x" }

  lemma {:induction false} EncodeJoin(a: string, b: string)
    ensures Utf8.Encode(a + b) == Utf8.Encode(a) + Utf8.Encode(b)
  {
    if a == [] {
      assert a + b == b;
    } else {
      assert (a + b)[1..] == a[1..] + b;
      EncodeJoin(a[1..], b);
    }
  }

  lemma TrimOne(text: string)
    requires text != [] && text[|text| - 1] != '\n'
    ensures Trimmed(text + "\n") == text
  {
    assert (text + "\n")[..|text + "\n"| - 1] == text;
  }

  /** The line ends in x and a line feed, and is searched for just that. */
  lemma LongMatchIsNotShown(n: nat)
    requires n >= MAX_MATCH_LINE_CHARS
    ensures var line, literal := Utf8.Encode(LongText(n) + "\n"), Utf8.Encode("x\n");
            && Utf8.Valid(line) && Utf8.Valid(literal) && Contains(line, literal)
            && ShownOf(line, literal) == Err(Fault)
  {
    hide Utf8.Valid, Utf8.Decode, Around, Envelope.FitToCharBudget;
    var head := seq(n, i => EURO);
    var line, literal := Utf8.Encode(LongText(n) + "\n"), Utf8.Encode("x\n");
    Utf8.DecodeInvertsEncode(LongText(n) + "\n");
    Utf8.DecodeInvertsEncode("x\n");
    ValidIsDecoded(line);
    ValidIsDecoded(literal);
    assert LongText(n) + "\n" == head + "x\n";
    EncodeJoin(head, "x\n");
    assert OccursAt(line, literal, |Utf8.Encode(head)|);
    TrimOne(LongText(n));
    var t := LongText(n);
    forall k | 0 <= k <= |t| - 2
      ensures !OccursAt(t, "x\n", k)
    {
      assert t[k..k + 2][1] == t[k + 1] != '\n';
    }
    EncodesToTwo();
    assert t[0] == EURO && |Utf8.EncodeScalar(EURO)| == 3;
  }

  lemma EncodesToTwo()
    ensures Utf8.Encode("x\n") == [0x78, Utf8.NEWLINE]
  {
    assert "x\n"[1..] == "\n" && "\n"[1..] == "";
    assert Utf8.Encode("x\n") == Utf8.EncodeScalar('x') + Utf8.Encode("\n");
    assert Utf8.Encode("\n") == Utf8.EncodeScalar('\n') + Utf8.Encode("");
  }

  lemma ValidIsDecoded(s: Bytes)
    requires Utf8.Decode(s).Some?
    ensures Utf8.Valid(s) && Utf8.Text(s) == Utf8.Decode(s).value
  {
  }
}
