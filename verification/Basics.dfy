/** Shared vocabulary: bytes, machine integers, results, and decimal text. */
module Basics {
  type byte = x: int | 0 <= x < 256
  type Bytes = seq<byte>

  const MAX_U64 := 0xFFFF_FFFF_FFFF_FFFF
  const MAX_I64 := 0x7FFF_FFFF_FFFF_FFFF

  type u32 = x: int | 0 <= x <= 0xFFFF_FFFF
  type u64 = x: int | 0 <= x <= MAX_U64
  type i64 = x: int | -MAX_I64 - 1 <= x <= MAX_I64

  datatype Option<+T> = None | Some(value: T)

  datatype Result<+T, +E> = Ok(value: T) | Err(error: E)

  /** The error kinds that callers tell apart; Fault marks an index or subtraction out of range. */
  datatype Error = InvalidInput | InvalidData | NotFound | StorageFull | AlreadyExists | UnexpectedEof | Fault | Io

  function Min(a: int, b: int): int { if a <= b then a else b }

  /** `u64::saturating_add`. */
  function SaturatingAdd(a: nat, b: nat): (c: u64)
    ensures c == a + b || c == MAX_U64 < a + b
  {
    Min(a + b, MAX_U64)
  }

  /** `i64::saturating_add`, for an increment that is not negative. */
  function SaturatingLater(a: i64, increment: nat): (c: i64)
    ensures c == a + increment || c == MAX_I64 < a + increment
  {
    Min(a + increment, MAX_I64)
  }

  /** `str::contains` on the bytes of the text. */
  predicate Contains<T(==)>(text: seq<T>, pattern: seq<T>) {
    exists i | 0 <= i <= |text| - |pattern| :: OccursAt(text, pattern, i)
  }

  predicate OccursAt<T(==)>(text: seq<T>, pattern: seq<T>, i: nat)
    requires i + |pattern| <= |text|
  {
    text[i..i + |pattern|] == pattern
  }

  function Concat<T>(parts: seq<seq<T>>): seq<T> {
    if parts == [] then [] else parts[0] + Concat(parts[1..])
  }

  lemma {:induction false} ConcatAppend<T>(a: seq<seq<T>>, b: seq<seq<T>>)
    ensures Concat(a + b) == Concat(a) + Concat(b)
  {
    if a == [] {
      assert a + b == b;
    } else {
      assert (a + b)[1..] == a[1..] + b;
      ConcatAppend(a[1..], b);
    }
  }

  lemma ConcatOne<T>(parts: seq<seq<T>>, k: nat)
    requires k < |parts|
    ensures Concat(parts[k..k + 1]) == parts[k]
  {
    assert parts[k..k + 1] == [parts[k]];
    assert Concat([parts[k]]) == parts[k] + Concat([]);
  }

  function Digit(d: nat): char
    requires d < 10
  {
    ['0', '1', '2', '3', '4', '5', '6', '7', '8', '9'][d]
  }

  /** The shortest decimal spelling, as `Display` prints an unsigned integer. */
  function Decimal(n: nat): string {
    if n < 10 then [Digit(n)] else Decimal(n / 10) + [Digit(n % 10)]
  }

  function Pow10(k: nat): nat {
    if k == 0 then 1 else 10 * Pow10(k - 1)
  }

  lemma {:induction false} DecimalWidth(n: nat, k: nat)
    requires k > 0 && n < Pow10(k)
    ensures 1 <= |Decimal(n)| <= k
  {
    if n >= 10 {
      assert k > 1;
      DecimalWidth(n / 10, k - 1);
    }
  }

  predicate IsDigit(c: char) { '0' <= c <= '9' }

  predicate AllDigits(s: string) { forall i | 0 <= i < |s| :: IsDigit(s[i]) }

  lemma {:induction false} DecimalIsDigits(n: nat)
    ensures Decimal(n) != [] && AllDigits(Decimal(n))
  {
    if n >= 10 {
      DecimalIsDigits(n / 10);
    }
  }
}
