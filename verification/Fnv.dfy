/**
 The 64-bit FNV-1a checksum of `src/storage.rs`: the offset basis, then one exclusive-or
 and one wrapping multiplication for each byte.
 */
module Fnv {
  import opened Basics

  const OFFSET_BASIS: u64 := 0xcbf29ce484222325

  /** Exclusive-or of the binary digits. */
  function BitXor(a: nat, b: nat): nat
    decreases a + b
  {
    if a == 0 && b == 0 then 0
    else 2 * BitXor(a / 2, b / 2) + if a % 2 == b % 2 then 0 else 1
  }

  function WrappingMul(a: nat, b: nat): u64 { (a * b) % 0x1_0000_0000_0000_0000 }

  function Step(hash: u64, b: byte): u64 {
    WrappingMul(BitXor(hash, b), 0x100000001b3)
  }

  function Checksum(bytes: Bytes): u64 {
    if bytes == [] then OFFSET_BASIS
    else Step(Checksum(bytes[..|bytes| - 1]), bytes[|bytes| - 1])
  }

  method ComputeChecksum(bytes: Bytes) returns (hash: u64)
    ensures hash == Checksum(bytes)
  {
    hash := OFFSET_BASIS;
    for i := 0 to |bytes|
      invariant hash == Checksum(bytes[..i])
    {
      assert bytes[..i + 1][..i] == bytes[..i];
      var mixed := BitXor(hash, bytes[i]);
      hash := WrappingMul(mixed, 0x100000001b3);
    }
    assert bytes[..|bytes|] == bytes;
  }

  lemma {:induction false} BitXorCancels(a: nat, b: nat, x: nat)
    requires BitXor(a, x) == BitXor(b, x)
    ensures a == b
    decreases a + b + x
  {
    if a + b + x > 0 {
      if a == 0 && x == 0 {
        BitXorPositive(b);
      } else if b == 0 && x == 0 {
        BitXorPositive(a);
      } else {
        BitXorCancels(a / 2, b / 2, x / 2);
      }
    }
  }

  lemma {:induction false} BitXorPositive(a: nat)
    ensures BitXor(a, 0) == a
    decreases a
  {
    if a > 0 {
      BitXorPositive(a / 2);
    }
  }

  lemma {:induction false} BitXorSymmetric(a: nat, b: nat)
    ensures BitXor(a, b) == BitXor(b, a)
    decreases a + b
  {
    if a + b > 0 {
      BitXorSymmetric(a / 2, b / 2);
    }
  }

  predicate IsPowerOfTwo(n: nat) {
    n == 1 || (n > 1 && n % 2 == 0 && IsPowerOfTwo(n / 2))
  }

  lemma {:induction false} BitXorBounded(a: nat, b: nat, limit: nat)
    requires IsPowerOfTwo(limit) && a < limit && b < limit
    ensures BitXor(a, b) < limit
    decreases limit
  {
    if a + b > 0 {
      BitXorBounded(a / 2, b / 2, limit / 2);
    }
  }

  lemma {:induction false} Pow2Is(n: nat, k: nat)
    requires n == Pow2(k)
    ensures IsPowerOfTwo(n)
  {
    if k > 0 {
      Pow2Is(n / 2, k - 1);
    }
  }

  function Pow2(k: nat): (p: nat)
    ensures p > 0
  {
    if k == 0 then 1 else 2 * Pow2(k - 1)
  }

  lemma Pow2Four(k: nat)
    ensures Pow2(k + 4) == 16 * Pow2(k)
  {
    assert Pow2(k + 2) == 4 * Pow2(k);
    assert Pow2(k + 4) == 4 * Pow2(k + 2);
  }

  lemma Pow2Sixteen(k: nat)
    ensures Pow2(k + 16) == 0x1_0000 * Pow2(k)
  {
    Pow2Four(k);
    Pow2Four(k + 4);
    Pow2Four(k + 8);
    Pow2Four(k + 12);
  }

  lemma WordIsPowerOfTwo(k: nat)
    requires k == 0
    ensures IsPowerOfTwo(MAX_U64 + 1)
  {
    Pow2Sixteen(k);
    Pow2Sixteen(k + 16);
    Pow2Sixteen(k + 32);
    Pow2Sixteen(k + 48);
    Pow2Is(MAX_U64 + 1, k + 64);
  }

  // The multiplier is odd: multiplying by its inverse modulo 2^64 undoes it.
  lemma MultiplierInverse(x: u64)
    ensures WrappingMul(WrappingMul(x, 0x100000001b3), 0xce965057aff6957b) == x
  {
    var q := (x * 0x100000001b3) / 0x1_0000_0000_0000_0000;
    assert x * 0x100000001b3 == q * 0x1_0000_0000_0000_0000 + WrappingMul(x, 0x100000001b3);
  }

  /** One step forgets neither the state nor the byte. */
  lemma StepInjective(g: u64, h: u64, b: byte, c: byte)
    ensures Step(g, b) == Step(h, b) ==> g == h
    ensures Step(g, b) == Step(g, c) ==> b == c
  {
    WordIsPowerOfTwo(0);
    BitXorBounded(g, b, MAX_U64 + 1);
    BitXorBounded(h, b, MAX_U64 + 1);
    BitXorBounded(g, c, MAX_U64 + 1);
    MultiplierInverse(BitXor(g, b));
    MultiplierInverse(BitXor(h, b));
    MultiplierInverse(BitXor(g, c));
    if Step(g, b) == Step(h, b) {
      BitXorCancels(g, h, b);
    }
    if Step(g, b) == Step(g, c) {
      BitXorSymmetric(g, b);
      BitXorSymmetric(g, c);
      BitXorCancels(b, c, g);
    }
  }

  /** Equal length, and at most one position where the bytes disagree. */
  ghost predicate DifferAtMostOnce(s: Bytes, t: Bytes) {
    && |s| == |t|
    && forall i, j | 0 <= i < |s| && 0 <= j < |s| && s[i] != t[i] && s[j] != t[j] :: i == j
  }

  /** One changed byte always changes the checksum. */
  lemma {:induction false} OneByteChangesChecksum(s: Bytes, t: Bytes)
    requires DifferAtMostOnce(s, t)
    ensures Checksum(s) == Checksum(t) <==> s == t
  {
    if s != t {
      var n := |s| - 1;
      var s', t' := s[..n], t[..n];
      assert s == s' + [s[n]] && t == t' + [t[n]];
      StepInjective(Checksum(s'), Checksum(t'), s[n], t[n]);
      if s[n] == t[n] {
        OneByteChangesChecksum(s', t');
      } else {
        assert s' == t';
      }
    }
  }

  lemma Halves(x: nat, a: nat)
    ensures (2 * x + a) / 2 == x + a / 2 && (2 * x + a) % 2 == a % 2
  {
  }

  lemma {:induction false} BitXorLow(high: nat, a: nat, b: nat, k: nat)
    requires a < Pow2(k) && b < Pow2(k)
    ensures BitXor(Pow2(k) * high + a, b) == Pow2(k) * high + BitXor(a, b)
  {
    if k == 0 {
      BitXorPositive(high);
    } else {
      var x := Pow2(k - 1) * high;
      assert Pow2(k) * high == 2 * x;
      Halves(x, a);
      BitXorLow(high, a / 2, b / 2, k - 1);
    }
  }

  // A byte changes the low eight bits alone.
  lemma StepTo(high: nat, a: byte, b: byte, next: u64)
    requires 256 * high + a <= MAX_U64 && WrappingMul(256 * high + BitXor(a, b), 0x100000001b3) == next
    ensures Step(256 * high + a, b) == next
  {
    hide BitXor, WrappingMul;
    Pow2Eight(0);
    BitXorLow(high, a, b, 8);
  }

  lemma Pow2Eight(k: nat)
    requires k == 0
    ensures Pow2(k + 8) == 256
  {
    Pow2Four(k);
    Pow2Four(k + 4);
  }

  lemma BytesXor()
    ensures BitXor(0x25, 0x61) == 0x44
  {
  }

  /** Published values of the 64-bit FNV-1a function: of the empty text, and of "a". */
  lemma PublishedValues()
    ensures Checksum([]) == 0xcbf29ce484222325
    ensures Checksum([0x61]) == 0xaf63dc4c8601ec8c
  {
    hide BitXor;
    BytesXor();
    StepTo(0xcbf29ce4842223, 0x25, 0x61, 0xaf63dc4c8601ec8c);
    assert [0x61][..0] == [];
  }
}
