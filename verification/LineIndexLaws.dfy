/** What the line index promises: faithful slices, safe reads of any valid index, detected damage. */
module LineIndexLaws {
  import opened Basics
  import opened LineIndex
  import Fnv
  import Utf8

  // ---- The index and the naive split describe the same lines -----------------------

  lemma StartsArePlaced(t: Bytes)
    ensures Places(Starts(t, |t|), |t|)
  {
    StartsIncrease(t, |t|);
  }

  lemma NextBreakIsNextStart(t: Bytes, k: nat)
    requires t != [] && k < |Starts(t, |t|)|
    ensures var starts := Starts(t, |t|);
            starts[k] < |t| && NextBreak(t, starts[k]) == Bound(starts, |t|, k + 1)
  {
    var starts := Starts(t, |t|);
    StartsIncrease(t, |t|);
    var e := NextBreak(t, starts[k]);
    StartsAreBreaks(t, |t|, e);
    if k + 1 < |starts| {
      StartsAreBreaks(t, |t|, starts[k + 1]);
      assert starts[k + 1] in starts;
      assert starts[k + 1] >= e;
    }
    if e < |t| {
      var j :| 0 <= j < |starts| && starts[j] == e;
      assert j > k;
    }
  }

  lemma {:induction false} LinesFollowStarts(t: Bytes, k: nat)
    requires t != [] && k <= |Starts(t, |t|)|
    requires Places(Starts(t, |t|), |t|)
    ensures var starts := Starts(t, |t|);
            var ls := LinesFrom(t, Bound(starts, |t|, k));
            |ls| == |starts| - k && forall j | 0 <= j < |ls| :: ls[j] == LineAt(t, starts, k + j)
    decreases |Starts(t, |t|)| - k
  {
    var starts := Starts(t, |t|);
    if k < |starts| {
      NextBreakIsNextStart(t, k);
      LinesFollowStarts(t, k + 1);
      var ls := LinesFrom(t, starts[k]);
      assert ls[1..] == LinesFrom(t, Bound(starts, |t|, k + 1));
      forall j | 0 <= j < |ls|
        ensures ls[j] == LineAt(t, starts, k + j)
      {
        assert j > 0 ==> ls[j] == ls[1..][j - 1];
      }
    }
  }

  /** The offsets cut the text into the same lines as the naive split. */
  lemma IndexedLinesAreTheLines(t: Bytes)
    requires |t| <= MAX_U64
    ensures IndexOf(t).lineCount == |Lines(t)|
    ensures Places(IndexOf(t).offsets, |t|)
    ensures forall k | 0 <= k < |Lines(t)| :: Lines(t)[k] == LineAt(t, IndexOf(t).offsets, k)
  {
    StartsArePlaced(t);
    if t != [] {
      LinesFollowStarts(t, 0);
    }
  }

  lemma {:induction false} ConcatOfLines(t: Bytes, starts: seq<nat>, ls: seq<Bytes>, i: nat, j: nat)
    requires Places(starts, |t|) && |ls| == |starts|
    requires forall k | 0 <= k < |ls| :: ls[k] == LineAt(t, starts, k)
    requires i <= j <= |ls|
    ensures Bound(starts, |t|, i) <= Bound(starts, |t|, j) <= |t|
    ensures Concat(ls[i..j]) == t[Bound(starts, |t|, i)..Bound(starts, |t|, j)]
    decreases j - i
  {
    if i < j {
      ConcatOfLines(t, starts, ls, i + 1, j);
      assert ls[i..j][0] == ls[i] && ls[i..j][1..] == ls[i + 1..j];
    }
  }

  // ---- Reading with any index that passes validation -------------------------------

  lemma ValidIndexPlaces(m: StreamIndex)
    requires ValidIndex(m)
    ensures Places(m.offsets, m.byteLen)
  {
    forall j, k | 0 <= j < k < |m.offsets|
      ensures m.offsets[j] < m.offsets[k]
    {
      ValidIndexIncreases(m, j, k);
    }
  }

  /** The line still has the checksum its index recorded. */
  ghost predicate Intact(data: Bytes, m: StreamIndex, k: nat)
    requires Places(m.offsets, |data|) && k < |m.offsets| && k < |m.checksums|
  {
    Fnv.Checksum(LineAt(data, m.offsets, k)) == m.checksums[k]
  }

  ghost predicate AllIntact(data: Bytes, m: StreamIndex, i: nat, j: nat)
    requires Places(m.offsets, |data|) && j <= |m.offsets| && j <= |m.checksums|
  {
    forall k | i <= k < j :: Intact(data, m, k)
  }

  function Window(data: Bytes, m: StreamIndex, i: nat, j: nat): Bytes
    requires Places(m.offsets, |data|)
  {
    var from, to := Bound(m.offsets, |data|, i), Bound(m.offsets, |data|, j);
    if from <= to then data[from..to] else []
  }

  lemma LineInBuffer(data: Bytes, m: StreamIndex, start: nat, k: nat, end: nat)
    requires Places(m.offsets, |data|)
    requires start <= k < end <= |m.offsets|
    ensures m.offsets[start] <= m.offsets[k] <= Bound(m.offsets, |data|, k + 1) <= Bound(m.offsets, |data|, end)
    ensures k + 1 == |m.offsets| ==> end == |m.offsets|
    ensures var base, buffer := m.offsets[start], Window(data, m, start, end);
            |buffer| == Bound(m.offsets, |data|, end) - base
            && buffer[m.offsets[k] - base..Bound(m.offsets, |data|, k + 1) - base] == LineAt(data, m.offsets, k)
  {
    var base, last := m.offsets[start], Bound(m.offsets, |data|, end);
    var from, to := m.offsets[k], Bound(m.offsets, |data|, k + 1);
    assert base <= from && from <= to && to <= last;
    SliceOfSlice(data, base, last, from, to);
  }

  lemma SliceOfSlice(data: Bytes, base: nat, last: nat, from: nat, to: nat)
    requires base <= from <= to <= last <= |data|
    ensures data[base..last][from - base..to - base] == data[from..to]
  {
    var buffer := data[base..last];
    forall i | 0 <= i < to - from
      ensures buffer[from - base..to - base][i] == data[from..to][i]
    {
      assert buffer[from - base + i] == data[from + i];
    }
  }

  lemma {:induction false} CheckLinesMeaning(data: Bytes, m: StreamIndex, start: nat, k: nat, end: nat)
    requires Places(m.offsets, |data|)
    requires start <= k <= end <= |m.offsets| && start < end <= |m.checksums|
    ensures CheckLines(Window(data, m, start, end), m, m.offsets[start], k, end)
         == if AllIntact(data, m, k, end) then None else Some(InvalidData)
    decreases end - k
  {
    if k < end {
      LineInBuffer(data, m, start, k, end);
      CheckLinesMeaning(data, m, start, k + 1, end);
      assert AllIntact(data, m, k, end) <==> Intact(data, m, k) && AllIntact(data, m, k + 1, end);
    }
  }

  /**
   For any validated index, ours or not, a read never faults: it returns the whole window
   exactly when every line in it has its checksum and the window is valid text.
   */
  lemma ReadSliceMeaning(data: Bytes, m: StreamIndex, startLine: u64, lineCount: u32)
    requires ValidIndex(m) && |data| == m.byteLen
    ensures Places(m.offsets, |data|)
    ensures var end := EndLine(m, startLine, lineCount);
            ReadSlice(data, m, startLine, lineCount) ==
            if startLine >= end then Ok([])
            else if AllIntact(data, m, startLine, end) && Utf8.Valid(Window(data, m, startLine, end))
            then Ok(Window(data, m, startLine, end))
            else Err(InvalidData)
  {
    ValidIndexPlaces(m);
    var end := EndLine(m, startLine, lineCount);
    if startLine < end {
      assert m.lineCount == |m.offsets| == |m.checksums|;
      assert end < |m.offsets| ==> m.offsets[startLine] < m.offsets[end];
      CheckLinesMeaning(data, m, startLine, startLine, end);
    }
  }

  // ---- Faithful slices --------------------------------------------------------------

  lemma UndamagedLines(t: Bytes, m: StreamIndex)
    requires |t| <= MAX_STREAM_BYTES && BuildIndex(t) == Ok(m)
    ensures ValidIndex(m) && Places(m.offsets, |t|) && m.lineCount == |Lines(t)|
    ensures AllIntact(t, m, 0, m.lineCount)
    ensures forall k | 0 <= k < |Lines(t)| :: Lines(t)[k] == LineAt(t, m.offsets, k)
  {
    BuiltIndexIsValid(t);
    IndexedLinesAreTheLines(t);
  }

  lemma WindowIsValid(t: Bytes, m: StreamIndex, i: nat, j: nat)
    requires |t| <= MAX_STREAM_BYTES && BuildIndex(t) == Ok(m) && Utf8.Valid(t)
    requires i <= j <= m.lineCount
    ensures Places(m.offsets, |t|) && m.lineCount == |Lines(t)|
    ensures Utf8.Valid(Window(t, m, i, j))
    ensures i < j ==> Window(t, m, i, j) == Concat(Lines(t)[i..j])
  {
    UndamagedLines(t, m);
    var from, to := Bound(m.offsets, |t|, i), Bound(m.offsets, |t|, j);
    if t != [] {
      ConcatOfLines(t, m.offsets, Lines(t), i, j);
      StartsAreBreaks(t, |t|, from);
      StartsAreBreaks(t, |t|, to);
      assert i < |m.offsets| ==> from in m.offsets;
      assert j < |m.offsets| ==> to in m.offsets;
      Utf8.CutBetweenLines(t, from, to);
    }
  }

  /** Every range of every stored text reads back as exactly its lines. */
  lemma SlicesAreFaithful(t: Bytes, m: StreamIndex, startLine: u64, lineCount: u32)
    requires |t| <= MAX_STREAM_BYTES && BuildIndex(t) == Ok(m) && Utf8.Valid(t)
    ensures var n := |Lines(t)|;
            ReadSlice(t, m, startLine, lineCount)
            == Ok(Concat(Lines(t)[Min(startLine, n)..Min(startLine + lineCount, n)]))
  {
    var n := |Lines(t)|;
    UndamagedLines(t, m);
    var end := EndLine(m, startLine, lineCount);
    assert n <= MAX_INDEX_ENTRIES;
    ReadSliceMeaning(t, m, startLine, lineCount);
    if startLine < end {
      WindowIsValid(t, m, startLine, end);
      assert AllIntact(t, m, startLine, end);
    } else {
      assert Lines(t)[Min(startLine, n)..Min(startLine + lineCount, n)] == [];
    }
  }

  /** A data file that was cut short fails every read that reaches past its end, and no other. */
  lemma ShortDataFails(t: Bytes, m: StreamIndex, n: nat, startLine: u64, lineCount: u32)
    requires |t| <= MAX_STREAM_BYTES && BuildIndex(t) == Ok(m) && n <= |t|
    ensures var end := EndLine(m, startLine, lineCount);
            ReadSlice(t[..n], m, startLine, lineCount)
            == if startLine < end && Bound(m.offsets, |t|, end) > n then Err(UnexpectedEof)
               else ReadSlice(t, m, startLine, lineCount)
  {
    hide CheckLines, Utf8.Valid, IndexOf;
    UndamagedLines(t, m);
    ShapeOfIndex(t, m);
    var end := EndLine(m, startLine, lineCount);
    if startLine < end {
      var from, to := m.offsets[startLine], Bound(m.offsets, |t|, end);
      if to <= n {
        assert t[..n][from..to] == t[from..to];
      }
    }
  }

  lemma ShapeOfIndex(t: Bytes, m: StreamIndex)
    requires |t| <= MAX_STREAM_BYTES && BuildIndex(t) == Ok(m)
    ensures m.byteLen == |t| && m.lineCount == |m.checksums| && m.lineCount <= |m.offsets|
    ensures forall j, k | 0 <= j < k < |m.offsets| :: m.offsets[j] < m.offsets[k] <= m.byteLen
  {
    UndamagedLines(t, m);
  }

  /** A text is refused an index exactly if it has more than a million lines. */
  lemma IndexedExactly(t: Bytes)
    requires |t| <= MAX_U64
    ensures BuildIndex(t).Err? <==> |Lines(t)| > 1_000_000
    ensures BuildIndex(t) == if BuildIndex(t).Ok? then Ok(IndexOf(t)) else Err(StorageFull)
  {
    IndexedLinesAreTheLines(t);
  }

  // ---- Damage -----------------------------------------------------------------------

  /** No line of the text has more than one wrong byte. */
  ghost predicate SparseDamage(t: Bytes, data: Bytes, m: StreamIndex)
    requires Places(m.offsets, |t|)
  {
    && |data| == |t|
    && forall k | 0 <= k < |m.offsets| :: Fnv.DifferAtMostOnce(LineAt(t, m.offsets, k), LineAt(data, m.offsets, k))
  }

  ghost predicate Damaged(t: Bytes, data: Bytes, m: StreamIndex, k: nat)
    requires Places(m.offsets, |t|) && |data| == |t| && k < |m.offsets|
  {
    LineAt(t, m.offsets, k) != LineAt(data, m.offsets, k)
  }

  /**
   With at most one wrong byte in each line, a read fails exactly when its range holds
   a damaged line; every other read is as if nothing had happened.
   */
  lemma DamageIsDetected(t: Bytes, data: Bytes, m: StreamIndex, startLine: u64, lineCount: u32)
    requires |t| <= MAX_STREAM_BYTES && BuildIndex(t) == Ok(m) && Utf8.Valid(t)
    requires Places(m.offsets, |t|) && SparseDamage(t, data, m)
    ensures m.lineCount <= |m.offsets|
    ensures ReadSlice(data, m, startLine, lineCount) ==
            if exists k | startLine <= k < EndLine(m, startLine, lineCount) :: Damaged(t, data, m, k)
            then Err(InvalidData)
            else ReadSlice(t, m, startLine, lineCount)
  {
    UndamagedLines(t, m);
    var end := EndLine(m, startLine, lineCount);
    ReadSliceMeaning(t, m, startLine, lineCount);
    ReadSliceMeaning(data, m, startLine, lineCount);
    forall k | startLine <= k < end
      ensures Intact(data, m, k) <==> !Damaged(t, data, m, k)
    {
      assert Intact(t, m, k);
      Fnv.OneByteChangesChecksum(LineAt(t, m.offsets, k), LineAt(data, m.offsets, k));
    }
    if k :| startLine <= k < end && Damaged(t, data, m, k) {
      assert !Intact(data, m, k);
    } else {
      assert AllIntact(data, m, startLine, end);
      if startLine < end {
        SameLinesSameWindow(t, data, m, startLine, end);
      }
    }
  }

  lemma {:induction false} SameLinesSameWindow(t: Bytes, data: Bytes, m: StreamIndex, i: nat, j: nat)
    requires Places(m.offsets, |t|) && |data| == |t|
    requires i < j <= |m.offsets|
    requires forall k | i <= k < j :: !Damaged(t, data, m, k)
    ensures Window(t, m, i, j) == Window(data, m, i, j)
    decreases j - i
  {
    if i + 1 < j {
      SameLinesSameWindow(t, data, m, i + 1, j);
      assert !Damaged(t, data, m, i);
      assert Window(t, m, i, j) == LineAt(t, m.offsets, i) + Window(t, m, i + 1, j);
      assert Window(data, m, i, j) == LineAt(data, m.offsets, i) + Window(data, m, i + 1, j);
    } else {
      assert !Damaged(t, data, m, i);
    }
  }

  lemma OneWrongLine(t: Bytes, data: Bytes, m: StreamIndex, p: nat, k: nat, j: nat)
    requires Places(m.offsets, |t|) && k < |m.offsets| && j < |m.offsets|
    requires |data| == |t| && m.offsets[k] <= p < Bound(m.offsets, |t|, k + 1)
    requires t[p] != data[p] && forall i | 0 <= i < |t| && i != p :: t[i] == data[i]
    ensures Damaged(t, data, m, j) <==> j == k
    ensures Fnv.DifferAtMostOnce(LineAt(t, m.offsets, j), LineAt(data, m.offsets, j))
  {
    var a, b := LineAt(t, m.offsets, j), LineAt(data, m.offsets, j);
    assert forall x | 0 <= x < |a| :: a[x] == t[m.offsets[j] + x] && b[x] == data[m.offsets[j] + x];
    if j == k {
      assert a[p - m.offsets[k]] != b[p - m.offsets[k]];
    }
  }

  /** One wrong byte anywhere in the stream damages exactly the line that holds it. */
  lemma OneWrongByte(t: Bytes, data: Bytes, m: StreamIndex, p: nat, k: nat)
    requires |t| <= MAX_STREAM_BYTES && BuildIndex(t) == Ok(m)
    requires Places(m.offsets, |t|) && k < |m.offsets|
    requires |data| == |t| && m.offsets[k] <= p < Bound(m.offsets, |t|, k + 1)
    requires t[p] != data[p] && forall i | 0 <= i < |t| && i != p :: t[i] == data[i]
    ensures SparseDamage(t, data, m)
    ensures forall j | 0 <= j < |m.offsets| :: Damaged(t, data, m, j) <==> j == k
  {
    forall j | 0 <= j < |m.offsets|
      ensures Damaged(t, data, m, j) <==> j == k
      ensures Fnv.DifferAtMostOnce(LineAt(t, m.offsets, j), LineAt(data, m.offsets, j))
    {
      OneWrongLine(t, data, m, p, k, j);
    }
  }
}
