/** Answering "which bytes are lines start .. start + count" from the offset file. */
module LineLookup {
  import opened Machine
  import opened TextFiles

  /** The target file and its offset file, both immutable once the index is built. */
  datatype Index = Index(file: Text, entries: seq<nat>, len: nat)

  datatype LookupResult = Found(text: Text) | Null | Failed

  const ENTRY := 8
  const UINT_MAX := 0xffff_ffff

  ghost predicate ValidIndex(index: Index) {
    && 0 < index.len == |index.entries| <= UINT_MAX
    && |index.file| < EXACT
    && StrictlyDecreasing(index.entries)
    && index.entries[|index.entries| - 1] == 0
    && index.entries[0] <= |index.file|
  }

  /** `pread` on the target: as many of the bytes as there are. */
  function ReadAt(file: Text, offset: nat, count: nat): Text {
    if offset >= |file| then [] else file[offset..Min(offset + count, |file|)]
  }

  /** Any `size_t`. */
  type word = x: int | 0 <= x < TWO_64

  /** What the two 8-byte buffers hold before the offset file is read into them. */
  datatype Memory = Memory(start: word, end: word)

  ghost predicate AreWords(entries: seq<nat>) {
    forall k :: 0 <= k < |entries| ==> entries[k] < TWO_64
  }

  /** Beyond the end of the offset file nothing is read, and the buffer keeps what it held. */
  function EntryOr(entries: seq<nat>, k: nat, buffer: nat): nat {
    if k < |entries| then entries[k] else buffer
  }

  /** `pread` of the 8-byte entry at this offset. */
  function ReadEntry(entries: seq<nat>, offset: int, buffer: nat): nat
    requires 0 <= offset
  {
    EntryOr(entries, offset / ENTRY, buffer)
  }

  /** The entry at which a lookup stops: `count` lines on, at most at the last. When the sum wraps,
      the subtraction wraps too and goes back over the lines. */
  function StopEntry(lines: nat, start: nat, count: nat): (k: nat)
    requires start <= lines && count < TWO_64
    ensures k <= lines
  {
    if start + count >= TWO_64 then lines - start + (TWO_64 - count) else lines - Min(start + count, lines)
  }

  /** The bytes between two offsets, unless they cannot be allocated; `pread` fails on a negative
      offset. */
  function Slice(file: Text, from: nat, to: nat): LookupResult {
    if from > to || to - from >= ALLOCATABLE || S64(from) < 0 then Failed else Found(ReadAt(file, from, to - from))
  }

  /** What a lookup returns, for any offset file and any contents of the buffers. */
  function LookupOf(index: Index, start: nat, count: nat, memory: Memory): LookupResult
    requires 0 < index.len && count < TWO_64
  {
    var lines := index.len - 1;
    if start > lines then Null
    else
      Slice(index.file, EntryOr(index.entries, lines - start, memory.start),
            EntryOr(index.entries, StopEntry(lines, start, count), memory.end))
  }

  lemma SliceExact(file: Text, from: nat, to: nat)
    requires from < TWO_64
    ensures Slice(file, from, to) == Failed <==> from > to || to - from >= TWO_63 || from >= TWO_63
    ensures Slice(file, from, to) != Null
    ensures Slice(file, from, to).Found? ==>
              from <= to && Slice(file, from, to).text == file[Min(from, |file|)..Min(to, |file|)]
  {
  }

  /** The lookup in full. Line `start` is entry `len - 1 - start`, and the lines end at the entry
      `count` further on or at the last; a count that makes the sum wrap goes back over 2^64 - count
      entries instead. An entry that is not there is whatever the buffer held. */
  lemma LookupExact(index: Index, start: nat, count: nat, memory: Memory)
    requires 0 < index.len && AreWords(index.entries) && count < TWO_64
    ensures start >= index.len <==> LookupOf(index, start, count, memory) == Null
    ensures start < index.len ==>
              var i := index.len - 1 - start;
              var k := if start + count >= TWO_64 then i + TWO_64 - count else if count < i then i - count else 0;
              var from: nat := if i < |index.entries| then index.entries[i] else memory.start;
              var to: nat := if k < |index.entries| then index.entries[k] else memory.end;
              var r := LookupOf(index, start, count, memory);
              && (r == Failed <==> from > to || to - from >= TWO_63 || from >= TWO_63)
              && (r.Found? ==> from <= to && r.text == index.file[Min(from, |index.file|)..Min(to, |index.file|)])
  {
    hide Slice;
    if start < index.len {
      var i, k := index.len - 1 - start, StopEntry(index.len - 1, start, count);
      SliceExact(index.file, EntryOr(index.entries, i, memory.start), EntryOr(index.entries, k, memory.end));
    }
  }

  lemma EntryOrder(index: Index, a: nat, b: nat)
    requires ValidIndex(index) && a <= b < |index.entries|
    ensures index.entries[b] <= index.entries[a] <= |index.file|
    ensures a < b ==> index.entries[b] < index.entries[a]
  {
  }

  /** What a lookup returns, in terms of line numbers. */
  ghost function LookupSpec(index: Index, start: nat, count: nat): LookupResult
    requires ValidIndex(index)
  {
    var lines := index.len - 1;
    if start > lines then Null
    else if start + count >= TWO_64 then Failed
    else
      var stop := Min(start + count, lines);
      EntryOrder(index, lines - stop, lines - start);
      Found(index.file[index.entries[lines - start]..index.entries[lines - stop]])
  }

  /** On a valid index the contents of the buffers do not matter. */
  lemma LookupOfValid(index: Index, start: nat, count: nat, memory: Memory)
    requires ValidIndex(index) && start < TWO_64 && count < TWO_64
    ensures LookupOf(index, start, count, memory) == LookupSpec(index, start, count)
    ensures LookupSpec(index, start, count) == Failed <==> start <= index.len - 1 && start + count >= TWO_64
  {
    var lines := index.len - 1;
    if start <= lines {
      var first, stop := lines - start, StopEntry(lines, start, count);
      if stop > first { EntryOrder(index, first, stop); } else { EntryOrder(index, stop, first); }
    }
  }

  /** `count` is the number of lines to go forward, or 2^64 minus the number to go back. */
  lemma CountOffset(n: nat, back: int)
    requires n == -back || n == TWO_64 - back
    requires -UINT_MAX <= back <= UINT_MAX && n < TWO_64
    ensures S64(U64(n * ENTRY)) == -back * ENTRY
  {
    if n != -back {
      U64Periodic(-back * ENTRY, 8);
      assert n * ENTRY == -back * ENTRY + 8 * TWO_64;
      U64Step(-back * ENTRY);
    }
  }

  /** The 64-bit arithmetic of the two positions in the offset file. Going `n` lines forward is
      going `n` entries back; a count of 2^64 - back goes forward in the file instead. */
  method Offsets(len: nat, start: nat, n: nat, ghost back: int) returns (startOffset: int, endOffset: int)
    requires 0 < len <= UINT_MAX && start <= len - 1 && n < TWO_64
    requires (n == -back && n <= len - 1 - start) || (n == TWO_64 - back && 0 < back <= start)
    ensures startOffset == (len - 1 - start) * ENTRY
    ensures endOffset == (len - 1 - start + back) * ENTRY
  {
    var zeroOffset := S64((len - 1) * ENTRY);
    startOffset := S64(U64(zeroOffset - U64(start * ENTRY)));
    var countOffset := S64(U64(n * ENTRY));
    CountOffset(n, back);
    if startOffset - countOffset <= 0 {
      endOffset := 0;
    } else {
      endOffset := startOffset - countOffset;
    }
  }

  lemma EntryAt(k: nat)
    ensures k * ENTRY % ENTRY == 0 && k * ENTRY / ENTRY == k
  {
  }

  /** The second half of the function: the bytes between the two offsets. */
  method ReadLines(file: Text, startBytes: nat, endBytes: nat) returns (r: LookupResult)
    requires startBytes < TWO_64 && endBytes < TWO_64
    ensures r == Slice(file, startBytes, endBytes)
  {
    if startBytes > endBytes {
      return Failed;
    }
    var bytes := U64(endBytes - startBytes);
    if bytes >= ALLOCATABLE {
      return Failed;
    }
    var startingBytes := S64(startBytes);
    if startingBytes < 0 {
      return Failed;
    }
    r := Found(ReadAt(file, startBytes, bytes));
  }

  lemma WordAt(entries: seq<nat>, k: nat, buffer: word)
    requires AreWords(entries)
    ensures EntryOr(entries, k, buffer) < TWO_64
  {
  }

  /** `f_index_lookup`. On a valid index the branch for a start offset beyond the end offset is
      reached exactly when `start + count` wraps. */
  method Lookup(index: Index, start: nat, count: nat, memory: Memory) returns (r: LookupResult)
    requires 0 < index.len <= UINT_MAX && AreWords(index.entries) && start < TWO_64 && count < TWO_64
    ensures r == LookupOf(index, start, count, memory)
    ensures ValidIndex(index) ==> r == LookupSpec(index, start, count)
    ensures ValidIndex(index) ==> (r == Failed <==> start <= index.len - 1 && start + count >= TWO_64)
  {
    hide ValidIndex, LookupSpec, Slice, AreWords;
    if ValidIndex(index) { LookupOfValid(index, start, count, memory); }
    var lines := index.len - 1;
    U64Step(start + count - TWO_64);
    var n := count;
    if start > lines {
      return Null;
    } else if U64(start + n) > lines {
      n := lines - start;
    }
    ghost var back := if start + count >= TWO_64 then TWO_64 - count else -n;
    ghost var first, stop := lines - start, StopEntry(lines, start, count);
    assert stop == first + back;
    var startOffset, endOffset := Offsets(index.len, start, n, back);
    EntryAt(first);
    EntryAt(stop);
    var startBytes := ReadEntry(index.entries, startOffset, memory.start);
    var endBytes := ReadEntry(index.entries, endOffset, memory.end);
    WordAt(index.entries, first, memory.start);
    WordAt(index.entries, stop, memory.end);
    r := ReadLines(index.file, startBytes, endBytes);
  }

  // ---- when lookups fail ----

  /** Every entry is in the file, and every one is an offset. */
  ghost predicate IsCounted(index: Index) {
    && 0 < index.len == |index.entries| <= UINT_MAX
    && forall k :: 0 <= k < |index.entries| ==> index.entries[k] < ALLOCATABLE
  }

  lemma LookupSucceeds(index: Index, start: nat, count: nat, memory: Memory)
    requires IsCounted(index) && NonIncreasing(index.entries) && start + count < TWO_64
    ensures LookupOf(index, start, count, memory) != Failed
  {
    var lines := index.len - 1;
    if start <= lines {
      var first, stop := lines - start, StopEntry(lines, start, count);
      if stop < first { assert index.entries[stop] >= index.entries[first]; }
    }
  }

  /** Two entries that rise make a lookup fail. */
  lemma LookupFails(index: Index, i: nat, j: nat, memory: Memory)
    requires IsCounted(index) && i < j < |index.entries| && index.entries[i] < index.entries[j]
    ensures LookupOf(index, index.len - 1 - j, j - i, memory) == Failed
  {
  }

  /** No lookup fails unless its sum wraps. */
  ghost predicate NeverFails(index: Index)
    requires 0 < index.len
  {
    forall start: nat, count: nat, m :: start + count < TWO_64 ==> LookupOf(index, start, count, m) != Failed
  }

  /** With `len` entries in the file, no lookup fails without a wrapped sum exactly when the entries
      never rise. */
  lemma NoLookupFailsIff(index: Index)
    requires IsCounted(index)
    ensures NeverFails(index) <==> NonIncreasing(index.entries)
  {
    if NonIncreasing(index.entries) {
      forall start: nat, count: nat, m | start + count < TWO_64 ensures LookupOf(index, start, count, m) != Failed {
        LookupSucceeds(index, start, count, m);
      }
    }
    if !NonIncreasing(index.entries) {
      var i, j :| 0 <= i < j < |index.entries| && index.entries[i] < index.entries[j];
      LookupFails(index, i, j, Memory(0, 0));
    }
  }

  // ---- an index whose `len` counts more lines than there are entries ----

  /** The index with the `len` that its entries deserve. */
  function Recounted(index: Index): Index {
    index.(len := |index.entries|)
  }

  /** As a lost list leaves it. */
  ghost predicate IsShort(index: Index) {
    |index.entries| <= index.len <= UINT_MAX && ValidIndex(Recounted(index))
  }

  /** With `lost` lines too many in `len`, a lookup of line `start` answers with line `start - lost`. */
  lemma ShortIsShifted(index: Index, start: nat, count: nat, memory: Memory)
    requires IsShort(index) && start + count < TWO_64 && index.len - |index.entries| <= start
    ensures LookupOf(index, start, count, memory)
         == LookupSpec(Recounted(index), start - (index.len - |index.entries|), count)
  {
    hide ValidIndex, LookupSpec, Slice;
    LookupOfValid(Recounted(index), start - (index.len - |index.entries|), count, memory);
  }

  /** Below that the answer depends on uninitialised memory. */
  lemma ShortIsReliableIff(index: Index, start: nat, count: nat)
    requires IsShort(index) && start + count < TWO_64
    ensures (forall m, m' :: LookupOf(index, start, count, m) == LookupOf(index, start, count, m'))
       <==> index.len - |index.entries| <= start
  {
    var low, high := Memory(0, 0), Memory(TWO_64 - 1, 0);
    forall k | 0 <= k < |index.entries| ensures index.entries[k] <= |index.file| {
      EntryOrder(Recounted(index), 0, k);
    }
    if index.len - |index.entries| <= start {
      forall m, m' ensures LookupOf(index, start, count, m) == LookupOf(index, start, count, m') {
        ShortIsShifted(index, start, count, m);
        ShortIsShifted(index, start, count, m');
      }
    } else {
      assert LookupOf(index, start, count, low).Found? && LookupOf(index, start, count, high) == Failed;
    }
  }

  // ---- a complete index ----

  ghost predicate IsComplete(index: Index) {
    && index.entries == CompleteIndex(index.file)
    && index.len == |index.entries| <= UINT_MAX
    && |index.file| < EXACT
  }

  lemma CompleteIsValid(index: Index)
    requires IsComplete(index)
    ensures ValidIndex(index)
  {
    LineStartsExact(index.file, 0, |index.file|);
    var starts := LineStarts(index.file, 0, |index.file|);
    forall i, j | 0 <= i < j < |index.entries| ensures index.entries[i] > index.entries[j] {
      assert starts[i] in starts;
    }
    if |starts| > 0 { assert starts[0] in starts; }
  }

  /** Lookup refines naive line splitting: it returns exactly the lines asked for, newlines
      included, as far as the file has complete lines. */
  lemma LookupIsLines(index: Index, start: nat, count: nat)
    requires IsComplete(index) && start + count < TWO_64
    ensures ValidIndex(index) && index.len - 1 == |SplitLines(index.file).lines|
    ensures var lines := SplitLines(index.file).lines;
            LookupSpec(index, start, count) ==
            if start > |lines| then Null else Found(Concat(lines[start..Min(start + count, |lines|)]))
  {
    CompleteIsValid(index);
    EntryIsLineStart(index.file);
    var n := index.len - 1;
    if start <= n {
      SliceIsLines(index.file, start, Min(start + count, n));
    }
  }

  lemma SlicesJoin(s: Text, a: nat, b: nat, c: nat)
    requires a <= b <= c <= |s|
    ensures s[a..c] == s[a..b] + s[b..c]
  {
  }

  /** The two entries between which a lookup finds its bytes. */
  lemma FoundAt(index: Index, start: nat, count: nat)
    requires ValidIndex(index) && start <= index.len - 1 && start + count < TWO_64
    ensures var i, k := index.len - 1 - start, StopEntry(index.len - 1, start, count);
            && 0 <= k <= i < |index.entries| && index.entries[i] <= index.entries[k] <= |index.file|
            && LookupSpec(index, start, count) == Found(index.file[index.entries[i]..index.entries[k]])
  {
    EntryOrder(index, StopEntry(index.len - 1, start, count), index.len - 1 - start);
  }

  lemma SameStop(lines: nat, start: nat, a: nat, b: nat)
    requires start + a <= lines && start + a + b < TWO_64
    ensures StopEntry(lines, start, a) == lines - (start + a)
    ensures StopEntry(lines, start, a + b) == StopEntry(lines, start + a, b)
  {
  }

  /** Adjacent lookups compose, on every index whose entries descend to 0. */
  lemma LookupsCompose(index: Index, start: nat, a: nat, b: nat)
    requires ValidIndex(index) && start + a <= index.len - 1 && start + a + b < TWO_64
    ensures LookupSpec(index, start, a).Found? && LookupSpec(index, start + a, b).Found?
    ensures LookupSpec(index, start, a + b)
         == Found(LookupSpec(index, start, a).text + LookupSpec(index, start + a, b).text)
  {
    hide *;
    var n := index.len - 1;
    var j, k := StopEntry(n, start, a), StopEntry(n, start + a, b);
    FoundAt(index, start, a);
    FoundAt(index, start + a, b);
    FoundAt(index, start, a + b);
    SameStop(n, start, a, b);
    SlicesJoin(index.file, index.entries[n - start], index.entries[j], index.entries[k]);
  }

  /** Asking for every line gives the file up to and including its last newline. */
  lemma LookupEverything(index: Index)
    requires IsComplete(index) && ValidIndex(index)
    ensures LookupSpec(index, 0, index.len - 1).Found?
    ensures var text := LookupSpec(index, 0, index.len - 1).text;
            text <= index.file && NEWLINE !in index.file[|text|..]
  {
    var lines, tail := SplitLines(index.file).lines, SplitLines(index.file).tail;
    LookupIsLines(index, 0, index.len - 1);
    SplitLinesSound(index.file);
    assert lines[0..|lines|] == lines;
    assert index.file[|Concat(lines)|..] == tail;
  }
}
