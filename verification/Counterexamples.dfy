/** Concrete inputs for each way in which the program falls short of its documentation. */
module Counterexamples {
  import opened Machine
  import opened TextFiles
  import opened Chunks
  import opened Partitioning
  import opened OffsetFiles
  import opened IndexTheorems
  import opened OverlapTheorems
  import opened LostLists
  import opened LineLookup
  import opened Tokenizer
  import S = Searching
  import SearchOutcome
  import EndToEnd

  // ---- a lost list ----

  const LETTER: byte := 97

  lemma LostThread3(file: Text)
    requires file == [LETTER, NEWLINE, LETTER]
    ensures !ThreadOK(file, ThreadRange(0, 3, 2))
  {
    var parts := ScanParts(file, 2, 0, 3);
    assert Bounds(2, 0, 3) == [0, 2, 3];
    assert |parts| == 2 && parts[0] == ScanPart(file, 0, 2) && parts[1] == ScanPart(file, 2, 3);
    LineStartsMembers(file, 0, 2, 2);
    assert LineStarts(file, 2, 2) == [];
    assert NonEmptyCount(parts, 1) == 1;
  }

  lemma WholeRange(total: nat, bufferSize: nat)
    requires 0 < total < EXACT
    ensures ThreadRanges(total, 1, bufferSize, 0) == [ThreadRange(0, total, bufferSize)]
  {
    OneThread(total);
    RangeClosedForm(total, 1, bufferSize, 0, 0);
  }

  /** One window of this length, with as many threads as buffers. */
  lemma FullWindow(total: nat, threads: nat, c: Config)
    requires ValidConfig(c) && 0 < total < EXACT && c.window == total
    requires 0 < threads && c.threads == threads && CeilDiv(total, c.bufferSize) >= threads
    ensures WindowCount(total, c) == 1 && WindowLength(total, c, 0) == total && ThreadCount(total, c, 0) == threads
  {
  }

  lemma ThreeBytes(c: Config)
    requires c == Config(1, 1, 2, 3)
    ensures WellFormedConfig(3, c) && WindowCount(3, c) == 1 && UsableRanges(3, c, 0) == [ThreadRange(0, 3, 2)]
  {
    FullWindow(3, 1, c);
    OneThread(3);
    WholeRange(3, 2);
    hide ThreadRanges, WindowLength, ThreadCount, WindowCount, WellFormed;
    UsableRangesAre(3, c, 0);
  }

  lemma LosesList(file: Text, c: Config, ranges: seq<Usable>)
    requires UsableConfig(|file|, c) && WindowCount(|file|, c) == 1 && UsableRanges(|file|, c, 0) == ranges
    requires |ranges| > 0 && !ThreadOK(file, ranges[0])
    ensures !AllReduceOK(file, c)
  {
    hide ThreadOK, UsableRanges, WindowCount, ThreadParts;
    assert LayoutOf(|file|, c)[0] == ranges;
    assert !WindowOK(file, ranges);
  }

  /** "a\nb" in two chunks of two bytes: the one newline is in one chunk, the reduction drops it,
      and `len` says 2 where the file holds 1 entry. */
  lemma LostNewline()
    ensures var file, c := [LETTER, NEWLINE, LETTER], Config(1, 1, 2, 3);
            && WellFormedConfig(|file|, c)
            && IndexEntries(file, c) != CompleteIndex(file) && IndexLen(file, c) > |IndexEntries(file, c)|
  {
    hide *;
    var file, c := [LETTER, NEWLINE, LETTER], Config(1, 1, 2, 3);
    ThreeBytes(c);
    LostThread3(file);
    LosesList(file, c, UsableRanges(3, c, 0));
    CompleteIff(file, c);
    LenIff(file, c);
  }

  lemma NineBytes(c: Config)
    requires c == Config(2, 1, 2, 9)
    ensures WellFormedConfig(9, c) && WindowCount(9, c) == 1
    ensures var r0, r1 := ThreadRange(0, 4, 2), ThreadRange(5, 9, 2); UsableRanges(9, c, 0) == [r0, r1]
  {
    FullWindow(9, 2, c);
    assert WellFormed(9, 2);
    RangeClosedForm(9, 2, 2, 0, 0);
    RangeClosedForm(9, 2, 2, 0, 1);
    RangesOfWindow(9, c, 0);
    hide ThreadRanges, WindowLength, ThreadCount, WindowCount, WellFormed;
    UsableRangesAre(9, c, 0);
  }

  lemma LosesSingle(file: Text, r: Usable, x: nat)
    requires r.to - r.from > r.bufferSize && ReadBy(file, r, x) && forall y: nat :: ReadBy(file, r, y) ==> y == x
    ensures !ThreadOK(file, r)
  {
    hide ThreadOK, ReadBy;
    ThreadLosesIff(file, r);
  }

  lemma KeepsTwo(file: Text, r: Usable, x: nat, y: nat)
    requires ReadBy(file, r, x) && ReadBy(file, r, y) && ChunkOf(r, x) != ChunkOf(r, y)
    ensures ThreadOK(file, r)
  {
    hide ThreadOK, ReadBy;
    ThreadLosesIff(file, r);
  }

  /** The second thread of the next example reads 6 and 8, in two chunks; the first only 2. */
  lemma OneOfTwoLost(file: Text, r0: Usable, r1: Usable)
    requires file == [LETTER, NEWLINE, LETTER, LETTER, LETTER, NEWLINE, LETTER, NEWLINE, LETTER]
    requires r0 == ThreadRange(0, 4, 2) && r1 == ThreadRange(5, 9, 2)
    ensures !ThreadOK(file, r0) && ThreadOK(file, r1)
  {
    hide ThreadOK;
    LosesSingle(file, r0, 2);
    KeepsTwo(file, r1, 6, 8);
  }

  lemma OnlyWindow(file: Text, c: Config, ranges: seq<Usable>)
    requires UsableConfig(|file|, c) && WindowCount(|file|, c) == 1 && UsableRanges(|file|, c, 0) == ranges
    ensures IndexEntries(file, c) == WindowOffsets(file, ranges) + [0]
  {
    hide UsableRanges, WindowOffsets, EntriesFrom, WindowCount;
    var windows := LayoutOf(|file|, c);
    EntriesStep(file, windows, 0);
    EntriesNone(file, windows);
  }

  lemma SecondAlone(file: Text, ranges: seq<Usable>)
    requires |ranges| == 2 && !ThreadOK(file, ranges[0]) && ThreadOK(file, ranges[1])
    ensures WindowOffsets(file, ranges) == []
  {
    hide WindowOffsets, ThreadOK;
    WindowContents(file, ranges, 1);
  }

  /** "a\naaa\na\na" in two ranges: the first thread loses its one list, and that of the second thread,
      which lost nothing, is then a single one and lost with it. */
  lemma LostWithAnother()
    ensures var file := [LETTER, NEWLINE, LETTER, LETTER, LETTER, NEWLINE, LETTER, NEWLINE, LETTER];
            WellFormedConfig(9, Config(2, 1, 2, 9)) && IndexEntries(file, Config(2, 1, 2, 9)) == [0]
  {
    hide *;
    var file := [LETTER, NEWLINE, LETTER, LETTER, LETTER, NEWLINE, LETTER, NEWLINE, LETTER];
    var c := Config(2, 1, 2, 9);
    NineBytes(c);
    OneOfTwoLost(file, UsableRanges(9, c, 0)[0], UsableRanges(9, c, 0)[1]);
    SecondAlone(file, UsableRanges(9, c, 0));
    OnlyWindow(file, c, UsableRanges(9, c, 0));
  }

  // ---- a byte that no thread reads ----

  lemma TwoThreads(c: Config)
    requires c == Config(2, 1, 2, 4)
    ensures WellFormedConfig(4, c) && IsGapByte(4, c, 2)
  {
    FullWindow(4, 2, c);
    WindowOfByte(4, c, 2);
    assert IsGap(4, 2, 2) && WellFormed(4, 2);
  }

  /** "aa\na" with two threads: the newline is the byte between their ranges and is never read. */
  lemma UnreadNewline()
    ensures var file, c := [LETTER, LETTER, NEWLINE, LETTER], Config(2, 1, 2, 4);
            && WellFormedConfig(|file|, c)
            && IsGapByte(|file|, c, 2) && IndexEntries(file, c) != CompleteIndex(file)
  {
    var file, c := [LETTER, LETTER, NEWLINE, LETTER], Config(2, 1, 2, 4);
    TwoThreads(c);
    assert IsLineStart(file, 0, 4, 3) && !NoNewlineInGap(file, c);
    CompleteIff(file, c);
  }

  // ---- too many threads for a window ----

  /** The empty file is not well-formed for any configuration: its one range is empty. */
  lemma EmptyFileIsIllFormed(c: Config)
    requires ValidConfig(c)
    ensures !WellFormedConfig(0, c)
    ensures WindowRanges(0, c, 0) == [ThreadRange(0, 0, c.bufferSize)]
  {
    assert WindowLength(0, c, 0) == 0 && ThreadCount(0, c, 0) == 1;
    RangeFrom(0, 1, c.bufferSize, 0, 0, 0, 0);
  }

  lemma FirstRound(total: nat, threads: nat, bufferSize: nat, pages: nat)
    requires 0 < threads && pages * threads <= total < pages * threads + threads
    ensures RoundsOf(total, threads, bufferSize, 0, 0) == Rounds(pages, [])
  {
    DivUnique(total, threads, pages, total - pages * threads);
  }

  /** Round `n` of the range loop when the state before it is known. */
  lemma NextRound(total: nat, threads: nat, bufferSize: nat, n: nat, pages: nat, ranges: seq<ThreadRange>, start: nat)
    requires 0 < threads && total < EXACT && pages <= total && start == n * pages + n <= total + 1
    requires RoundsOf(total, threads, bufferSize, 0, n) == Rounds(pages, ranges)
    ensures RoundsOf(total, threads, bufferSize, 0, n + 1)
         == Rounds(if start + pages > total then U64(total - start) else pages,
                   ranges + [ThreadRange(start, Min(start + pages, total), bufferSize)])
  {
    U64Small(start);
    RangeInside(total, 0, bufferSize, pages, start);
    RoundsStep(total, threads, bufferSize, 0, n);
    hide RoundsOf, Shrink, RangeOf, U64;
  }

  /** Two bytes, two threads, buffers of one byte: the second range is empty. */
  lemma EmptyRange()
    ensures ClampThreads(2, 2, 1) == 2 && !WellFormed(2, 2)
    ensures ThreadRanges(2, 2, 1, 0) == [ThreadRange(0, 1, 1), ThreadRange(2, 2, 1)]
  {
    hide RoundsOf, U64, ThreadRanges;
    FirstRound(2, 2, 1, 1);
    NextRound(2, 2, 1, 0, 1, [], 0);
    NextRound(2, 2, 1, 1, 1, [ThreadRange(0, 1, 1)], 2);
    RangesAreRounds(2, 2, 1, 0);
  }

  /** Five bytes, four threads, buffers of one byte: the last range is inverted. */
  lemma InvertedLastRange()
    ensures ClampThreads(4, 5, 1) == 4 && !WellFormed(5, 4)
    ensures ThreadRanges(5, 4, 1, 0)
         == [ThreadRange(0, 1, 1), ThreadRange(2, 3, 1), ThreadRange(4, 5, 1), ThreadRange(6, 5, 1)]
  {
    hide RoundsOf, U64, ThreadRanges;
    var r0, r1, r2 := ThreadRange(0, 1, 1), ThreadRange(2, 3, 1), ThreadRange(4, 5, 1);
    FirstRound(5, 4, 1, 1);
    NextRound(5, 4, 1, 0, 1, [], 0);
    NextRound(5, 4, 1, 1, 1, [r0], 2);
    NextRound(5, 4, 1, 2, 1, [r0, r1], 4);
    NextRound(5, 4, 1, 3, 1, [r0, r1, r2], 6);
    RangesAreRounds(5, 4, 1, 0);
  }

  /** Ten bytes, five threads, buffers of two bytes: the last range reaches back before the fourth. */
  lemma OverlappingRanges()
    ensures ClampThreads(5, 10, 2) == 5 && !WellFormed(10, 5)
    ensures ThreadRanges(10, 5, 2, 0) == [ThreadRange(0, 2, 2), ThreadRange(3, 5, 2), ThreadRange(6, 8, 2),
                                          ThreadRange(9, 10, 2), ThreadRange(8, 9, 2)]
  {
    hide RoundsOf, U64, ThreadRanges;
    var r0, r1, r2, r3 := ThreadRange(0, 2, 2), ThreadRange(3, 5, 2), ThreadRange(6, 8, 2), ThreadRange(9, 10, 2);
    FirstRound(10, 5, 2, 2);
    NextRound(10, 5, 2, 0, 2, [], 0);
    NextRound(10, 5, 2, 1, 2, [r0], 3);
    NextRound(10, 5, 2, 2, 2, [r0, r1], 6);
    NextRound(10, 5, 2, 3, 2, [r0, r1, r2], 9);
    U64Small(1);
    NextRound(10, 5, 2, 4, 1, [r0, r1, r2, r3], 8);
    RangesAreRounds(10, 5, 2, 0);
  }

  lemma OneNewline(file: Text, p: nat)
    requires p < |file| && file[p] == NEWLINE
    ensures LineStarts(file, p, p + 1) == [p + 1]
  {
    assert LineStarts(file, p, p) == [];
  }

  lemma {:induction false} EntriesFew(file: Text, lo: nat, hi: nat)
    ensures |LineStarts(file, lo, hi)| <= hi
    decreases hi
  {
    if hi <= lo {
    } else {
      EntriesFew(file, lo, hi - 1);
    }
  }

  lemma TenBytes(c: Config)
    requires c == Config(5, 1, 2, 10)
    ensures UsableConfig(10, c) && WindowCount(10, c) == 1
    ensures UsableRanges(10, c, 0) == ThreadRanges(10, 5, 2, 0)
  {
    hide ThreadRanges;
    FullWindow(10, 5, c);
    assert Workable(10, 5);
    UsableRangesAre(10, c, 0);
  }
  lemma {:induction false} ConcatenationFew(file: Text, ranges: seq<Usable>, parts: seq<Part<nat>>, n: nat, bound: nat)
    requires n <= |parts| == |ranges|
    requires forall k :: 0 <= k < |ranges| ==> parts[k].items == LineStarts(file, ranges[k].from, ranges[k].to)
    requires forall k :: 0 <= k < |ranges| ==> ranges[k].to <= bound
    ensures |Concatenation(parts, n)| <= n * bound
  {
    hide LineStarts;
    if n == 0 {
    } else {
      ConcatenationFew(file, ranges, parts, n - 1, bound);
      EntriesFew(file, ranges[n - 1].from, ranges[n - 1].to);
      assert n * bound == (n - 1) * bound + bound;
    }
  }

  lemma LastParts(parts: seq<Part<nat>>, n: nat, x: nat, y: nat)
    requires 2 <= n <= |parts| && parts[n - 1].items == [x] && parts[n - 2].items == [y]
    ensures |Concatenation(parts, n)| >= 2 && Concatenation(parts, n)[..2] == [x, y]
  {
    assert Concatenation(parts, n) == [x] + Concatenation(parts, n - 1);
    assert Concatenation(parts, n - 1) == [y] + Concatenation(parts, n - 2);
  }

  /** In a window of newlines whose last two ranges have one byte each, their offsets come first. */
  lemma LastTwo(file: Text, ranges: seq<Usable>, a: nat, b: nat)
    requires forall p :: 0 <= p < |file| ==> file[p] == NEWLINE
    requires forall k :: 0 <= k < |ranges| ==> ranges[k].to <= |file|
    requires |ranges| >= 2 && a < |file| && b < |file|
    requires ranges[|ranges| - 1].from == a && ranges[|ranges| - 1].to == a + 1
    requires ranges[|ranges| - 2].from == b && ranges[|ranges| - 2].to == b + 1
    ensures 2 <= |WindowOffsets(file, ranges)| <= |ranges| * |file|
    ensures WindowOffsets(file, ranges)[..2] == [a + 1, b + 1]
  {
    hide *;
    var parts, n := ThreadParts(file, ranges), |ranges|;
    WindowIsConcatenation(file, ranges);
    OneNewline(file, a);
    OneNewline(file, b);
    ConcatenationFew(file, ranges, parts, n, |file|);
    LastParts(parts, n, a + 1, b + 1);
  }

  lemma SingleWindow(file: Text, c: Config, ranges: seq<Usable>)
    requires UsableConfig(|file|, c) && WindowCount(|file|, c) == 1 && UsableRanges(|file|, c, 0) == ranges
    ensures IndexEntries(file, c) == WindowOffsets(file, ranges) + [0]
  {
    hide WindowOffsets, UsableRanges;
    var windows, lists := LayoutOf(|file|, c), WindowLists(file, LayoutOf(|file|, c));
    assert lists == [WindowOffsets(file, ranges)];
    assert Written(lists, 1) == [];
    assert Written(lists, 0) == Written(lists, 1) + lists[0];
  }

  /** The offsets of ten newlines under these ranges begin with those of the last two. */
  lemma TenNewlines(file: Text, c: Config)
    requires file == Newlines(10) && c == Config(5, 1, 2, 10) && UsableConfig(10, c) && WindowCount(10, c) == 1
    requires UsableRanges(10, c, 0) == ThreadRanges(10, 5, 2, 0)
    ensures 2 < |IndexEntries(file, c)| < 100 && IndexEntries(file, c)[..2] == [9, 10]
  {
    hide *;
    OverlappingRanges();
    var ranges: seq<Usable> := UsableRanges(10, c, 0);
    LastTwo(file, ranges, 8, 9);
    SingleWindow(file, c, ranges);
    var offsets := WindowOffsets(file, ranges);
    assert (offsets + [0])[..2] == offsets[..2];
  }
  /** With these ranges every thread ends and no list is lost, but a file of ten newlines gets an offset
      file that rises, and a lookup of one line fails although nothing wraps. */
  lemma UnorderedFile(memory: Memory)
    ensures var file, c := Newlines(10), Config(5, 1, 2, 10);
            && UsableConfig(10, c) && AllReduceOK(file, c) && IndexLen(file, c) == |IndexEntries(file, c)| > 2
            && IndexEntries(file, c)[..2] == [9, 10]
            && LookupOf(EndToEnd.BuiltIndex(file, c), IndexLen(file, c) - 2, 1, memory) == Failed
  {
    hide IndexEntries, IndexLen, AllReduceOK, UsableConfig, Newlines, UsableRanges, ThreadRanges, WindowCount;
    var file, c := Newlines(10), Config(5, 1, 2, 10);
    TenBytes(c);
    AllNewlinesOK(file, c);
    LenIff(file, c);
    TenNewlines(file, c);
    var entries := IndexEntries(file, c);
    assert entries[0] == entries[..2][0] == 9 && entries[1] == entries[..2][1] == 10;
    EndToEnd.BuiltIsCounted(file, c);
    EndToEnd.BuiltIndexIs(file, c);
    LookupFails(EndToEnd.BuiltIndex(file, c), 0, 1, memory);
  }
  // ---- a count that wraps ----

  /** Two entries, line 1, and a count of 2^64 - 1. */
  lemma WrappingCount()
    ensures var index := Index([NEWLINE], [1, 0], 2);
            ValidIndex(index) && LookupSpec(index, 1, TWO_64 - 1) == Failed
  {
  }

  // ---- a NUL, and a line outside all batches ----

  /** A search by any threads over the complete index of a file, with a matcher that takes every line. */
  function SearchAll(file: Text, threads: nat, lineBuffer: nat): S.Searcher {
    var index := Index(file, CompleteIndex(file), |CompleteIndex(file)|);
    S.Searcher(index, threads, 10, lineBuffer, true, (t: Text) => true, (i: nat) => Memory(0, 0))
  }

  lemma SearchAllValid(file: Text, lines: seq<Text>, threads: nat, lineBuffer: nat)
    requires |file| < 100 && IsSplitOf(Split(lines, []), file) && 0 < threads < 10 && 0 < lineBuffer < 10
    ensures S.Valid(SearchAll(file, threads, lineBuffer)) && S.Lines(SearchAll(file, threads, lineBuffer)) == lines
    ensures SearchAll(file, threads, lineBuffer).index.len == |lines| + 1
  {
    SplitLinesUnique(Split(lines, []), file);
    EntryIsLineStart(file);
    EntriesFew(file, 0, |file|);
    CompleteIsValid(SearchAll(file, threads, lineBuffer).index);
  }

  const NUL_LINE: Text := [LETTER, NUL, NEWLINE]
  const PLAIN_LINE: Text := [LETTER, NEWLINE]

  lemma SampleLines()
    ensures IsLine(NUL_LINE) && IsLine(PLAIN_LINE)
  {
    assert NUL_LINE[..2] == [LETTER, NUL] && PLAIN_LINE[..1] == [LETTER];
  }

  /** A splitting without a tail, and one more line. */
  lemma OneMoreLine(lines: seq<Text>, file: Text, line: Text)
    requires IsSplitOf(Split(lines, []), file) && IsLine(line)
    ensures IsSplitOf(Split(lines + [line], []), file + line)
  {
    ConcatSnoc(lines, line);
  }

  lemma NoLines()
    ensures IsSplitOf(Split([], []), [])
  {
  }

  /** "a\0\na\n" with one thread and a batch of three lines: line 2 matches but is never seen. */
  lemma HiddenLine()
    ensures var file := NUL_LINE + PLAIN_LINE;
            var sc := SearchAll(file, 1, 3);
            S.Valid(sc) && 2 in EndToEnd.Matches(file, sc.matches) && 2 !in S.Wanted(sc)
  {
    var file, lines := NUL_LINE + PLAIN_LINE, [NUL_LINE, PLAIN_LINE];
    var sc := SearchAll(file, 1, 3);
    SampleLines();
    NoLines();
    OneMoreLine([], [], NUL_LINE);
    OneMoreLine([NUL_LINE], NUL_LINE, PLAIN_LINE);
    assert [] + [NUL_LINE] == [NUL_LINE] && [] + NUL_LINE == NUL_LINE && lines == [NUL_LINE] + [PLAIN_LINE];
    hide IsSplitOf, IsLine, CompleteIndex, SplitLines;
    SearchAllValid(file, lines, 1, 3);
    assert EndToEnd.IsMatch(file, sc.matches, 1);
    assert NUL_LINE[1] == NUL;
    assert S.BatchOf(sc, S.SpanOf(sc, 0), 1) == 0;
    assert !NulFree(S.Lines(sc)[0]);
    assert S.Hidden(sc, 0, 1);
  }

  /** Three lines, two threads with two lines each, and batches of three: line 1 is in no batch. */
  lemma UnsearchedLine()
    ensures var sc := SearchAll(PLAIN_LINE + PLAIN_LINE + PLAIN_LINE, 2, 3);
            S.Valid(sc) && |S.Lines(sc)| == 3 && !S.Covered(sc, 1)
  {
    var file, lines := PLAIN_LINE + PLAIN_LINE + PLAIN_LINE, [PLAIN_LINE, PLAIN_LINE, PLAIN_LINE];
    SampleLines();
    NoLines();
    OneMoreLine([], [], PLAIN_LINE);
    OneMoreLine([PLAIN_LINE], PLAIN_LINE, PLAIN_LINE);
    OneMoreLine([PLAIN_LINE, PLAIN_LINE], PLAIN_LINE + PLAIN_LINE, PLAIN_LINE);
    assert [] + [PLAIN_LINE] == [PLAIN_LINE] && [] + PLAIN_LINE == PLAIN_LINE;
    assert [PLAIN_LINE] + [PLAIN_LINE] == [PLAIN_LINE, PLAIN_LINE];
    assert lines == [PLAIN_LINE, PLAIN_LINE] + [PLAIN_LINE];
    hide IsSplitOf, IsLine, CompleteIndex, SplitLines;
    SearchAllValid(file, lines, 2, 3);
    SearchOutcome.NotCovered(SearchAll(file, 2, 3), 1);
  }
}
