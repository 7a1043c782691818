/** Which bytes each thread and each coroutine reads. */
module Partitioning {
  import opened Machine

  datatype ThreadRange = ThreadRange(from: nat, to: nat, bufferSize: nat)

  datatype ChunkSpec = ChunkSpec(index: nat, from: nat, count: nat)

  const INT_MAX := 0x7fff_ffff

  // ---- threads ----

  /** The requested thread count, clamped to the number of buffers. */
  function ClampThreads(threads: nat, total: nat, bufferSize: nat): (count: nat)
    requires 0 < threads && 0 < bufferSize
    ensures 0 < count <= threads
  {
    var buffers := CeilDiv(total, bufferSize);
    if buffers == 0 then 1 else if threads > buffers then buffers else threads
  }

  /** As many threads as asked for, unless fewer buffers already hold everything: the threads but one
      do not. */
  lemma ClampExact(threads: nat, total: nat, bufferSize: nat)
    requires 0 < threads && 0 < bufferSize
    ensures var count := ClampThreads(threads, total, bufferSize);
            && 0 < count <= threads && (total == 0 ==> count == 1)
            && (total > 0 ==> (count - 1) * bufferSize < total)
            && (total > 0 && count < threads ==> total <= count * bufferSize)
  {
    var buffers := CeilDiv(total, bufferSize);
    CeilDivBounds(total, bufferSize);
    if total > 0 {
      MulMono(ClampThreads(threads, total, bufferSize), buffers, bufferSize);
    }
  }

  /** `start_position` of round `i` when the loop variable `pages` has this value. */
  function StartAt(pages: nat, i: nat): nat {
    U64(i * pages + i)
  }

  /** `pages` is shrunk when the range would run over the end, and stays shrunk. */
  function Shrink(pages: nat, start: nat, total: nat): nat {
    if U64(start + pages) > total then U64(total - start) else pages
  }

  function RangeOf(pages: nat, start: nat, bufferSize: nat, offset: nat): ThreadRange {
    ThreadRange(U64(start + offset), U64(U64(start + pages) + offset), bufferSize)
  }

  /** `ceil(total_bytes_count / threads)` on integers: the quotient, rounded down. */
  function Pages(total: nat, threads: nat): nat
    requires 0 < threads
  {
    total / threads
  }

  datatype Rounds = Rounds(pages: nat, ranges: seq<ThreadRange>)

  /** The state of the loop after `n` rounds. */
  function RoundsOf(total: nat, threads: nat, bufferSize: nat, offset: nat, n: nat): (r: Rounds)
    requires 0 < threads
    ensures |r.ranges| == n
  {
    if n == 0 then Rounds(Pages(total, threads), [])
    else
      var before := RoundsOf(total, threads, bufferSize, offset, n - 1);
      var start := StartAt(before.pages, n - 1);
      var pages := Shrink(before.pages, start, total);
      Rounds(pages, before.ranges + [RangeOf(pages, start, bufferSize, offset)])
  }

  function ThreadRanges(total: nat, threads: nat, bufferSize: nat, offset: nat): (r: seq<ThreadRange>)
    requires 0 < threads
    ensures |r| == threads
  {
    RoundsOf(total, threads, bufferSize, offset, threads).ranges
  }

  lemma RangesAreRounds(total: nat, threads: nat, bufferSize: nat, offset: nat)
    requires 0 < threads
    ensures ThreadRanges(total, threads, bufferSize, offset)
         == RoundsOf(total, threads, bufferSize, offset, threads).ranges
  {
  }

  lemma RoundsNone(total: nat, threads: nat, bufferSize: nat, offset: nat)
    requires 0 < threads
    ensures RoundsOf(total, threads, bufferSize, offset, 0) == Rounds(Pages(total, threads), [])
  {
  }

  lemma RoundsStep(total: nat, threads: nat, bufferSize: nat, offset: nat, n: nat)
    requires 0 < threads
    ensures var before := RoundsOf(total, threads, bufferSize, offset, n);
            var pages := Shrink(before.pages, StartAt(before.pages, n), total);
            var range := RangeOf(pages, StartAt(before.pages, n), bufferSize, offset);
            RoundsOf(total, threads, bufferSize, offset, n + 1) == Rounds(pages, before.ranges + [range])
  {
  }

  method StartPosition(i: nat, pages: nat) returns (start: nat)
    ensures start == StartAt(pages, i)
  {
    start := U64(i * pages);
    start := U64(start + i);
    U64Add(i * pages, i);
  }

  /** The body of the loop; `pages` is the loop variable it may shrink. */
  method Round(total: nat, bufferSize: nat, offset: nat, i: nat, pages: nat) returns (newPages: nat, range: ThreadRange)
    ensures newPages == Shrink(pages, StartAt(pages, i), total)
    ensures range == RangeOf(newPages, StartAt(pages, i), bufferSize, offset)
  {
    var start := StartPosition(i, pages);
    newPages := pages;
    if U64(start + pages) > total {
      newPages := U64(total - start);
    }
    var to := U64(start + newPages);
    range := ThreadRange(U64(start + offset), U64(to + offset), bufferSize);
  }

  /** The number of threads: as many as asked for, but no more than there are buffers to fill. */
  method EstablishThreads(threads: nat, total: nat, bufferSize: nat) returns (count: nat)
    requires 0 < threads && 0 < bufferSize
    ensures 0 < count == ClampThreads(threads, total, bufferSize)
  {
    count := threads;
    var buffers := CeilDiv(total, bufferSize);
    if buffers == 0 {
      count := 1;
    } else if threads > buffers {
      count := buffers;
    }
  }

  /** `f_indexer_threads_init` */
  method ThreadsInit(threads: nat, total: nat, bufferSize: nat, offset: nat) returns (ranges: array<ThreadRange>)
    requires 0 < threads <= INT_MAX && 0 < bufferSize
    requires total < EXACT && bufferSize < EXACT && offset < EXACT
    ensures fresh(ranges) && ranges.Length == ClampThreads(threads, total, bufferSize)
    ensures 0 < ranges.Length <= threads && (total == 0 ==> ranges.Length == 1)
    ensures total > 0 ==> (ranges.Length - 1) * bufferSize < total
    ensures total > 0 && ranges.Length < threads ==> total <= ranges.Length * bufferSize
    ensures ranges[..] == ThreadRanges(total, ranges.Length, bufferSize, offset)
  {
    hide *;
    ClampExact(threads, total, bufferSize);
    var count := EstablishThreads(threads, total, bufferSize);
    ranges := new ThreadRange[count](_ => ThreadRange(0, 0, 0));
    var pages := Pages(total, count);
    RoundsNone(total, count, bufferSize, offset);
    RangesAreRounds(total, count, bufferSize, offset);
    for i := 0 to count
      invariant Rounds(pages, ranges[..i]) == RoundsOf(total, count, bufferSize, offset, i)
    {
      var range;
      pages, range := Round(total, bufferSize, offset, i, pages);
      ranges[i] := range;
      assert ranges[..i + 1] == ranges[..i] + [range];
      RoundsStep(total, count, bufferSize, offset, i);
    }
    assert ranges[..] == ranges[..count];
  }

  predicate NonEmpty(ranges: seq<ThreadRange>) {
    forall i :: 0 <= i < |ranges| ==> ranges[i].from < ranges[i].to
  }

  /** Each range is non-empty and ends before the next begins. */
  ghost predicate Ordered(ranges: seq<ThreadRange>) {
    && NonEmpty(ranges)
    && (forall i :: 0 <= i < |ranges| - 1 ==> ranges[i].to <= ranges[i + 1].from)
  }

  /** The bound a caller can check: the window is long enough for its threads. */
  predicate WellFormed(total: nat, threads: nat)
    requires 0 < threads
  {
    threads - 1 < total / threads + total % threads
  }

  /** Relative offsets that no range contains: one byte after every range but the last. */
  predicate IsGap(total: nat, threads: nat, x: nat)
    requires 0 < threads
  {
    var period := total / threads + 1;
    x % period == period - 1 && x / period < threads - 1
  }

  lemma {:induction false} RoundsPrefix(total: nat, threads: nat, bufferSize: nat, offset: nat, n: nat, i: nat)
    requires 0 < threads && i < n
    ensures RoundsOf(total, threads, bufferSize, offset, n).ranges[i]
         == RoundsOf(total, threads, bufferSize, offset, i + 1).ranges[i]
  {
    if i + 1 == n {
    } else {
      RoundsPrefix(total, threads, bufferSize, offset, n - 1, i);
    }
  }

  lemma ShrunkInside(pages: nat, start: nat, total: nat)
    requires total < EXACT
    ensures U64(start + Shrink(pages, start, total)) <= total
  {
    U64Add(total - start, start);
  }

  lemma RangeWithin(total: nat, threads: nat, bufferSize: nat, offset: nat, i: nat)
    requires i < threads && total < EXACT && offset < EXACT
    ensures var r := ThreadRanges(total, threads, bufferSize, offset)[i];
            r.bufferSize == bufferSize && r.to <= offset + total
  {
    var pages := RoundsOf(total, threads, bufferSize, offset, i).pages;
    RoundsPrefix(total, threads, bufferSize, offset, threads, i);
    ShrunkInside(pages, StartAt(pages, i), total);
  }

  lemma RangeInside(total: nat, offset: nat, bufferSize: nat, pages: nat, start: nat)
    requires total < EXACT && offset < EXACT && pages <= total && start <= total + 1
    ensures Shrink(pages, start, total) == if start + pages > total then U64(total - start) else pages
    ensures RangeOf(Shrink(pages, start, total), start, bufferSize, offset)
         == ThreadRange(offset + start, offset + Min(start + pages, total), bufferSize)
  {
    U64Step(total - start);
    U64Step(total);
  }

  lemma Euclid(x: nat, y: nat)
    requires 0 < y
    ensures x == x / y * y + x % y && 0 <= x % y < y && 0 <= x / y
  {
  }

  lemma Expand(threads: int, p: int)
    ensures (threads - 1) * (p + 1) == p * threads - p + threads - 1
  {
  }

  lemma Quotient(total: nat, threads: nat)
    requires 0 < threads
    ensures total / threads <= total && total % threads < threads
    ensures (threads - 1) * (total / threads + 1) == total - total % threads - total / threads + threads - 1
    ensures WellFormed(total, threads) <==> (threads - 1) * (total / threads + 1) < total
    ensures threads <= total ==> 0 < total / threads
  {
    var p, r := total / threads, total % threads;
    Euclid(total, threads);
    Expand(threads, p);
    if p > 0 { MulMono(1, threads, p); }
  }

  lemma QuotientWithin(total: nat, threads: nat)
    requires 0 < threads
    ensures 0 <= total / threads <= total
  {
    Quotient(total, threads);
  }

  predicate Spans(r: ThreadRange, from: int, to: int, bufferSize: nat) {
    r.from == from && r.to == to && r.bufferSize == bufferSize
  }

  /** The first range has the quotient as length. */
  lemma FirstRange(total: nat, threads: nat, bufferSize: nat, offset: nat)
    requires 0 < threads && total < EXACT && offset < EXACT
    ensures Spans(ThreadRanges(total, threads, bufferSize, offset)[0], offset, offset + total / threads, bufferSize)
  {
    RoundsPrefix(total, threads, bufferSize, offset, threads, 0);
    RoundsNone(total, threads, bufferSize, offset);
    QuotientWithin(total, threads);
    RangeInside(total, offset, bufferSize, total / threads, 0);
  }

  lemma {:induction false} PagesFit(total: nat, threads: nat, bufferSize: nat, offset: nat, n: nat)
    requires 0 < threads && total < TWO_64
    ensures RoundsOf(total, threads, bufferSize, offset, n).pages < TWO_64
  {
    if n == 0 {
      QuotientWithin(total, threads);
    } else {
      PagesFit(total, threads, bufferSize, offset, n - 1);
    }
  }

  lemma Difference(x: nat, y: nat, length: nat)
    requires x == y + length && length < TWO_64
    ensures U64(U64(x) - U64(y)) == length
  {
    U64Small(length);
    hide U64;
    U64Sub(U64(x), y);
    U64Add(x, 0 - y);
  }

  lemma RangeIs(pages: nat, start: nat, bufferSize: nat, offset: nat)
    ensures RangeOf(pages, start, bufferSize, offset)
         == ThreadRange(U64(start + offset), U64(start + pages + offset), bufferSize)
  {
    hide U64;
    U64Add(start + pages, offset);
  }

  /** The length of a range, and so of the next one, is `pages`. */
  lemma LengthOfRange(pages: nat, start: nat, bufferSize: nat, offset: nat)
    requires pages < TWO_64
    ensures var r := RangeOf(pages, start, bufferSize, offset); U64(r.to - r.from) == pages
  {
    hide U64, RangeOf;
    RangeIs(pages, start, bufferSize, offset);
    Difference(start + pages + offset, start + offset, pages);
  }

  lemma RoundRange(total: nat, threads: nat, bufferSize: nat, offset: nat, i: nat)
    requires i < threads
    ensures var pages := RoundsOf(total, threads, bufferSize, offset, i).pages;
            var after := RoundsOf(total, threads, bufferSize, offset, i + 1).pages;
            var range := RangeOf(after, StartAt(pages, i), bufferSize, offset);
            && after == Shrink(pages, StartAt(pages, i), total)
            && range == ThreadRanges(total, threads, bufferSize, offset)[i]
  {
    RoundsPrefix(total, threads, bufferSize, offset, threads, i);
  }

  /** The range of one round. */
  lemma RangeInFull(total: nat, bufferSize: nat, offset: nat, i: nat, pages: nat)
    ensures var start := U64(i * pages + i);
            var cut := if U64(start + pages) > total then U64(total - start) else pages;
            var range := RangeOf(Shrink(pages, StartAt(pages, i), total), StartAt(pages, i), bufferSize, offset);
            range == ThreadRange(U64(start + offset), U64(start + cut + offset), bufferSize)
  {
    hide U64, RangeOf;
    RangeIs(Shrink(pages, StartAt(pages, i), total), StartAt(pages, i), bufferSize, offset);
  }

  /** Every range follows from the one before it, and from the round: it starts where ranges of that
      one's length would, and is cut short where it would run over the end of the window. All sums
      wrap. */
  lemma RangeFollows(total: nat, threads: nat, bufferSize: nat, offset: nat, i: nat)
    requires 0 < i < threads && total < TWO_64
    ensures var ranges := ThreadRanges(total, threads, bufferSize, offset);
            var length := U64(ranges[i - 1].to - ranges[i - 1].from);
            var start := U64(i * length + i);
            var cut := if U64(start + length) > total then U64(total - start) else length;
            ranges[i] == ThreadRange(U64(start + offset), U64(start + cut + offset), bufferSize)
  {
    hide *;
    var pages := RoundsOf(total, threads, bufferSize, offset, i).pages;
    PagesFit(total, threads, bufferSize, offset, i);
    RoundRange(total, threads, bufferSize, offset, i - 1);
    RoundRange(total, threads, bufferSize, offset, i);
    LengthOfRange(pages, StartAt(RoundsOf(total, threads, bufferSize, offset, i - 1).pages, i - 1), bufferSize, offset);
    RangeInFull(total, bufferSize, offset, i, pages);
  }

  /** No range ends beyond the window, whatever `pages` has become. */
  lemma RangesWithin(total: nat, threads: nat, bufferSize: nat, offset: nat)
    requires 0 < threads && total < EXACT && offset < EXACT
    ensures var ranges := ThreadRanges(total, threads, bufferSize, offset);
            forall i :: 0 <= i < threads ==> ranges[i].bufferSize == bufferSize && ranges[i].to <= offset + total
  {
    hide ThreadRanges;
    forall i | 0 <= i < threads
      ensures var r := ThreadRanges(total, threads, bufferSize, offset)[i];
              r.bufferSize == bufferSize && r.to <= offset + total
    {
      RangeWithin(total, threads, bufferSize, offset, i);
    }
  }

  lemma QuotientPositive(total: nat, threads: nat)
    requires 0 < threads
    ensures 0 <= total / threads
  {
    Euclid(total, threads);
  }

  /** Where range `i` starts when all ranges before it have `p` bytes. */
  function StartOfRange(p: nat, i: nat): nat {
    i * (p + 1)
  }

  lemma StartIs(p: nat, i: nat)
    ensures StartOfRange(p, i) == i * (p + 1)
  {
  }

  lemma NextStart(p: nat, i: nat)
    ensures StartOfRange(p, i + 1) == StartOfRange(p, i) + p + 1
  {
  }

  lemma StartUntruncated(p: nat, i: nat)
    requires StartOfRange(p, i) < TWO_64
    ensures StartAt(p, i) == StartOfRange(p, i)
  {
    assert i * (p + 1) == i * p + i;
    U64Small(i * p + i);
  }

  lemma NotShrunk(p: nat, start: nat, total: nat)
    requires start + p <= total < EXACT
    ensures Shrink(p, start, total) == p
  {
    U64Small(start + p);
  }

  /** While no range has been truncated, `pages` is the quotient. */
  lemma {:induction false} PagesKept(total: nat, threads: nat, bufferSize: nat, offset: nat, i: nat, p: nat)
    requires 0 < threads && p == Pages(total, threads) && total < EXACT && StartOfRange(p, i) <= total + 1
    ensures RoundsOf(total, threads, bufferSize, offset, i).pages == p
  {
    assert EXACT < TWO_64 - 1;
    hide *;
    if i == 0 {
      RoundsNone(total, threads, bufferSize, offset);
    } else {
      NextStart(p, i - 1);
      StartUntruncated(p, i - 1);
      PagesKept(total, threads, bufferSize, offset, i - 1, p);
      RoundsStep(total, threads, bufferSize, offset, i - 1);
      NotShrunk(p, StartAt(p, i - 1), total);
    }
  }

  lemma PagesUntruncated(total: nat, threads: nat, bufferSize: nat, offset: nat, i: nat)
    requires 0 < threads && total < EXACT
    requires i * (total / threads + 1) <= total + 1
    ensures RoundsOf(total, threads, bufferSize, offset, i).pages == total / threads
    ensures StartAt(total / threads, i) == i * (total / threads + 1)
  {
    QuotientPositive(total, threads);
    StartUntruncated(total / threads, i);
    PagesKept(total, threads, bufferSize, offset, i, total / threads);
  }

  /** Round `i` when its `pages` and `start_position` are known: the range ends with the window
      even if the start lies one byte beyond it and the subtraction wraps. */
  lemma RangeFrom(total: nat, threads: nat, bufferSize: nat, offset: nat, i: nat, pages: nat, start: nat)
    requires 0 < threads && total < EXACT && offset < EXACT && pages <= total && start <= total + 1 && i < threads
    requires RoundsOf(total, threads, bufferSize, offset, i).pages == pages && StartAt(pages, i) == start
    ensures RoundsOf(total, threads, bufferSize, offset, i + 1).pages
         == if start + pages > total then U64(total - start) else pages
    ensures ThreadRanges(total, threads, bufferSize, offset)[i]
         == ThreadRange(offset + start, offset + Min(start + pages, total), bufferSize)
  {
    RoundsPrefix(total, threads, bufferSize, offset, threads, i);
    RangeInside(total, offset, bufferSize, pages, start);
  }

  /** The ranges of a well-formed window in closed form: all have the quotient as length but the
      last, which ends with the window. */
  lemma RangeClosedForm(total: nat, threads: nat, bufferSize: nat, offset: nat, i: nat)
    requires 0 < threads && total < EXACT && offset < EXACT && WellFormed(total, threads) && i < threads
    ensures var p, range := total / threads, ThreadRanges(total, threads, bufferSize, offset)[i];
            && range == ThreadRange(offset + i * (p + 1), offset + Min(i * (p + 1) + p, total), bufferSize)
            && offset <= range.from < range.to <= offset + total
            && i * (p + 1) < total
            && (i + 1 < threads ==> (i + 1) * (p + 1) == i * (p + 1) + p + 1 < total)
            && (i + 1 == threads ==> i * (p + 1) + p >= total)
  {
    hide RoundsOf, ThreadRanges, StartAt, WellFormed;
    var p := total / threads;
    Quotient(total, threads);
    MulMono(i, threads - 1, p + 1);
    PagesUntruncated(total, threads, bufferSize, offset, i);
    RangeFrom(total, threads, bufferSize, offset, i, p, i * (p + 1));
    if i + 1 < threads {
      MulMono(i + 1, threads - 1, p + 1);
      assert (i + 1) * (p + 1) == i * (p + 1) + p + 1;
    }
  }

  lemma OrderedWhenWellFormed(total: nat, threads: nat, bufferSize: nat, offset: nat)
    requires 0 < threads && total < EXACT && offset < EXACT && WellFormed(total, threads)
    ensures Ordered(ThreadRanges(total, threads, bufferSize, offset))
    ensures ThreadRanges(total, threads, bufferSize, offset)[0].from == offset
    ensures ThreadRanges(total, threads, bufferSize, offset)[threads - 1].to == offset + total
  {
    var p, ranges := total / threads, ThreadRanges(total, threads, bufferSize, offset);
    Quotient(total, threads);
    assert p > 0 by { if p == 0 { Euclid(total, threads); } }
    forall i | 0 <= i < threads
      ensures ranges[i] == ThreadRange(offset + i * (p + 1), offset + Min(i * (p + 1) + p, total), bufferSize)
      ensures ranges[i].from < ranges[i].to
      ensures i + 1 < threads ==> ranges[i].to + 1 == offset + (i + 1) * (p + 1)
    {
      RangeClosedForm(total, threads, bufferSize, offset, i);
    }
    RangeClosedForm(total, threads, bufferSize, offset, threads - 1);
  }

  lemma ClampBound(threads: nat, total: nat, bufferSize: nat)
    requires 0 < bufferSize && 0 < threads == ClampThreads(threads, total, bufferSize)
    ensures threads <= total || (total == 0 && threads == 1)
  {
  }

  lemma NotOrderedAt(ranges: seq<ThreadRange>, m: nat)
    requires m < |ranges|
    requires ranges[m].from < ranges[m].to ==> m + 1 < |ranges| && ranges[m + 1].from < ranges[m].to
    ensures !Ordered(ranges)
  {
  }

  lemma MinAtMost(a: int, b: int)
    ensures Min(a, b) == if a < b then a else b
  {
  }

  /** There is room for `threads` ranges of `p` bytes, when none is lost between them. */
  predicate Room(threads: nat, p: nat, total: nat) {
    threads * p <= total
  }

  /** Ranges shorter than that fit with the lost bytes. */
  lemma ShortFits(threads: nat, p: nat, total: nat, q: nat, i: nat)
    requires Room(threads, p, total) && q < p && i < threads
    ensures StartOfRange(q, i) + q < total
  {
    assert i * (q + 1) + q + 1 == (i + 1) * (q + 1);
    MulMono(i + 1, threads, q + 1);
    MulMono(q + 1, p, threads);
  }

  /** Round `i` with `q` pages left. */
  lemma ShortRound(total: nat, threads: nat, bufferSize: nat, offset: nat, i: nat, q: nat, p: nat)
    requires total < EXACT && offset < EXACT && i < threads && q < p && Room(threads, p, total)
    requires RoundsOf(total, threads, bufferSize, offset, i).pages == q
    ensures var start := offset + StartOfRange(q, i);
            Spans(ThreadRanges(total, threads, bufferSize, offset)[i], start, start + q, bufferSize)
    ensures RoundsOf(total, threads, bufferSize, offset, i + 1).pages == q
  {
    assert EXACT < TWO_64;
    hide RoundsOf, ThreadRanges, StartOfRange, StartAt, Min, Room;
    ShortFits(threads, p, total, q, i);
    StartUntruncated(q, i);
    RangeFrom(total, threads, bufferSize, offset, i, q, StartOfRange(q, i));
    MinAtMost(StartOfRange(q, i) + q, total);
  }

  /** After the truncation `pages` stays what was left. */
  lemma {:induction false} PagesShort(total: nat, threads: nat, bufferSize: nat, offset: nat, m: nat, i: nat, q: nat,
                                      p: nat)
    requires total < EXACT && offset < EXACT && m <= i < threads && q < p && Room(threads, p, total)
    requires RoundsOf(total, threads, bufferSize, offset, m).pages == q
    ensures RoundsOf(total, threads, bufferSize, offset, i).pages == q
  {
    hide *;
    if m == i {
    } else {
      PagesShort(total, threads, bufferSize, offset, m, i - 1, q, p);
      ShortRound(total, threads, bufferSize, offset, i - 1, q, p);
    }
  }

  /** So every later range has that length and starts where ranges of that length would. */
  lemma ShortRange(total: nat, threads: nat, bufferSize: nat, offset: nat, m: nat, i: nat, q: nat, p: nat)
    requires total < EXACT && offset < EXACT && m <= i < threads && q < p && Room(threads, p, total)
    requires RoundsOf(total, threads, bufferSize, offset, m).pages == q
    ensures Spans(ThreadRanges(total, threads, bufferSize, offset)[i],
                  offset + i * (q + 1), offset + i * (q + 1) + q, bufferSize)
  {
    hide *;
    StartIs(q, i);
    PagesShort(total, threads, bufferSize, offset, m, i, q, p);
    ShortRound(total, threads, bufferSize, offset, i, q, p);
  }

  /** A range can only be cut short before the last if there are more such ranges than bytes in one. */
  lemma TruncatedEarly(total: nat, threads: nat, p: nat, m: nat, q: nat)
    requires 0 < q < p && m + 1 < threads && threads * p <= total == m * (p + 1) + q
    ensures (m + 1) * (q + 1) + 1 < total
  {
    MulMono(m + 2, threads, p);
    assert (m + 2) * p == m * p + 2 * p;
    assert m * (p + 1) == m * p + m;
    assert p < m;
    MulMono(q + 1, p, m);
    assert (m + 1) * (q + 1) == m * (q + 1) + q + 1;
  }

  lemma TruncatedAt(total: nat, threads: nat, p: nat, m: nat, q: int)
    requires 0 < threads <= total && 0 < p && threads * p <= total <= (threads - 1) * (p + 1)
    requires m * (p + 1) + q == total && -1 <= q < p
    ensures m < threads
    ensures q > 0 ==> m + 1 < threads && (m + 1) * (q + 1) + 1 < total
  {
    assert threads * (p + 1) == (threads - 1) * (p + 1) + p + 1;
    if m >= threads { MulMono(threads, m, p + 1); }
    if q > 0 && m + 1 < threads {
      TruncatedEarly(total, threads, p, m, q);
    }
  }

  /** The first round in which the range runs over the end of the window, and what is left for it. */
  lemma FirstTruncated(total: nat, threads: nat) returns (m: nat, q: int)
    requires 0 < threads <= total && !WellFormed(total, threads)
    ensures var p := total / threads;
            && 0 < p <= total && -1 <= q < p && m < threads
            && m == (total + 1) / (p + 1) && q == (total + 1) % (p + 1) - 1
            && m * (p + 1) + q == total
            && Room(threads, p, total)
            && (q > 0 ==> m + 1 < threads && (m + 1) * (q + 1) + 1 < total)
  {
    var p := total / threads;
    Quotient(total, threads);
    Euclid(total, threads);
    Euclid(total + 1, p + 1);
    m, q := (total + 1) / (p + 1), (total + 1) % (p + 1) - 1;
    TruncatedAt(total, threads, p, m, q);
  }

  /** Whether every thread of a window has something to read, as a condition on sizes. */
  predicate Workable(total: nat, threads: nat)
    requires 0 < threads
  {
    WellFormed(total, threads) || (total + 1) % (total / threads + 1) > 1
  }

  lemma TruncatedRange(total: nat, threads: nat, bufferSize: nat, offset: nat, p: nat, m: nat, q: int)
    requires total < EXACT && offset < EXACT && 0 < p <= total && -1 <= q < p && m < threads
    requires RoundsOf(total, threads, bufferSize, offset, m).pages == p && StartAt(p, m) == total - q
    ensures ThreadRanges(total, threads, bufferSize, offset)[m]
         == ThreadRange(offset + total - q, offset + total, bufferSize)
    ensures q > 0 ==> RoundsOf(total, threads, bufferSize, offset, m + 1).pages == q
  {
    assert EXACT < TWO_64;
    hide *;
    RangeFrom(total, threads, bufferSize, offset, m, p, total - q);
    MinAtMost(total - q + p, total);
    if q > 0 { U64Small(q); }
  }

  lemma RangeBefore(total: nat, threads: nat, bufferSize: nat, offset: nat, i: nat, m: nat, p: nat)
    requires 0 < threads && total < EXACT && offset < EXACT && i < m && i < threads && 0 < p == total / threads
    requires m * (p + 1) <= total + 1
    ensures Spans(ThreadRanges(total, threads, bufferSize, offset)[i],
                  offset + i * (p + 1), offset + i * (p + 1) + p, bufferSize)
  {
    MulMono(i + 1, m, p + 1);
    assert (i + 1) * (p + 1) == i * (p + 1) + p + 1;
    PagesUntruncated(total, threads, bufferSize, offset, i);
    QuotientWithin(total, threads);
    hide RoundsOf, ThreadRanges, StartAt;
    RangeFrom(total, threads, bufferSize, offset, i, p, i * (p + 1));
  }

  /** What happens in a window that is not well-formed: with `r` the remainder of `total + 1` by the
      range period, the first range to run over the end of the window is inverted when r == 0, empty
      when r == 1, and otherwise every range is non-empty, but from the next one on they are laid out
      as if all had been that short, and the next one reaches back into this one. */
  lemma IllFormedRanges(total: nat, threads: nat, bufferSize: nat, offset: nat)
    requires 0 < bufferSize && 0 < total < EXACT && offset < EXACT
    requires 0 < threads == ClampThreads(threads, total, bufferSize) && !WellFormed(total, threads)
    ensures var p, ranges := total / threads, ThreadRanges(total, threads, bufferSize, offset);
            var m, r := (total + 1) / (p + 1), (total + 1) % (p + 1);
            && 0 < p && 0 <= m < threads
            && (forall i :: 0 <= i < m ==>
                  Spans(ranges[i], offset + i * (p + 1), offset + i * (p + 1) + p, bufferSize))
            && ranges[m] == ThreadRange(offset + total + 1 - r, offset + total, bufferSize)
            && (r > 1 <==> NonEmpty(ranges))
            && (r > 1 ==> m + 1 < threads && ranges[m + 1].from + 1 < ranges[m].to)
            && (r > 1 ==> forall i :: m < i < threads ==>
                  Spans(ranges[i], offset + i * r, offset + i * r + r - 1, bufferSize))
  {
    hide ThreadRanges, RoundsOf, WellFormed, CeilDiv, ClampThreads;
    var p, ranges := total / threads, ThreadRanges(total, threads, bufferSize, offset);
    ClampBound(threads, total, bufferSize);
    var m, q := FirstTruncated(total, threads);
    PagesUntruncated(total, threads, bufferSize, offset, m);
    TruncatedRange(total, threads, bufferSize, offset, p, m, q);
    forall i | 0 <= i < m
      ensures Spans(ranges[i], offset + i * (p + 1), offset + i * (p + 1) + p, bufferSize)
    {
      RangeBefore(total, threads, bufferSize, offset, i, m, p);
    }
    if q > 0 {
      forall i | m < i < threads
        ensures Spans(ranges[i], offset + i * (q + 1), offset + i * (q + 1) + q, bufferSize)
      {
        ShortRange(total, threads, bufferSize, offset, m + 1, i, q, p);
      }
    }
  }

  lemma EmptyWindow(bufferSize: nat, offset: nat)
    requires offset < EXACT
    ensures ThreadRanges(0, 1, bufferSize, offset) == [ThreadRange(offset, offset, bufferSize)]
    ensures !WellFormed(0, 1) && !Workable(0, 1) && !NonEmpty(ThreadRanges(0, 1, bufferSize, offset))
  {
    RangeFrom(0, 1, bufferSize, offset, 0, 0, 0);
  }

  lemma NonEmptyAt(ranges: seq<ThreadRange>, n: nat, i: nat)
    requires i < n <= |ranges| && (NonEmpty(ranges) || NonEmpty(ranges[..n]))
    ensures ranges[i].from < ranges[i].to
  {
    assert ranges[..n][i] == ranges[i];
  }

  lemma ReachingBack(total: nat, threads: nat, bufferSize: nat, offset: nat) returns (m: nat)
    requires 0 < bufferSize && total < EXACT && offset < EXACT
    requires 0 < threads == ClampThreads(threads, total, bufferSize) && !WellFormed(total, threads)
    requires NonEmpty(ThreadRanges(total, threads, bufferSize, offset))
    ensures m + 1 < threads
    ensures var ranges := ThreadRanges(total, threads, bufferSize, offset); ranges[m + 1].from + 1 < ranges[m].to
  {
    hide ThreadRanges, WellFormed;
    ClampBound(threads, total, bufferSize);
    if total == 0 {
      NonEmptyAt(ThreadRanges(0, 1, bufferSize, offset), 1, 0);
      EmptyWindow(bufferSize, offset);
      assert false;
    }
    IllFormedRanges(total, threads, bufferSize, offset);
    m := (total + 1) / (total / threads + 1);
  }

  /** Every thread has something to read exactly under the condition on sizes. */
  lemma NonEmptyIffWorkable(total: nat, threads: nat, bufferSize: nat, offset: nat)
    requires 0 < bufferSize && total < EXACT && offset < EXACT
    requires 0 < threads == ClampThreads(threads, total, bufferSize)
    ensures NonEmpty(ThreadRanges(total, threads, bufferSize, offset)) <==> Workable(total, threads)
  {
    hide ThreadRanges, WellFormed;
    ClampBound(threads, total, bufferSize);
    if total == 0 {
      EmptyWindow(bufferSize, offset);
    } else if WellFormed(total, threads) {
      OrderedWhenWellFormed(total, threads, bufferSize, offset);
    } else {
      IllFormedRanges(total, threads, bufferSize, offset);
    }
  }

  /** Up to the first range without a byte, starts stay within the window or one byte beyond it. */
  lemma FirstIdleRange(total: nat, threads: nat, bufferSize: nat, offset: nat, i: nat)
    requires 0 < bufferSize && total < EXACT && offset < EXACT
    requires i < threads == ClampThreads(threads, total, bufferSize)
    requires NonEmpty(ThreadRanges(total, threads, bufferSize, offset)[..i])
    ensures ThreadRanges(total, threads, bufferSize, offset)[i].from <= offset + total + 1
  {
    hide ThreadRanges, WellFormed, NonEmpty;
    var ranges := ThreadRanges(total, threads, bufferSize, offset);
    NonEmptyIffWorkable(total, threads, bufferSize, offset);
    RangeWithin(total, threads, bufferSize, offset, i);
    ClampBound(threads, total, bufferSize);
    if total == 0 {
      EmptyWindow(bufferSize, offset);
    } else if !NonEmpty(ranges) {
      IllFormedRanges(total, threads, bufferSize, offset);
      var m := (total + 1) / (total / threads + 1);
      if m < i {
        NonEmptyAt(ranges, i, m);
      }
    } else {
      NonEmptyAt(ranges, threads, i);
    }
  }

  lemma UnorderedOtherwise(total: nat, threads: nat, bufferSize: nat, offset: nat)
    requires 0 < bufferSize && 0 < threads && total < EXACT && offset < EXACT
    requires threads == ClampThreads(threads, total, bufferSize)
    requires !WellFormed(total, threads)
    ensures !Ordered(ThreadRanges(total, threads, bufferSize, offset))
  {
    hide ThreadRanges, WellFormed, Ordered, CeilDiv, ClampThreads, NonEmpty;
    ClampBound(threads, total, bufferSize);
    var ranges := ThreadRanges(total, threads, bufferSize, offset);
    if total == 0 {
      EmptyWindow(bufferSize, offset);
      NotOrderedAt(ranges, 0);
    } else {
      IllFormedRanges(total, threads, bufferSize, offset);
      NotOrderedAt(ranges, (total + 1) / (total / threads + 1));
    }
  }

  /** The thread partition is usable exactly when the window is well-formed. An empty window or
      too many threads for it give an empty, an inverted or an overlapping range. */
  lemma OrderedIffWellFormed(total: nat, threads: nat, bufferSize: nat, offset: nat)
    requires 0 < bufferSize && 0 < threads && total < EXACT && offset < EXACT
    requires threads == ClampThreads(threads, total, bufferSize)
    ensures Ordered(ThreadRanges(total, threads, bufferSize, offset)) <==> WellFormed(total, threads)
  {
    if WellFormed(total, threads) {
      OrderedWhenWellFormed(total, threads, bufferSize, offset);
    } else {
      UnorderedOtherwise(total, threads, bufferSize, offset);
    }
  }

  lemma Between(q: nat, i: nat, p: nat, x: nat)
    requires x == q * (p + 1) + p
    ensures !(i * (p + 1) <= x < i * (p + 1) + p)
  {
    if i < q { MulMono(i + 1, q, p + 1); }
    if i > q { MulMono(q + 1, i, p + 1); }
    assert (i + 1) * (p + 1) == i * (p + 1) + p + 1;
    assert (q + 1) * (p + 1) == q * (p + 1) + p + 1;
  }

  predicate InRange(r: ThreadRange, x: nat) {
    r.from <= x < r.to
  }

  lemma GapUnread(total: nat, threads: nat, bufferSize: nat, offset: nat, i: nat, x: nat)
    requires 0 < threads && total < EXACT && offset < EXACT && WellFormed(total, threads) && x < total
    requires i < threads && IsGap(total, threads, x)
    ensures !InRange(ThreadRanges(total, threads, bufferSize, offset)[i], offset + x)
  {
    var p := total / threads;
    RangeClosedForm(total, threads, bufferSize, offset, i);
    Euclid(x, p + 1);
    Between(x / (p + 1), i, p, x);
  }

  lemma ReaderOf(total: nat, threads: nat, bufferSize: nat, offset: nat, x: nat) returns (i: nat)
    requires 0 < threads && total < EXACT && offset < EXACT && WellFormed(total, threads) && x < total
    requires !IsGap(total, threads, x)
    ensures i < threads && InRange(ThreadRanges(total, threads, bufferSize, offset)[i], offset + x)
  {
    var p := total / threads;
    var q := x / (p + 1);
    Euclid(x, p + 1);
    i := if q >= threads - 1 then threads - 1 else q;
    MulMono(i, q, p + 1);
    RangeClosedForm(total, threads, bufferSize, offset, i);
  }

  /** In a well-formed window every byte is read by some thread, except exactly the gap bytes. */
  lemma CoveredIffNotGap(total: nat, threads: nat, bufferSize: nat, offset: nat, x: nat)
    requires 0 < threads && total < EXACT && offset < EXACT && WellFormed(total, threads) && x < total
    ensures (exists i :: 0 <= i < threads && InRange(ThreadRanges(total, threads, bufferSize, offset)[i], offset + x))
       <==> !IsGap(total, threads, x)
  {
    var ranges := ThreadRanges(total, threads, bufferSize, offset);
    if IsGap(total, threads, x) {
      forall i | 0 <= i < threads ensures !InRange(ranges[i], offset + x) {
        GapUnread(total, threads, bufferSize, offset, i, x);
      }
    } else {
      var i := ReaderOf(total, threads, bufferSize, offset, x);
      assert InRange(ranges[i], offset + x);
    }
  }

  /** Exactly one byte is lost after every range but the last. */
  lemma GapAfterEachRange(total: nat, threads: nat, i: nat)
    requires 0 < threads && i < threads - 1
    ensures IsGap(total, threads, i * (total / threads + 1) + total / threads)
  {
    DivUnique(i * (total / threads + 1) + total / threads, total / threads + 1, i, total / threads);
  }

  // ---- chunks of one range ----

  function ChunkCount(bufferSize: nat, from: nat, to: nat): nat
    requires 0 < bufferSize && from <= to
  {
    CeilDiv(to - from, bufferSize)
  }

  /** Chunk `k` in closed form. */
  function ChunkAt(bufferSize: nat, from: nat, to: nat, k: nat): ChunkSpec
    requires 0 < bufferSize && from + k * bufferSize <= to
  {
    ChunkSpec(k, from + k * bufferSize, Min(bufferSize, to - from - k * bufferSize))
  }

  predicate IsChunk(bufferSize: nat, from: nat, to: nat, k: nat, chunk: ChunkSpec)
    requires 0 < bufferSize
  {
    from + k * bufferSize <= to && chunk == ChunkAt(bufferSize, from, to, k)
  }

  predicate AreChunks(bufferSize: nat, from: nat, to: nat, chunks: seq<ChunkSpec>)
    requires 0 < bufferSize
  {
    forall k :: 0 <= k < |chunks| ==> IsChunk(bufferSize, from, to, k, chunks[k])
  }

  lemma AreChunksNone(bufferSize: nat, from: nat, to: nat)
    requires 0 < bufferSize
    ensures AreChunks(bufferSize, from, to, [])
  {
  }

  lemma AreChunksAppend(bufferSize: nat, from: nat, to: nat, chunks: seq<ChunkSpec>, chunk: ChunkSpec)
    requires 0 < bufferSize && AreChunks(bufferSize, from, to, chunks)
    requires IsChunk(bufferSize, from, to, |chunks|, chunk)
    ensures AreChunks(bufferSize, from, to, chunks + [chunk])
  {
    hide IsChunk;
  }

  lemma ChunkInside(bufferSize: nat, from: nat, to: nat, k: nat)
    requires 0 < bufferSize && from <= to && k < ChunkCount(bufferSize, from, to)
    ensures from + k * bufferSize < to
    ensures k + 1 < ChunkCount(bufferSize, from, to) ==> from + (k + 1) * bufferSize < to
    ensures k + 1 == ChunkCount(bufferSize, from, to) ==> from + (k + 1) * bufferSize >= to
    ensures (k + 1) * bufferSize == k * bufferSize + bufferSize
  {
    var n := ChunkCount(bufferSize, from, to);
    CeilDivBounds(to - from, bufferSize);
    assert (k + 1) * bufferSize == k * bufferSize + bufferSize;
    MulMono(k + 1, n, bufferSize);
    if k + 1 < n {
      MulMono(k + 2, n, bufferSize);
      assert (k + 2) * bufferSize == (k + 1) * bufferSize + bufferSize;
    }
  }

  datatype ChunkRounds = ChunkRounds(buffer: nat, specs: seq<ChunkSpec>)

  /** `buffer_size` is shrunk when the chunk would run over the end, and stays shrunk. */
  function ShrinkBuffer(buffer: nat, start: nat, end: nat): nat {
    if U64(start + buffer) > end then U64(end - start) else buffer
  }

  /** The chunk of round `k` when `buffer_size` comes in with this value; its count goes out. */
  function NextChunk(buffer: nat, from: nat, to: nat, k: nat): ChunkSpec {
    var start, end := U64(from + U64(k * buffer)), U64(U64(to - from) + from);
    ChunkSpec(k, start, ShrinkBuffer(buffer, start, end))
  }

  /** The state of the loop after `n` rounds, for any two bounds. */
  function ChunkRoundsOf(bufferSize: nat, from: nat, to: nat, n: nat): (r: ChunkRounds)
    ensures |r.specs| == n
  {
    if n == 0 then ChunkRounds(bufferSize, [])
    else
      var before := ChunkRoundsOf(bufferSize, from, to, n - 1);
      var chunk := NextChunk(before.buffer, from, to, n - 1);
      ChunkRounds(chunk.count, before.specs + [chunk])
  }

  lemma ChunkRoundsNone(bufferSize: nat, from: nat, to: nat)
    ensures ChunkRoundsOf(bufferSize, from, to, 0) == ChunkRounds(bufferSize, [])
  {
  }

  lemma ChunkRoundsStep(bufferSize: nat, from: nat, to: nat, n: nat)
    ensures var before := ChunkRoundsOf(bufferSize, from, to, n);
            var chunk := NextChunk(before.buffer, from, to, n);
            ChunkRoundsOf(bufferSize, from, to, n + 1) == ChunkRounds(chunk.count, before.specs + [chunk])
  {
  }

  lemma ChunkRound(bufferSize: nat, from: nat, to: nat, k: nat)
    requires 0 < bufferSize < EXACT && from <= to < EXACT && k < ChunkCount(bufferSize, from, to)
    ensures IsChunk(bufferSize, from, to, k, NextChunk(bufferSize, from, to, k))
    ensures k + 1 < ChunkCount(bufferSize, from, to) ==> NextChunk(bufferSize, from, to, k).count == bufferSize
  {
    ChunkInside(bufferSize, from, to, k);
    U64Add(to - from, from);
    U64Small(k * bufferSize);
    U64Small(from + k * bufferSize);
    U64Small(from + k * bufferSize + bufferSize);
    U64Small(to - from - k * bufferSize);
  }

  lemma {:induction false} ChunkPrefix(bufferSize: nat, from: nat, to: nat, n: nat, k: nat)
    requires k < n
    ensures ChunkRoundsOf(bufferSize, from, to, n).specs[k]
         == NextChunk(ChunkRoundsOf(bufferSize, from, to, k).buffer, from, to, k)
  {
    if k + 1 == n {
    } else {
      ChunkPrefix(bufferSize, from, to, n - 1, k);
    }
  }

  lemma BufferIsCount(bufferSize: nat, from: nat, to: nat, k: nat)
    requires 0 < k
    ensures ChunkRoundsOf(bufferSize, from, to, k).buffer
         == ChunkRoundsOf(bufferSize, from, to, k).specs[k - 1].count
  {
  }

  lemma BoundsOfChunk(from: nat, to: nat, x: int)
    requires to < TWO_64
    ensures U64(from + U64(x)) == U64(from + x) && U64(U64(to - from) + from) == to
  {
    U64Small(to);
    hide U64;
    U64Add(x, from);
    U64Add(to - from, from);
  }

  lemma ChunkIs(buffer: nat, from: nat, to: nat, k: nat)
    ensures var start, end := U64(from + U64(k * buffer)), U64(U64(to - from) + from);
            var count := if U64(start + buffer) > end then U64(end - start) else buffer;
            NextChunk(buffer, from, to, k) == ChunkSpec(k, start, count)
  {
    hide U64;
  }

  lemma ChunkFrom(buffer: nat, from: nat, to: nat, k: nat)
    requires to < TWO_64
    ensures var start := U64(from + k * buffer);
            var count := if U64(start + buffer) > to then U64(to - start) else buffer;
            NextChunk(buffer, from, to, k) == ChunkSpec(k, start, count)
  {
    hide *;
    ChunkIs(buffer, from, to, k);
    BoundsOfChunk(from, to, k * buffer);
  }

  /** For any two bounds every chunk follows from the bytes of the one before it (the first, from the
      buffer): it starts where chunks of that size would, and is cut short where it would run over
      the end. All sums wrap. */
  lemma ChunkFollows(bufferSize: nat, from: nat, to: nat, n: nat, k: nat)
    requires k < n && to < TWO_64
    ensures var chunks := ChunkRoundsOf(bufferSize, from, to, n).specs;
            var buffer := if k == 0 then bufferSize else chunks[k - 1].count;
            var start := U64(from + k * buffer);
            var count := if U64(start + buffer) > to then U64(to - start) else buffer;
            chunks[k] == ChunkSpec(k, start, count)
  {
    hide *;
    ChunkPrefix(bufferSize, from, to, n, k);
    ChunkFrom(ChunkRoundsOf(bufferSize, from, to, k).buffer, from, to, k);
    if k == 0 {
      ChunkRoundsNone(bufferSize, from, to);
    } else {
      BufferIsCount(bufferSize, from, to, k);
      ChunkPrefix(bufferSize, from, to, k, k - 1);
      ChunkPrefix(bufferSize, from, to, n, k - 1);
    }
  }

  /** For ordered bounds the shrinking can only happen in the last round, so every chunk has the
      closed form. */
  lemma {:induction false} ChunksClosedForm(bufferSize: nat, from: nat, to: nat, n: nat)
    requires 0 < bufferSize < EXACT && from <= to < EXACT && n <= ChunkCount(bufferSize, from, to)
    ensures n < ChunkCount(bufferSize, from, to) ==> ChunkRoundsOf(bufferSize, from, to, n).buffer == bufferSize
    ensures AreChunks(bufferSize, from, to, ChunkRoundsOf(bufferSize, from, to, n).specs)
  {
    hide *;
    if n == 0 {
      ChunkRoundsNone(bufferSize, from, to);
      AreChunksNone(bufferSize, from, to);
    } else {
      ChunksClosedForm(bufferSize, from, to, n - 1);
      ChunkRound(bufferSize, from, to, n - 1);
      ChunkRoundsStep(bufferSize, from, to, n - 1);
      var before := ChunkRoundsOf(bufferSize, from, to, n - 1);
      AreChunksAppend(bufferSize, from, to, before.specs, NextChunk(before.buffer, from, to, n - 1));
    }
  }

  lemma ManyChunks(bytes: nat, bufferSize: nat)
    requires 0 < bufferSize <= INT_MAX + 1 && TWO_63 < bytes
    ensures CeilDiv(bytes, bufferSize) > 2 * INT_MAX + 1
  {
    var n := CeilDiv(bytes, bufferSize);
    CeilDivBounds(bytes, bufferSize);
    if n <= 2 * INT_MAX + 1 {
      MulMono(n, 2 * INT_MAX + 1, bufferSize);
      MulMono(bufferSize, INT_MAX + 1, 2 * INT_MAX + 1);
      assert false;
    }
  }

  lemma FirstChunk(bufferSize: nat, from: nat, to: nat, n: nat)
    requires 0 < n
    ensures ChunkRoundsOf(bufferSize, from, to, n).specs[0] == NextChunk(bufferSize, from, to, 0)
  {
    ChunkPrefix(bufferSize, from, to, n, 0);
    ChunkRoundsNone(bufferSize, from, to);
  }

  /** When the bounds are inverted the byte count wraps: the first chunk asks for more than 2^63
      bytes, and the number of chunks does not fit its `unsigned int` for buffers up to 2^31. */
  lemma InvertedRange(bufferSize: nat, from: nat, to: nat, n: nat)
    requires 0 < bufferSize < EXACT && to < from <= EXACT && 0 < n
    ensures U64(to - from) == TWO_64 - (from - to) > ALLOCATABLE
    ensures ChunkRoundsOf(bufferSize, from, to, n).specs[0] == ChunkSpec(0, from, U64(to - from))
    ensures bufferSize <= INT_MAX + 1 ==> CeilDiv(U64(to - from), bufferSize) > 2 * INT_MAX + 1
  {
    hide ChunkRoundsOf;
    U64Step(to - from);
    U64Add(to - from, from);
    FirstChunk(bufferSize, from, to, n);
    if bufferSize <= INT_MAX + 1 { ManyChunks(U64(to - from), bufferSize); }
  }

  /** The body of the loop; `buffer` is the loop variable it may shrink. */
  method ChunkRoundBody(bytesCount: nat, from: nat, to: nat, k: nat, buffer: nat)
    returns (newBuffer: nat, chunk: ChunkSpec)
    requires bytesCount == U64(to - from)
    ensures chunk == NextChunk(buffer, from, to, k) && newBuffer == chunk.count
  {
    var start := U64(from + U64(k * buffer));
    newBuffer := buffer;
    if U64(start + buffer) > U64(bytesCount + from) {
      newBuffer := U64(U64(bytesCount + from) - start);
    }
    chunk := ChunkSpec(k, start, newBuffer);
  }

  /** `f_indexer_chunks_init` */
  method ChunksInit(concurrency: nat, bufferSize: nat, from: nat, to: nat)
    returns (chunks: array<ChunkSpec>, clamped: nat)
    requires 0 < concurrency <= INT_MAX && 0 < bufferSize < EXACT
    requires from < TWO_64 && to < TWO_64
    ensures fresh(chunks) && chunks.Length == CeilDiv(U64(to - from), bufferSize)
    ensures chunks[..] == ChunkRoundsOf(bufferSize, from, to, chunks.Length).specs
    ensures clamped == if chunks.Length == 0 then 1 else Min(concurrency, chunks.Length)
  {
    var bytesCount := U64(to - from);
    var count := CeilDiv(bytesCount, bufferSize);
    clamped := concurrency;
    if count == 0 {
      clamped := 1;
    } else if concurrency > count {
      clamped := count;
    }
    chunks := new ChunkSpec[count](_ => ChunkSpec(0, 0, 0));
    var buffer := bufferSize;
    ChunkRoundsNone(bufferSize, from, to);
    hide *;
    for k := 0 to count
      invariant ChunkRounds(buffer, chunks[..k]) == ChunkRoundsOf(bufferSize, from, to, k)
    {
      var chunk;
      buffer, chunk := ChunkRoundBody(bytesCount, from, to, k, buffer);
      chunks[k] := chunk;
      assert chunks[..k + 1] == chunks[..k] + [chunk];
      ChunkRoundsStep(bufferSize, from, to, k);
    }
    assert chunks[..] == chunks[..count];
  }

  /** Where chunk `k` begins and chunk `k - 1` ends. */
  function Bound(bufferSize: nat, from: nat, to: nat, k: nat): nat
    requires from <= to
  {
    Min(from + k * bufferSize, to)
  }

  lemma BoundMono(bufferSize: nat, from: nat, to: nat, k: nat)
    requires from <= to
    ensures from <= Bound(bufferSize, from, to, k) <= Bound(bufferSize, from, to, k + 1) <= to
  {
    MulMono(k, k + 1, bufferSize);
  }

  /** The chunks tile the range: chunk `k` reads from bound `k` to bound `k + 1`, the first bound
      is `from`, the last `to`; none is empty and all but the last are full. */
  lemma ChunksTile(bufferSize: nat, from: nat, to: nat, k: nat)
    requires 0 < bufferSize && from <= to && k < ChunkCount(bufferSize, from, to)
    ensures from + k * bufferSize <= to
    ensures var c := ChunkAt(bufferSize, from, to, k);
            && c.index == k && c.from == Bound(bufferSize, from, to, k)
            && c.from + c.count == Bound(bufferSize, from, to, k + 1)
            && 0 < c.count <= bufferSize
            && (k + 1 < ChunkCount(bufferSize, from, to) ==> c.count == bufferSize)
    ensures Bound(bufferSize, from, to, 0) == from
    ensures Bound(bufferSize, from, to, ChunkCount(bufferSize, from, to)) == to
  {
    ChunkInside(bufferSize, from, to, k);
    CeilDivBounds(to - from, bufferSize);
  }
}
