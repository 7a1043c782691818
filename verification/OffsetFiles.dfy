/** What the indexer leaves in the offset file, as a function of the file and the
    configuration: chunks reduced to threads, threads reduced to windows, windows written from
    last to first. The methods of `TextIndexer` are proved against these functions; the theorems
    about them are here. */
module OffsetFiles {
  import opened Machine
  import opened TextFiles
  import opened Chunks
  import opened Partitioning

  datatype Config = Config(threads: nat, concurrency: nat, bufferSize: nat, window: nat)

  predicate ValidConfig(c: Config) {
    && 0 < c.threads <= INT_MAX && 0 < c.concurrency <= INT_MAX
    && 0 < c.bufferSize < EXACT && 0 < c.window < EXACT
  }

  // ---- one thread: its chunks, reduced ----

  /** A range that a thread can work on. */
  type Usable = r: ThreadRange | 0 < r.bufferSize && r.from < r.to witness ThreadRange(0, 1, 1)

  function ScanPart(file: Text, from: nat, to: nat): Part<nat> {
    var starts := LineStarts(file, from, to);
    Part(starts, |starts| == 0)
  }

  /** Where the chunks of a range meet. */
  function Bounds(bufferSize: nat, from: nat, to: nat): (bounds: seq<nat>)
    requires 0 < bufferSize && from <= to
    ensures |bounds| == ChunkCount(bufferSize, from, to) + 1
  {
    var n := ChunkCount(bufferSize, from, to);
    seq(n + 1, k requires 0 <= k <= n => Bound(bufferSize, from, to, k))
  }

  function PartsBetween(file: Text, bounds: seq<nat>): seq<Part<nat>>
    requires |bounds| > 0
  {
    seq(|bounds| - 1, k requires 0 <= k < |bounds| - 1 => ScanPart(file, bounds[k], bounds[k + 1]))
  }

  function ScanParts(file: Text, bufferSize: nat, from: nat, to: nat): seq<Part<nat>>
    requires 0 < bufferSize && from <= to
  {
    PartsBetween(file, Bounds(bufferSize, from, to))
  }

  function ThreadPart(file: Text, r: Usable): Part<nat> {
    Reduce(ScanParts(file, r.bufferSize, r.from, r.to))
  }

  // ---- one window: its threads, reduced ----

  function ThreadParts(file: Text, ranges: seq<Usable>): seq<Part<nat>> {
    seq(|ranges|, i requires 0 <= i < |ranges| => ThreadPart(file, ranges[i]))
  }

  function WindowOffsets(file: Text, ranges: seq<Usable>): seq<nat> {
    Reduce(ThreadParts(file, ranges)).items
  }

  /** What the threads of a window count. */
  function LineCounts(file: Text, ranges: seq<Usable>): (counts: seq<nat>)
    ensures |counts| == |ranges|
  {
    seq(|ranges|, i requires 0 <= i < |ranges| => |LineStarts(file, ranges[i].from, ranges[i].to)|)
  }

  function Total(counts: seq<nat>, n: nat): nat
    requires n <= |counts|
  {
    if n == 0 then 0 else Total(counts, n - 1) + counts[n - 1]
  }

  function LinesRead(file: Text, ranges: seq<Usable>): nat {
    Total(LineCounts(file, ranges), |ranges|)
  }

  // ---- the file: its windows, written from last to first ----

  /** Per window, the ranges of its threads. */
  type Layout = seq<seq<Usable>>

  /** The lists from the last down to list `w`, appended in that order. */
  function Written(lists: seq<seq<nat>>, w: nat): seq<nat>
    requires w <= |lists|
    decreases |lists| - w
  {
    if w == |lists| then [] else Written(lists, w + 1) + lists[w]
  }

  function WindowLists(file: Text, windows: Layout): (lists: seq<seq<nat>>)
    ensures |lists| == |windows|
  {
    seq(|windows|, w requires 0 <= w < |windows| => WindowOffsets(file, windows[w]))
  }

  function WindowCounts(file: Text, windows: Layout): (counts: seq<nat>)
    ensures |counts| == |windows|
  {
    seq(|windows|, w requires 0 <= w < |windows| => LinesRead(file, windows[w]))
  }

  /** What is in the offset file once the windows from the last down to `w` are written. */
  function EntriesFrom(file: Text, windows: Layout, w: nat): seq<nat>
    requires w <= |windows|
  {
    Written(WindowLists(file, windows), w)
  }

  // ---- the conditions under which no reduction loses a list ----

  predicate ThreadOK(file: Text, r: Usable) {
    ReduceOK(ScanParts(file, r.bufferSize, r.from, r.to))
  }

  ghost predicate WindowOK(file: Text, ranges: seq<Usable>) {
    (forall i :: 0 <= i < |ranges| ==> ThreadOK(file, ranges[i])) && ReduceOK(ThreadParts(file, ranges))
  }

  ghost predicate LayoutOK(file: Text, windows: Layout) {
    forall w :: 0 <= w < |windows| ==> WindowOK(file, windows[w])
  }

  // ---- the layout of a configuration ----

  function WindowCount(total: nat, c: Config): nat
    requires ValidConfig(c)
  {
    Max(1, CeilDiv(total, c.window))
  }

  /** The windows tile the file: all are full but the last, which ends with the file. */
  lemma WindowInside(total: nat, c: Config, w: nat)
    requires ValidConfig(c) && w < WindowCount(total, c)
    ensures w * c.window <= total && (total > 0 ==> w * c.window < total)
    ensures (w + 1) * c.window == w * c.window + c.window
    ensures w + 1 < WindowCount(total, c) ==> (w + 1) * c.window < total
    ensures w + 1 == WindowCount(total, c) ==> (w + 1) * c.window >= total
  {
    var n := CeilDiv(total, c.window);
    CeilDivBounds(total, c.window);
    MulMono(w + 1, WindowCount(total, c), c.window);
    assert (w + 1) * c.window == w * c.window + c.window;
    if w + 1 < n {
      MulMono(w + 2, n, c.window);
      assert (w + 2) * c.window == (w + 1) * c.window + c.window;
    }
  }

  function WindowLength(total: nat, c: Config, w: nat): nat
    requires ValidConfig(c) && w < WindowCount(total, c)
  {
    WindowInside(total, c, w);
    Min(c.window, total - w * c.window)
  }

  function ThreadCount(total: nat, c: Config, w: nat): (count: nat)
    requires ValidConfig(c) && w < WindowCount(total, c)
    ensures 0 < count
  {
    ClampThreads(c.threads, WindowLength(total, c, w), c.bufferSize)
  }

  /** The windows are as long as configured, but the last ends with the file; it is empty only if the
      file is. */
  lemma WindowsTile(total: nat, c: Config)
    requires ValidConfig(c)
    ensures var n := WindowCount(total, c);
            && 0 < n && (n - 1) * c.window <= total <= n * c.window
            && (total == 0 <==> (n - 1) * c.window == total)
            && (forall w :: 0 <= w < n - 1 ==> WindowLength(total, c, w) == c.window)
            && WindowLength(total, c, n - 1) == total - (n - 1) * c.window
  {
    var n := WindowCount(total, c);
    forall w | 0 <= w < n - 1 ensures WindowLength(total, c, w) == c.window {
      WindowInside(total, c, w);
    }
    WindowInside(total, c, n - 1);
  }

  /** Every window is read by as many threads as configured, unless fewer buffers hold it. */
  lemma ThreadsOfWindow(total: nat, c: Config, w: nat)
    requires ValidConfig(c) && w < WindowCount(total, c)
    ensures var length, threads := WindowLength(total, c, w), ThreadCount(total, c, w);
            && 0 < threads <= c.threads && (length == 0 ==> threads == 1)
            && (length > 0 ==> (threads - 1) * c.bufferSize < length)
            && (length > 0 && threads < c.threads ==> length <= threads * c.bufferSize)
  {
    hide WindowLength;
    ClampExact(c.threads, WindowLength(total, c, w), c.bufferSize);
  }

  function WindowRanges(total: nat, c: Config, w: nat): seq<ThreadRange>
    requires ValidConfig(c) && w < WindowCount(total, c)
  {
    ThreadRanges(WindowLength(total, c, w), ThreadCount(total, c, w), c.bufferSize, w * c.window)
  }

  /** Every thread has something to read; the ranges may still overlap. A condition on sizes, see
      `UsableIff`; the empty file does not meet it. */
  predicate UsableConfig(total: nat, c: Config) {
    && ValidConfig(c) && total < EXACT
    && forall w :: 0 <= w < WindowCount(total, c) ==> Workable(WindowLength(total, c, w), ThreadCount(total, c, w))
  }

  /** Every window moreover is long enough for its threads. */
  predicate WellFormedConfig(total: nat, c: Config): (r: bool)
    ensures r ==> UsableConfig(total, c)
  {
    && ValidConfig(c) && total < EXACT
    && forall w :: 0 <= w < WindowCount(total, c) ==> WellFormed(WindowLength(total, c, w), ThreadCount(total, c, w))
  }

  lemma WindowFits(total: nat, c: Config, w: nat)
    requires ValidConfig(c) && w < WindowCount(total, c)
    ensures w * c.window + WindowLength(total, c, w) <= total
  {
    WindowInside(total, c, w);
  }

  lemma RangesOfWindow(total: nat, c: Config, w: nat)
    requires ValidConfig(c) && w < WindowCount(total, c)
    ensures 0 < ThreadCount(total, c, w)
    ensures WindowRanges(total, c, w)
         == ThreadRanges(WindowLength(total, c, w), ThreadCount(total, c, w), c.bufferSize, w * c.window)
  {
    hide ThreadRanges, WindowLength, WindowCount;
  }

  lemma ClampTwice(threads: nat, total: nat, bufferSize: nat)
    requires 0 < threads && 0 < bufferSize
    ensures var t := ClampThreads(threads, total, bufferSize); 0 < t == ClampThreads(t, total, bufferSize)
  {
  }

  lemma ClampedCount(total: nat, c: Config, w: nat)
    requires ValidConfig(c) && w < WindowCount(total, c)
    ensures var t := ThreadCount(total, c, w); 0 < t == ClampThreads(t, WindowLength(total, c, w), c.bufferSize)
  {
    ClampTwice(c.threads, WindowLength(total, c, w), c.bufferSize);
  }

  lemma SizesOfConfig(c: Config)
    requires ValidConfig(c)
    ensures 0 < c.bufferSize < EXACT && 0 < c.window < EXACT
  {
  }

  lemma WindowOrderedIff(total: nat, c: Config, w: nat)
    requires ValidConfig(c) && total < EXACT && w < WindowCount(total, c)
    ensures Ordered(WindowRanges(total, c, w)) <==> WellFormed(WindowLength(total, c, w), ThreadCount(total, c, w))
  {
    hide *;
    WindowFits(total, c, w);
    RangesOfWindow(total, c, w);
    ClampedCount(total, c, w);
    SizesOfConfig(c);
    OrderedIffWellFormed(WindowLength(total, c, w), ThreadCount(total, c, w), c.bufferSize, w * c.window);
  }

  lemma WindowNonEmptyIff(total: nat, c: Config, w: nat)
    requires ValidConfig(c) && total < EXACT && w < WindowCount(total, c)
    ensures NonEmpty(WindowRanges(total, c, w)) <==> Workable(WindowLength(total, c, w), ThreadCount(total, c, w))
  {
    hide *;
    WindowFits(total, c, w);
    RangesOfWindow(total, c, w);
    ClampedCount(total, c, w);
    SizesOfConfig(c);
    NonEmptyIffWorkable(WindowLength(total, c, w), ThreadCount(total, c, w), c.bufferSize, w * c.window);
  }

  /** In a usable window that is not well-formed some range reaches back by more than a byte. */
  lemma WindowReachesBack(total: nat, c: Config, w: nat) returns (m: nat)
    requires ValidConfig(c) && total < EXACT && w < WindowCount(total, c)
    requires NonEmpty(WindowRanges(total, c, w)) && !WellFormed(WindowLength(total, c, w), ThreadCount(total, c, w))
    ensures m + 1 < |WindowRanges(total, c, w)|
    ensures WindowRanges(total, c, w)[m + 1].from + 1 < WindowRanges(total, c, w)[m].to
  {
    hide *;
    var length, threads := WindowLength(total, c, w), ThreadCount(total, c, w);
    WindowFits(total, c, w);
    RangesOfWindow(total, c, w);
    ClampedCount(total, c, w);
    SizesOfConfig(c);
    m := ReachingBack(length, threads, c.bufferSize, w * c.window);
  }

  lemma WindowFirstIdle(total: nat, c: Config, w: nat, i: nat)
    requires ValidConfig(c) && total < EXACT && w < WindowCount(total, c)
    requires i < |WindowRanges(total, c, w)| && NonEmpty(WindowRanges(total, c, w)[..i])
    ensures WindowRanges(total, c, w)[i].from <= total + 1
  {
    hide *;
    WindowFits(total, c, w);
    RangesOfWindow(total, c, w);
    ClampedCount(total, c, w);
    SizesOfConfig(c);
    FirstIdleRange(WindowLength(total, c, w), ThreadCount(total, c, w), c.bufferSize, w * c.window, i);
  }

  /** The condition on sizes says exactly that no range of any window is empty or inverted. */
  lemma UsableIff(total: nat, c: Config)
    requires ValidConfig(c) && total < EXACT
    ensures UsableConfig(total, c) <==>
              forall w :: 0 <= w < WindowCount(total, c) ==> NonEmpty(WindowRanges(total, c, w))
  {
    hide NonEmpty, WindowRanges, WindowLength, ThreadCount, WindowCount, Workable;
    forall w | 0 <= w < WindowCount(total, c)
      ensures NonEmpty(WindowRanges(total, c, w)) <==> Workable(WindowLength(total, c, w), ThreadCount(total, c, w))
    {
      WindowNonEmptyIff(total, c, w);
    }
  }

  lemma WithinFile(ranges: seq<ThreadRange>, length: nat, threads: nat, bufferSize: nat, offset: nat, total: nat)
    requires 0 < threads && offset + length <= total < EXACT
    requires ranges == ThreadRanges(length, threads, bufferSize, offset)
    ensures forall i :: 0 <= i < |ranges| ==> ranges[i].bufferSize == bufferSize && ranges[i].to <= total
  {
    hide ThreadRanges;
    RangesWithin(length, threads, bufferSize, offset);
  }

  /** No range of a window reaches beyond the file. */
  lemma WindowRangesWithin(total: nat, c: Config, w: nat)
    requires ValidConfig(c) && total < EXACT && w < WindowCount(total, c)
    ensures forall i :: 0 <= i < |WindowRanges(total, c, w)| ==>
              WindowRanges(total, c, w)[i].bufferSize == c.bufferSize && WindowRanges(total, c, w)[i].to <= total
  {
    hide *;
    WindowFits(total, c, w);
    RangesOfWindow(total, c, w);
    WithinFile(WindowRanges(total, c, w), WindowLength(total, c, w), ThreadCount(total, c, w), c.bufferSize,
               w * c.window, total);
  }

  lemma UsableAt(total: nat, c: Config, w: nat)
    requires UsableConfig(total, c) && w < WindowCount(total, c)
    ensures ValidConfig(c) && total < EXACT && Workable(WindowLength(total, c, w), ThreadCount(total, c, w))
  {
    hide WindowLength, ThreadCount, WindowCount, Workable;
  }

  lemma WindowRangesUsable(total: nat, c: Config, w: nat)
    requires UsableConfig(total, c) && w < WindowCount(total, c)
    ensures NonEmpty(WindowRanges(total, c, w))
    ensures forall i :: 0 <= i < |WindowRanges(total, c, w)| ==>
              WindowRanges(total, c, w)[i].bufferSize == c.bufferSize && WindowRanges(total, c, w)[i].to <= total
  {
    UsableAt(total, c, w);
    hide *;
    WindowNonEmptyIff(total, c, w);
    WindowRangesWithin(total, c, w);
  }

  function AsUsable(ranges: seq<ThreadRange>): (r: seq<Usable>)
    requires NonEmpty(ranges) && forall i :: 0 <= i < |ranges| ==> 0 < ranges[i].bufferSize
    ensures r == ranges
  {
    ranges
  }

  function UsableRanges(total: nat, c: Config, w: nat): seq<Usable>
    requires UsableConfig(total, c) && w < WindowCount(total, c)
  {
    WindowRangesUsable(total, c, w);
    AsUsable(WindowRanges(total, c, w))
  }

  lemma UsableRangesAre(total: nat, c: Config, w: nat)
    requires UsableConfig(total, c) && w < WindowCount(total, c)
    ensures UsableRanges(total, c, w) == WindowRanges(total, c, w)
  {
    hide WindowRanges;
  }


  lemma WellFormedAt(total: nat, c: Config, w: nat)
    requires WellFormedConfig(total, c) && w < WindowCount(total, c)
    ensures ValidConfig(c) && total < EXACT && WellFormed(WindowLength(total, c, w), ThreadCount(total, c, w))
  {
    hide WindowLength, ThreadCount, WindowCount, WellFormed;
  }

  function LayoutOf(total: nat, c: Config): Layout
    requires UsableConfig(total, c)
  {
    seq(WindowCount(total, c), w requires 0 <= w < WindowCount(total, c) => UsableRanges(total, c, w))
  }

  /** The offset file the indexer produces. */
  function IndexEntries(file: Text, c: Config): seq<nat>
    requires UsableConfig(|file|, c)
  {
    EntriesFrom(file, LayoutOf(|file|, c), 0) + [0]
  }

  /** Its `len` field. */
  function IndexLen(file: Text, c: Config): nat
    requires UsableConfig(|file|, c)
  {
    Total(WindowCounts(file, LayoutOf(|file|, c)), WindowCount(|file|, c)) + 1
  }

  ghost predicate AllReduceOK(file: Text, c: Config)
    requires UsableConfig(|file|, c)
  {
    LayoutOK(file, LayoutOf(|file|, c))
  }

  lemma WindowOfByte(total: nat, c: Config, p: nat)
    requires ValidConfig(c) && p < total
    ensures var w := p / c.window;
            0 <= w < WindowCount(total, c) && w * c.window <= p < w * c.window + WindowLength(total, c, w)
  {
    var w, n := p / c.window, CeilDiv(total, c.window);
    Euclid(p, c.window);
    CeilDivBounds(total, c.window);
    if w >= n { MulMono(n, w, c.window); }
  }

  /** Whether the byte at `p` is one of those between two thread ranges. */
  predicate IsGapByte(total: nat, c: Config, p: nat)
    requires ValidConfig(c) && p < total
  {
    var w := p / c.window;
    WindowOfByte(total, c, p);
    IsGap(WindowLength(total, c, w), ThreadCount(total, c, w), p - w * c.window)
  }

  ghost predicate NoNewlineInGap(file: Text, c: Config)
    requires ValidConfig(c)
  {
    forall x: nat :: IsLineStart(file, 0, |file|, x) ==> !IsGapByte(|file|, c, x - 1)
  }
}
