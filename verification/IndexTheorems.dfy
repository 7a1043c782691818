/** The finished index against the naive specification: every line start, highest first, then 0. */
module IndexTheorems {
  import opened Machine
  import opened TextFiles
  import opened Chunks
  import opened Partitioning
  import opened OffsetFiles

  // ---- a thread ----

  /** Adjacent scans concatenate to the scan of the whole stretch. */
  lemma {:induction false} AdjacentScans(file: Text, bounds: seq<nat>, k: nat)
    requires k < |bounds| && forall j :: 0 < j < |bounds| ==> bounds[j - 1] <= bounds[j]
    ensures bounds[0] <= bounds[k]
    ensures Concatenation(PartsBetween(file, bounds), k) == LineStarts(file, bounds[0], bounds[k])
  {
    if k == 0 {
    } else {
      AdjacentScans(file, bounds, k - 1);
      assert PartsBetween(file, bounds)[k - 1] == ScanPart(file, bounds[k - 1], bounds[k - 1 + 1]);
      LineStartsConcat(file, bounds[0], bounds[k - 1], bounds[k]);
    }
  }

  lemma BoundsFromTo(bufferSize: nat, from: nat, to: nat)
    requires 0 < bufferSize && from < to
    ensures var bounds := Bounds(bufferSize, from, to);
            && bounds[0] == from && bounds[|bounds| - 1] == to
            && forall j :: 0 < j < |bounds| ==> bounds[j - 1] <= bounds[j]
  {
    var bounds := Bounds(bufferSize, from, to);
    forall j | 0 < j < |bounds| ensures bounds[j - 1] <= bounds[j] {
      BoundMono(bufferSize, from, to, j - 1);
    }
    ChunksTile(bufferSize, from, to, |bounds| - 2);
  }

  lemma ScanConcatenation(file: Text, bufferSize: nat, from: nat, to: nat)
    requires 0 < bufferSize && from < to
    ensures var parts := ScanParts(file, bufferSize, from, to);
            Concatenation(parts, |parts|) == LineStarts(file, from, to) && Sound(parts)
  {
    var bounds := Bounds(bufferSize, from, to);
    BoundsFromTo(bufferSize, from, to);
    AdjacentScans(file, bounds, |bounds| - 1);
  }

  /** A thread hands on all the line starts of its range, or, when its reduction fails, none of
      them although there are some. */
  lemma ThreadPartExact(file: Text, r: Usable)
    ensures ThreadOK(file, r) ==> ThreadPart(file, r).items == LineStarts(file, r.from, r.to)
    ensures !ThreadOK(file, r) ==> |ThreadPart(file, r).items| == 0 && |LineStarts(file, r.from, r.to)| > 0
    ensures ThreadPart(file, r).empty <==> |LineStarts(file, r.from, r.to)| == 0
  {
    var parts := ScanParts(file, r.bufferSize, r.from, r.to);
    ScanConcatenation(file, r.bufferSize, r.from, r.to);
    ReduceIsConcatenation(parts);
    SoundLive(parts, |parts|);
  }

  // ---- a window ----

  ghost predicate ReadBy(file: Text, r: Usable, x: nat) {
    IsLineStart(file, r.from, r.to, x)
  }

  /** `x` is a line start whose newline one of these threads reads. */
  ghost predicate Scanned(file: Text, ranges: seq<Usable>, x: nat) {
    exists i :: 0 <= i < |ranges| && ReadBy(file, ranges[i], x)
  }

  ghost predicate InOrder(ranges: seq<Usable>) {
    forall i, j :: 0 <= i < j < |ranges| ==> ranges[i].to <= ranges[j].from
  }

  lemma PartAt(file: Text, ranges: seq<Usable>, i: nat)
    requires i < |ranges|
    ensures var r, part := ranges[i], ThreadParts(file, ranges)[i];
            && (ThreadOK(file, r) ==> part.items == LineStarts(file, r.from, r.to))
            && (!ThreadOK(file, r) ==> |part.items| == 0 && |LineStarts(file, r.from, r.to)| > 0)
            && (part.empty <==> |LineStarts(file, r.from, r.to)| == 0)
  {
    ThreadPartExact(file, ranges[i]);
  }

  lemma DecreasingAppend(a: seq<nat>, b: seq<nat>, bound: nat)
    requires StrictlyDecreasing(a) && StrictlyDecreasing(b)
    requires (forall x :: x in a ==> x > bound) && (forall x :: x in b ==> x <= bound)
    ensures StrictlyDecreasing(a + b)
  {
    forall i, j | 0 <= i < j < |a + b| ensures (a + b)[i] > (a + b)[j] {
      if i < |a| <= j { assert a[i] in a && b[j - |a|] in b; }
    }
  }

  /** Nothing is lost in the threads. */
  ghost predicate Lossless(file: Text, ranges: seq<Usable>, parts: seq<Part<nat>>) {
    && |parts| == |ranges|
    && forall i :: 0 <= i < |ranges| ==> parts[i].items == LineStarts(file, ranges[i].from, ranges[i].to)
  }

  lemma ReadersStep(file: Text, ranges: seq<Usable>, n: nat, x: nat)
    requires 0 < n <= |ranges|
    ensures (exists i :: 0 <= i < n && ReadBy(file, ranges[i], x)) <==>
              (exists i :: 0 <= i < n - 1 && ReadBy(file, ranges[i], x)) || ReadBy(file, ranges[n - 1], x)
  {
  }

  lemma LosslessPart(file: Text, ranges: seq<Usable>, parts: seq<Part<nat>>, i: nat, x: nat)
    requires i < |ranges| && Lossless(file, ranges, parts)
    ensures i < |parts| && (x in parts[i].items <==> ReadBy(file, ranges[i], x))
  {
    LineStartsMembers(file, ranges[i].from, ranges[i].to, x);
  }

  lemma ConcatenationNone(parts: seq<Part<nat>>, x: nat)
    ensures x !in Concatenation(parts, 0)
  {
  }

  lemma ConcatenationStep(parts: seq<Part<nat>>, n: nat, x: nat)
    requires 0 < n <= |parts|
    ensures x in Concatenation(parts, n) <==> x in parts[n - 1].items || x in Concatenation(parts, n - 1)
  {
  }

  /** Then the concatenation of the first `n` lists has exactly the line starts these threads
      read. */
  lemma {:induction false} ThreadsMembers(file: Text, ranges: seq<Usable>, parts: seq<Part<nat>>, n: nat, x: nat)
    requires n <= |ranges| && Lossless(file, ranges, parts)
    ensures x in Concatenation(parts, n) <==> exists i :: 0 <= i < n && ReadBy(file, ranges[i], x)
  {
    hide *;
    if n == 0 {
      ConcatenationNone(parts, x);
    } else {
      LosslessPart(file, ranges, parts, n - 1, x);
      ThreadsMembers(file, ranges, parts, n - 1, x);
      ConcatenationStep(parts, n, x);
      ReadersStep(file, ranges, n, x);
    }
  }

  /** Every list descends within the range of its thread. */
  ghost predicate Within(ranges: seq<Usable>, parts: seq<Part<nat>>) {
    && |parts| == |ranges|
    && forall i :: 0 <= i < |ranges| ==>
         StrictlyDecreasing(parts[i].items) && forall x :: x in parts[i].items ==> ranges[i].from < x <= ranges[i].to
  }

  lemma PartsWithin(file: Text, ranges: seq<Usable>)
    ensures Within(ranges, ThreadParts(file, ranges))
  {
    var parts := ThreadParts(file, ranges);
    forall i | 0 <= i < |ranges|
      ensures StrictlyDecreasing(parts[i].items)
      ensures forall x :: x in parts[i].items ==> ranges[i].from < x <= ranges[i].to
    {
      PartAt(file, ranges, i);
      LineStartsExact(file, ranges[i].from, ranges[i].to);
    }
  }

  lemma {:induction false} LiveDescends(ranges: seq<Usable>, parts: seq<Part<nat>>, n: nat)
    requires InOrder(ranges) && Within(ranges, parts) && n <= |parts|
    ensures StrictlyDecreasing(LiveItems(parts, n))
    ensures forall x :: x in LiveItems(parts, n) ==> exists i :: 0 <= i < n && ranges[i].from < x <= ranges[i].to
  {
    if n == 0 {
    } else {
      LiveDescends(ranges, parts, n - 1);
      if !parts[n - 1].empty && |parts[n - 1].items| > 0 {
        var r := ranges[n - 1];
        DecreasingAppend(parts[n - 1].items, LiveItems(parts, n - 1), r.from);
      }
    }
  }

  lemma WindowDescends(file: Text, ranges: seq<Usable>)
    requires InOrder(ranges)
    ensures StrictlyDecreasing(WindowOffsets(file, ranges))
  {
    var parts := ThreadParts(file, ranges);
    PartsWithin(file, ranges);
    LiveDescends(ranges, parts, |parts|);
  }

  lemma ThreadsSound(file: Text, ranges: seq<Usable>)
    requires forall i :: 0 <= i < |ranges| ==> ThreadOK(file, ranges[i])
    ensures Sound(ThreadParts(file, ranges)) && Lossless(file, ranges, ThreadParts(file, ranges))
  {
    forall i | 0 <= i < |ranges|
      ensures var r, part := ranges[i], ThreadParts(file, ranges)[i];
              part.items == LineStarts(file, r.from, r.to) && (part.empty <==> |part.items| == 0)
    {
      PartAt(file, ranges, i);
    }
  }

  /** A window that loses nothing yields exactly its scanned line starts, in decreasing order. */
  lemma WindowExact(file: Text, ranges: seq<Usable>)
    requires InOrder(ranges) && WindowOK(file, ranges)
    ensures StrictlyDecreasing(WindowOffsets(file, ranges))
    ensures forall x :: x in WindowOffsets(file, ranges) <==> Scanned(file, ranges, x)
  {
    ThreadsSound(file, ranges);
    ReduceIsConcatenation(ThreadParts(file, ranges));
    WindowDescends(file, ranges);
    forall x ensures x in WindowOffsets(file, ranges) <==> Scanned(file, ranges, x) {
      ThreadsMembers(file, ranges, ThreadParts(file, ranges), |ranges|, x);
    }
  }

  /** Whatever the reductions lose, nothing is invented. */
  lemma WindowMember(file: Text, ranges: seq<Usable>, x: nat) returns (i: nat)
    requires x in WindowOffsets(file, ranges)
    ensures i < |ranges| && x in ThreadPart(file, ranges[i]).items && ReadBy(file, ranges[i], x)
  {
    var parts := ThreadParts(file, ranges);
    ReduceMembers(parts, x);
    i :| 0 <= i < |parts| && x in parts[i].items;
    PartAt(file, ranges, i);
    LineStartsMembers(file, ranges[i].from, ranges[i].to, x);
  }

  lemma InOrderAt(ranges: seq<Usable>, i: nat, j: nat)
    requires InOrder(ranges) && i < j < |ranges|
    ensures ranges[i].to <= ranges[j].from
  {
  }

  lemma OneReader(file: Text, ranges: seq<Usable>, i: nat, j: nat, x: nat)
    requires InOrder(ranges) && i < |ranges| && j < |ranges|
    requires ReadBy(file, ranges[i], x) && ReadBy(file, ranges[j], x)
    ensures i == j
  {
    hide InOrder;
    if i < j {
      InOrderAt(ranges, i, j);
    } else if j < i {
      InOrderAt(ranges, j, i);
    }
  }

  lemma {:induction false} SomeNonEmpty<T>(parts: seq<Part<T>>, n: nat) returns (i: nat)
    requires n <= |parts| && NonEmptyCount(parts, n) > 0
    ensures i < n && !parts[i].empty
  {
    i := n - 1;
    if parts[n - 1].empty { i := SomeNonEmpty(parts, n - 1); }
  }

  /** A thread that reads some newline of which the window keeps nothing. */
  lemma LostThread(file: Text, ranges: seq<Usable>) returns (i: nat)
    requires !WindowOK(file, ranges)
    ensures i < |ranges| && |LineStarts(file, ranges[i].from, ranges[i].to)| > 0
    ensures |ThreadPart(file, ranges[i]).items| == 0 || |WindowOffsets(file, ranges)| == 0
  {
    var parts := ThreadParts(file, ranges);
    if i' :| 0 <= i' < |ranges| && !ThreadOK(file, ranges[i']) {
      i := i';
      PartAt(file, ranges, i);
    } else {
      ThreadsSound(file, ranges);
      ReduceIsConcatenation(parts);
      i := SomeNonEmpty(parts, |parts|);
      PartAt(file, ranges, i);
    }
  }

  /** A window that fails its conditions loses at least one scanned line start. */
  lemma WindowLoses(file: Text, ranges: seq<Usable>) returns (x: nat)
    requires InOrder(ranges) && !WindowOK(file, ranges)
    ensures Scanned(file, ranges, x) && x !in WindowOffsets(file, ranges)
  {
    var i := LostThread(file, ranges);
    x := LineStarts(file, ranges[i].from, ranges[i].to)[0];
    LineStartsMembers(file, ranges[i].from, ranges[i].to, x);
    assert ReadBy(file, ranges[i], x);
    if x in WindowOffsets(file, ranges) {
      var j := WindowMember(file, ranges, x);
      OneReader(file, ranges, i, j, x);
    }
  }

  // ---- the file ----

  /** Ranges of a window are in order, and windows are in order. */
  ghost predicate LayoutInOrder(windows: Layout) {
    && (forall w :: 0 <= w < |windows| ==> InOrder(windows[w]))
    && (forall v, w, i, j | 0 <= v < w < |windows| && 0 <= i < |windows[v]| && 0 <= j < |windows[w]|
          :: windows[v][i].to <= windows[w][j].from)
  }

  ghost predicate ScannedFrom(file: Text, windows: Layout, w: nat, x: nat) {
    exists v :: w <= v < |windows| && Scanned(file, windows[v], x)
  }

  lemma LaterWindowsAbove(file: Text, windows: Layout, v: nat, w: nat, x: nat, y: nat)
    requires LayoutInOrder(windows) && v < w < |windows|
    requires Scanned(file, windows[v], x) && Scanned(file, windows[w], y)
    ensures x < y
  {
    var i :| 0 <= i < |windows[v]| && ReadBy(file, windows[v][i], x);
    var j :| 0 <= j < |windows[w]| && ReadBy(file, windows[w][j], y);
    assert windows[v][i].to <= windows[w][j].from;
  }

  lemma {:induction false} EntriesMember(file: Text, windows: Layout, w: nat, x: nat) returns (v: nat)
    requires w <= |windows| && x in EntriesFrom(file, windows, w)
    ensures w <= v < |windows| && x in WindowOffsets(file, windows[v])
    decreases |windows| - w
  {
    if x in WindowOffsets(file, windows[w]) {
      v := w;
    } else {
      v := EntriesMember(file, windows, w + 1, x);
    }
  }

  lemma DecreasingJoin(a: seq<nat>, b: seq<nat>)
    requires StrictlyDecreasing(a) && StrictlyDecreasing(b)
    requires forall x, y :: x in a && y in b ==> x > y
    ensures StrictlyDecreasing(a + b)
  {
    forall i, j | 0 <= i < j < |a + b| ensures (a + b)[i] > (a + b)[j] {
      if i < |a| <= j { assert a[i] in a && b[j - |a|] in b; }
    }
  }

  lemma LaterEntriesAbove(file: Text, windows: Layout, w: nat, x: nat, y: nat)
    requires LayoutInOrder(windows) && w < |windows|
    requires x in EntriesFrom(file, windows, w + 1) && y in WindowOffsets(file, windows[w])
    ensures x > y
  {
    hide LayoutInOrder, EntriesFrom, WindowOffsets, ThreadPart, ReadBy;
    var v := EntriesMember(file, windows, w + 1, x);
    var k := WindowMember(file, windows[v], x);
    var l := WindowMember(file, windows[w], y);
    LaterWindowsAbove(file, windows, w, v, y, x);
  }

  lemma WindowInOrder(windows: Layout, w: nat)
    requires LayoutInOrder(windows) && w < |windows|
    ensures InOrder(windows[w])
  {
  }

  lemma WindowLossless(file: Text, windows: Layout, w: nat)
    requires LayoutOK(file, windows) && w < |windows|
    ensures WindowOK(file, windows[w])
  {
  }

  lemma EntriesNone(file: Text, windows: Layout)
    ensures |EntriesFrom(file, windows, |windows|)| == 0 && StrictlyDecreasing(EntriesFrom(file, windows, |windows|))
    ensures forall x :: !ScannedFrom(file, windows, |windows|, x)
  {
  }

  lemma EntriesStep(file: Text, windows: Layout, w: nat)
    requires w < |windows|
    ensures EntriesFrom(file, windows, w) == EntriesFrom(file, windows, w + 1) + WindowOffsets(file, windows[w])
  {
  }

  lemma {:induction false} EntriesDescend(file: Text, windows: Layout, w: nat)
    requires LayoutInOrder(windows) && w <= |windows|
    ensures StrictlyDecreasing(EntriesFrom(file, windows, w))
    decreases |windows| - w
  {
    hide *;
    if w == |windows| {
      EntriesNone(file, windows);
    } else {
      WindowInOrder(windows, w);
      EntriesDescend(file, windows, w + 1);
      WindowDescends(file, windows[w]);
      EntriesStep(file, windows, w);
      var above, here := EntriesFrom(file, windows, w + 1), WindowOffsets(file, windows[w]);
      forall x, y | x in above && y in here ensures x > y {
        LaterEntriesAbove(file, windows, w, x, y);
      }
      DecreasingJoin(above, here);
    }
  }

  lemma ScannedStep(file: Text, windows: Layout, w: nat, x: nat)
    requires w < |windows|
    ensures ScannedFrom(file, windows, w, x) <==> ScannedFrom(file, windows, w + 1, x) || Scanned(file, windows[w], x)
  {
  }

  /** The file stays strictly decreasing while the windows are appended from last to first. */
  lemma {:induction false} EntriesExact(file: Text, windows: Layout, w: nat)
    requires LayoutInOrder(windows) && LayoutOK(file, windows) && w <= |windows|
    ensures StrictlyDecreasing(EntriesFrom(file, windows, w))
    ensures forall x :: x in EntriesFrom(file, windows, w) <==> ScannedFrom(file, windows, w, x)
    decreases |windows| - w
  {
    hide *;
    EntriesDescend(file, windows, w);
    if w == |windows| {
      EntriesNone(file, windows);
    } else {
      WindowInOrder(windows, w);
      WindowLossless(file, windows, w);
      EntriesExact(file, windows, w + 1);
      WindowExact(file, windows[w]);
      EntriesStep(file, windows, w);
      forall x ensures x in EntriesFrom(file, windows, w) <==> ScannedFrom(file, windows, w, x) {
        ScannedStep(file, windows, w, x);
      }
    }
  }

  /** What one window reads is not in the list of another. */
  lemma NotInOther(file: Text, windows: Layout, v: nat, w: nat, x: nat)
    requires LayoutInOrder(windows) && v < |windows| && w < |windows| && v != w && Scanned(file, windows[w], x)
    ensures x !in WindowOffsets(file, windows[v])
  {
    hide LayoutInOrder, WindowOffsets;
    if Scanned(file, windows[v], x) {
      if v < w {
        LaterWindowsAbove(file, windows, v, w, x, x);
      } else {
        LaterWindowsAbove(file, windows, w, v, x, x);
      }
      assert false;
    }
    if x in WindowOffsets(file, windows[v]) {
      var i := WindowMember(file, windows[v], x);
      assert false;
    }
  }

  /** If some window fails its conditions, a scanned line start is missing from the file. */
  lemma EntriesLose(file: Text, windows: Layout, w: nat) returns (x: nat)
    requires LayoutInOrder(windows) && w < |windows| && !WindowOK(file, windows[w])
    ensures Scanned(file, windows[w], x) && x !in EntriesFrom(file, windows, 0)
  {
    WindowInOrder(windows, w);
    x := WindowLoses(file, windows[w]);
    forall v | 0 <= v < |windows| ensures x !in WindowOffsets(file, windows[v]) {
      if v != w { NotInOther(file, windows, v, w, x); }
    }
    hide *;
    if x in EntriesFrom(file, windows, 0) {
      var v := EntriesMember(file, windows, 0, x);
      assert false;
    }
  }

  // ---- the layout of a configuration ----

  lemma RangeOfWindow(total: nat, c: Config, w: nat, i: nat)
    requires WellFormedConfig(total, c) && w < WindowCount(total, c) && i < ThreadCount(total, c, w)
    ensures var r := UsableRanges(total, c, w)[i];
            w * c.window <= r.from && r.to <= w * c.window + WindowLength(total, c, w)
  {
    hide *;
    WellFormedAt(total, c, w);
    WindowFits(total, c, w);
    UsableRangesAre(total, c, w);
    RangesOfWindow(total, c, w);
    SizesOfConfig(c);
    RangeClosedForm(WindowLength(total, c, w), ThreadCount(total, c, w), c.bufferSize, w * c.window, i);
  }

  lemma {:induction false} OrderedApart(ranges: seq<Usable>, i: nat, j: nat)
    requires Ordered(ranges) && i < j < |ranges|
    ensures ranges[i].to <= ranges[j].from
  {
    if i + 1 == j {
    } else {
      OrderedApart(ranges, i, j - 1);
    }
    assert ranges[j - 1].to <= ranges[j - 1 + 1].from;
  }

  lemma {:induction false} OrderedInOrder(ranges: seq<Usable>)
    requires Ordered(ranges)
    ensures InOrder(ranges)
  {
    forall i, j | 0 <= i < j < |ranges| ensures ranges[i].to <= ranges[j].from {
      OrderedApart(ranges, i, j);
    }
  }

  lemma RangesInOrder(total: nat, c: Config, w: nat)
    requires WellFormedConfig(total, c) && w < WindowCount(total, c)
    ensures var ranges := UsableRanges(total, c, w);
            |ranges| == ThreadCount(total, c, w) && InOrder(ranges)
  {
    WindowOrderedIff(total, c, w);
    OrderedInOrder(UsableRanges(total, c, w));
  }

  lemma LayoutOfInOrder(total: nat, c: Config)
    requires WellFormedConfig(total, c)
    ensures LayoutInOrder(LayoutOf(total, c))
  {
    var windows := LayoutOf(total, c);
    forall w | 0 <= w < |windows| ensures InOrder(windows[w]) {
      RangesInOrder(total, c, w);
    }
    forall v, w, i, j | 0 <= v < w < |windows| && 0 <= i < |windows[v]| && 0 <= j < |windows[w]|
      ensures windows[v][i].to <= windows[w][j].from
    {
      RangesInOrder(total, c, v);
      RangesInOrder(total, c, w);
      RangeOfWindow(total, c, v, i);
      RangeOfWindow(total, c, w, j);
      WindowInside(total, c, v);
      MulMono(v + 1, w, c.window);
    }
  }

  lemma ScannedInWindow(file: Text, c: Config, w: nat, x: nat)
    requires WellFormedConfig(|file|, c) && w < WindowCount(|file|, c) && Scanned(file, UsableRanges(|file|, c, w), x)
    ensures w * c.window < x <= w * c.window + WindowLength(|file|, c, w) <= |file|
    ensures IsLineStart(file, 0, |file|, x) && w == (x - 1) / c.window
  {
    var ranges := UsableRanges(|file|, c, w);
    var i :| 0 <= i < |ranges| && ReadBy(file, ranges[i], x);
    RangesInOrder(|file|, c, w);
    RangeOfWindow(|file|, c, w, i);
    WindowInside(|file|, c, w);
    DivUnique(x - 1, c.window, w, x - 1 - w * c.window);
  }

  lemma ReadersCover(file: Text, ranges: seq<Usable>, x: nat)
    requires IsLineStart(file, 0, |file|, x)
    ensures Scanned(file, ranges, x) <==> exists i :: 0 <= i < |ranges| && InRange(ranges[i], x - 1)
  {
    forall i | 0 <= i < |ranges| ensures ReadBy(file, ranges[i], x) <==> InRange(ranges[i], x - 1) {
    }
  }

  lemma WindowCovered(file: Text, c: Config, w: nat, x: nat)
    requires WellFormedConfig(|file|, c) && w < WindowCount(|file|, c) && IsLineStart(file, 0, |file|, x)
    requires w == (x - 1) / c.window && w * c.window <= x - 1 < w * c.window + WindowLength(|file|, c, w)
    ensures Scanned(file, UsableRanges(|file|, c, w), x) <==> !IsGapByte(|file|, c, x - 1)
  {
    hide ThreadRanges, InRange, IsGap, Scanned, IsLineStart, InOrder, WellFormed;
    var ranges := UsableRanges(|file|, c, w);
    var length, threads, lo := WindowLength(|file|, c, w), ThreadCount(|file|, c, w), w * c.window;
    RangesInOrder(|file|, c, w);
    CoveredIffNotGap(length, threads, c.bufferSize, lo, x - 1 - lo);
    assert ranges == ThreadRanges(length, threads, c.bufferSize, lo);
    assert lo + (x - 1 - lo) == x - 1;
    ReadersCover(file, ranges, x);
  }

  /** A line start is scanned by some thread exactly when its newline is not on a gap byte. */
  lemma ScannedIffNotGap(file: Text, c: Config, x: nat)
    requires WellFormedConfig(|file|, c)
    ensures ScannedFrom(file, LayoutOf(|file|, c), 0, x) <==>
              IsLineStart(file, 0, |file|, x) && !IsGapByte(|file|, c, x - 1)
  {
    var windows := LayoutOf(|file|, c);
    if IsLineStart(file, 0, |file|, x) {
      var w := (x - 1) / c.window;
      WindowOfByte(|file|, c, x - 1);
      WindowCovered(file, c, w, x);
      assert windows[w] == UsableRanges(|file|, c, w);
    }
    if ScannedFrom(file, windows, 0, x) {
      var v :| 0 <= v < |windows| && Scanned(file, windows[v], x);
      ScannedInWindow(file, c, v, x);
    }
  }

  // ---- the theorems ----

  /** Whatever the reductions lose, the offset file descends to its final 0 within the file. */
  lemma IndexDescends(file: Text, c: Config)
    requires WellFormedConfig(|file|, c)
    ensures StrictlyDecreasing(IndexEntries(file, c))
  {
    var windows := LayoutOf(|file|, c);
    LayoutOfInOrder(|file|, c);
    EntriesDescend(file, windows, 0);
    forall x | x in EntriesFrom(file, windows, 0) ensures x > 0 {
      var v := EntriesMember(file, windows, 0, x);
      var i := WindowMember(file, windows[v], x);
    }
    DecreasingAppend(EntriesFrom(file, windows, 0), [0], 0);
  }

  lemma EntriesWithin(file: Text, c: Config)
    requires UsableConfig(|file|, c)
    ensures forall x :: x in IndexEntries(file, c) ==> x <= |file|
  {
    var windows := LayoutOf(|file|, c);
    forall x | x in EntriesFrom(file, windows, 0) ensures x <= |file| {
      var v := EntriesMember(file, windows, 0, x);
      var i := WindowMember(file, windows[v], x);
    }
  }

  /** With nothing lost in the reductions, the offset file is the strictly decreasing list of all
      scanned line starts followed by 0. */
  lemma IndexExact(file: Text, c: Config)
    requires WellFormedConfig(|file|, c) && AllReduceOK(file, c)
    ensures StrictlyDecreasing(IndexEntries(file, c))
    ensures forall x: nat :: x in IndexEntries(file, c) <==>
              x == 0 || (IsLineStart(file, 0, |file|, x) && !IsGapByte(|file|, c, x - 1))
  {
    var windows := LayoutOf(|file|, c);
    LayoutOfInOrder(|file|, c);
    EntriesExact(file, windows, 0);
    forall x: nat ensures x in EntriesFrom(file, windows, 0) <==>
                       IsLineStart(file, 0, |file|, x) && !IsGapByte(|file|, c, x - 1)
    {
      ScannedIffNotGap(file, c, x);
    }
    DecreasingAppend(EntriesFrom(file, windows, 0), [0], 0);
  }

  lemma CompleteWhen(file: Text, c: Config)
    requires WellFormedConfig(|file|, c) && AllReduceOK(file, c) && NoNewlineInGap(file, c)
    ensures IndexEntries(file, c) == CompleteIndex(file)
  {
    var found, all := IndexEntries(file, c), CompleteIndex(file);
    IndexExact(file, c);
    LineStartsExact(file, 0, |file|);
    DecreasingAppend(LineStarts(file, 0, |file|), [0], 0);
    DecreasingUnique(found, all);
  }

  lemma IncompleteOtherwise(file: Text, c: Config) returns (x: nat)
    requires WellFormedConfig(|file|, c) && !(AllReduceOK(file, c) && NoNewlineInGap(file, c))
    ensures x in CompleteIndex(file) && x !in IndexEntries(file, c)
  {
    hide WindowOK, LayoutInOrder, Scanned;
    var windows := LayoutOf(|file|, c);
    LayoutOfInOrder(|file|, c);
    if !AllReduceOK(file, c) {
      var w :| 0 <= w < |windows| && !WindowOK(file, windows[w]);
      x := EntriesLose(file, windows, w);
      ScannedInWindow(file, c, w, x);
    } else {
      x :| IsLineStart(file, 0, |file|, x) && IsGapByte(|file|, c, x - 1);
      IndexExact(file, c);
    }
    LineStartsMembers(file, 0, |file|, x);
  }

  /** The index is the complete newline index exactly when no reduction loses a list and no
      newline sits on a byte between two thread ranges. */
  lemma CompleteIff(file: Text, c: Config)
    requires WellFormedConfig(|file|, c)
    ensures IndexEntries(file, c) == CompleteIndex(file) <==> AllReduceOK(file, c) && NoNewlineInGap(file, c)
  {
    if AllReduceOK(file, c) && NoNewlineInGap(file, c) {
      CompleteWhen(file, c);
    } else {
      var x := IncompleteOtherwise(file, c);
    }
  }

  // ---- the length field ----

  lemma {:induction false} ConcatenationCount(parts: seq<Part<nat>>, counts: seq<nat>, n: nat)
    requires n <= |parts| == |counts| && forall i :: 0 <= i < |parts| ==> |parts[i].items| <= counts[i]
    ensures |Concatenation(parts, n)| <= Total(counts, n)
    ensures |Concatenation(parts, n)| == Total(counts, n) <==> forall i :: 0 <= i < n ==> |parts[i].items| == counts[i]
  {
    if n == 0 {
    } else {
      ConcatenationCount(parts, counts, n - 1);
    }
  }

  lemma LivePart<T>(parts: seq<Part<T>>, n: nat)
    requires 0 < n <= |parts|
    ensures |LiveItems(parts, n)| <= |parts[n - 1].items| + |LiveItems(parts, n - 1)|
    ensures |Concatenation(parts, n)| == |parts[n - 1].items| + |Concatenation(parts, n - 1)|
  {
  }

  lemma LiveNone<T>(parts: seq<Part<T>>)
    ensures |LiveItems(parts, 0)| == 0
  {
  }

  lemma {:induction false} LiveWithin<T>(parts: seq<Part<T>>, n: nat)
    requires n <= |parts|
    ensures |LiveItems(parts, n)| <= |Concatenation(parts, n)|
  {
    hide *;
    if n == 0 {
      LiveNone(parts);
    } else {
      LiveWithin(parts, n - 1);
      LivePart(parts, n);
    }
  }

  lemma ReduceWithin<T>(parts: seq<Part<T>>)
    ensures |Reduce(parts).items| <= |Concatenation(parts, |parts|)|
  {
    LiveWithin(parts, |parts|);
    if |parts| == 1 { assert Concatenation(parts, 1) == parts[0].items + Concatenation(parts, 0); }
  }

  /** A window writes as many entries as its threads counted exactly when it loses nothing. */
  lemma WindowCountExact(file: Text, ranges: seq<Usable>)
    ensures |WindowOffsets(file, ranges)| <= LinesRead(file, ranges)
    ensures |WindowOffsets(file, ranges)| == LinesRead(file, ranges) <==> WindowOK(file, ranges)
  {
    var parts, counts := ThreadParts(file, ranges), LineCounts(file, ranges);
    forall i | 0 <= i < |ranges|
      ensures |parts[i].items| <= counts[i] && (|parts[i].items| == counts[i] <==> ThreadOK(file, ranges[i]))
    {
      PartAt(file, ranges, i);
    }
    ReduceWithin(parts);
    ConcatenationCount(parts, counts, |parts|);
    if forall i :: 0 <= i < |ranges| ==> ThreadOK(file, ranges[i]) {
      ThreadsSound(file, ranges);
      ReduceIsConcatenation(parts);
      SoundLive(parts, |parts|);
    }
  }

  lemma {:induction false} WrittenCount(lists: seq<seq<nat>>, counts: seq<nat>, w: nat)
    requires w <= |lists| == |counts| && forall v :: 0 <= v < |lists| ==> |lists[v]| <= counts[v]
    ensures |Written(lists, w)| + Total(counts, w) <= Total(counts, |counts|)
    ensures |Written(lists, w)| + Total(counts, w) == Total(counts, |counts|) <==>
              forall v :: w <= v < |lists| ==> |lists[v]| == counts[v]
    decreases |lists| - w
  {
    if w == |lists| {
    } else {
      WrittenCount(lists, counts, w + 1);
    }
  }

  /** The `len` field is the number of entries in the offset file exactly when no reduction loses
      a list; otherwise it is larger, and a lookup misreads the file. */
  lemma LenIff(file: Text, c: Config)
    requires UsableConfig(|file|, c)
    ensures |IndexEntries(file, c)| <= IndexLen(file, c)
    ensures |IndexEntries(file, c)| == IndexLen(file, c) <==> AllReduceOK(file, c)
  {
    var windows := LayoutOf(|file|, c);
    var lists, counts := WindowLists(file, windows), WindowCounts(file, windows);
    forall w | 0 <= w < |windows|
      ensures |lists[w]| <= counts[w] && (|lists[w]| == counts[w] <==> WindowOK(file, windows[w]))
    {
      WindowCountExact(file, windows[w]);
    }
    WrittenCount(lists, counts, 0);
  }

  // ---- configurations for which nothing can go wrong ----

  lemma OneThread(length: nat)
    requires 0 < length
    ensures WellFormed(length, 1)
  {
    Quotient(length, 1);
  }

  lemma OneThreadWellFormed(total: nat, c: Config)
    requires ValidConfig(c) && 0 < total < EXACT && c.threads == 1
    ensures WellFormedConfig(total, c)
    ensures forall w :: 0 <= w < WindowCount(total, c) ==> ThreadCount(total, c, w) == 1
  {
    forall w | 0 <= w < WindowCount(total, c)
      ensures ThreadCount(total, c, w) == 1 && WellFormed(WindowLength(total, c, w), ThreadCount(total, c, w))
    {
      WindowInside(total, c, w);
      OneThread(WindowLength(total, c, w));
    }
  }

  lemma NoGapForOne(length: nat, x: nat)
    ensures !IsGap(length, 1, x)
  {
    Euclid(x, length + 1);
  }

  lemma OneThreadNoGap(total: nat, c: Config, p: nat)
    requires ValidConfig(c) && c.threads == 1 && p < total
    ensures !IsGapByte(total, c, p)
  {
    hide IsGap, WindowLength, WindowCount;
    var w := p / c.window;
    WindowOfByte(total, c, p);
    NoGapForOne(WindowLength(total, c, w), p - w * c.window);
  }

  lemma OneChunk(file: Text, r: Usable)
    requires r.to - r.from <= r.bufferSize
    ensures ThreadOK(file, r)
  {
  }

  lemma OneThreadOK(file: Text, c: Config, w: nat)
    requires WellFormedConfig(|file|, c) && w < WindowCount(|file|, c)
    requires ThreadCount(|file|, c, w) == 1 && c.window <= c.bufferSize
    ensures WindowOK(file, UsableRanges(|file|, c, w))
  {
    var ranges := UsableRanges(|file|, c, w);
    RangesInOrder(|file|, c, w);
    RangeOfWindow(|file|, c, w, 0);
    WindowRangesUsable(|file|, c, w);
    OneChunk(file, ranges[0]);
  }

  /** One thread whose buffer holds a whole window indexes every non-empty file completely. */
  lemma SingleBufferIsComplete(file: Text, c: Config)
    requires ValidConfig(c) && 0 < |file| < EXACT && c.threads == 1 && c.window <= c.bufferSize
    ensures WellFormedConfig(|file|, c)
    ensures IndexEntries(file, c) == CompleteIndex(file) && IndexLen(file, c) == |IndexEntries(file, c)|
  {
    OneThreadWellFormed(|file|, c);
    forall w | 0 <= w < WindowCount(|file|, c) ensures WindowOK(file, UsableRanges(|file|, c, w)) {
      OneThreadOK(file, c, w);
    }
    forall x: nat | IsLineStart(file, 0, |file|, x) ensures !IsGapByte(|file|, c, x - 1) {
      OneThreadNoGap(|file|, c, x - 1);
    }
    CompleteIff(file, c);
    LenIff(file, c);
  }
}
