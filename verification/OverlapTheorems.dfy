/** Ranges that reach back into earlier ones: the indexer runs to its end, but the condition that
    keeps ranges apart is necessary for an ordered offset file, not only sufficient. */
module OverlapTheorems {
  import opened TextFiles
  import opened Chunks
  import opened Partitioning
  import opened OffsetFiles
  import opened IndexTheorems

  // ---- a file of newlines loses nothing in the reductions ----

  lemma {:induction false} AllCount<T>(parts: seq<Part<T>>, n: nat)
    requires n <= |parts| && forall i :: 0 <= i < |parts| ==> !parts[i].empty
    ensures NonEmptyCount(parts, n) == n
  {
    if n == 0 {
    } else {
      AllCount(parts, n - 1);
    }
  }

  lemma AllNewlinesThread(file: Text, r: Usable)
    requires r.to <= |file| && forall p :: 0 <= p < |file| ==> file[p] == NEWLINE
    ensures ThreadOK(file, r)
  {
    var bounds := Bounds(r.bufferSize, r.from, r.to);
    var parts := ScanParts(file, r.bufferSize, r.from, r.to);
    forall k | 0 <= k < |parts| ensures !parts[k].empty {
      ChunksTile(r.bufferSize, r.from, r.to, k);
      BoundMono(r.bufferSize, r.from, r.to, k + 1);
      LineStartsMembers(file, bounds[k], bounds[k + 1], bounds[k + 1]);
    }
    AllCount(parts, |parts|);
  }

  lemma AllNewlinesWindow(file: Text, ranges: seq<Usable>)
    requires forall p :: 0 <= p < |file| ==> file[p] == NEWLINE
    requires forall i :: 0 <= i < |ranges| ==> ranges[i].to <= |file|
    ensures WindowOK(file, ranges)
  {
    var parts := ThreadParts(file, ranges);
    forall i | 0 <= i < |ranges| ensures ThreadOK(file, ranges[i]) && !parts[i].empty {
      AllNewlinesThread(file, ranges[i]);
      PartAt(file, ranges, i);
      LineStartsMembers(file, ranges[i].from, ranges[i].to, ranges[i].to);
    }
    AllCount(parts, |parts|);
  }

  lemma AllNewlinesOK(file: Text, c: Config)
    requires UsableConfig(|file|, c) && forall p :: 0 <= p < |file| ==> file[p] == NEWLINE
    ensures AllReduceOK(file, c)
  {
    hide WindowOK, UsableRanges;
    forall w | 0 <= w < WindowCount(|file|, c) ensures WindowOK(file, UsableRanges(|file|, c, w)) {
      WindowRangesUsable(|file|, c, w);
      UsableRangesAre(|file|, c, w);
      AllNewlinesWindow(file, UsableRanges(|file|, c, w));
    }
  }

  // ---- an ordered file has ordered pieces ----

  lemma OrderedPieces(a: seq<nat>, b: seq<nat>)
    requires NonIncreasing(a + b)
    ensures NonIncreasing(a) && NonIncreasing(b)
    ensures forall x, y :: x in a && y in b ==> x >= y
  {
    var s := a + b;
    forall i, j | 0 <= i < j < |a| ensures a[i] >= a[j] {
      assert s[i] >= s[j];
    }
    forall i, j | 0 <= i < j < |b| ensures b[i] >= b[j] {
      assert s[|a| + i] >= s[|a| + j];
    }
    forall x, y | x in a && y in b ensures x >= y {
      var i :| 0 <= i < |a| && a[i] == x;
      var j :| 0 <= j < |b| && b[j] == y;
      assert s[i] >= s[|a| + j];
    }
  }

  lemma {:induction false} WrittenPiece(lists: seq<seq<nat>>, v: nat, w: nat)
    requires v <= w < |lists| && NonIncreasing(Written(lists, v))
    ensures NonIncreasing(lists[w])
    decreases w - v
  {
    OrderedPieces(Written(lists, v + 1), lists[v]);
    if v == w {
    } else {
      WrittenPiece(lists, v + 1, w);
    }
  }

  lemma {:induction false} NeighboursOrdered(parts: seq<Part<nat>>, n: nat, i: nat, x: nat, y: nat)
    requires i + 1 < n <= |parts| && NonIncreasing(Concatenation(parts, n))
    requires x in parts[i + 1].items && y in parts[i].items
    ensures x >= y
  {
    OrderedPieces(parts[n - 1].items, Concatenation(parts, n - 1));
    if i + 2 == n {
      assert y in Concatenation(parts, n - 1);
    } else {
      NeighboursOrdered(parts, n - 1, i, x, y);
    }
  }

  lemma WindowIsConcatenation(file: Text, ranges: seq<Usable>)
    requires forall p :: 0 <= p < |file| ==> file[p] == NEWLINE
    requires forall k :: 0 <= k < |ranges| ==> ranges[k].to <= |file|
    ensures var parts := ThreadParts(file, ranges);
            && |parts| == |ranges|
            && WindowOffsets(file, ranges) == Concatenation(parts, |parts|)
            && forall k :: 0 <= k < |ranges| ==> parts[k].items == LineStarts(file, ranges[k].from, ranges[k].to)
  {
    AllNewlinesWindow(file, ranges);
    ThreadsSound(file, ranges);
    ReduceIsConcatenation(ThreadParts(file, ranges));
  }

  lemma AfterNewline(file: Text, lo: nat, hi: nat, x: nat)
    requires lo < x <= hi <= |file| && forall p :: 0 <= p < |file| ==> file[p] == NEWLINE
    ensures x in LineStarts(file, lo, hi)
  {
    LineStartsMembers(file, lo, hi, x);
  }

  /** In a window of newlines whose offsets never rise, no range reaches back into the one before it
      by more than a byte. */
  lemma OrderedWindow(file: Text, ranges: seq<Usable>, i: nat)
    requires forall p :: 0 <= p < |file| ==> file[p] == NEWLINE
    requires forall k :: 0 <= k < |ranges| ==> ranges[k].to <= |file|
    requires NonIncreasing(WindowOffsets(file, ranges)) && i + 1 < |ranges|
    ensures ranges[i].to <= ranges[i + 1].from + 1
  {
    hide *;
    var parts, r, next := ThreadParts(file, ranges), ranges[i], ranges[i + 1];
    WindowIsConcatenation(file, ranges);
    AfterNewline(file, next.from, next.to, next.from + 1);
    AfterNewline(file, r.from, r.to, r.to);
    NeighboursOrdered(parts, |parts|, i, next.from + 1, r.to);
  }

  // ---- the theorem ----

  function Newlines(n: nat): (file: Text)
    ensures |file| == n && forall p :: 0 <= p < n ==> file[p] == NEWLINE
  {
    seq(n, _ => NEWLINE)
  }

  lemma WindowOfOrdered(file: Text, c: Config, w: nat)
    requires UsableConfig(|file|, c) && w < WindowCount(|file|, c) && NonIncreasing(IndexEntries(file, c))
    ensures NonIncreasing(WindowOffsets(file, UsableRanges(|file|, c, w)))
  {
    var windows := LayoutOf(|file|, c);
    assert windows[w] == UsableRanges(|file|, c, w);
    hide WindowOffsets, NonIncreasing, UsableRanges;
    OrderedPieces(EntriesFrom(file, windows, 0), [0]);
    WrittenPiece(WindowLists(file, windows), 0, w);
  }

  lemma OrderedIsWellFormed(file: Text, c: Config, w: nat)
    requires UsableConfig(|file|, c) && w < WindowCount(|file|, c)
    requires forall p :: 0 <= p < |file| ==> file[p] == NEWLINE
    requires NonIncreasing(IndexEntries(file, c))
    ensures WellFormed(WindowLength(|file|, c, w), ThreadCount(|file|, c, w))
  {
    UsableAt(|file|, c, w);
    hide *;
    WindowRangesUsable(|file|, c, w);
    UsableRangesAre(|file|, c, w);
    WindowOfOrdered(file, c, w);
    var ranges := UsableRanges(|file|, c, w);
    if !WellFormed(WindowLength(|file|, c, w), ThreadCount(|file|, c, w)) {
      var m := WindowReachesBack(|file|, c, w);
      OrderedWindow(file, ranges, m);
      assert false;
    }
  }

  lemma NewlinesWellFormed(n: nat, c: Config)
    requires UsableConfig(n, c) && NonIncreasing(IndexEntries(Newlines(n), c))
    ensures WellFormedConfig(n, c)
  {
    hide NonIncreasing, IndexEntries, WellFormed, WindowLength, WindowCount, ThreadCount, Newlines;
    forall w | 0 <= w < WindowCount(n, c) ensures WellFormed(WindowLength(n, c, w), ThreadCount(n, c, w)) {
      OrderedIsWellFormed(Newlines(n), c, w);
    }
  }

  lemma DecreasingNeverRises(s: seq<nat>)
    requires StrictlyDecreasing(s)
    ensures NonIncreasing(s)
  {
  }

  /** Among the configurations under which every thread has something to read, the well-formed ones
      are exactly those whose offset file descends for every file. Even if only files are asked about
      that lose no list, and only that entries never rise, no other configuration qualifies. */
  lemma OrderedFileIffWellFormed(n: nat, c: Config)
    requires UsableConfig(n, c)
    ensures WellFormedConfig(n, c) <==>
              forall file: Text :: |file| == n ==> StrictlyDecreasing(IndexEntries(file, c))
    ensures WellFormedConfig(n, c) <==>
              forall file: Text :: |file| == n && AllReduceOK(file, c) ==> NonIncreasing(IndexEntries(file, c))
  {
    hide StrictlyDecreasing, NonIncreasing, IndexEntries, AllReduceOK, Newlines, WellFormedConfig, UsableConfig;
    if WellFormedConfig(n, c) {
      forall file: Text | |file| == n
        ensures StrictlyDecreasing(IndexEntries(file, c)) && NonIncreasing(IndexEntries(file, c))
      {
        IndexDescends(file, c);
        DecreasingNeverRises(IndexEntries(file, c));
      }
    } else {
      AllNewlinesOK(Newlines(n), c);
      if StrictlyDecreasing(IndexEntries(Newlines(n), c)) { DecreasingNeverRises(IndexEntries(Newlines(n), c)); }
      if NonIncreasing(IndexEntries(Newlines(n), c)) { NewlinesWellFormed(n, c); }
    }
  }
}
