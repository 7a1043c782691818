/** Which lists the reductions lose, in terms of the bytes of the file, what exactly is left in the
    offset file, and what is counted all the same. */
module LostLists {
  import opened Machine
  import opened TextFiles
  import opened Chunks
  import opened Partitioning
  import opened OffsetFiles
  import opened IndexTheorems

  // ---- a thread ----

  /** The chunk in which a thread reads the newline before line start `x`. */
  function ChunkOf(r: Usable, x: int): int {
    (x - 1 - r.from) / r.bufferSize
  }

  lemma ChunkHolds(r: Usable, x: nat, k: nat)
    requires r.from < x <= r.to && k < ChunkCount(r.bufferSize, r.from, r.to)
    ensures Bound(r.bufferSize, r.from, r.to, k) < x <= Bound(r.bufferSize, r.from, r.to, k + 1) <==> k == ChunkOf(r, x)
  {
    var b, d := r.bufferSize, x - 1 - r.from;
    Euclid(d, b);
    assert (k + 1) * b == k * b + b;
    if k * b <= d < (k + 1) * b { DivUnique(d, b, k, d - k * b); }
  }

  lemma ChunkExists(r: Usable, x: nat)
    requires r.from < x <= r.to
    ensures 0 <= ChunkOf(r, x) < ChunkCount(r.bufferSize, r.from, r.to)
  {
    var b, d, n := r.bufferSize, x - 1 - r.from, ChunkCount(r.bufferSize, r.from, r.to);
    Euclid(d, b);
    CeilDivBounds(r.to - r.from, b);
    if d / b >= n { MulMono(n, d / b, b); }
  }

  lemma ScanOfChunk(file: Text, r: Usable, k: nat)
    requires k < ChunkCount(r.bufferSize, r.from, r.to)
    ensures k < |ScanParts(file, r.bufferSize, r.from, r.to)|
    ensures ScanParts(file, r.bufferSize, r.from, r.to)[k]
         == ScanPart(file, Bound(r.bufferSize, r.from, r.to, k), Bound(r.bufferSize, r.from, r.to, k + 1))
  {
    hide ScanPart, Bound, ChunkCount;
  }

  /** A chunk is empty unless a line start of the range falls into it. */
  lemma ScanHasStart(file: Text, r: Usable, k: nat)
    requires k < ChunkCount(r.bufferSize, r.from, r.to)
    ensures k < |ScanParts(file, r.bufferSize, r.from, r.to)|
    ensures !ScanParts(file, r.bufferSize, r.from, r.to)[k].empty <==>
              exists x: nat :: ReadBy(file, r, x) && ChunkOf(r, x) == k
  {
    hide ScanParts, ChunkOf, ChunkCount, Bound;
    var lo, hi := Bound(r.bufferSize, r.from, r.to, k), Bound(r.bufferSize, r.from, r.to, k + 1);
    ScanOfChunk(file, r, k);
    BoundMono(r.bufferSize, r.from, r.to, k);
    var starts := LineStarts(file, lo, hi);
    if |starts| > 0 {
      var x := starts[0];
      LineStartsMembers(file, lo, hi, x);
      ChunkHolds(r, x, k);
      assert ReadBy(file, r, x);
    }
    if x: nat :| ReadBy(file, r, x) && ChunkOf(r, x) == k {
      ChunkHolds(r, x, k);
      LineStartsMembers(file, lo, hi, x);
    }
  }

  ghost predicate SomeRead(file: Text, r: Usable) {
    exists x: nat :: ReadBy(file, r, x)
  }

  ghost predicate SameChunk(file: Text, r: Usable) {
    forall x: nat, y: nat :: ReadBy(file, r, x) && ReadBy(file, r, y) ==> ChunkOf(r, x) == ChunkOf(r, y)
  }

  lemma CountOfScans(file: Text, r: Usable)
    ensures |ScanParts(file, r.bufferSize, r.from, r.to)| == ChunkCount(r.bufferSize, r.from, r.to)
    ensures ChunkCount(r.bufferSize, r.from, r.to) == 1 <==> r.to - r.from <= r.bufferSize
  {
  }

  lemma ReadInside(file: Text, r: Usable, x: nat)
    requires ReadBy(file, r, x)
    ensures r.from < x <= r.to
  {
  }

  lemma OneChunkOnly(file: Text, r: Usable)
    ensures var parts := ScanParts(file, r.bufferSize, r.from, r.to);
            OnlyOne(parts, |parts|) <==> SomeRead(file, r) && SameChunk(file, r)
  {
    hide ScanParts, ChunkOf, ChunkCount, ReadBy;
    var parts := ScanParts(file, r.bufferSize, r.from, r.to);
    var n := ChunkCount(r.bufferSize, r.from, r.to);
    CountOfScans(file, r);
    forall x: nat | ReadBy(file, r, x) ensures 0 <= ChunkOf(r, x) < n && !parts[ChunkOf(r, x)].empty {
      ReadInside(file, r, x);
      ChunkExists(r, x);
      ScanHasStart(file, r, ChunkOf(r, x));
    }
    forall k: nat | k < n && !parts[k].empty ensures exists x: nat :: ReadBy(file, r, x) && ChunkOf(r, x) == k {
      ScanHasStart(file, r, k);
    }
    if x: nat :| ReadBy(file, r, x) && SameChunk(file, r) {
      assert IsOnly(parts, n, ChunkOf(r, x));
    }
  }

  /** A thread loses its list exactly when its range is longer than its buffer, it reads some newline,
      and all the newlines it reads are in one chunk. */
  lemma ThreadLosesIff(file: Text, r: Usable)
    ensures !ThreadOK(file, r) <==>
              && r.to - r.from > r.bufferSize
              && (exists x: nat :: ReadBy(file, r, x))
              && forall x: nat, y: nat :: ReadBy(file, r, x) && ReadBy(file, r, y) ==>
                   (x - 1 - r.from) / r.bufferSize == (y - 1 - r.from) / r.bufferSize
  {
    hide ScanParts, ReadBy, OnlyOne;
    var parts := ScanParts(file, r.bufferSize, r.from, r.to);
    CountOfScans(file, r);
    OneChunkOnly(file, r);
    ScanConcatenation(file, r.bufferSize, r.from, r.to);
    ReduceIsConcatenation(parts);
  }

  // ---- a window ----

  /** The line starts that the first `n` threads read, those of later threads first. */
  function LinesOf(file: Text, ranges: seq<Usable>, n: nat): seq<nat>
    requires n <= |ranges|
  {
    if n == 0 then [] else LineStarts(file, ranges[n - 1].from, ranges[n - 1].to) + LinesOf(file, ranges, n - 1)
  }

  lemma LinesNone(file: Text, ranges: seq<Usable>)
    ensures LinesOf(file, ranges, 0) == []
  {
  }

  lemma NoneConcatenated<T>(parts: seq<Part<T>>)
    ensures Concatenation(parts, 0) == []
  {
  }

  lemma LinesStep(file: Text, ranges: seq<Usable>, parts: seq<Part<nat>>, n: nat)
    requires 0 < n <= |ranges| && Lossless(file, ranges, parts)
    ensures n <= |parts|
    ensures LinesOf(file, ranges, n) == parts[n - 1].items + LinesOf(file, ranges, n - 1)
    ensures Concatenation(parts, n) == parts[n - 1].items + Concatenation(parts, n - 1)
  {
  }

  lemma {:induction false} LosslessLines(file: Text, ranges: seq<Usable>, parts: seq<Part<nat>>, n: nat)
    requires n <= |ranges| && Lossless(file, ranges, parts)
    ensures Concatenation(parts, n) == LinesOf(file, ranges, n)
  {
    hide *;
    if n == 0 {
      LinesNone(file, ranges);
      NoneConcatenated(parts);
    } else {
      LosslessLines(file, ranges, parts, n - 1);
      LinesStep(file, ranges, parts, n);
    }
  }

  /** Two of these threads read a newline. */
  ghost predicate TwoRead(file: Text, ranges: seq<Usable>) {
    exists i: nat, j: nat :: i < j < |ranges| && SomeRead(file, ranges[i]) && SomeRead(file, ranges[j])
  }

  lemma SomeReadIff(file: Text, r: Usable)
    ensures SomeRead(file, r) <==> |LineStarts(file, r.from, r.to)| > 0
  {
    var starts := LineStarts(file, r.from, r.to);
    if |starts| > 0 {
      LineStartsMembers(file, r.from, r.to, starts[0]);
      assert ReadBy(file, r, starts[0]);
    }
    if x: nat :| ReadBy(file, r, x) {
      LineStartsMembers(file, r.from, r.to, x);
    }
  }

  lemma TwoPartsIff(file: Text, ranges: seq<Usable>, parts: seq<Part<nat>>)
    requires Lossless(file, ranges, parts) && Sound(parts)
    ensures AtLeastTwo(parts, |parts|) <==> TwoRead(file, ranges)
  {
    hide SomeRead;
    forall i: nat | i < |ranges| ensures !parts[i].empty <==> SomeRead(file, ranges[i]) {
      SomeReadIff(file, ranges[i]);
    }
    if i: nat, j: nat :| AreTwo(parts, |parts|, i, j) {
      assert SomeRead(file, ranges[i]) && SomeRead(file, ranges[j]);
    }
    if i: nat, j: nat :| i < j < |ranges| && SomeRead(file, ranges[i]) && SomeRead(file, ranges[j]) {
      assert AreTwo(parts, |parts|, i, j);
    }
  }

  /** The threads from `k` on lose nothing; the one before them, if any, loses its list. */
  ghost predicate LastLoss(file: Text, ranges: seq<Usable>, k: nat) {
    && k <= |ranges| && (k > 0 ==> !ThreadOK(file, ranges[k - 1]))
    && forall i :: k <= i < |ranges| ==> ThreadOK(file, ranges[i])
  }

  lemma LossParts(file: Text, ranges: seq<Usable>, k: nat)
    requires LastLoss(file, ranges, k)
    ensures k <= |ranges|
    ensures var parts := ThreadParts(file, ranges);
            && |parts| == |ranges| && (k > 0 ==> parts[k - 1].Hollow())
            && Sound(parts[k..]) && Lossless(file, ranges[k..], parts[k..])
  {
    hide ThreadOK, ThreadPart;
    var rest := ranges[k..];
    assert ThreadParts(file, ranges)[k..] == ThreadParts(file, rest);
    ThreadsSound(file, rest);
    if k > 0 { PartAt(file, ranges, k - 1); }
  }

  lemma LiveOfFew<T>(parts: seq<Part<T>>)
    requires Sound(parts) && |parts| != 1
    ensures Reduce(parts).items == if AtLeastTwo(parts, |parts|) then Concatenation(parts, |parts|) else []
  {
    hide AtLeastTwo, OnlyOne;
    SoundLive(parts, |parts|);
    CountMeans(parts, |parts|);
  }

  lemma HollowOne(file: Text, r: Usable)
    requires !ThreadOK(file, r)
    ensures |ThreadPart(file, r).items| == 0
  {
    ThreadPartExact(file, r);
  }

  lemma OneThreadContents(file: Text, ranges: seq<Usable>, k: nat)
    requires |ranges| == 1 && LastLoss(file, ranges, k)
    ensures WindowOffsets(file, ranges) == LinesOf(file, ranges[k..], |ranges[k..]|)
  {
    hide ThreadOK, LinesOf, ThreadPart;
    var rest := ranges[k..];
    LinesNone(file, rest);
    if k == 0 {
      assert rest == ranges;
      ThreadsSound(file, ranges);
      LinesStep(file, ranges, ThreadParts(file, ranges), 1);
    } else {
      HollowOne(file, ranges[0]);
    }
  }

  lemma SeveralContents(file: Text, ranges: seq<Usable>, k: nat)
    requires |ranges| != 1 && LastLoss(file, ranges, k)
    ensures k <= |ranges|
    ensures var rest := ranges[k..];
            WindowOffsets(file, ranges) == if TwoRead(file, rest) then LinesOf(file, rest, |rest|) else []
  {
    hide LastLoss, TwoRead, ThreadParts, LinesOf, Sound, AtLeastTwo, Lossless, Concatenation;
    LossParts(file, ranges, k);
    var parts, rest := ThreadParts(file, ranges), ranges[k..];
    LosslessLines(file, rest, parts[k..], |rest|);
    TwoPartsIff(file, rest, parts[k..]);
    if k == 0 {
      assert parts[0..] == parts;
      LiveOfFew(parts);
    } else {
      ReduceAfterHollow(parts, k - 1);
    }
  }

  /** What a window writes, whatever its threads lose: with one thread, what that one keeps; otherwise
      exactly the line starts that the threads after the last loss read, or nothing if fewer than two
      of them read any. */
  lemma WindowContents(file: Text, ranges: seq<Usable>, k: nat)
    requires LastLoss(file, ranges, k)
    ensures k <= |ranges|
    ensures var rest := ranges[k..];
            var kept := if |ranges| == 1 || TwoRead(file, rest) then LinesOf(file, rest, |rest|) else [];
            WindowOffsets(file, ranges) == kept
  {
    hide WindowOffsets, TwoRead, LinesOf, ThreadOK;
    if |ranges| == 1 {
      OneThreadContents(file, ranges, k);
    } else {
      SeveralContents(file, ranges, k);
    }
  }

  lemma {:induction false} LastLossExists(file: Text, ranges: seq<Usable>, n: nat) returns (k: nat)
    requires n <= |ranges| && forall i :: n <= i < |ranges| ==> ThreadOK(file, ranges[i])
    ensures LastLoss(file, ranges, k)
  {
    hide ThreadOK;
    k := n;
    if n > 0 && ThreadOK(file, ranges[n - 1]) { k := LastLossExists(file, ranges, n - 1); }
  }

  lemma LinesStepAt(file: Text, ranges: seq<Usable>, n: nat, x: nat)
    requires 0 < n <= |ranges|
    ensures x in LinesOf(file, ranges, n) <==> ReadBy(file, ranges[n - 1], x) || x in LinesOf(file, ranges, n - 1)
  {
    LineStartsMembers(file, ranges[n - 1].from, ranges[n - 1].to, x);
  }

  lemma {:induction false} ReadersOf(file: Text, ranges: seq<Usable>, n: nat, x: nat)
    requires n <= |ranges|
    ensures x in LinesOf(file, ranges, n) <==> exists i :: 0 <= i < n && ReadBy(file, ranges[i], x)
  {
    hide *;
    if n == 0 {
      LinesNone(file, ranges);
    } else {
      ReadersOf(file, ranges, n - 1, x);
      LinesStepAt(file, ranges, n, x);
      ReadersStep(file, ranges, n, x);
    }
  }

  /** So a line start gets into the offset file exactly when a thread after the last loss of its window
      reads it and, unless that thread is the only one of the window, another of them reads some, too. */
  lemma WindowKeeps(file: Text, ranges: seq<Usable>, k: nat, x: nat)
    requires LastLoss(file, ranges, k)
    ensures k <= |ranges|
    ensures x in WindowOffsets(file, ranges) <==>
              && (exists i :: k <= i < |ranges| && ReadBy(file, ranges[i], x))
              && (|ranges| == 1 || TwoRead(file, ranges[k..]))
  {
    hide WindowOffsets, TwoRead, LinesOf, ThreadOK, ReadBy;
    var rest := ranges[k..];
    WindowContents(file, ranges, k);
    ReadersOf(file, rest, |rest|, x);
    if i :| k <= i < |ranges| && ReadBy(file, ranges[i], x) {
      assert rest[i - k] == ranges[i];
    }
  }

  // ---- the file ----

  /** How many entries each window writes. */
  function Lengths(file: Text, windows: Layout): (lengths: seq<nat>)
    ensures |lengths| == |windows|
  {
    seq(|windows|, w requires 0 <= w < |windows| => |WindowOffsets(file, windows[w])|)
  }

  lemma LengthsStep(file: Text, windows: Layout, w: nat)
    requires w < |windows|
    ensures Total(Lengths(file, windows), w + 1) == Total(Lengths(file, windows), w) + |WindowOffsets(file, windows[w])|
  {
  }

  lemma {:induction false} EntriesLength(file: Text, windows: Layout, w: nat)
    requires w <= |windows|
    ensures |EntriesFrom(file, windows, w)| + Total(Lengths(file, windows), w)
         == Total(Lengths(file, windows), |windows|)
    decreases |windows| - w
  {
    hide *;
    if w == |windows| {
      EntriesNone(file, windows);
    } else {
      EntriesLength(file, windows, w + 1);
      EntriesStep(file, windows, w);
      LengthsStep(file, windows, w);
    }
  }

  /** What is in the file stays in front of what is appended. */
  lemma {:induction false} EntriesPrefix(file: Text, windows: Layout, v: nat, w: nat)
    requires v <= w <= |windows|
    ensures EntriesFrom(file, windows, w) <= EntriesFrom(file, windows, v)
    decreases w - v
  {
    hide *;
    if v < w {
      EntriesPrefix(file, windows, v + 1, w);
      EntriesStep(file, windows, v);
    }
  }

  lemma PrefixSlice(all: seq<nat>, before: seq<nat>, here: seq<nat>)
    requires before + here <= all
    ensures all[|before|..|before| + |here|] == here
  {
    assert all[|before|..|before| + |here|] == (before + here)[|before|..|before| + |here|];
  }

  lemma IndexIs(file: Text, c: Config)
    requires UsableConfig(|file|, c)
    ensures IndexEntries(file, c) == EntriesFrom(file, LayoutOf(|file|, c), 0) + [0]
    ensures IndexLen(file, c) == Total(WindowCounts(file, LayoutOf(|file|, c)), |LayoutOf(|file|, c)|) + 1
  {
    hide UsableRanges, WindowCounts, Total, EntriesFrom;
  }

  lemma TotalNone(counts: seq<nat>)
    ensures Total(counts, 0) == 0
  {
  }

  /** The offset file is what the windows write, one after the other, that of the first last, and 0. */
  lemma EntriesAt(file: Text, c: Config, w: nat)
    requires UsableConfig(|file|, c) && w < |LayoutOf(|file|, c)|
    ensures var entries, lengths := IndexEntries(file, c), Lengths(file, LayoutOf(|file|, c));
            var end := |entries| - 1;
            && end == Total(lengths, |lengths|) && entries[end] == 0
            && 0 <= end - Total(lengths, w + 1) <= end - Total(lengths, w) <= end
            && entries[end - Total(lengths, w + 1)..end - Total(lengths, w)]
            == WindowOffsets(file, LayoutOf(|file|, c)[w])
  {
    hide *;
    var windows := LayoutOf(|file|, c);
    IndexIs(file, c);
    EntriesLength(file, windows, 0);
    EntriesLength(file, windows, w);
    EntriesLength(file, windows, w + 1);
    TotalNone(Lengths(file, windows));
    LengthsStep(file, windows, w);
    EntriesStep(file, windows, w);
    EntriesPrefix(file, windows, 0, w);
    PrefixSlice(IndexEntries(file, c), EntriesFrom(file, windows, w + 1), WindowOffsets(file, windows[w]));
  }

  // ---- what is counted ----

  /** Thread `i` of window `w` reads the newline before `x`. */
  datatype Reading = Reading(w: nat, i: nat, x: nat)

  ghost function OneThreads(w: nat, i: nat, starts: seq<nat>): set<Reading> {
    set x | x in starts :: Reading(w, i, x)
  }

  lemma OneMore(w: nat, i: nat, starts: seq<nat>, x: nat)
    requires x !in starts
    ensures OneThreads(w, i, starts + [x]) == OneThreads(w, i, starts) + {Reading(w, i, x)}
    ensures Reading(w, i, x) !in OneThreads(w, i, starts)
  {
  }

  lemma NoneRead(w: nat, i: nat)
    ensures OneThreads(w, i, []) == {}
  {
  }

  lemma {:induction false} OneCount(w: nat, i: nat, starts: seq<nat>)
    requires StrictlyDecreasing(starts)
    ensures |OneThreads(w, i, starts)| == |starts|
  {
    hide OneThreads;
    if |starts| == 0 {
      NoneRead(w, i);
    } else {
      var n := |starts| - 1;
      OneCount(w, i, starts[..n]);
      OneMore(w, i, starts[..n], starts[n]);
      assert starts == starts[..n] + [starts[n]];
    }
  }

  /** In the windows before `w` and by the first `n` threads of window `w`. */
  ghost function Readings(file: Text, windows: Layout, w: nat, n: nat): set<Reading> {
    set v: nat, i: nat, x: nat | v < |windows| && i < |windows[v]| && x <= |file|
      && (v < w || (v == w && i < n)) && ReadBy(file, windows[v][i], x) :: Reading(v, i, x)
  }

  lemma ReadingsStep(file: Text, windows: Layout, w: nat, n: nat)
    requires w < |windows| && n < |windows[w]|
    ensures var r := windows[w][n];
            var starts := LineStarts(file, r.from, r.to);
            |Readings(file, windows, w, n + 1)| == |Readings(file, windows, w, n)| + |starts|
  {
    var r := windows[w][n];
    var starts := LineStarts(file, r.from, r.to);
    LineStartsExact(file, r.from, r.to);
    OneCount(w, n, starts);
    hide LineStarts, StrictlyDecreasing;
    forall x: nat ensures Reading(w, n, x) in OneThreads(w, n, starts) <==> x <= |file| && ReadBy(file, r, x) {
    }
    assert Readings(file, windows, w, n + 1) == Readings(file, windows, w, n) + OneThreads(w, n, starts);
    assert Readings(file, windows, w, n) !! OneThreads(w, n, starts);
  }

  lemma ReadingsNone(file: Text, windows: Layout)
    ensures |Readings(file, windows, 0, 0)| == 0
  {
    assert Readings(file, windows, 0, 0) == {};
  }

  lemma ReadingsNext(file: Text, windows: Layout, w: nat)
    requires w < |windows|
    ensures Readings(file, windows, w + 1, 0) == Readings(file, windows, w, |windows[w]|)
  {
  }

  lemma CountsStep(file: Text, ranges: seq<Usable>, n: nat)
    requires n < |ranges|
    ensures Total(LineCounts(file, ranges), n + 1)
         == Total(LineCounts(file, ranges), n) + |LineStarts(file, ranges[n].from, ranges[n].to)|
  {
  }

  lemma {:induction false} ReadingsOfWindow(file: Text, windows: Layout, w: nat, n: nat)
    requires w < |windows| && n <= |windows[w]|
    ensures |Readings(file, windows, w, n)|
         == |Readings(file, windows, w, 0)| + Total(LineCounts(file, windows[w]), n)
  {
    hide *;
    if n == 0 {
      TotalNone(LineCounts(file, windows[w]));
    } else {
      ReadingsOfWindow(file, windows, w, n - 1);
      ReadingsStep(file, windows, w, n - 1);
      CountsStep(file, windows[w], n - 1);
    }
  }

  lemma WindowCountsStep(file: Text, windows: Layout, w: nat)
    requires w < |windows|
    ensures Total(WindowCounts(file, windows), w + 1)
         == Total(WindowCounts(file, windows), w) + Total(LineCounts(file, windows[w]), |windows[w]|)
  {
  }

  lemma {:induction false} ReadingsCount(file: Text, windows: Layout, w: nat)
    requires w <= |windows|
    ensures |Readings(file, windows, w, 0)| == Total(WindowCounts(file, windows), w)
  {
    hide *;
    if w == 0 {
      ReadingsNone(file, windows);
      TotalNone(WindowCounts(file, windows));
    } else {
      ReadingsCount(file, windows, w - 1);
      ReadingsOfWindow(file, windows, w - 1, |windows[w - 1]|);
      ReadingsNext(file, windows, w - 1);
      WindowCountsStep(file, windows, w - 1);
    }
  }

  lemma AllReadings(file: Text, windows: Layout)
    ensures Readings(file, windows, |windows|, 0)
         == set w: nat, i: nat, x: nat | w < |windows| && i < |windows[w]| && x <= |file|
                && ReadBy(file, windows[w][i], x) :: Reading(w, i, x)
  {
  }

  /** The `len` field is 1 and every line start that is read, lost or not, once for each thread that
      reads it. */
  lemma LenIsReadings(file: Text, c: Config)
    requires UsableConfig(|file|, c)
    ensures var windows := LayoutOf(|file|, c);
            IndexLen(file, c) == 1 +
              |set w: nat, i: nat, x: nat | w < |windows| && i < |windows[w]| && x <= |file|
                && ReadBy(file, windows[w][i], x) :: Reading(w, i, x)|
  {
    hide *;
    var windows := LayoutOf(|file|, c);
    IndexIs(file, c);
    ReadingsCount(file, windows, |windows|);
    AllReadings(file, windows);
  }
}
