/** The text indexer: coroutines scan chunks into linked lists, a thread collects and splices
    them, the main thread splices the threads of a window and appends it to the offset file. */
module TextIndexer {
  import opened Machine
  import opened TextFiles
  import opened Nodes
  import opened Chunks
  import opened Partitioning
  import opened OffsetFiles
  import opened IndexTheorems
  import opened IndexStores
  import LineLookup

  // ---- a coroutine ----

  ghost function NodeSet(nodes: seq<BytesNode>): Region {
    set n | n in nodes
  }

  /** The chunk holds a list of nodes that carry these offsets. */
  ghost predicate Carries(part: Part<BytesNode>, offsets: Part<nat>) {
    OffsetsOf(part.items) == offsets.items && part.empty == offsets.empty
  }

  /** The list built by a scan: `last` is its tail, the first newline found. */
  ghost predicate ScannedList(start: BytesNode?, last: BytesNode?, nodes: seq<BytesNode>)
    reads nodes
  {
    IsList(start, nodes) && last == if |nodes| > 0 then nodes[|nodes| - 1] else null
  }

  /** The body of the scan for a newline: a new node in front of the list. */
  method FoundLine(offset: nat, start: BytesNode?, last: BytesNode?, head: bool, ghost nodes: seq<BytesNode>)
    returns (newStart: BytesNode, newLast: BytesNode?)
    requires ScannedList(start, last, nodes) && (head <==> |nodes| == 0)
    ensures fresh(newStart) && ScannedList(newStart, newLast, [newStart] + nodes)
    ensures OffsetsOf([newStart] + nodes) == [offset] + OffsetsOf(nodes)
  {
    var node := new BytesNode(Bytes(true, offset));
    newLast := if head then node else last;
    if start == null {
      newStart := node;
      ListCons(node, nodes);
    } else {
      newStart := Prepend(start, node, nodes);
    }
  }

  lemma NothingScanned(file: Text, from: nat)
    ensures IsList(null, []) && |LineStarts(file, from, from)| == 0
  {
  }

  lemma FirstOfList(first: BytesNode?, nodes: seq<BytesNode>)
    requires IsList(first, nodes)
    ensures first == null <==> |nodes| == 0
  {
  }

  lemma ScanStep(file: Text, from: nat, count: nat, pos: nat)
    requires pos < |LineLookup.ReadAt(file, from, count)|
    ensures LineStarts(file, from, from + pos + 1)
         == (if LineLookup.ReadAt(file, from, count)[pos] == NEWLINE then [from + pos + 1] else [])
          + LineStarts(file, from, from + pos)
  {
  }

  lemma {:induction false} NothingBeyond(file: Text, lo: nat, mid: nat, hi: nat)
    requires lo <= mid <= hi && (mid < hi ==> mid >= |file|)
    ensures LineStarts(file, lo, hi) == LineStarts(file, lo, mid)
    decreases hi
  {
    if mid == hi {
    } else {
      NothingBeyond(file, lo, mid, hi - 1);
    }
  }

  /** Past the end of the file there is nothing to read and no line start. */
  lemma ReadToEnd(file: Text, from: nat, count: nat)
    ensures LineStarts(file, from, from + |LineLookup.ReadAt(file, from, count)|)
         == LineStarts(file, from, from + count)
  {
    var read := |LineLookup.ReadAt(file, from, count)|;
    NothingBeyond(file, from, from + read, from + count);
  }

  /** `f_index_text_bytes`: the nodes are prepended, so the first newline found is the tail. */
  method IndexTextBytes(file: Text, spec: ChunkSpec)
    returns (chunk: Chunk, ghost part: Part<BytesNode>, ghost region: Region)
    ensures fresh(chunk) && forall n :: n in region ==> fresh(n)
    ensures Holds(chunk, part, region)
    ensures Carries(part, ScanPart(file, spec.from, spec.from + spec.count))
    ensures chunk.current == spec.index && chunk.lineCount == |part.items|
  {
    hide IsList, LineStarts, LineLookup.ReadAt;
    var totalBytesOffset := spec.from;
    var buffer := LineLookup.ReadAt(file, spec.from, spec.count);
    var lastChunkNode: BytesNode? := null;
    var startNode: BytesNode? := null;
    var head := true;
    var lineCount := 0;
    var pos := 0;
    ghost var nodes: seq<BytesNode> := [];
    NothingScanned(file, spec.from);
    while pos < |buffer|
      invariant 0 <= pos <= |buffer| && totalBytesOffset == spec.from + pos
      invariant ScannedList(startNode, lastChunkNode, nodes) && forall n :: n in nodes ==> fresh(n)
      invariant OffsetsOf(nodes) == LineStarts(file, spec.from, spec.from + pos)
      invariant lineCount == |nodes| && (head <==> |nodes| == 0)
    {
      totalBytesOffset := totalBytesOffset + 1;
      ScanStep(file, spec.from, spec.count, pos);
      if buffer[pos] == NEWLINE {
        lineCount := lineCount + 1;
        startNode, lastChunkNode := FoundLine(totalBytesOffset, startNode, lastChunkNode, head, nodes);
        head := false;
        nodes := [startNode] + nodes;
      }
      pos := pos + 1;
    }
    ReadToEnd(file, spec.from, spec.count);
    FirstOfList(startNode, nodes);
    chunk := new Chunk(spec.index, startNode, lastChunkNode);
    chunk.lineCount := lineCount;
    part, region := Part(nodes, |nodes| == 0), NodeSet(nodes);
  }

  // ---- one batch of coroutines ----

  ghost predicate Produced(file: Text, spec: ChunkSpec, chunk: Chunk, part: Part<BytesNode>, region: Region)
    reads chunk, region
  {
    && Holds(chunk, part, region)
    && Carries(part, ScanPart(file, spec.from, spec.from + spec.count))
    && chunk.current == spec.index && chunk.lineCount == |part.items|
  }

  /** Every spec has its own chunk, and no two chunks share a node. */
  ghost predicate Batch(file: Text, specs: seq<ChunkSpec>, chunks: seq<Chunk>, parts: seq<Part<BytesNode>>,
                        regions: seq<Region>, universe: Region)
    reads chunks, universe
  {
    && |specs| == |chunks| == |parts| == |regions| && Disjoint(regions)
    && (forall k :: 0 <= k < |specs| ==>
          regions[k] <= universe && Produced(file, specs[k], chunks[k], parts[k], regions[k]))
  }

  lemma BatchJoin(file: Text,
                  specs: seq<ChunkSpec>, chunks: seq<Chunk>, parts: seq<Part<BytesNode>>,
                  regions: seq<Region>, universe: Region,
                  specs': seq<ChunkSpec>, chunks': seq<Chunk>, parts': seq<Part<BytesNode>>,
                  regions': seq<Region>, universe': Region)
    requires Batch(file, specs, chunks, parts, regions, universe)
    requires Batch(file, specs', chunks', parts', regions', universe')
    requires universe !! universe'
    ensures Batch(file, specs + specs', chunks + chunks', parts + parts', regions + regions', universe + universe')
  {
    var n := |specs|;
    forall i, j | 0 <= i < j < |regions + regions'| ensures (regions + regions')[i] !! (regions + regions')[j] {
      if i < n <= j { assert regions[i] <= universe && regions'[j - n] <= universe'; }
    }
  }

  /** The channel holds exactly these chunks. */
  ghost predicate OnChannel(channel: set<Chunk>, chunks: seq<Chunk>) {
    && Distinct(chunks) && |channel| == |chunks|
    && (forall c :: c in channel ==> c in chunks) && (forall c :: c in chunks ==> c in channel)
  }

  lemma SingleBatch(file: Text, spec: ChunkSpec, chunk: Chunk, part: Part<BytesNode>, region: Region)
    requires Holds(chunk, part, region) && Carries(part, ScanPart(file, spec.from, spec.from + spec.count))
    requires chunk.current == spec.index && chunk.lineCount == |part.items|
    ensures Batch(file, [spec], [chunk], [part], [region], region)
  {
  }

  lemma ChannelAdd(channel: set<Chunk>, chunks: seq<Chunk>, chunk: Chunk)
    requires OnChannel(channel, chunks) && chunk !in chunks
    ensures OnChannel(channel + {chunk}, chunks + [chunk]) && |channel + {chunk}| == |channel| + 1
  {
    assert chunk !in channel;
  }

  /** `bundle_go` of one coroutine: it runs until it blocks on the channel with its chunk. */
  method SpawnOne(file: Text, spec: ChunkSpec, channel: set<Chunk>,
                  ghost specs: seq<ChunkSpec>, ghost chunks: seq<Chunk>,
                  ghost parts: seq<Part<BytesNode>>, ghost regions: seq<Region>, ghost universe: Region)
    returns (newChannel: set<Chunk>, ghost newChunks: seq<Chunk>, ghost newParts: seq<Part<BytesNode>>,
             ghost newRegions: seq<Region>, ghost newUniverse: Region)
    requires Batch(file, specs, chunks, parts, regions, universe) && OnChannel(channel, chunks)
    ensures fresh(newChannel - channel) && fresh(newUniverse - universe) && |newChannel| == |channel| + 1
    ensures Batch(file, specs + [spec], newChunks, newParts, newRegions, newUniverse)
    ensures OnChannel(newChannel, newChunks)
  {
    hide Batch, OnChannel;
    var chunk;
    ghost var part, region;
    chunk, part, region := IndexTextBytes(file, spec);
    SingleBatch(file, spec, chunk, part, region);
    BatchJoin(file, specs, chunks, parts, regions, universe, [spec], [chunk], [part], [region], region);
    ChannelAdd(channel, chunks, chunk);
    newChannel, newChunks := channel + {chunk}, chunks + [chunk];
    newParts, newRegions, newUniverse := parts + [part], regions + [region], universe + region;
  }

  lemma EmptyBatch(file: Text)
    ensures Batch(file, [], [], [], [], {})
  {
  }

  /** Starts the coroutines of one batch, never more than `concurrency` of them. */
  method SpawnBatch(file: Text, specs: seq<ChunkSpec>, i: nat, concurrency: nat)
    returns (channel: set<Chunk>, ghost chunks: seq<Chunk>, ghost parts: seq<Part<BytesNode>>,
             ghost regions: seq<Region>, ghost universe: Region)
    requires i <= |specs|
    ensures Batch(file, specs[i..i + Min(concurrency, |specs| - i)], chunks, parts, regions, universe)
    ensures OnChannel(channel, chunks) && fresh(universe) && fresh(channel)
    ensures |channel| == |chunks| == Min(concurrency, |specs| - i)
  {
    hide Batch;
    channel, chunks, parts, regions, universe := {}, [], [], [], {};
    EmptyBatch(file);
    var c := 0;
    ghost var started: seq<ChunkSpec> := [];
    while c < concurrency
      invariant 0 <= c <= concurrency && i + c <= |specs| && started == specs[i..i + c] && |channel| == c
      invariant Batch(file, started, chunks, parts, regions, universe)
      invariant OnChannel(channel, chunks) && fresh(universe) && fresh(channel)
    {
      var index := i + c;
      if index >= |specs| {
        break;
      }
      channel, chunks, parts, regions, universe :=
        SpawnOne(file, specs[index], channel, started, chunks, parts, regions, universe);
      started := started + [specs[index]];
      c := c + 1;
    }
  }

  lemma {:induction false} TotalSame(a: seq<nat>, b: seq<nat>, n: nat)
    requires n <= |a| && n <= |b| && forall k :: 0 <= k < n ==> a[k] == b[k]
    ensures Total(a, n) == Total(b, n)
  {
    if n == 0 {
    } else {
      TotalSame(a, b, n - 1);
    }
  }

  lemma {:induction false} TotalUpdate(counts: seq<nat>, j: nat, n: nat)
    requires j < n <= |counts|
    ensures Total(counts[j := 0], n) + counts[j] == Total(counts, n)
  {
    if j < n - 1 {
      TotalUpdate(counts, j, n - 1);
    } else {
      TotalSame(counts, counts[j := 0], n - 1);
    }
  }

  lemma {:induction false} TotalZero(counts: seq<nat>, n: nat)
    requires n <= |counts| && forall k :: 0 <= k < n ==> counts[k] == 0
    ensures Total(counts, n) == 0
  {
    if n == 0 {
    } else {
      TotalZero(counts, n - 1);
    }
  }

  /** The counts of the chunks that have not been received. */
  ghost predicate IsDue(due: seq<nat>, counts: seq<nat>, chunks: seq<Chunk>, waiting: set<Chunk>) {
    && |due| == |counts| == |chunks|
    && forall j :: 0 <= j < |chunks| ==> due[j] == if chunks[j] in waiting then counts[j] else 0
  }

  lemma AllDue(counts: seq<nat>, chunks: seq<Chunk>, waiting: set<Chunk>)
    requires |counts| == |chunks| && OnChannel(waiting, chunks)
    ensures IsDue(counts, counts, chunks, waiting)
  {
  }

  lemma DueStep(due: seq<nat>, counts: seq<nat>, chunks: seq<Chunk>, waiting: set<Chunk>, j: nat)
    requires IsDue(due, counts, chunks, waiting) && Distinct(chunks) && j < |chunks| && chunks[j] in waiting
    ensures j < |due| && IsDue(due[j := 0], counts, chunks, waiting - {chunks[j]})
    ensures Total(due[j := 0], |due|) + counts[j] == Total(due, |due|)
  {
    TotalUpdate(due, j, |due|);
  }

  lemma NothingDue(due: seq<nat>, counts: seq<nat>, chunks: seq<Chunk>)
    requires IsDue(due, counts, chunks, {})
    ensures Total(due, |due|) == 0
  {
    TotalZero(due, |due|);
  }

  /** Receives the chunks of one batch, in whatever order the channel delivers them. Each slot is
      empty when its chunk arrives. */
  method ReceiveBatch(channel: set<Chunk>, slots: array<Chunk?>, i: nat, concurrency: nat,
                      lineCount: nat, finished: nat,
                      ghost chunks: seq<Chunk>, ghost counts: seq<nat>)
    returns (newLineCount: nat, newFinished: nat)
    requires OnChannel(channel, chunks) && |chunks| == |counts|
    requires i <= slots.Length && |chunks| == Min(concurrency, slots.Length - i)
    requires forall j :: 0 <= j < |chunks| ==> chunks[j].current == i + j && chunks[j].lineCount == counts[j]
    requires forall k :: i <= k < i + |chunks| ==> slots[k] == null
    modifies slots
    ensures forall j :: 0 <= j < |chunks| ==> slots[i + j] == chunks[j]
    ensures forall k :: 0 <= k < slots.Length && !(i <= k < i + |chunks|) ==> slots[k] == old(slots[k])
    ensures newLineCount == lineCount + Total(counts, |counts|)
    ensures newFinished == finished + |chunks|
  {
    hide Total, IsDue;
    AllDue(counts, chunks, channel);
    var waiting := channel;
    newLineCount, newFinished := lineCount, finished;
    ghost var due := counts;
    var c := 0;
    while c < concurrency
      invariant 0 <= c <= |chunks| == |due| && |waiting| == |chunks| - c && newFinished == finished + c
      invariant forall x :: x in waiting ==> x in chunks
      invariant forall j :: 0 <= j < |chunks| ==> slots[i + j] == if chunks[j] in waiting then null else chunks[j]
      invariant IsDue(due, counts, chunks, waiting)
      invariant newLineCount + Total(due, |due|) == lineCount + Total(counts, |counts|)
      invariant forall k :: 0 <= k < slots.Length && !(i <= k < i + |chunks|) ==> slots[k] == old(slots[k])
    {
      var index := i + c;
      if index >= slots.Length {
        break;
      }
      var chunk :| chunk in waiting;
      ghost var j :| 0 <= j < |chunks| && chunks[j] == chunk;
      assert chunk.current == i + j && slots[i + j] == null;
      DueStep(due, counts, chunks, waiting, j);
      due := due[j := 0];
      newLineCount := newLineCount + chunk.lineCount;
      waiting := waiting - {chunk};
      slots[chunk.current] := chunk;
      newFinished := newFinished + 1;
      c := c + 1;
    }
    assert |waiting| == 0;
    assert forall j :: 0 <= j < |chunks| ==> chunks[j] !in waiting;
    NothingDue(due, counts, chunks);
  }

  // ---- a thread ----

  ghost predicate Rising(reports: seq<real>) {
    forall i, j :: 0 <= i < j < |reports| ==> reports[i] < reports[j]
  }

  lemma DivMono(x: real, y: real, z: real)
    requires x < y && 0.0 < z
    ensures x / z < y / z
  {
    var q, r := x / z, y / z;
    assert q * z == x && r * z == y;
    assert (r - q) * z > 0.0;
  }

  lemma DivSelf(z: real)
    requires 0.0 < z
    ensures z / z == 1.0
  {
    assert z / z * z == z;
  }

  lemma Fractions(a: nat, b: nat, n: nat)
    requires a < b <= n
    ensures a as real / n as real < b as real / n as real <= 1.0
    ensures b as real / n as real == 1.0 <==> b == n
  {
    var x, y, z := a as real, b as real, n as real;
    DivMono(x, y, z);
    DivSelf(z);
    if b < n { DivMono(y, z, z); }
  }

  /** `f_text_thread`. The ghost fields record every value written to `progress` and the largest
      number of coroutines that were outstanding at one time. */
  class TextThread {
    const from: nat
    const to: nat
    const bufferSize: nat
    const concurrency: nat
    const thread: nat
    var progress: real
    ghost var reports: seq<real>
    ghost var peak: nat

    constructor (range: ThreadRange, concurrency: nat, thread: nat)
      ensures from == range.from && to == range.to && bufferSize == range.bufferSize
      ensures this.concurrency == concurrency && this.thread == thread
      ensures progress == 0.0 && reports == [] && peak == 0
    {
      from, to, bufferSize := range.from, range.to, range.bufferSize;
      this.concurrency, this.thread := concurrency, thread;
      progress, reports, peak := 0.0, [], 0;
    }

    /** `finished` of `len` chunks have been collected and reported. */
    ghost predicate HasReported(finished: nat, len: nat)
      reads this
    {
      && finished <= len && Rising(reports)
      && (finished == 0 ==> progress == 0.0 && reports == [])
      && (finished > 0 ==> |reports| > 0 && progress == reports[|reports| - 1] == finished as real / len as real)
    }

    method Report(finished: nat, len: nat, ghost before: nat, ghost outstanding: nat)
      requires before < finished <= len && HasReported(before, len)
      modifies this
      ensures HasReported(finished, len) && peak == Max(old(peak), outstanding)
      ensures reports == old(reports) + [progress]
      ensures progress == 1.0 <==> finished == len
      ensures old(|reports|) > 0 ==> old(reports[|reports| - 1]) < 1.0
    {
      Fractions(before, finished, len);
      progress := finished as real / len as real;
      reports := reports + [progress];
      peak := Max(peak, outstanding);
    }
  }

  /** The chunk specs of a thread, against the parts they are scanned into. */
  lemma SpecsScan(file: Text, specs: seq<ChunkSpec>, bufferSize: nat, from: nat, to: nat, k: nat)
    requires 0 < bufferSize && from <= to && k < |specs| == ChunkCount(bufferSize, from, to)
    requires IsChunk(bufferSize, from, to, k, specs[k])
    ensures ScanPart(file, specs[k].from, specs[k].from + specs[k].count) == ScanParts(file, bufferSize, from, to)[k]
    ensures specs[k].index == k
  {
    ChunksTile(bufferSize, from, to, k);
  }

  lemma {:induction false} ConcatenationGrows(parts: seq<Part<nat>>, n: nat, counts: seq<nat>, m: nat)
    requires m <= |counts| && n + m <= |parts|
    requires forall j :: 0 <= j < m ==> counts[j] == |parts[n + j].items|
    ensures |Concatenation(parts, n + m)| == |Concatenation(parts, n)| + Total(counts, m)
  {
    if m == 0 {
    } else {
      ConcatenationGrows(parts, n, counts, m - 1);
    }
  }

  /** The part that each spec is scanned into. */
  ghost predicate SpecsOf(file: Text, specs: seq<ChunkSpec>, scan: seq<Part<nat>>) {
    && |specs| == |scan|
    && forall k :: 0 <= k < |specs| ==>
         specs[k].index == k && ScanPart(file, specs[k].from, specs[k].from + specs[k].count) == scan[k]
  }

  lemma ProducedCount(file: Text, spec: ChunkSpec, chunk: Chunk, part: Part<BytesNode>, region: Region)
    requires Produced(file, spec, chunk, part, region)
    ensures chunk.current == spec.index
    ensures chunk.lineCount == |part.items| == |ScanPart(file, spec.from, spec.from + spec.count).items|
  {
    assert |OffsetsOf(part.items)| == |part.items|;
  }

  lemma BatchLength(file: Text, specs: seq<ChunkSpec>, chunks: seq<Chunk>, parts: seq<Part<BytesNode>>,
                    regions: seq<Region>, universe: Region)
    requires Batch(file, specs, chunks, parts, regions, universe)
    ensures |parts| == |chunks| == |regions|
  {
  }

  lemma SpecsLength(file: Text, specs: seq<ChunkSpec>, scan: seq<Part<nat>>)
    requires SpecsOf(file, specs, scan)
    ensures |specs| == |scan|
  {
  }

  /** The count of one chunk of a batch. */
  lemma BatchCount(file: Text, specs: seq<ChunkSpec>, scan: seq<Part<nat>>, i: nat, chunks: seq<Chunk>,
                   parts: seq<Part<BytesNode>>, regions: seq<Region>, universe: Region, j: nat)
    requires SpecsOf(file, specs, scan) && i + |chunks| <= |specs| && j < |chunks|
    requires Batch(file, specs[i..i + |chunks|], chunks, parts, regions, universe)
    ensures |parts| == |chunks| && |scan| == |specs|
    ensures chunks[j].current == i + j && chunks[j].lineCount == |parts[j].items| == |scan[i + j].items|
  {
    hide Produced, ScanPart, Disjoint;
    assert specs[i..i + |chunks|][j] == specs[i + j];
    ProducedCount(file, specs[i + j], chunks[j], parts[j], regions[j]);
  }

  lemma BatchCounts(file: Text, specs: seq<ChunkSpec>, scan: seq<Part<nat>>, i: nat, chunks: seq<Chunk>,
                    parts: seq<Part<BytesNode>>, regions: seq<Region>, universe: Region)
    returns (counts: seq<nat>)
    requires SpecsOf(file, specs, scan) && i + |chunks| <= |specs|
    requires Batch(file, specs[i..i + |chunks|], chunks, parts, regions, universe)
    ensures |counts| == |chunks|
    ensures forall j :: 0 <= j < |chunks| ==> chunks[j].current == i + j && chunks[j].lineCount == counts[j]
    ensures |Concatenation(scan, i + |chunks|)| == |Concatenation(scan, i)| + Total(counts, |counts|)
  {
    hide *;
    BatchLength(file, specs[i..i + |chunks|], chunks, parts, regions, universe);
    counts := seq(|chunks|, j requires 0 <= j < |chunks| => |parts[j].items|);
    SpecsLength(file, specs, scan);
    forall j | 0 <= j < |chunks|
      ensures chunks[j].current == i + j && chunks[j].lineCount == counts[j] && counts[j] == |scan[i + j].items|
    {
      BatchCount(file, specs, scan, i, chunks, parts, regions, universe, j);
    }
    ConcatenationGrows(scan, i, counts, |chunks|);
  }

  /** One round of the collecting loop: spawn a batch, receive it in any order. */
  method CollectBatch(file: Text, specs: seq<ChunkSpec>, slots: array<Chunk?>, i: nat, concurrency: nat, lineCount: nat,
                      ghost scan: seq<Part<nat>>, ghost done: seq<Chunk>, ghost parts: seq<Part<BytesNode>>,
                      ghost regions: seq<Region>, ghost universe: Region)
    returns (newLineCount: nat, newFinished: nat, ghost newDone: seq<Chunk>, ghost newParts: seq<Part<BytesNode>>,
             ghost newRegions: seq<Region>, ghost newUniverse: Region, ghost outstanding: nat)
    requires SpecsOf(file, specs, scan) && slots.Length == |specs| == |scan| && i < |specs| && 0 < concurrency
    requires Batch(file, specs[..i], done, parts, regions, universe)
    requires lineCount == |Concatenation(scan, i)|
    requires (forall k :: 0 <= k < i ==> slots[k] == done[k]) && (forall k :: i <= k < |specs| ==> slots[k] == null)
    modifies slots
    ensures newFinished == Min(i + concurrency, |specs|) == |newDone|
    ensures outstanding == Min(concurrency, |specs| - i)
    ensures Batch(file, specs[..newFinished], newDone, newParts, newRegions, newUniverse)
    ensures newLineCount == |Concatenation(scan, newFinished)|
    ensures forall k :: 0 <= k < newFinished ==> slots[k] == newDone[k]
    ensures forall k :: newFinished <= k < |specs| ==> slots[k] == null
    ensures universe <= newUniverse && fresh(newUniverse - universe)
  {
    hide Batch, Concatenation, Total, SpecsOf, OnChannel;
    var channel;
    ghost var chunks, batchParts, batchRegions, batchUniverse;
    channel, chunks, batchParts, batchRegions, batchUniverse := SpawnBatch(file, specs, i, concurrency);
    outstanding := |channel|;
    ghost var m := |chunks|;
    ghost var counts := BatchCounts(file, specs, scan, i, chunks, batchParts, batchRegions, batchUniverse);
    BatchJoin(file, specs[..i], done, parts, regions, universe,
              specs[i..i + m], chunks, batchParts, batchRegions, batchUniverse);
    assert specs[..i + m] == specs[..i] + specs[i..i + m];
    newLineCount, newFinished := ReceiveBatch(channel, slots, i, concurrency, lineCount, i, chunks, counts);
    assert newFinished == i + m && |counts| == m;
    assert newLineCount == |Concatenation(scan, newFinished)|;
    forall k | 0 <= k < i + m ensures slots[k] == (done + chunks)[k] {
      if k >= i { assert slots[i + (k - i)] == chunks[k - i]; }
    }
    newDone, newParts, newRegions, newUniverse :=
      done + chunks, parts + batchParts, regions + batchRegions, universe + batchUniverse;
  }

  lemma NothingYet(file: Text, t: TextThread, scan: seq<Part<nat>>)
    requires t.progress == 0.0 && t.reports == []
    ensures Batch(file, [], [], [], [], {}) && |Concatenation(scan, 0)| == 0 && t.HasReported(0, |scan|)
  {
  }

  /** The collecting loop over all batches. The report after the last batch, and no other, is 1;
      a thread without chunks reports nothing. */
  method CollectChunks(file: Text, t: TextThread, specs: seq<ChunkSpec>, concurrency: nat, ghost scan: seq<Part<nat>>)
    returns (collected: seq<Chunk>, lineCount: nat,
             ghost parts: seq<Part<BytesNode>>, ghost regions: seq<Region>, ghost universe: Region)
    requires SpecsOf(file, specs, scan) && |specs| == |scan| && 0 < concurrency
    requires t.progress == 0.0 && t.reports == [] && t.peak == 0
    modifies t
    ensures Batch(file, specs, collected, parts, regions, universe) && fresh(universe)
    ensures lineCount == |Concatenation(scan, |scan|)|
    ensures t.HasReported(|specs|, |specs|) && t.peak == Min(concurrency, |specs|)
    ensures forall k :: 0 <= k < |t.reports| - 1 ==> t.reports[k] < 1.0
  {
    hide Batch, SpecsOf, Concatenation, TextThread.HasReported, Rising;
    var slots := new Chunk?[|specs|](_ => null);
    var i, finished := 0, 0;
    lineCount := 0;
    ghost var done: seq<Chunk> := [];
    parts, regions, universe := [], [], {};
    NothingYet(file, t, scan);
    assert specs[..0] == [];
    while i < |specs|
      invariant finished == Min(i, |specs|) && t.HasReported(finished, |specs|)
      invariant t.peak == if i == 0 then 0 else Min(concurrency, |specs|)
      invariant forall k :: 0 <= k < |t.reports| - 1 ==> t.reports[k] < 1.0
      invariant Batch(file, specs[..finished], done, parts, regions, universe) && fresh(universe)
      invariant lineCount == |Concatenation(scan, finished)|
      invariant |done| == finished && forall k :: 0 <= k < finished ==> slots[k] == done[k]
      invariant forall k :: finished <= k < |specs| ==> slots[k] == null
    {
      ghost var before, outstanding := finished, 0;
      lineCount, finished, done, parts, regions, universe, outstanding :=
        CollectBatch(file, specs, slots, i, concurrency, lineCount, scan, done, parts, regions, universe);
      t.Report(finished, |specs|, before, outstanding);
      i := i + concurrency;
    }
    assert specs[..finished] == specs;
    collected := slots[..];
    assert collected == done;
  }

  // ---- from nodes to offsets ----

  ghost predicate AllCarry(parts: seq<Part<BytesNode>>, offsets: seq<Part<nat>>) {
    |parts| == |offsets| && forall k :: 0 <= k < |parts| ==> Carries(parts[k], offsets[k])
  }

  lemma OffsetsAppend(a: seq<BytesNode>, b: seq<BytesNode>)
    ensures OffsetsOf(a + b) == OffsetsOf(a) + OffsetsOf(b)
  {
  }

  lemma {:induction false} LiveCarries(parts: seq<Part<BytesNode>>, offsets: seq<Part<nat>>, n: nat)
    requires AllCarry(parts, offsets) && n <= |parts|
    ensures LiveCount(parts, n) == LiveCount(offsets, n)
    ensures OffsetsOf(LiveItems(parts, n)) == LiveItems(offsets, n)
    ensures AllEmpty(parts, n) <==> AllEmpty(offsets, n)
  {
    if n == 0 {
    } else {
      LiveCarries(parts, offsets, n - 1);
      assert Carries(parts[n - 1], offsets[n - 1]);
      assert |OffsetsOf(parts[n - 1].items)| == |offsets[n - 1].items|;
      OffsetsAppend(parts[n - 1].items, LiveItems(parts, n - 1));
    }
  }

  /** Splicing nodes and reducing offsets commute. */
  lemma ReduceCarries(parts: seq<Part<BytesNode>>, offsets: seq<Part<nat>>)
    requires AllCarry(parts, offsets)
    ensures Carries(Reduce(parts), Reduce(offsets))
  {
    if |parts| == 1 {
      assert Carries(parts[0], offsets[0]);
    } else {
      LiveCarries(parts, offsets, |parts|);
    }
  }

  /** A batch carries the scan of its specs, and none of its parts is hollow. */
  lemma BatchCarries(file: Text, specs: seq<ChunkSpec>, scan: seq<Part<nat>>, chunks: seq<Chunk>,
                     parts: seq<Part<BytesNode>>, regions: seq<Region>, universe: Region)
    requires Batch(file, specs, chunks, parts, regions, universe) && SpecsOf(file, specs, scan)
    ensures AllCarry(parts, scan) && NoHollow(parts, |parts|) && Disjoint(regions)
    ensures |chunks| == |parts| == |regions|
    ensures forall k :: 0 <= k < |parts| ==> Holds(chunks[k], parts[k], regions[k]) && regions[k] <= universe
  {
    forall k | 0 <= k < |parts|
      ensures Carries(parts[k], scan[k]) && !parts[k].Hollow() && Holds(chunks[k], parts[k], regions[k])
    {
      assert Produced(file, specs[k], chunks[k], parts[k], regions[k]);
      assert |OffsetsOf(parts[k].items)| == |scan[k].items|;
    }
  }

  /** The splice of the chunks a thread has collected. */
  method ReduceBatch(file: Text, idx: nat, collected: seq<Chunk>,
                     ghost specs: seq<ChunkSpec>, ghost scan: seq<Part<nat>>,
                     ghost parts: seq<Part<BytesNode>>, ghost regions: seq<Region>, ghost universe: Region)
    returns (ret: Chunk)
    requires Batch(file, specs, collected, parts, regions, universe) && SpecsOf(file, specs, scan)
    modifies universe`next
    ensures fresh(ret) && ret.current == idx && Holds(ret, Reduce(parts), universe)
    ensures Carries(Reduce(parts), Reduce(scan))
  {
    BatchCarries(file, specs, scan, collected, parts, regions, universe);
    hide Batch, SpecsOf, Reduce;
    ReduceCarries(parts, scan);
    assert Tails(collected) <= universe;
    ret := ReverseReduce(idx, collected, parts, regions, universe);
  }

  lemma SpecsOfRange(file: Text, specs: seq<ChunkSpec>, bufferSize: nat, from: nat, to: nat)
    requires 0 < bufferSize && from <= to && |specs| == ChunkCount(bufferSize, from, to)
    requires AreChunks(bufferSize, from, to, specs)
    ensures SpecsOf(file, specs, ScanParts(file, bufferSize, from, to))
  {
    forall k | 0 <= k < |specs|
      ensures specs[k].index == k
      ensures ScanPart(file, specs[k].from, specs[k].from + specs[k].count) == ScanParts(file, bufferSize, from, to)[k]
    {
      SpecsScan(file, specs, bufferSize, from, to, k);
    }
  }

  lemma LinesOfScan(file: Text, bufferSize: nat, from: nat, to: nat)
    requires 0 < bufferSize && from <= to
    ensures var scan := ScanParts(file, bufferSize, from, to);
            |Concatenation(scan, |scan|)| == |LineStarts(file, from, to)|
  {
    if from < to { ScanConcatenation(file, bufferSize, from, to); }
  }

  lemma ScanCount(file: Text, bufferSize: nat, from: nat, to: nat)
    requires 0 < bufferSize && from <= to
    ensures |ScanParts(file, bufferSize, from, to)| == ChunkCount(bufferSize, from, to)
  {
  }

  lemma AllReported(t: TextThread, len: nat)
    requires t.HasReported(len, len)
    ensures Rising(t.reports) && (t.progress == 1.0 <==> len > 0)
    ensures len == 0 ==> t.progress == 0.0 && t.reports == []
  {
    if len > 0 { Fractions(0, len, len); }
  }

  /** The first chunk of an ordered range can be read into memory, that of an inverted one cannot. */
  lemma FirstAllocation(bufferSize: nat, from: nat, to: nat, n: nat)
    requires 0 < bufferSize < EXACT && from <= EXACT && to < EXACT && n == CeilDiv(U64(to - from), bufferSize)
    ensures from <= to ==> n == ChunkCount(bufferSize, from, to)
    ensures (n > 0 && ChunkRoundsOf(bufferSize, from, to, n).specs[0].count >= ALLOCATABLE) <==> from > to
  {
    hide ChunkRoundsOf, CeilDiv;
    if from > to {
      U64Step(to - from);
      InvertedRange(bufferSize, from, to, n);
    } else {
      U64Small(to - from);
      if n > 0 {
        FirstChunk(bufferSize, from, to, n);
        ChunkRound(bufferSize, from, to, 0);
      }
    }
  }

  /** The case of an ordered range. */
  method IndexChunks(file: Text, t: TextThread, specs: seq<ChunkSpec>, concurrency: nat)
    returns (ret: Chunk, ghost part: Part<BytesNode>, ghost universe: Region)
    requires 0 < t.bufferSize < EXACT && 0 < concurrency && t.from <= t.to < EXACT
    requires |specs| == ChunkCount(t.bufferSize, t.from, t.to) && AreChunks(t.bufferSize, t.from, t.to, specs)
    requires t.progress == 0.0 && t.reports == [] && t.peak == 0
    modifies t
    ensures fresh(ret) && fresh(universe) && Holds(ret, part, universe) && ret.current == t.thread
    ensures Carries(part, Reduce(ScanParts(file, t.bufferSize, t.from, t.to)))
    ensures ret.lineCount == |LineStarts(file, t.from, t.to)|
    ensures Rising(t.reports) && forall k :: 0 <= k < |t.reports| - 1 ==> t.reports[k] < 1.0
    ensures t.progress == 1.0 <==> |specs| > 0
    ensures |specs| == 0 ==> t.progress == 0.0 && t.reports == []
    ensures t.peak == Min(concurrency, |specs|)
  {
    hide Batch, SpecsOf, ScanParts, Reduce, Concatenation, CeilDiv;
    ghost var scan := ScanParts(file, t.bufferSize, t.from, t.to);
    SpecsOfRange(file, specs, t.bufferSize, t.from, t.to);
    LinesOfScan(file, t.bufferSize, t.from, t.to);
    ScanCount(file, t.bufferSize, t.from, t.to);
    var collected, lineCount;
    ghost var parts, regions;
    collected, lineCount, parts, regions, universe := CollectChunks(file, t, specs, concurrency, scan);
    AllReported(t, |specs|);
    ret := ReduceBatch(file, t.thread, collected, specs, scan, parts, regions, universe);
    part := Reduce(parts);
    ret.lineCount := lineCount;
  }

  /** `f_index_text_chunk`, for every order in which the coroutines of a batch deliver. The thread
      reports 1 exactly when its range is not empty, and then only once, at the end; at most as many
      coroutines are outstanding at one time as `concurrency` and the chunks allow, and that many are.
      For an inverted range the buffer of the first chunk cannot be allocated: its coroutine delivers
      NULL, and the thread ends with NULL before it has reported anything. */
  method IndexTextChunk(file: Text, t: TextThread)
    returns (ret: Chunk?, ghost part: Part<BytesNode>, ghost universe: Region)
    requires 0 < t.bufferSize < EXACT && 0 < t.concurrency <= INT_MAX && t.from <= EXACT && t.to < EXACT
    requires t.progress == 0.0 && t.reports == [] && t.peak == 0
    modifies t
    ensures ret == null <==> t.from > t.to
    ensures t.from >= t.to ==> t.progress == 0.0 && t.reports == []
    ensures t.from <= t.to ==>
              && fresh(ret) && fresh(universe) && Holds(ret, part, universe) && ret.current == t.thread
              && Carries(part, Reduce(ScanParts(file, t.bufferSize, t.from, t.to)))
              && ret.lineCount == |LineStarts(file, t.from, t.to)|
              && t.peak == Min(t.concurrency, ChunkCount(t.bufferSize, t.from, t.to))
    ensures Rising(t.reports) && forall k :: 0 <= k < |t.reports| - 1 ==> t.reports[k] < 1.0
    ensures t.progress == 1.0 <==> t.from < t.to
  {
    hide ScanParts, Reduce, CeilDiv, ChunkRoundsOf, AreChunks;
    var ic, concurrency := ChunksInit(t.concurrency, t.bufferSize, t.from, t.to);
    FirstAllocation(t.bufferSize, t.from, t.to, ic.Length);
    part, universe := Part([], true), {};
    if ic.Length > 0 && ic[..][0].count >= ALLOCATABLE {
      return null, part, universe;
    }
    ChunksClosedForm(t.bufferSize, t.from, t.to, ic.Length);
    ret, part, universe := IndexChunks(file, t, ic[..], concurrency);
  }

  // ---- a window ----

  /** The results of the threads joined so far. */
  ghost predicate Joined(file: Text, ranges: seq<Usable>, chunks: seq<Chunk>, parts: seq<Part<BytesNode>>,
                         regions: seq<Region>, universe: Region)
    reads chunks, universe
  {
    && |ranges| == |chunks| == |parts| == |regions| && Disjoint(regions)
    && (forall k :: 0 <= k < |ranges| ==>
          && regions[k] <= universe && Holds(chunks[k], parts[k], regions[k])
          && Carries(parts[k], ThreadPart(file, ranges[k])))
  }

  lemma JoinedExtend(file: Text, ranges: seq<Usable>, chunks: seq<Chunk>, parts: seq<Part<BytesNode>>,
                     regions: seq<Region>, universe: Region,
                     range: Usable, chunk: Chunk, part: Part<BytesNode>, region: Region)
    requires Joined(file, ranges, chunks, parts, regions, universe) && universe !! region
    requires Holds(chunk, part, region) && Carries(part, ThreadPart(file, range))
    ensures Joined(file, ranges + [range], chunks + [chunk], parts + [part], regions + [region], universe + region)
  {
  }

  lemma JoinedCarries(file: Text, ranges: seq<Usable>, chunks: seq<Chunk>, parts: seq<Part<BytesNode>>,
                      regions: seq<Region>, universe: Region)
    requires Joined(file, ranges, chunks, parts, regions, universe)
    ensures AllCarry(parts, ThreadParts(file, ranges)) && Disjoint(regions) && |chunks| == |parts| == |regions|
    ensures forall k :: 0 <= k < |parts| ==> Holds(chunks[k], parts[k], regions[k]) && regions[k] <= universe
    ensures Tails(chunks) <= universe
  {
  }

  /** The splice of the joined threads; some of them may have handed over a hollow chunk. */
  method ReduceJoined(file: Text, chunks: seq<Chunk>, ghost ranges: seq<Usable>, ghost parts: seq<Part<BytesNode>>,
                      ghost regions: seq<Region>, ghost universe: Region)
    returns (finalChunk: Chunk)
    requires Joined(file, ranges, chunks, parts, regions, universe)
    modifies universe`next
    ensures fresh(finalChunk) && HoldsList(finalChunk, Reduce(parts), universe)
    ensures OffsetsOf(Reduce(parts).items) == WindowOffsets(file, ranges)
  {
    JoinedCarries(file, ranges, chunks, parts, regions, universe);
    hide Joined, Reduce, ThreadParts;
    ReduceCarries(parts, ThreadParts(file, ranges));
    finalChunk := ReverseReduce(0, chunks, parts, regions, universe);
  }

  ghost predicate Pristine(t: TextThread, range: ThreadRange, concurrency: nat, i: nat)
    reads t
  {
    && t.from == range.from && t.to == range.to && t.bufferSize == range.bufferSize
    && t.concurrency == concurrency && t.thread == i
    && t.progress == 0.0 && t.reports == [] && t.peak == 0
  }

  /** `pthread_create` for every range. */
  method SpawnThreads(ranges: seq<ThreadRange>, concurrency: nat) returns (tthreads: seq<TextThread>)
    ensures |tthreads| == |ranges| && Distinct(tthreads) && fresh(tthreads)
    ensures forall k :: 0 <= k < |ranges| ==> Pristine(tthreads[k], ranges[k], concurrency, k)
  {
    tthreads := [];
    for i := 0 to |ranges|
      invariant |tthreads| == i && Distinct(tthreads) && fresh(tthreads)
      invariant forall k :: 0 <= k < i ==> Pristine(tthreads[k], ranges[k], concurrency, k)
    {
      var tthread := new TextThread(ranges[i], concurrency, i);
      tthreads := tthreads + [tthread];
    }
  }

  /** Thread `i` runs and is joined once it has reported 1. A thread touches only its own state, so
      running it here stands for every interleaving with the others; and once it has ended, its
      progress stays as it is, so the polling loop ends at once or never. */
  method JoinThread(file: Text, tthread: TextThread, ghost range: ThreadRange, ghost concurrency: nat, ghost i: nat)
    returns (joined: bool, result: Chunk?, ghost part: Part<BytesNode>, ghost region: Region)
    requires Pristine(tthread, range, concurrency, i) && 0 < range.bufferSize < EXACT
    requires range.from <= EXACT && range.to < EXACT && 0 < concurrency <= INT_MAX
    modifies tthread
    ensures joined <==> range.from < range.to
    ensures joined ==>
              && fresh(result) && fresh(region) && Holds(result, part, region) && Carries(part, ThreadPart(file, range))
              && result.current == i && result.lineCount == |LineStarts(file, range.from, range.to)|
  {
    result, part, region := IndexTextChunk(file, tthread);
    joined := tthread.progress >= 1.0;
  }

  lemma LinesReadStep(file: Text, ranges: seq<Usable>, range: Usable)
    ensures LinesRead(file, ranges + [range]) == LinesRead(file, ranges) + |LineStarts(file, range.from, range.to)|
  {
    TotalSame(LineCounts(file, ranges), LineCounts(file, ranges + [range]), |ranges|);
  }

  lemma NoneJoined(file: Text)
    ensures Joined(file, [], [], [], [], {}) && LinesRead(file, []) == 0
  {
  }

  /** Ranges from which the threads can be started and joined up to the first that is idle. */
  ghost predicate Startable(ranges: seq<ThreadRange>) {
    && (forall k :: 0 <= k < |ranges| ==> 0 < ranges[k].bufferSize < EXACT && ranges[k].to < EXACT)
    && (forall k :: 0 <= k < |ranges| && NonEmpty(ranges[..k]) ==> ranges[k].from <= EXACT)
  }

  /** One pass of the outer loop of `f_index_text_file` up to the reduction of the threads. NULL
      stands for a joining loop that never ends. */
  method IndexWindow(file: Text, ranges: seq<ThreadRange>, concurrency: nat)
    returns (finalChunk: Chunk?, ghost nodes: seq<BytesNode>, ghost usable: seq<Usable>)
    requires 0 < concurrency <= INT_MAX && Startable(ranges)
    ensures finalChunk == null <==> !NonEmpty(ranges)
    ensures finalChunk != null ==>
              && usable == ranges && fresh(finalChunk) && IsList(finalChunk.first, nodes)
              && OffsetsOf(nodes) == WindowOffsets(file, usable)
              && finalChunk.lineCount == LinesRead(file, usable)
  {
    hide Joined, Reduce, ThreadPart, LinesRead, Holds, WindowOffsets, Carries;
    var tthreads := SpawnThreads(ranges, concurrency);
    var chunks: seq<Chunk> := [];
    var lineCount := 0;
    ghost var parts, regions, universe: Region := [], [], {};
    nodes, usable := [], [];
    NoneJoined(file);
    for i := 0 to |ranges|
      invariant |chunks| == i && usable == ranges[..i] && lineCount == LinesRead(file, usable)
      invariant Joined(file, usable, chunks, parts, regions, universe) && fresh(universe)
      invariant forall k :: i <= k < |ranges| ==> Pristine(tthreads[k], ranges[k], concurrency, k)
    {
      assert NonEmpty(ranges[..i]);
      var joined, result;
      ghost var part, region;
      joined, result, part, region := JoinThread(file, tthreads[i], ranges[i], concurrency, i);
      if !joined {
        return null, nodes, usable;
      }
      ghost var range: Usable := ranges[i];
      LinesReadStep(file, usable, range);
      lineCount := lineCount + result.lineCount;
      JoinedExtend(file, usable, chunks, parts, regions, universe, range, result, part, region);
      assert result.current == |chunks|;
      chunks := chunks + [result];
      usable, parts, regions, universe := usable + [range], parts + [part], regions + [region], universe + region;
    }
    assert usable == ranges;
    finalChunk := ReduceJoined(file, chunks, usable, parts, regions, universe);
    nodes := Reduce(parts).items;
    finalChunk.lineCount := lineCount;
  }

  // ---- the file ----

  lemma WindowStartable(total: nat, c: Config, w: nat)
    requires ValidConfig(c) && total < EXACT && w < WindowCount(total, c)
    ensures Startable(WindowRanges(total, c, w))
  {
    var ranges := WindowRanges(total, c, w);
    WindowRangesWithin(total, c, w);
    hide WindowLength, WindowCount, ThreadCount, WindowRanges, NonEmpty;
    forall k | 0 <= k < |ranges| && NonEmpty(ranges[..k]) ensures ranges[k].from <= EXACT {
      WindowFirstIdle(total, c, w, k);
    }
  }

  /** Reads the ranges off the array that `f_indexer_threads_init` fills. */
  method WindowThreads(total: nat, c: Config, w: nat, start: nat, length: nat) returns (ranges: seq<ThreadRange>)
    requires ValidConfig(c) && total < EXACT && w < WindowCount(total, c)
    requires start == w * c.window && length == WindowLength(total, c, w)
    ensures ranges == WindowRanges(total, c, w) && Startable(ranges)
  {
    WindowFits(total, c, w);
    WindowStartable(total, c, w);
    hide WindowLength, WindowCount, ThreadRanges, NonEmpty, Startable;
    var it := ThreadsInit(c.threads, length, c.bufferSize, start);
    ranges := it[..];
  }

  lemma {:induction false} TotalFront(x: nat, counts: seq<nat>, n: nat)
    requires n <= |counts|
    ensures Total([x] + counts, n + 1) == x + Total(counts, n)
  {
    if n == 0 {
      assert Total([x] + counts, 1) == Total([x] + counts, 0) + ([x] + counts)[0];
    } else {
      TotalFront(x, counts, n - 1);
      assert ([x] + counts)[n] == counts[n - 1];
    }
  }

  ghost predicate IsFront<T>(x: T, s: seq<T>, all: seq<T>) {
    all == [x] + s
  }

  lemma TotalFirst(x: nat, counts: seq<nat>, all: seq<nat>, n: nat)
    requires n <= |counts| && IsFront(x, counts, all)
    ensures n + 1 <= |all| && Total(all, n + 1) == Total(counts, n) + x
  {
    TotalFront(x, counts, n);
  }

  lemma {:induction false} WrittenFront(x: seq<nat>, lists: seq<seq<nat>>, w: nat)
    requires w <= |lists|
    ensures Written([x] + lists, w + 1) == Written(lists, w)
    decreases |lists| - w
  {
    if w == |lists| {
    } else {
      WrittenFront(x, lists, w + 1);
      assert ([x] + lists)[w + 1] == lists[w];
    }
  }

  lemma WrittenFirst(x: seq<nat>, lists: seq<seq<nat>>, all: seq<seq<nat>>)
    requires IsFront(x, lists, all)
    ensures Written(all, 0) == Written(lists, 0) + x
  {
    WrittenFront(x, lists, 0);
  }

  lemma FrontLists(file: Text, ranges: seq<Usable>, windows: Layout, all: Layout)
    requires IsFront(ranges, windows, all)
    ensures IsFront(WindowOffsets(file, ranges), WindowLists(file, windows), WindowLists(file, all))
    ensures IsFront(LinesRead(file, ranges), WindowCounts(file, windows), WindowCounts(file, all))
  {
    hide WindowOffsets, LinesRead;
    var lists, counts := WindowLists(file, windows), WindowCounts(file, windows);
    forall w | 0 <= w < |all|
      ensures WindowLists(file, all)[w] == ([WindowOffsets(file, ranges)] + lists)[w]
      ensures WindowCounts(file, all)[w] == ([LinesRead(file, ranges)] + counts)[w]
    {
      if w > 0 { assert all[w] == windows[w - 1]; }
    }
  }

  lemma EntriesAreWritten(file: Text, windows: Layout)
    ensures EntriesFrom(file, windows, 0) == Written(WindowLists(file, windows), 0)
  {
  }

  /** What one more window in front adds to the file and to its length. */
  lemma FrontLength<T>(x: T, s: seq<T>, all: seq<T>)
    requires IsFront(x, s, all)
    ensures |all| == |s| + 1
  {
  }

  lemma WrittenStep(file: Text, ranges: seq<Usable>, windows: Layout, all: Layout)
    requires IsFront(ranges, windows, all)
    ensures EntriesFrom(file, all, 0) == EntriesFrom(file, windows, 0) + WindowOffsets(file, ranges)
    ensures |all| == |windows| + 1 && Total(WindowCounts(file, all), |windows| + 1)
         == Total(WindowCounts(file, windows), |windows|) + LinesRead(file, ranges)
  {
    hide *;
    FrontLength(ranges, windows, all);
    FrontLists(file, ranges, windows, all);
    EntriesAreWritten(file, windows);
    EntriesAreWritten(file, all);
    WrittenFirst(WindowOffsets(file, ranges), WindowLists(file, windows), WindowLists(file, all));
    TotalFirst(LinesRead(file, ranges), WindowCounts(file, windows), WindowCounts(file, all), |windows|);
  }
  lemma NothingWritten(file: Text)
    ensures EntriesFrom(file, [], 0) == [] && Total(WindowCounts(file, []), 0) == 0
  {
  }

  /** `local_max_bytes_per_iteration`: the window, cut at the end of the file. */
  method WindowSize(totalBytesCount: nat, c: Config, itc: nat) returns (local: nat)
    requires ValidConfig(c) && totalBytesCount < EXACT && itc < WindowCount(totalBytesCount, c)
    ensures local == WindowLength(totalBytesCount, c, itc)
  {
    WindowInside(totalBytesCount, c, itc);
    var threadItStart := itc * c.window;
    local := c.window;
    if U64(threadItStart + c.window) > totalBytesCount {
      local := totalBytesCount - threadItStart;
    }
  }

  /** The windows from `itc` on, as they have been worked off. */
  ghost predicate WindowsDone(total: nat, c: Config, windows: Layout, itc: nat)
    requires ValidConfig(c)
  {
    && itc + |windows| == WindowCount(total, c)
    && forall k :: 0 <= k < |windows| ==> windows[k] == WindowRanges(total, c, itc + k)
  }

  lemma WindowsStep(total: nat, c: Config, windows: Layout, ranges: seq<Usable>, itc: nat)
    requires ValidConfig(c) && WindowsDone(total, c, windows, itc + 1) && ranges == WindowRanges(total, c, itc)
    ensures WindowsDone(total, c, [ranges] + windows, itc)
  {
    hide WindowRanges, WindowCount;
    var all := [ranges] + windows;
    forall k | 0 <= k < |all| ensures all[k] == WindowRanges(total, c, itc + k) {
      if k > 0 { assert all[k] == windows[k - 1] && itc + k == itc + 1 + (k - 1); }
    }
  }

  lemma UsableNonEmpty(ranges: seq<Usable>)
    ensures NonEmpty(ranges)
  {
  }

  /** With all windows worked off the configuration is usable, and they are its layout. */
  lemma AllWindows(total: nat, c: Config, windows: Layout)
    requires ValidConfig(c) && total < EXACT && WindowsDone(total, c, windows, 0)
    ensures UsableConfig(total, c) && windows == LayoutOf(total, c)
  {
    hide UsableConfig, WindowRanges, WindowCount, NonEmpty;
    forall w | 0 <= w < WindowCount(total, c)
      ensures windows[w] == WindowRanges(total, c, w) && NonEmpty(WindowRanges(total, c, w))
    {
      assert windows[w] == WindowRanges(total, c, 0 + w);
      UsableNonEmpty(windows[w]);
    }
    UsableIff(total, c);
    forall w | 0 <= w < |windows| ensures windows[w] == UsableRanges(total, c, w) {
      UsableRangesAre(total, c, w);
    }
  }

  lemma NoWindows(total: nat, c: Config)
    requires ValidConfig(c)
    ensures WindowsDone(total, c, [], WindowCount(total, c))
  {
  }

  lemma NotUsable(total: nat, c: Config, w: nat)
    requires ValidConfig(c) && total < EXACT && w < WindowCount(total, c) && !NonEmpty(WindowRanges(total, c, w))
    ensures !UsableConfig(total, c)
  {
    UsableIff(total, c);
  }

  lemma IndexOfLayout(file: Text, c: Config, windows: Layout)
    requires UsableConfig(|file|, c) && windows == LayoutOf(|file|, c)
    ensures IndexEntries(file, c) == EntriesFrom(file, windows, 0) + [0]
    ensures IndexLen(file, c) == Total(WindowCounts(file, windows), |windows|) + 1
  {
  }

  /** `f_index_text_file`: windows from last to first, each appended to the offset file; the last
      one appended also writes the 0 of the first line. NULL stands for a run that never returns. */
  method IndexTextFile(file: Text, c: Config) returns (lookup: LookupFile?)
    requires ValidConfig(c) && |file| < EXACT
    ensures lookup == null <==> !UsableConfig(|file|, c)
    ensures lookup != null ==>
              fresh(lookup) && lookup.entries == IndexEntries(file, c) && lookup.len == IndexLen(file, c)
  {
    hide EntriesFrom, WindowCounts, WindowOffsets, LinesRead, Total, WindowLength, WindowRanges;
    hide UsableRanges, UsableConfig, NonEmpty, WindowsDone, LayoutOf;
    var totalBytesCount := |file|;
    var threadItCount := CeilDiv(totalBytesCount, c.window);
    if threadItCount <= 0 {
      threadItCount := 1;
    }
    ghost var windows: Layout := [];
    NothingWritten(file);
    NoWindows(|file|, c);
    var current: LookupFile? := null;
    for itc := threadItCount downto 0
      invariant threadItCount == WindowCount(|file|, c) && itc + |windows| == threadItCount
      invariant WindowsDone(|file|, c, windows, itc)
      invariant itc == threadItCount <==> current == null
      invariant current != null ==>
                  && fresh(current)
                  && current.entries == EntriesFrom(file, windows, 0) + (if itc == 0 then [0] else [])
                  && current.len == Total(WindowCounts(file, windows), |windows|) + if itc == 0 then 1 else 0
      invariant current == null ==> windows == []
    {
      var threadItStart := itc * c.window;
      var local := WindowSize(totalBytesCount, c, itc);
      var ranges := WindowThreads(totalBytesCount, c, itc, threadItStart, local);
      var finalChunk;
      ghost var nodes, usable;
      finalChunk, nodes, usable := IndexWindow(file, ranges, c.concurrency);
      if finalChunk == null {
        NotUsable(|file|, c, itc);
        return null;
      }
      WrittenStep(file, usable, windows, [usable] + windows);
      WindowsStep(|file|, c, windows, usable, itc);
      current := FileFromChunk(current, finalChunk, current == null, itc == 0, nodes);
      windows := [usable] + windows;
    }
    AllWindows(|file|, c, windows);
    IndexOfLayout(file, c, windows);
    lookup := current;
  }
}
