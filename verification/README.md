# libflashlight: verified model of the newline index

libflashlight finds the line starts of a file by dividing it: windows (worked off from last to
first), one range per thread, one chunk per coroutine. Every chunk is scanned into a linked list of
offsets, newest first. Lists are spliced in place through tail pointers, chunk lists into thread
lists, thread lists into a window list, and each window is appended to an offset file that therefore
holds the line starts backwards, ending with 0. Lookups answer line ranges by arithmetic on that
file; a multi-threaded search looks batches of lines up, splits and matches them, and reports matches
under one mutex and one shared limit.

The project proves what each of these parts computes and that together they answer as if the file had
been split into lines naively, or says exactly when they do not.

## Layout

| file | models |
|---|---|
| `Machine.dfy`, `Wrappers.dfy` | 64-bit wrap-around, exact ceiling division; a value or NULL |
| `TextFiles.dfy` | the specification: line starts and naive line splitting |
| `Nodes.dfy`, `Chunks.dfy` | `bytes.c`, `node.c`, `chunk.c` on the heap |
| `Partitioning.dfy` | `indexer.c`, the partition arithmetic |
| `OffsetFiles.dfy` | the offset file as a function of file and configuration |
| `TextIndexer.dfy` | `text_indexer.c` on the heap, proved against `OffsetFiles` |
| `IndexTheorems.dfy`, `OverlapTheorems.dfy`, `LostLists.dfy` | theorems about the offset file: when it is complete, when it is ordered, what is left in it after losses |
| `IndexStores.dfy`, `LineLookup.dfy` | `lookup.c`, `index.c` |
| `Tokenizer.dfy`, `Searching.dfy` | `search.c`: tokenizer, partition, the search protocol as atomic steps |
| `SearchSafety.dfy`, `SearchCounts.dfy`, `SearchTraces.dfy` | searches over any index: the limit, the mutex, the end, how many results, which and under which numbers |
| `SearchTheorems.dfy`, `SearchOutcome.dfy` | searches over a complete index: which lines are reported, coverage |
| `EndToEnd.dfy` | indexing, lookup and search together |
| `Counterexamples.dfy` | an input for each result below |

Code that changes state is modelled by classes, arrays and loops; coroutine delivery order is an
arbitrary choice in the receiving loop, so a method's contract holds for every order. The search is a
step function on a shared state, and its theorems quantify over every schedule. Methods with more
than a handful of heap facts are divided into one method per loop body. Three conditions recur. A
configuration is usable when every thread has something to read, and well-formed when moreover every
window is long enough for its threads; both are conditions on sizes (`OffsetFiles.UsableIff`,
`Partitioning.OrderedIffWellFormed`). A file loses nothing when no reduction drops a list
(`OffsetFiles.AllReduceOK`).

## Results that differ from the documentation

* **Bytes between thread ranges.** Ranges start at `i * pages + i` but are read half-open, so one byte
  after every range but the last is never read (`Partitioning.CoveredIffNotGap`). A newline there is
  not indexed (`Counterexamples.UnreadNewline`).
* **Too many threads for a window.** For a window of `L` bytes and `T` threads let `p = L / T`. The
  ranges are non-empty and in order exactly when `T - 1 < p + L % T`. Otherwise, and if `L > 0`, the
  remainder `r = (L + 1) % (p + 1)` tells what happens (`Partitioning.IllFormedRanges`). The indexer
  returns exactly for the usable configurations, those without windows of the first two kinds and
  without an empty window (`TextIndexer.IndexTextFile`, `Partitioning.NonEmptyIffWorkable`).
  * `r == 1`: a range is empty (`Counterexamples.EmptyRange`; so is the one range of the empty file,
    `EmptyFileIsIllFormed`). Its thread reports nothing (`TextIndexer.IndexTextChunk`), and the joining
    loop does not end.
  * `r == 0`: a range is inverted (`InvertedLastRange`). The byte count wraps to more than 2^63
    (`Partitioning.InvertedRange`), the buffer of the first chunk cannot be allocated, the thread ends
    without a report, and the joining loop does not end.
  * `r > 1`: every thread has something to read, but a range reaches back into an earlier one
    (`OverlappingRanges`). The indexer returns, but the offset file is not ordered for every file
    (`UnorderedFile`): among the usable configurations the well-formed ones are exactly those for which
    it always is (`OverlapTheorems.OrderedFileIffWellFormed`).
* **A single non-empty chunk.** With two or more chunks of which exactly one holds a newline, the
  reduction leaves `first` NULL and the list is lost (`Chunks.ReduceIsConcatenation`,
  `Counterexamples.LostNewline`); at the next level such a chunk also discards everything accumulated
  before it (`Chunks.ReduceAfterHollow`). So of a window only what the threads after the last loss read
  gets into the file, and nothing if just one of them reads something (`LostLists.WindowContents`,
  `Counterexamples.LostWithAnother`). `len` still counts the lost lines (`LostLists.LenIsReadings`).
  Lookups then answer with lines further up by the number of lost ones, and below that number the
  answer depends on uninitialised memory (`LineLookup.ShortIsShifted`, `ShortIsReliableIff`).
* **Lookups that fail.** On an index with as many entries as `len` says, no lookup returns -1 without
  a wrapped sum exactly when the entries never rise (`LineLookup.NoLookupFailsIff`). Over all files
  that lose nothing that is so exactly for the well-formed configurations
  (`EndToEnd.NeverFailsIffWellFormed`); under overlapping ranges a lookup of one line can fail
  (`Counterexamples.UnorderedFile`). When the entries descend strictly to 0, -1 comes exactly when
  `start` is in range and `start + count` reaches 2^64 (`LineLookup.Lookup`,
  `Counterexamples.WrappingCount`), and for all other arguments the branch for a start offset beyond
  the end offset is dead.
* **NUL bytes.** The text of a batch ends at its first NUL, which hides the rest of that line and
  every later line of the batch, but not the next batch (`Tokenizer.TokenOfLines`,
  `Counterexamples.HiddenLine`; `Searching.Hit` is the exact condition, and
  `SearchOutcome.SearchIsExact` holds for it).
* **Unsearched lines.** The lines per thread are rounded down and a short last batch drops one line
  (`Counterexamples.UnsearchedLine`); all lines are searched exactly under the condition of
  `SearchOutcome.CoverageExact`. With as many threads as lines every share is one line, and batches of
  more than one line then lose all of them (`SearchOutcome.CoverageOfMany`). A search is one for the
  matching lines of the file, whatever the matcher, exactly when no line has a NUL and every line with
  something in it is looked up (`EndToEnd.FindsEveryMatchIff`).

## Model

| member | source | states |
|---|---|---|
| Machine.CeilDivIsCeiling | src/indexer.c:15 | the stepwise ceiling used for chunk, thread and window counts is ⌈x / y⌉ |
| Machine.U64Add | src/indexer.c:112-120 | wrapping after each operation or once at the end gives the same 64-bit value |
| TextFiles.LineStartsExact | src/indexers/text_indexer.c:57-95 | the specification list is strictly decreasing and has exactly the offsets after newlines of the stretch as members |
| TextFiles.DecreasingUnique | src/lookup.c:150-184 | a strictly decreasing offset list is determined by its members |
| TextFiles.SplitLinesSound | src/index.h:45-54 | the naive splitting gives the file back, every line ends with its only newline, the tail has none |
| TextFiles.SplitLinesUnique | src/index.h:45-54 | no other splitting has these properties |
| TextFiles.EntryIsLineStart | src/indexers/text_indexer.c:444-450 | in a complete index entry len-1-k is the start offset of line k of the naive splitting |
| TextFiles.SliceIsLines | src/index.c:141-183 | the bytes between two line starts are exactly the lines between them |
| Nodes.Prepend | src/bytes.c:127-141 | the new head is followed by the old list; with an empty list its own `next` is kept |
| Nodes.AggregatedAt | src/bytes.c:72-113 | one result per atomic entry, in reversed order: the offset of an entry that comes first or after an atomic one, otherwise the 64-bit sum of its offset and that of the non-atomic entry right before it |
| Nodes.CountAtomicExact | src/bytes.c:80-84 | the places are counted by the atomic entries, each once |
| Nodes.FromReversedBytesNode | src/bytes.c:64-125 | the result is 0 followed by the aggregated offsets on fresh nodes; without an atomic entry it is 0 followed by what the caller left in `*out`; the input list is unchanged |
| Nodes.AggregatedExample | src/bytes.h:90-96 | the documented example gives 0, 3, 14 |
| Chunks.ReverseReduce | src/chunk.c:53-115 | for any mix of empty, ordinary and hollow chunks: the list read from `first` is acyclic, made of input nodes, ends in NULL, and is the reduction of the parts; `last` is the tail of the first non-empty chunk, which is the tail of the list when no chunk is hollow; only `next` fields of tails change |
| Chunks.Absorb | src/chunk.c:82-108 | one non-empty chunk is put in front of the list accumulated so far, or wipes it out when hollow; the later chunks stay as they are |
| Chunks.ReduceIsConcatenation | src/chunk.c:53-115 | without hollow chunks the documented concatenation, last chunk first, comes out iff there is one chunk or not exactly one non-empty chunk; otherwise the result is hollow |
| Chunks.ReduceAfterHollow | src/chunk.c:80-109 | after the last hollow chunk the result is the concatenation of the chunks that follow if two of them are non-empty, and nothing otherwise, even if just one is; it is never flagged empty |
| Chunks.ReduceMembers | src/chunk.c:80-109 | every item of a reduction is an item of some chunk |
| Partitioning.ThreadsInit | src/indexer.c:76-134 | as many ranges as threads asked for, or the least number of threads whose buffers hold everything, one for nothing; the array holds the ranges of the loop with its shrinking `pages` and 64-bit wrap-around |
| Partitioning.FirstRange | src/indexer.c:108-130 | the first range has the rounded-down quotient as length |
| Partitioning.RangeFollows | src/indexer.c:110-130 | for any sizes each range follows from the one before it: it starts where ranges of that length, one byte apart, would, and is cut when it would overrun, all in 64 bits |
| Partitioning.OrderedIffWellFormed | src/indexer.c:108-130 | the ranges are non-empty and in order iff threads - 1 < L / threads + L % threads |
| Partitioning.IllFormedRanges | src/indexer.c:108-130 | in a non-empty window that is not well-formed, with r = (L + 1) mod (p + 1): the ranges before the one that overruns the window are [i(p+1), i(p+1)+p), that one has r - 1 bytes (is empty for 1, inverted for 0), and for r > 1 all are non-empty, the later ones are [ir, ir+r-1) and the next of them reaches back by more than a byte |
| Partitioning.NonEmptyIffWorkable | src/indexer.c:108-130 | all ranges are non-empty iff the window is well-formed or (L + 1) mod (p + 1) exceeds 1 |
| Partitioning.RangeClosedForm | src/indexer.c:110-130 | in a well-formed window range i is [i(p+1), min(i(p+1)+p, L)); only the last is cut and it ends with the window |
| Partitioning.CoveredIffNotGap | src/indexer.c:112-127 | a byte of a well-formed window lies in some range iff it is not one of the bytes between ranges |
| Partitioning.GapAfterEachRange | src/indexer.c:112-113 | the byte right after every range but the last is such a byte |
| Partitioning.ChunksInit | src/indexer.c:5-62 | for any two bounds the array holds the chunks of the loop with its shrinking `buffer_size` and 64-bit wrap-around; concurrency is clamped |
| Partitioning.ChunkFollows | src/indexer.c:36-58 | for any two bounds each chunk follows from the size of the one before it, all in 64 bits |
| Partitioning.ChunksClosedForm | src/indexer.c:36-58 | for ordered bounds chunk k is (k, from + k·buffer, min(buffer, rest)) although `buffer_size` is overwritten in the loop |
| Partitioning.ChunksTile | src/indexer.c:36-58 | chunks run from bound to bound without gap or overlap from `from` to `to`; none is empty, all but the last are full |
| Partitioning.InvertedRange | src/indexer.c:13-15 | for inverted bounds the byte count is more than 2^63, the first chunk asks for that many bytes, and with buffers up to 2^31 bytes the number of chunks exceeds `unsigned int` |
| OffsetFiles.WindowsTile | src/indexers/text_indexer.c:283-306 | windows are full but the last, which ends with the file and is empty only if the file is |
| OffsetFiles.ThreadsOfWindow | src/indexer.c:85-96 | every window gets the threads configured, or the least number whose buffers hold it |
| OffsetFiles.UsableIff | src/indexer.c:108-130 | the condition on sizes says exactly that no range of any window is empty or inverted |
| TextIndexer.IndexTextBytes | src/indexers/text_indexer.c:27-113 | the list holds exactly the line starts of the chunk in decreasing order, its tail is the first newline found, the count is its length, the chunk is empty iff there is none |
| TextIndexer.SpawnBatch | src/indexers/text_indexer.c:150-168 | the next chunks are scanned onto separate lists, and as many chunks as the batch has, never more than `concurrency`, are on the channel |
| TextIndexer.ReceiveBatch | src/indexers/text_indexer.c:170-195 | in every delivery order each slot of the batch is filled once, with its own chunk, and the line counts add up |
| TextIndexer.CollectBatch | src/indexers/text_indexer.c:148-199 | after a batch the slots up to it hold their scans, the line count is that of the scans, and as many coroutines were outstanding as the batch has chunks |
| TextIndexer.TextThread.Report | src/indexers/text_indexer.c:197-198 | reported progress rises and is 1 exactly when every chunk is in |
| TextIndexer.IndexTextChunk | src/indexers/text_indexer.c:115-228 | for every delivery order the thread returns the reduction of its scans and the count of all its line starts; progress rises, is 1 at the end and only then; for an empty range nothing is reported, for an inverted one the thread moreover returns NULL; the most coroutines outstanding at once are the smaller of `concurrency` and the number of chunks |
| TextIndexer.ReduceCarries | src/chunk.c:53-115 | splicing nodes and reducing their offsets commute |
| TextIndexer.IndexWindow | src/indexers/text_indexer.c:313-436 | the joining loop goes through iff no range is empty or inverted; then the joined threads are spliced to the offsets of the window, and `line_count` is what the threads counted |
| TextIndexer.IndexTextFile | src/indexers/text_indexer.c:233-479 | for every file and configuration: the run returns iff the configuration is usable, and then the offset file and its `len` are the specified ones for the whole file, overlapping ranges included |
| IndexTheorems.ScanConcatenation | src/indexers/text_indexer.c:148-199 | the scans of the chunks concatenate to the scan of the range, whatever the buffer size |
| IndexTheorems.ThreadPartExact | src/indexers/text_indexer.c:216-223 | a thread hands on all line starts of its range, or none although there are some |
| IndexTheorems.WindowExact | src/indexers/text_indexer.c:428-436 | a window that loses nothing yields exactly the line starts its threads read, decreasing |
| IndexTheorems.WindowLoses | src/indexers/text_indexer.c:428-436 | a window that fails its conditions drops at least one line start that a thread read |
| LostLists.ThreadLosesIff | src/chunk.c:80-109 | a thread loses its list iff its range is longer than its buffer and all the newlines it reads, at least one, are in the same chunk |
| LostLists.WindowContents | src/indexers/text_indexer.c:428-436 | whatever the threads lose, a window of several threads writes exactly what the threads after the last loss read, later threads first, or nothing if fewer than two of these read anything |
| LostLists.WindowKeeps | src/indexers/text_indexer.c:428-436 | so a line start gets into the file iff a thread after the last loss reads it and, with several threads, another of these reads one, too |
| LostLists.EntriesAt | src/lookup.c:150-184 | whatever is lost, the list of window w lies in the file right before those of the windows before it, and 0 comes last |
| IndexTheorems.EntriesExact | src/indexers/text_indexer.c:298-464 | with no list lost, at every iteration of the outer loop the file is strictly decreasing and has exactly the scanned line starts of the windows written |
| IndexTheorems.IndexDescends | src/indexers/text_indexer.c:444-450 | in a well-formed configuration the finished file is strictly decreasing, whatever the reductions lose |
| OverlapTheorems.OrderedFileIffWellFormed | src/indexer.c:108-130 | a usable configuration is well-formed iff the offset file is strictly decreasing for every file of that size, and iff it never rises for any such file that loses nothing |
| IndexTheorems.ScannedIffNotGap | src/indexers/text_indexer.c:298-358 | a line start of the file is read by some thread iff its newline is not on a byte between ranges |
| IndexTheorems.IndexExact | src/indexers/text_indexer.c:298-464 | with no list lost the finished file is strictly decreasing, holds all scanned line starts and 0, and nothing else |
| IndexTheorems.CompleteIff | src/indexers/text_indexer.c:233-479 | in a well-formed configuration the finished file is the complete newline index iff no reduction loses a list and no newline is between ranges |
| IndexTheorems.LenIff | src/lookup.c:172-184 | `len` is at least the number of entries, and equal iff no reduction loses a list |
| LostLists.LenIsReadings | src/indexers/text_indexer.c:170-195 | for every usable configuration `len` is 1 plus the number of line starts read, lost or not, each counted once per thread that reads it |
| IndexTheorems.SingleBufferIsComplete | src/indexers/text_indexer.c:233-479 | one thread with a buffer no smaller than the window indexes every non-empty file completely |
| Counterexamples.LostNewline | src/chunk.c:88-97 | a three-byte file whose one newline is dropped by the reduction |
| Counterexamples.LostWithAnother | src/chunk.c:88-97 | nine bytes, two threads: the first loses its list, the second nothing, and the offset file is 0 alone |
| Counterexamples.UnreadNewline | src/indexer.c:112-113 | a four-byte file whose one newline is between two ranges |
| Counterexamples.EmptyFileIsIllFormed | src/indexer.c:87-91 | the empty file gets one empty range under every configuration |
| Counterexamples.EmptyRange | src/indexer.c:108-118 | two bytes, two threads: the second range is empty |
| Counterexamples.InvertedLastRange | src/indexer.c:108-120 | five bytes, four threads: the last range goes from 6 to 5 |
| Counterexamples.OverlappingRanges | src/indexer.c:108-120 | ten bytes, five threads: the range 9 to 10 is followed by 8 to 9 |
| Counterexamples.UnorderedFile | src/indexers/text_indexer.c:444-450 | ten newlines under overlapping ranges: nothing is lost, the offset file begins with 9, 10, and a lookup of one line fails without a wrapped sum |
| Counterexamples.WrappingCount | src/index.c:61-66 | a lookup of line 1 of 2 with a count of 2^64 - 1 fails |
| Counterexamples.HiddenLine | src/search.c:149-166 | line 2 of a file matches, but a NUL in line 1 hides it |
| Counterexamples.UnsearchedLine | src/search.c:142-145 | three lines, two threads, batches of three: a line in the middle is in no batch |
| IndexStores.FileFromChunk | src/lookup.c:133-197 | the list of the chunk is appended in order, 0 after the last window; `len` grows by the line count |
| IndexStores.MemFromChunk | src/lookup.c:5-46 | the array is filled backwards from the list; when the list has `line_count` nodes it is the ascending index with a repeated last value |
| IndexStores.MemAgreesWithFile | src/lookup.c:5-46 | value k of the array is entry len-1-k of the file; the array ascends iff the file is strictly decreasing; the sentinel repeats the last value |
| IndexStores.ForwardListAgrees | src/bytes.c:64-125 | for a scanned list the forward node list and the array without sentinel are the same values |
| LineLookup.Lookup | src/index.c:51-190 | for any offset file and any contents of the two read buffers the lookup returns NULL, -1 or the slice of the target that 64-bit arithmetic on them gives; on an index that descends strictly to 0 that is NULL beyond the last line, -1 iff start + count reaches 2^64, otherwise the bytes between the two line starts |
| LineLookup.LookupExact | src/index.c:51-190 | the function `Lookup` is proved against, in full: line `start` is entry len-1-start, the end is the entry `count` before it or entry 0, or 2^64 - count after it when the sum wraps; -1 iff these rise, are 2^63 or more apart or the first is 2^63 or more |
| LineLookup.NoLookupFailsIff | src/index.c:127-139 | with `len` entries in the file, no lookup fails without a wrapped sum iff the entries never rise |
| LineLookup.ShortIsShifted | src/index.c:74-77 | when `len` is too large by d, a lookup of line start ≥ d answers with line start - d of the entries there are |
| LineLookup.ShortIsReliableIff | src/index.c:91-112 | the answer is independent of uninitialised memory iff start ≥ d |
| LineLookup.LookupIsLines | src/index.c:55-81 | on a complete index a lookup returns exactly the lines asked for, as far as there are complete lines |
| LineLookup.LookupsCompose | src/index.c:61-81 | on every index whose entries descend to 0, two adjacent lookups give the bytes of one |
| LineLookup.LookupEverything | src/index.c:141-183 | asking for all lines gives the file up to and including its last newline |
| Tokenizer.Tokenize | src/search.c:76-112 | the token before the next newline, and the cursor past it or NULL |
| Tokenizer.CStringWhole | src/search.c:85-93 | what the string functions see of a buffer is its longest prefix without NUL |
| Tokenizer.TokensRoundTrip | src/search.c:76-112 | one more token than newlines, none with a newline, and joined they are the text |
| Tokenizer.JoinThenTokens | src/search.c:76-112 | any newline-free lines come back from their join |
| Tokenizer.TokenizeAll | src/search.c:164-170 | the token loop ends; its tokens join to the buffer iff the buffer has no NUL |
| Tokenizer.TokenOfLines | src/search.c:164-170 | on a run of complete lines the next token is the next line without its newline, cut at its first NUL; a NUL in it ends the text of the batch, and the lines after it are not seen |
| Searching.Partition | src/search.c:335-393 | as many shares as threads asked for or as there are lines, all of the largest common size that fits, one after the other; the shortening branch is never taken |
| Searching.StartsExact | src/search.c:335-384 | the search starts with min(threads, len) workers, worker t at line t·q with q = len / workers lines to go |
| SearchTheorems.StopIsLimit | src/search.c:130-147 | the batches of a share end where the share does if the batch size divides it, one line before otherwise |
| SearchTheorems.InvStep | src/search.c:114-276 | every step of every thread keeps mutual exclusion, the counter within the limit and in step with the results, and for each thread exactly its decided hits reported, a hit being a non-empty matching line not hidden behind a NUL of its batch |
| SearchTheorems.InvRun | src/search.c:363-405 | so does every interleaving from the start |
| SearchSafety.SearchKeepsLimit | src/search.c:238-260 | over any offset file with any `len`, at every moment of every interleaving: no more results than the limit, one thread in the mutex, every result a non-empty matching token |
| SearchSafety.SearchNeverFails | src/search.c:147-152 | over an index with `len` entries that never rise, no thread ends because of a failed lookup |
| SearchSafety.LimitEndsThread | src/search.c:132-138 | a thread that comes to a batch, or has seen a line that does not match, when the limit is met ends with its next step, under every schedule |
| SearchCounts.ConservedStep | src/search.c:130-276 | over any offset file with any `len`, what is reported and what the threads have still to find add up to all there is, or less once the counter has reached the limit |
| SearchCounts.SearchCountExact | src/search.c:130-276 | over any offset file with any `len`, when all threads have ended the number of results is exactly the smaller of the limit and the number of matching tokens in their batches |
| SearchTraces.SearchIsTraced | src/search.c:130-260 | over any offset file with any `len`, in every interleaving: each result is a non-empty matching token j of a batch i its thread comes to, under the number i + j + 1, no token is reported twice, and if all threads end below the limit every such token has been reported |
| SearchTraces.AllHitsReported | src/search.c:242-260 | the same when the limit is met exactly by the number of matching tokens |
| SearchTraces.HitsListed | src/search.c:130-170 | the number of matching tokens that `SearchCountExact` speaks of is that of the triples thread, batch and token with a matching token |
| SearchOutcome.SearchIsSafe | src/search.c:238-260 | at every moment: no more results than the limit, each a hit some thread examines, with its number and its text as seen, none twice, one thread in the mutex |
| SearchOutcome.SearchIsExact | src/search.c:130-276 | when all threads have ended the number of results is exactly the smaller of the limit and the number of hits in the examined lines; below the limit they are all of them |
| SearchOutcome.HitsAreWanted | src/search.c:164-170 | on a complete index the matching tokens of all batches are as many as the lines wanted |
| SearchOutcome.ThreadIsExact | src/search.c:130-147 | a thread that finished its share reported exactly the hits in [s, s+c) if the batch size divides c, else in [s, s+c-1), cut to the complete lines |
| SearchSafety.SomeoneCanStep | src/search.c:242-259 | over any offset file with any `len` there is no deadlock: while a thread is unfinished some thread can step |
| SearchSafety.SearchIsBounded | src/search.c:130-276 | over any offset file with any `len` the number of steps that do anything is bounded in advance under every schedule |
| SearchSafety.SearchCanEnd | src/search.c:130-276 | over any offset file with any `len`, every reachable state can be scheduled to the end of all threads |
| SearchOutcome.CoverageExact | src/search.c:335-384 | with T = min(threads, len): all complete lines are examined iff T = 1, or the batch size divides len / T and len mod T is at most 1 |
| SearchOutcome.CoverageOfMany | src/search.c:335-338 | with a thread for every line, and more than one line, all complete lines are examined if a batch is one line, otherwise none is |
| SearchOutcome.SpanIsBatches | src/search.c:130-147 | a line is below the limit of a span iff it is in one of the batches the thread looks up |
| SearchOutcome.CoveredIsExamined | src/search.c:130-147 | the lines below the limit of some span, as coverage counts them, are exactly those in the batches of some thread |
| EndToEnd.BuiltIsCompleteIff | src/indexers/text_indexer.c:471-478 | in a well-formed configuration entries and `len` of the built index together are complete iff nothing is lost and no newline is between ranges |
| EndToEnd.BuiltIsValidIff | src/indexers/text_indexer.c:471-478 | in a well-formed configuration a built index descends strictly to 0 with `len` entries iff no reduction loses a list |
| EndToEnd.NeverFailsIffWellFormed | src/index.c:127-139 | a usable configuration is well-formed iff for every file of that size that loses nothing no lookup fails without a wrapped sum |
| EndToEnd.IndexAndLookup | src/index.c:51-190 | running the indexer in a usable configuration and then a lookup; with no list lost and entries that never rise, -1 means a wrapped sum; in a well-formed configuration the lines are those of the index, shifted by the lost ones, and with nothing lost and no newline between ranges they are the lines of the naive splitting |
| EndToEnd.SearchIsValidIff | src/search.c:309-405 | a search can run on every built index iff the sizes fit; the theorems about lines apply iff it is complete, which in a well-formed configuration means no list lost and no newline between ranges |
| EndToEnd.FindsEveryMatchIff | src/search.c:130-276 | on a complete index the wanted lines are the matching non-empty lines of the file for every matcher iff no line has a NUL and every line with something in it is looked up |
| EndToEnd.IndexAndSearch | src/search.c:309-449 | after indexing in a usable configuration and searching, in every interleaving: exactly min(limit, matching tokens) results, each a different matching token under its number, all of them if the limit allows; on a complete index these are wanted lines, none twice, all of them below the limit; they are the matching lines of the file, whatever the matcher, iff no line has a NUL and every line with something in it is looked up |

## Left out

- Opening, flags, seeking, random index names and directories: the target is an immutable byte sequence, the offset file an append-only one, and `pread` returns as many bytes as there are.
- libdill and pthread internals: a coroutine runs to its send when started, deliveries come in any order, an index thread runs when it is joined (it touches only its own state), search steps are atomic.
- PCRE2: matching is an arbitrary predicate on the line; match offsets, pattern compilation and matcher errors are not modelled.
- Allocation failures, `free`, `malloc_trim` and the error exits they cause; only an allocation of 2^63 bytes or more fails here, as it does everywhere.
- Logging and the progress callbacks; the per-thread progress of the indexer is modelled, that of the search is not.
- `f_search_results_*` and `f_node_append`, which the source marks as unused.
- Floating point: `ceil(x / (double) y)` is the exact ceiling, which it equals for operands below 2^53; file, window and buffer sizes are bounded accordingly.
- Widths of `int` and `unsigned int` counters (chunk counts, `line_count`, buffer positions, `result_count`): unbounded numbers here, faithful while they fit their C types.
- ThreadsInit: thread counts from 1 on; zero divides by zero in the source, and a negative count is clamped like a large one.
- IndexTextFile: a run whose joining loop does not end is modelled by the result NULL.
- IndexTextChunk: the conversion of the number of chunks of an inverted range to `unsigned int`, undefined in C, is not modelled; with any number of chunks the thread ends without a report.
- ChunksInit: more chunks than `unsigned int` holds, which is undefined in C, are counted exactly here; `InvertedRange` says when an inverted range gets there.
- MemFromChunk: cells that a list shorter than `line_count` leaves unwritten are unspecified, as in the source.
- SearchCountExact: what a lookup finds in uninitialised memory is a parameter of the search, one value per batch, since each batch is looked up once.
- SearchIsExact: an index that is not complete is excluded, because its tokens are not numbered like the lines of the file; `SearchIsTraced` says what it reports instead, and `SearchCountExact` how much.
- Partition: zero or negative thread counts and a `line_buffer` of 0, which divide by zero or never advance in the source.
- SearchCanEnd: the loop of the main thread that polls the progress of the search threads is not modelled; it only reads.
