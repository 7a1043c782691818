/** The multi-threaded search as a protocol of atomic steps: batches of lines are looked up,
    tokenized and matched; matches are reported under one mutex; the shared counter is also read
    outside the mutex to give up early. */
module Searching {
  import opened Wrappers
  import opened Machine
  import opened TextFiles
  import opened Tokenizer
  import opened LineLookup
  import Partitioning

  /** `f_searcher`. The matcher is any predicate on line texts; `memory` is what the two buffers of a
      lookup hold beforehand, by the first line of the batch, for each batch is looked up only once. */
  datatype Searcher = Searcher(index: Index, threads: nat, limit: int, lineBuffer: nat, hasCallback: bool,
                               matches: Text -> bool, memory: nat -> Memory)

  /** The index is any offset file with any `len`, and the sizes fit the C types. */
  ghost predicate Runnable(c: Searcher) {
    && AreWords(c.index.entries) && 0 < c.index.len <= Partitioning.INT_MAX
    && 0 < c.threads <= Partitioning.INT_MAX && 0 < c.lineBuffer <= UINT_MAX
  }

  /** The index moreover is the complete newline index. */
  ghost predicate Valid(c: Searcher) {
    Runnable(c) && IsComplete(c.index)
  }

  // ---- which lines a thread is given ----

  function SearcherThreads(total: nat, threads: nat): nat {
    if threads > total then total else threads
  }

  /** `ceil(total_lines / threads)` on ints: the quotient, rounded down. */
  function PerThread(total: nat, threads: nat): nat
    requires 0 < total && 0 < threads
  {
    total / SearcherThreads(total, threads)
  }

  datatype Share = Share(start: nat, count: nat)

  lemma ShareInside(total: nat, threads: nat, t: nat)
    requires t < threads
    ensures (t + 1) * (total / threads) == t * (total / threads) + total / threads <= total
  {
    Partitioning.Euclid(total, threads);
    MulMono(t + 1, threads, total / threads);
  }

  lemma ShareFits(total: nat, requested: nat, t: nat)
    requires 0 < total && 0 < requested && t < SearcherThreads(total, requested)
    ensures t * PerThread(total, requested) + PerThread(total, requested) <= total
  {
    ShareInside(total, SearcherThreads(total, requested), t);
  }

  /** As many threads as asked for or as there are lines, and for each the largest common number of
      lines. */
  lemma SharesExact(total: nat, requested: nat)
    requires 0 < total && 0 < requested
    ensures var threads, each := SearcherThreads(total, requested), PerThread(total, requested);
            && threads == Min(requested, total) && 0 < threads
            && threads * each <= total < threads * (each + 1)
  {
    var threads, each := SearcherThreads(total, requested), PerThread(total, requested);
    Partitioning.Euclid(total, threads);
    assert threads * (each + 1) == threads * each + threads;
  }

  /** The number of threads and the lines for each. */
  method EstablishShares(totalLines: nat, requested: nat) returns (threads: nat, linesPerThread: nat)
    requires 0 < totalLines && 0 < requested
    ensures threads == SearcherThreads(totalLines, requested)
    ensures linesPerThread == PerThread(totalLines, requested)
  {
    threads := requested;
    if threads > totalLines {
      threads := totalLines;
    }
    linesPerThread := totalLines / threads;
  }

  /** The partition loop of `f_index_search`. The branch that shortens `lines_per_thread` is never
      taken, so every thread gets the same number of lines and a remainder is given to nobody. */
  method Partition(totalLines: nat, requested: nat) returns (shares: array<Share>)
    requires 0 < totalLines <= Partitioning.INT_MAX && 0 < requested <= Partitioning.INT_MAX
    ensures fresh(shares) && 0 < shares.Length <= requested && shares.Length <= totalLines
    ensures shares.Length < requested ==> shares.Length == totalLines
    ensures shares.Length == SearcherThreads(totalLines, requested)
    ensures var each := shares[0].count;
            && each == PerThread(totalLines, requested)
            && shares.Length * each <= totalLines < shares.Length * (each + 1)
            && forall t :: 0 <= t < shares.Length ==> shares[t] == Share(t * each, each)
  {
    hide SearcherThreads, PerThread;
    SharesExact(totalLines, requested);
    var threads, linesPerThread := EstablishShares(totalLines, requested);
    shares := new Share[threads](_ => Share(0, 0));
    for i := 0 to threads
      invariant linesPerThread == PerThread(totalLines, requested)
      invariant forall t :: 0 <= t < i ==> shares[t] == Share(t * linesPerThread, linesPerThread)
    {
      var startPosition := i * linesPerThread;
      ShareFits(totalLines, requested, i);
      if startPosition + linesPerThread > totalLines {
        linesPerThread := totalLines - startPosition;
      }
      shares[i] := Share(startPosition, linesPerThread);
    }
  }

  // ---- the state of the search ----

  datatype Reason = LimitMet | Exhausted | Finished | LookupFailed

  /** Where a thread is. `Checking`, `Reporting` and `Unlocking` are inside the mutex. */
  datatype Pc =
    | BatchHead
    | TokenHead
    | NoMatch
    | Locking
    | Checking
    | Reporting
    | Unlocking(exit: bool)
    | Done(reason: Reason)

  /** `i` is the first line of the batch, `cursor` the rest of its text, `line` the token at hand. */
  datatype Worker = Worker(pc: Pc, i: nat, cursor: Option<Text>, lineNumber: nat, line: Text)

  datatype Callback = Callback(lineNumber: nat, text: Text)

  datatype State = State(count: int, callbacks: seq<Callback>, holder: Option<nat>, workers: seq<Worker>)

  ghost function Workers(c: Searcher): nat
    requires Runnable(c)
  {
    SearcherThreads(c.index.len, c.threads)
  }

  ghost function LinesEach(c: Searcher): nat
    requires Runnable(c)
  {
    PerThread(c.index.len, c.threads)
  }

  ghost function Lines(c: Searcher): seq<Text> {
    SplitLines(c.index.file).lines
  }

  lemma PositiveShare(c: Searcher)
    requires Runnable(c)
    ensures 0 < Workers(c) <= c.index.len && 0 < LinesEach(c)
  {
    Partitioning.Quotient(c.index.len, Workers(c));
  }

  /** The lines of one thread: its share is `[start, end)`, of which it examines those below
      `limit`. A share that is not a multiple of the batch size loses its last line, and no line
      beyond the complete ones exists. */
  datatype Span = Span(start: nat, end: nat, limit: nat)

  ghost function SpanOf(c: Searcher, t: nat): Span
    requires Runnable(c)
  {
    PositiveShare(c);
    var start, each := t * LinesEach(c), LinesEach(c);
    Span(start, start + each, Min(|Lines(c)|, if each % c.lineBuffer == 0 then start + each else start + each - 1))
  }

  ghost function Init(c: Searcher): State
    requires Runnable(c)
  {
    State(0, [], None,
          seq(Workers(c), t requires 0 <= t < Workers(c) => Worker(BatchHead, SpanOf(c, t).start, None, 0, [])))
  }

  /** Who starts where, and who has to go how far. */
  lemma StartsExact(c: Searcher, t: nat)
    requires Runnable(c) && t < |Init(c).workers|
    ensures var n := |Init(c).workers|;
            var each := c.index.len / n;
            && n == Min(c.threads, c.index.len) && Init(c).workers[t] == Worker(BatchHead, t * each, None, 0, [])
            && SpanOf(c, t).start == t * each && SpanOf(c, t).end == t * each + each
  {
    SharesExact(c.index.len, c.threads);
  }

  // ---- the steps of f_index_search_thread ----

  /** The size of the batch at `i`; the last, short one is one line shorter than what is left. */
  ghost function BatchSize(c: Searcher, end: nat, i: nat): (size: nat)
    requires i < end
    ensures size <= c.lineBuffer
  {
    if i + c.lineBuffer > end then end - i - 1 else c.lineBuffer
  }

  ghost function BatchText(c: Searcher, end: nat, i: nat): LookupResult
    requires Runnable(c) && i < end
  {
    LookupOf(c.index, i, BatchSize(c, end, i), c.memory(i))
  }

  /** Loop head: the limit is read without the mutex, then the batch is looked up. */
  ghost function AtBatchHead(c: Searcher, end: nat, w: Worker, count: int): Worker
    requires Runnable(c)
  {
    if w.i >= end then w.(pc := Done(Finished))
    else if count >= c.limit then w.(pc := Done(LimitMet))
    else
      match BatchText(c, end, w.i)
      case Failed => w.(pc := Done(LookupFailed))
      case Null => w.(pc := Done(Exhausted))
      case Found(text) => w.(pc := TokenHead, cursor := Some(CString(text)), lineNumber := w.i)
  }

  /** One round of the token loop up to the first access to shared state. */
  ghost function AtTokenHead(c: Searcher, w: Worker): Worker {
    match w.cursor
    case None => w.(pc := BatchHead, i := w.i + c.lineBuffer)
    case Some(s) =>
      var next := w.(cursor := Rest(s), lineNumber := w.lineNumber + 1, line := Token(s));
      if |Token(s)| == 0 then next
      else if !c.matches(Token(s)) then next.(pc := NoMatch)
      else if c.hasCallback then next.(pc := Locking)
      else next
  }

  ghost function SetWorker(s: State, t: nat, w: Worker): State
    requires t < |s.workers|
  {
    s.(workers := s.workers[t := w])
  }

  ghost function SetPc(s: State, t: nat, pc: Pc): State
    requires t < |s.workers|
  {
    SetWorker(s, t, s.workers[t].(pc := pc))
  }

  /** Thread `t` takes its next step; nothing happens if it has ended or waits for the mutex. */
  ghost function Step(c: Searcher, s: State, t: nat): State
    requires Runnable(c)
  {
    if t >= |s.workers| then s
    else
      var w := s.workers[t];
      match w.pc
      case BatchHead => SetWorker(s, t, AtBatchHead(c, SpanOf(c, t).end, w, s.count))
      case TokenHead => SetWorker(s, t, AtTokenHead(c, w))
      case NoMatch => SetPc(s, t, if s.count >= c.limit then Done(LimitMet) else TokenHead)
      case Locking => if s.holder == None then SetPc(s, t, Checking).(holder := Some(t)) else s
      case Checking =>
        if s.count >= c.limit then SetPc(s, t, Unlocking(true))
        else SetPc(s, t, Reporting).(count := s.count + 1)
      case Reporting => SetPc(s, t, Unlocking(false)).(callbacks := s.callbacks + [Callback(w.lineNumber, w.line)])
      case Unlocking(exit) => SetPc(s, t, if exit then Done(LimitMet) else TokenHead).(holder := None)
      case Done(_) => s
  }

  /** The state after the threads have been scheduled in this order. */
  ghost function Run(c: Searcher, schedule: seq<nat>): State
    requires Runnable(c)
  {
    if |schedule| == 0 then Init(c)
    else Step(c, Run(c, schedule[..|schedule| - 1]), schedule[|schedule| - 1])
  }

  ghost predicate AllDone(s: State) {
    forall t :: 0 <= t < |s.workers| ==> s.workers[t].pc.Done?
  }

  // ---- what the search is supposed to find ----

  /** The first line of the batch in which the span's thread looks line `k` up. */
  ghost function BatchOf(c: Searcher, span: Span, k: nat): nat
    requires 0 < c.lineBuffer && span.start <= k
  {
    span.start + (k - span.start) / c.lineBuffer * c.lineBuffer
  }

  /** A NUL in an earlier line of the batch hides line `k`. */
  ghost predicate Hidden(c: Searcher, i: nat, k: nat) {
    exists j :: i <= j < k && j < |Lines(c)| && !NulFree(Lines(c)[j])
  }

  /** Line `k` exists, is seen, is not empty and matches, and there is somebody to report it to. */
  ghost predicate Hit(c: Searcher, span: Span, k: nat)
    requires 0 < c.lineBuffer
  {
    && span.start <= k < |Lines(c)| && |Lines(c)[k]| > 0 && !Hidden(c, BatchOf(c, span, k), k)
    && c.hasCallback && |SeenText(Lines(c)[k])| > 0 && c.matches(SeenText(Lines(c)[k]))
  }

  lemma LinesOfIndex(c: Searcher)
    requires Valid(c)
    ensures c.index.len == |Lines(c)| + 1
  {
    EntryIsLineStart(c.index.file);
  }

  ghost predicate Covered(c: Searcher, k: nat)
    requires Valid(c)
  {
    exists t :: 0 <= t < Workers(c) && SpanOf(c, t).start <= k < SpanOf(c, t).limit
  }

  /** Some thread examines line `k` and finds it to be a hit. */
  ghost predicate Findable(c: Searcher, k: nat)
    requires Valid(c)
  {
    exists t :: 0 <= t < Workers(c) && SpanOf(c, t).start <= k < SpanOf(c, t).limit && Hit(c, SpanOf(c, t), k)
  }

  /** Line numbers, counted from 1, that the search should report if the limit allows. */
  ghost function Wanted(c: Searcher): set<nat>
    requires Valid(c)
  {
    set k | 0 <= k < |Lines(c)| && Findable(c, k) :: k + 1
  }

  ghost function Reported(callbacks: seq<Callback>): set<nat> {
    set j | 0 <= j < |callbacks| :: callbacks[j].lineNumber
  }
}
