/** What every interleaving of the search threads keeps, and what the search has reported when all
    of them have ended. */
module SearchTheorems {
  import opened Wrappers
  import opened Machine
  import opened TextFiles
  import opened Tokenizer
  import opened LineLookup
  import opened Searching
  import opened SearchSafety
  import Partitioning

  // ---- the invariant of one thread ----

  ghost predicate GoodSpan(c: Searcher, span: Span) {
    && 0 < c.lineBuffer && span.start < span.end
    && span.limit == Min(|Lines(c)|, if (span.end - span.start) % c.lineBuffer == 0 then span.end else span.end - 1)
  }

  /** Line `k` has been reported, under the number `k + 1`. */
  ghost predicate In(reported: set<nat>, k: nat) {
    k + 1 in reported
  }

  /** Of the lines of the span, exactly the hits below `f` have been reported. */
  ghost predicate Decided(c: Searcher, span: Span, reported: set<nat>, f: nat)
    requires 0 < c.lineBuffer
  {
    forall k: nat :: span.start <= k < span.end ==>
      (In(reported, k) <==> k < span.limit && k < f && Hit(c, span, k))
  }

  ghost predicate Aligned(c: Searcher, span: Span, i: nat)
    requires 0 < c.lineBuffer
  {
    span.start <= i && (i - span.start) % c.lineBuffer == 0
  }

  /** The batch at `i` ends before this line. */
  ghost function BatchStop(c: Searcher, span: Span, i: nat): nat
    requires i < span.end
  {
    Min(|Lines(c)|, i + BatchSize(c, span.end, i))
  }

  ghost predicate Clean(c: Searcher, i: nat, k: nat) {
    forall j :: i <= j < k && j < |Lines(c)| ==> NulFree(Lines(c)[j])
  }

  /** The cursor stands before line `lineNumber` of the batch; or it is past the last line, or past
      a line with a NUL. */
  ghost predicate InBatch(c: Searcher, span: Span, w: Worker)
    requires 0 < c.lineBuffer
  {
    && Aligned(c, span, w.i) && w.i < span.end && w.i <= |Lines(c)|
    && var stop := BatchStop(c, span, w.i);
       match w.cursor
       case None => w.lineNumber == stop + 1 || (w.i < w.lineNumber <= stop && !NulFree(Lines(c)[w.lineNumber - 1]))
       case Some(s) =>
         && w.i <= w.lineNumber <= stop && Clean(c, w.i, w.lineNumber)
         && s == CString(Concat(Lines(c)[w.lineNumber..stop]))
  }

  /** In a batch, with the hits before the cursor reported. */
  ghost predicate Scanning(c: Searcher, span: Span, w: Worker, reported: set<nat>)
    requires 0 < c.lineBuffer
  {
    InBatch(c, span, w) && Decided(c, span, reported, Min(w.lineNumber, BatchStop(c, span, w.i)))
  }

  /** Line `lineNumber - 1` is a hit that has not been reported yet. */
  ghost predicate Pending(c: Searcher, span: Span, w: Worker, reported: set<nat>)
    requires 0 < c.lineBuffer
  {
    && InBatch(c, span, w) && w.i < w.lineNumber <= BatchStop(c, span, w.i)
    && Hit(c, span, w.lineNumber - 1) && w.line == SeenText(Lines(c)[w.lineNumber - 1])
    && Decided(c, span, reported, w.lineNumber - 1)
  }

  /** A thread that gave up has reported only hits, and the counter had reached the limit. */
  ghost predicate GaveUp(c: Searcher, span: Span, reported: set<nat>, count: int)
    requires 0 < c.lineBuffer
  {
    && count >= c.limit
    && forall k: nat :: span.start <= k < span.end && In(reported, k) ==> k < span.limit && Hit(c, span, k)
  }

  ghost predicate WorkerInv(c: Searcher, span: Span, w: Worker, reported: set<nat>, count: int)
    requires 0 < c.lineBuffer
  {
    match w.pc
    case BatchHead => Aligned(c, span, w.i) && Decided(c, span, reported, w.i)
    case TokenHead => Scanning(c, span, w, reported)
    case NoMatch => Scanning(c, span, w, reported)
    case Locking => Pending(c, span, w, reported)
    case Checking => Pending(c, span, w, reported)
    case Reporting => Pending(c, span, w, reported)
    case Unlocking(exit) =>
      if exit then GaveUp(c, span, reported, count) else Scanning(c, span, w, reported)
    case Done(reason) =>
      match reason
      case LimitMet => GaveUp(c, span, reported, count)
      case Exhausted => Decided(c, span, reported, span.end)
      case Finished => Decided(c, span, reported, span.end)
      case LookupFailed => false
  }

  // ---- the steps of one thread keep it ----

  lemma DecidedUpTo(c: Searcher, span: Span, reported: set<nat>, f: nat, g: nat)
    requires 0 < c.lineBuffer && Decided(c, span, reported, f)
    requires f == g || forall k: nat :: k < span.limit && Hit(c, span, k) ==> (k < f <==> k < g)
    ensures Decided(c, span, reported, g)
  {
  }

  /** The end of the share, seen from an aligned batch. */
  lemma BatchEnd(d: nat, b: nat, share: nat)
    requires 0 < b && d % b == 0 && d < share
    ensures (d + b) % b == 0
    ensures d + b == share ==> share % b == 0
    ensures d + b > share ==> share % b != 0
  {
    Partitioning.Euclid(d, b);
    DivUnique(d + b, b, d / b + 1, 0);
    if d + b > share { DivUnique(share, b, d / b, share - d); }
  }

  /** What the last batch leaves out of the share is what the limit leaves out. */
  lemma StopIsLimit(c: Searcher, span: Span, i: nat)
    requires GoodSpan(c, span) && Aligned(c, span, i) && i < span.end && i <= |Lines(c)|
    ensures i <= BatchStop(c, span, i) <= span.limit
    ensures BatchStop(c, span, i) == span.limit || BatchStop(c, span, i) == i + c.lineBuffer <= span.limit
    ensures BatchStop(c, span, i) == span.limit ==> span.limit <= i + c.lineBuffer
    ensures Aligned(c, span, i + c.lineBuffer)
  {
    BatchEnd(i - span.start, c.lineBuffer, span.end - span.start);
  }

  lemma LookupBatch(c: Searcher, span: Span, i: nat)
    requires Valid(c) && i < span.end <= c.index.len
    ensures i > |Lines(c)| ==> BatchText(c, span.end, i) == Null
    ensures i <= |Lines(c)| ==>
              && i <= BatchStop(c, span, i) <= |Lines(c)|
              && BatchText(c, span.end, i) == Found(Concat(Lines(c)[i..BatchStop(c, span, i)]))
  {
    LookupIsLines(c.index, i, BatchSize(c, span.end, i));
    LookupOfValid(c.index, i, BatchSize(c, span.end, i), c.memory(i));
  }

  lemma KeepsBatchHead(c: Searcher, span: Span, w: Worker, reported: set<nat>, count: int)
    requires Valid(c) && GoodSpan(c, span) && span.end <= c.index.len
    requires w.pc.BatchHead? && WorkerInv(c, span, w, reported, count)
    ensures WorkerInv(c, span, AtBatchHead(c, span.end, w, count), reported, count)
  {
    hide Valid, Aligned, BatchText, Hit;
    if w.i >= span.end {
      DecidedUpTo(c, span, reported, w.i, span.end);
    } else if count < c.limit {
      LookupBatch(c, span, w.i);
      if w.i <= |Lines(c)| {
        StopIsLimit(c, span, w.i);
      } else {
        DecidedUpTo(c, span, reported, w.i, span.end);
      }
    }
  }

  /** Within an aligned batch the batch of a line is this one. */
  lemma BatchOfLine(c: Searcher, span: Span, i: nat, k: nat)
    requires 0 < c.lineBuffer && Aligned(c, span, i) && i <= k < i + c.lineBuffer
    ensures BatchOf(c, span, k) == i
  {
    Partitioning.Euclid(i - span.start, c.lineBuffer);
    DivUnique(k - span.start, c.lineBuffer, (i - span.start) / c.lineBuffer, k - i);
  }

  /** When the cursor is NULL, no line of the batch from the next one on can be a hit. */
  lemma NothingLeft(c: Searcher, span: Span, w: Worker, k: nat)
    requires GoodSpan(c, span) && InBatch(c, span, w) && w.cursor == None
    requires Min(w.lineNumber, BatchStop(c, span, w.i)) <= k < w.i + c.lineBuffer && k < span.limit
    ensures !Hit(c, span, k)
  {
    StopIsLimit(c, span, w.i);
    BatchOfLine(c, span, w.i, k);
    if w.lineNumber != BatchStop(c, span, w.i) + 1 {
      assert Hidden(c, w.i, k);
    }
  }

  lemma EmptyToken(lines: seq<Text>, stop: nat)
    requires stop <= |lines|
    ensures var s := CString(Concat(lines[stop..stop])); |Token(s)| == 0 && Rest(s) == None
  {
    assert lines[stop..stop] == [];
  }

  /** The token of the next line decides whether that line is a hit. */
  lemma HitIsToken(c: Searcher, span: Span, i: nat, k: nat)
    requires 0 < c.lineBuffer && Aligned(c, span, i) && i <= k < i + c.lineBuffer && k < |Lines(c)|
    requires Clean(c, i, k) && |Lines(c)[k]| > 0
    ensures Hit(c, span, k) <==>
              c.hasCallback && |SeenText(Lines(c)[k])| > 0 && c.matches(SeenText(Lines(c)[k]))
    ensures NulFree(Lines(c)[k]) ==> Clean(c, i, k + 1)
  {
    BatchOfLine(c, span, i, k);
  }

  lemma LineAt(c: Searcher, k: nat)
    requires k < |Lines(c)|
    ensures IsLine(Lines(c)[k])
  {
    SplitLinesSound(c.index.file);
  }

  /** Reading the token of the next line leaves the cursor before the line after it. */
  lemma NextInBatch(c: Searcher, span: Span, w: Worker, w': Worker)
    requires Valid(c) && 0 < c.lineBuffer && InBatch(c, span, w)
    requires w.cursor.Some? && w.lineNumber < BatchStop(c, span, w.i) && |Lines(c)[w.lineNumber]| > 0
    requires w'.i == w.i && w'.lineNumber == w.lineNumber + 1 && w'.cursor == Rest(w.cursor.value)
    ensures InBatch(c, span, w') && Token(w.cursor.value) == SeenText(Lines(c)[w.lineNumber])
  {
    var k := w.lineNumber;
    LineAt(c, k);
    HitIsToken(c, span, w.i, k);
    hide Valid, Aligned, BatchSize, Hit, Clean, CString, SeenText, Token, Rest, NulFree, Concat, Lines;
    TokenOfLines(Lines(c), k, BatchStop(c, span, w.i));
  }

  lemma KeepsToken(c: Searcher, span: Span, w: Worker, reported: set<nat>, count: int)
    requires Valid(c) && GoodSpan(c, span)
    requires w.pc.TokenHead? && WorkerInv(c, span, w, reported, count)
    requires w.cursor.Some? && w.lineNumber < BatchStop(c, span, w.i)
    ensures WorkerInv(c, span, AtTokenHead(c, w), reported, count)
  {
    var k, stop := w.lineNumber, BatchStop(c, span, w.i);
    LineAt(c, k);
    HitIsToken(c, span, w.i, k);
    NextInBatch(c, span, w, AtTokenHead(c, w));
    hide Valid, Aligned, BatchSize, Hit, Clean, CString, SeenText, Decided, Token, Rest, NulFree, Concat, Lines;
    if !Hit(c, span, k) {
      DecidedUpTo(c, span, reported, k, k + 1);
    }
  }

  lemma KeepsTokenHead(c: Searcher, span: Span, w: Worker, reported: set<nat>, count: int)
    requires Valid(c) && GoodSpan(c, span)
    requires w.pc.TokenHead? && WorkerInv(c, span, w, reported, count)
    ensures WorkerInv(c, span, AtTokenHead(c, w), reported, count)
  {
    hide Valid, Hit, Aligned, CString;
    var stop := BatchStop(c, span, w.i);
    StopIsLimit(c, span, w.i);
    match w.cursor
    case None =>
      forall k: nat | k < span.limit && Hit(c, span, k) && k < w.i + c.lineBuffer
        ensures k < Min(w.lineNumber, stop)
      {
        if k >= Min(w.lineNumber, stop) { NothingLeft(c, span, w, k); }
      }
      DecidedUpTo(c, span, reported, Min(w.lineNumber, stop), w.i + c.lineBuffer);
    case Some(s) =>
      if w.lineNumber < stop {
        KeepsToken(c, span, w, reported, count);
      } else {
        EmptyToken(Lines(c), stop);
      }
  }

  // ---- the invariant of the whole search ----

  /** The callback carries the number and the text of a matching line that the search covers. */
  ghost predicate Genuine(c: Searcher, cb: Callback)
    requires Valid(c)
  {
    && 0 < cb.lineNumber <= |Lines(c)| && |Lines(c)[cb.lineNumber - 1]| > 0
    && Findable(c, cb.lineNumber - 1) && cb.text == SeenText(Lines(c)[cb.lineNumber - 1])
  }

  ghost predicate NoDuplicates(callbacks: seq<Callback>) {
    forall a, b :: 0 <= a < b < |callbacks| ==> callbacks[a].lineNumber != callbacks[b].lineNumber
  }

  ghost predicate WorkersInv(c: Searcher, s: State)
    requires Valid(c)
  {
    forall t :: 0 <= t < |s.workers| ==> WorkerInv(c, SpanOf(c, t), s.workers[t], Reported(s.callbacks), s.count)
  }

  ghost predicate Inv(c: Searcher, s: State)
    requires Valid(c)
  {
    && |s.workers| == Workers(c)
    && CountInv(c, s) && MutexInv(s)
    && (forall a :: 0 <= a < |s.callbacks| ==> Genuine(c, s.callbacks[a]))
    && NoDuplicates(s.callbacks) && WorkersInv(c, s)
  }

  lemma SpanGood(c: Searcher, t: nat)
    requires Valid(c) && t < Workers(c)
    ensures GoodSpan(c, SpanOf(c, t)) && SpanOf(c, t).end <= c.index.len
  {
    PositiveShare(c);
    LinesOfIndex(c);
    ShareInside(c.index.len, Workers(c), t);
  }

  lemma SpansDisjoint(c: Searcher, t: nat, u: nat)
    requires Valid(c) && t < u < Workers(c)
    ensures SpanOf(c, t).end <= SpanOf(c, u).start
  {
    ShareInside(c.index.len, Workers(c), t);
    MulMono(t + 1, u, LinesEach(c));
  }

  /** What other threads do does not disturb a thread: the counter grows, and the lines of its own
      span stay as they are. */
  lemma WorkerStable(c: Searcher, span: Span, w: Worker, reported: set<nat>, count: int,
                     reported': set<nat>, count': int)
    requires 0 < c.lineBuffer && WorkerInv(c, span, w, reported, count) && count <= count'
    requires forall k: nat :: span.start <= k < span.end ==> (In(reported', k) <==> In(reported, k))
    ensures WorkerInv(c, span, w, reported', count')
  {
    hide InBatch, Hit, BatchStop, Aligned;
  }

  /** Only `pc` changes in a step that touches the shared state. */
  lemma PcOnly(c: Searcher, span: Span, w: Worker, pc: Pc, reported: set<nat>)
    requires 0 < c.lineBuffer
    ensures Scanning(c, span, w.(pc := pc), reported) == Scanning(c, span, w, reported)
    ensures Pending(c, span, w.(pc := pc), reported) == Pending(c, span, w, reported)
  {
  }

  lemma DecidedIsGaveUp(c: Searcher, span: Span, reported: set<nat>, f: nat, count: int)
    requires 0 < c.lineBuffer && Decided(c, span, reported, f) && count >= c.limit
    ensures GaveUp(c, span, reported, count)
  {
  }

  lemma GivesUp(c: Searcher, span: Span, w: Worker, reported: set<nat>, count: int)
    requires 0 < c.lineBuffer && (Scanning(c, span, w, reported) || Pending(c, span, w, reported)) && count >= c.limit
    ensures GaveUp(c, span, reported, count)
  {
    if Scanning(c, span, w, reported) {
      DecidedIsGaveUp(c, span, reported, Min(w.lineNumber, BatchStop(c, span, w.i)), count);
    } else {
      DecidedIsGaveUp(c, span, reported, w.lineNumber - 1, count);
    }
  }

  lemma FreshWorker(c: Searcher, span: Span, w: Worker)
    requires 0 < c.lineBuffer && w.pc.BatchHead? && w.i == span.start
    ensures WorkerInv(c, span, w, Reported([]), 0)
  {
    DivUnique(0, c.lineBuffer, 0, 0);
  }

  lemma InvInit(c: Searcher)
    requires Valid(c)
    ensures Inv(c, Init(c))
  {
    var s := Init(c);
    forall t | 0 <= t < |s.workers|
      ensures WorkerInv(c, SpanOf(c, t), s.workers[t], Reported(s.callbacks), s.count)
    {
      FreshWorker(c, SpanOf(c, t), s.workers[t]);
    }
  }

  /** A step that changes one thread outside the mutex and nothing else. */
  lemma LocalStep(c: Searcher, s: State, t: nat, w: Worker)
    requires Valid(c) && Inv(c, s) && t < |s.workers|
    requires !InCritical(s.workers[t].pc) && !InCritical(w.pc)
    requires WorkerInv(c, SpanOf(c, t), w, Reported(s.callbacks), s.count)
    ensures Inv(c, SetWorker(s, t, w))
  {
    hide WorkerInv, Genuine, SpanOf;
  }

  lemma StepOutside(c: Searcher, s: State, t: nat)
    requires Valid(c) && Inv(c, s) && t < |s.workers|
    requires var pc := s.workers[t].pc; pc.BatchHead? || pc.TokenHead? || pc.NoMatch?
    ensures Inv(c, Step(c, s, t))
  {
    hide SpanOf, Scanning, Decided, GaveUp, BatchStop, Hit, Genuine, BatchText;
    hide MutexInv, CountInv, NoDuplicates, Reported;
    var w, span, reported := s.workers[t], SpanOf(c, t), Reported(s.callbacks);
    SpanGood(c, t);
    assert WorkerInv(c, span, w, reported, s.count);
    match w.pc
    case BatchHead =>
      KeepsBatchHead(c, span, w, reported, s.count);
      LocalStep(c, s, t, AtBatchHead(c, span.end, w, s.count));
    case TokenHead =>
      KeepsTokenHead(c, span, w, reported, s.count);
      LocalStep(c, s, t, AtTokenHead(c, w));
    case NoMatch =>
      if s.count >= c.limit { GivesUp(c, span, w, reported, s.count); }
      PcOnly(c, span, w, TokenHead, reported);
      LocalStep(c, s, t, w.(pc := if s.count >= c.limit then Done(LimitMet) else TokenHead));
  }

  lemma StepLocking(c: Searcher, s: State, t: nat)
    requires Valid(c) && Inv(c, s) && t < |s.workers| && s.workers[t].pc.Locking?
    ensures Inv(c, Step(c, s, t))
  {
    hide SpanOf, Pending, Genuine, NoDuplicates, Reported;
    if s.holder == None {
      var s' := Step(c, s, t);
      assert WorkerInv(c, SpanOf(c, t), s.workers[t], Reported(s.callbacks), s.count);
      PcOnly(c, SpanOf(c, t), s.workers[t], Checking, Reported(s.callbacks));
      forall u | 0 <= u < |s'.workers|
        ensures WorkerInv(c, SpanOf(c, u), s'.workers[u], Reported(s'.callbacks), s'.count)
      {
        if u != t { assert s'.workers[u] == s.workers[u]; }
      }
    }
  }

  lemma StepChecking(c: Searcher, s: State, t: nat)
    requires Valid(c) && Inv(c, s) && t < |s.workers| && s.workers[t].pc.Checking?
    ensures Inv(c, Step(c, s, t))
  {
    hide SpanOf, Pending, Scanning, GaveUp, Hit, Genuine, NoDuplicates, Reported, In;
    var s', w, span, reported := Step(c, s, t), s.workers[t], SpanOf(c, t), Reported(s.callbacks);
    assert WorkerInv(c, span, w, reported, s.count);
    assert s.holder == Some(t);
    if s.count >= c.limit {
      GivesUp(c, span, w, reported, s.count);
    }
    PcOnly(c, span, w, Reporting, reported);
    forall u | 0 <= u < |s'.workers|
      ensures WorkerInv(c, SpanOf(c, u), s'.workers[u], Reported(s'.callbacks), s'.count)
    {
      if u != t {
        assert s'.workers[u] == s.workers[u];
        WorkerStable(c, SpanOf(c, u), s.workers[u], reported, s.count, reported, s'.count);
      }
    }
  }

  lemma StepUnlocking(c: Searcher, s: State, t: nat)
    requires Valid(c) && Inv(c, s) && t < |s.workers| && s.workers[t].pc.Unlocking?
    ensures Inv(c, Step(c, s, t))
  {
    hide SpanOf, Scanning, GaveUp, Genuine, NoDuplicates, Reported;
    var s' := Step(c, s, t);
    assert WorkerInv(c, SpanOf(c, t), s.workers[t], Reported(s.callbacks), s.count);
    assert s.holder == Some(t);
    PcOnly(c, SpanOf(c, t), s.workers[t], TokenHead, Reported(s.callbacks));
    forall u | 0 <= u < |s'.workers|
      ensures WorkerInv(c, SpanOf(c, u), s'.workers[u], Reported(s'.callbacks), s'.count)
    {
      if u != t { assert s'.workers[u] == s.workers[u]; }
    }
  }

  lemma ReportedAppend(callbacks: seq<Callback>, cb: Callback)
    ensures Reported(callbacks + [cb]) == Reported(callbacks) + {cb.lineNumber}
  {
    var all := callbacks + [cb];
    forall n | n in Reported(callbacks) + {cb.lineNumber} ensures n in Reported(all) {
      if n in Reported(callbacks) {
        var j :| 0 <= j < |callbacks| && callbacks[j].lineNumber == n;
        assert all[j].lineNumber == n;
      } else {
        assert all[|callbacks|].lineNumber == n;
      }
    }
  }

  /** The line about to be reported lies in the span, is covered, and is new. */
  lemma PendingIsNew(c: Searcher, t: nat, w: Worker, reported: set<nat>)
    requires Valid(c) && t < Workers(c) && Pending(c, SpanOf(c, t), w, reported)
    ensures 0 < w.lineNumber && SpanOf(c, t).start <= w.lineNumber - 1 < SpanOf(c, t).limit <= SpanOf(c, t).end
    ensures w.lineNumber !in reported && Genuine(c, Callback(w.lineNumber, w.line))
    ensures Scanning(c, SpanOf(c, t), w, reported + {w.lineNumber})
  {
    var span, k := SpanOf(c, t), w.lineNumber - 1;
    SpanGood(c, t);
    hide SpanOf, Hit;
    StopIsLimit(c, span, w.i);
    assert !In(reported, k);
    forall j: nat | span.start <= j < span.end
      ensures In(reported + {w.lineNumber}, j) <==> j < span.limit && j < k + 1 && Hit(c, span, j)
    {
      assert In(reported, j) <==> j < span.limit && j < k && Hit(c, span, j);
    }
  }

  lemma NewIsDistinct(callbacks: seq<Callback>, cb: Callback)
    requires NoDuplicates(callbacks) && cb.lineNumber !in Reported(callbacks)
    ensures NoDuplicates(callbacks + [cb])
  {
    forall a | 0 <= a < |callbacks| ensures callbacks[a].lineNumber != cb.lineNumber {
      assert callbacks[a].lineNumber in Reported(callbacks);
    }
  }

  lemma OthersUntouched(c: Searcher, t: nat, u: nat, lineNumber: nat, reported: set<nat>)
    requires Valid(c) && t < Workers(c) && u < Workers(c) && t != u
    requires 0 < lineNumber && SpanOf(c, t).start <= lineNumber - 1 < SpanOf(c, t).end
    ensures forall k: nat :: SpanOf(c, u).start <= k < SpanOf(c, u).end ==>
              (In(reported + {lineNumber}, k) <==> In(reported, k))
  {
    if t < u { SpansDisjoint(c, t, u); } else { SpansDisjoint(c, u, t); }
  }

  lemma StepReporting(c: Searcher, s: State, t: nat)
    requires Valid(c) && Inv(c, s) && t < |s.workers| && s.workers[t].pc.Reporting?
    ensures Inv(c, Step(c, s, t))
  {
    hide SpanOf, Pending, Scanning, GaveUp, Hit, Genuine, Reported;
    var s', w, reported := Step(c, s, t), s.workers[t], Reported(s.callbacks);
    assert WorkerInv(c, SpanOf(c, t), w, reported, s.count);
    assert s.holder == Some(t);
    PendingIsNew(c, t, w, reported);
    ReportedAppend(s.callbacks, Callback(w.lineNumber, w.line));
    PcOnly(c, SpanOf(c, t), w, Unlocking(false), Reported(s'.callbacks));
    NewIsDistinct(s.callbacks, Callback(w.lineNumber, w.line));
    forall u | 0 <= u < |s'.workers|
      ensures WorkerInv(c, SpanOf(c, u), s'.workers[u], Reported(s'.callbacks), s'.count)
    {
      if u != t {
        assert s'.workers[u] == s.workers[u];
        OthersUntouched(c, t, u, w.lineNumber, reported);
        WorkerStable(c, SpanOf(c, u), s.workers[u], reported, s.count, reported + {w.lineNumber}, s'.count);
      }
    }
  }

  /** Every step of every thread keeps the invariant. */
  lemma InvStep(c: Searcher, s: State, t: nat)
    requires Valid(c) && Inv(c, s)
    ensures Inv(c, Step(c, s, t))
  {
    if t < |s.workers| {
      match s.workers[t].pc
      case BatchHead => StepOutside(c, s, t);
      case TokenHead => StepOutside(c, s, t);
      case NoMatch => StepOutside(c, s, t);
      case Locking => StepLocking(c, s, t);
      case Checking => StepChecking(c, s, t);
      case Reporting => StepReporting(c, s, t);
      case Unlocking(_) => StepUnlocking(c, s, t);
      case Done(_) =>
    }
  }

  lemma {:induction false} InvRun(c: Searcher, schedule: seq<nat>)
    requires Valid(c)
    ensures Inv(c, Run(c, schedule))
  {
    if |schedule| == 0 {
      InvInit(c);
    } else {
      InvRun(c, schedule[..|schedule| - 1]);
      InvStep(c, Run(c, schedule[..|schedule| - 1]), schedule[|schedule| - 1]);
    }
  }
}
