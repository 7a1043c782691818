/** The results of a search: what holds at every moment, what holds when all threads have ended,
    that they always can end, and which lines are looked at. */
module SearchOutcome {
  import opened Wrappers
  import opened Machine
  import opened TextFiles
  import opened Tokenizer
  import opened LineLookup
  import opened Searching
  import opened SearchSafety
  import opened SearchTheorems
  import opened SearchCounts
  import Partitioning

  // ---- at every moment of every interleaving ----

  /** The counter never passes the limit although it is also read outside the mutex; every result
      is a matching covered line with its own number and text; no line is reported twice; at most
      one thread is inside the mutex. */
  lemma SearchIsSafe(c: Searcher, schedule: seq<nat>)
    requires Valid(c)
    ensures var s := Run(c, schedule);
            && |s.callbacks| <= s.count <= Max(c.limit, 0)
            && (forall a :: 0 <= a < |s.callbacks| ==> Genuine(c, s.callbacks[a]))
            && NoDuplicates(s.callbacks)
            && forall t, u :: 0 <= t < u < |s.workers| ==> !(InCritical(s.workers[t].pc) && InCritical(s.workers[u].pc))
  {
    InvRun(c, schedule);
  }

  // ---- when all threads have ended ----

  lemma {:induction false} ReportedCount(callbacks: seq<Callback>)
    requires NoDuplicates(callbacks)
    ensures |Reported(callbacks)| == |callbacks|
  {
    if |callbacks| == 0 {
    } else {
      var n := |callbacks| - 1;
      var before, cb := callbacks[..n], callbacks[n];
      assert callbacks == before + [cb];
      ReportedAppend(before, cb);
      ReportedCount(before);
      forall x | x in Reported(before) ensures x != cb.lineNumber {
        var j :| 0 <= j < n && before[j].lineNumber == x;
        assert callbacks[j].lineNumber != callbacks[n].lineNumber;
      }
    }
  }

  lemma {:induction false} SubsetCount<T>(a: set<T>, b: set<T>)
    requires a <= b
    ensures |a| <= |b| && (|a| == |b| ==> a == b)
  {
    assert b == a + (b - a);
    assert |b| == |a| + |b - a|;
  }

  lemma ReportedWanted(c: Searcher, callbacks: seq<Callback>)
    requires Valid(c) && forall a :: 0 <= a < |callbacks| ==> Genuine(c, callbacks[a])
    ensures Reported(callbacks) <= Wanted(c)
  {
    forall n | n in Reported(callbacks) ensures n in Wanted(c) {
      var j :| 0 <= j < |callbacks| && callbacks[j].lineNumber == n;
      assert Genuine(c, callbacks[j]);
      assert n - 1 < |Lines(c)|;
    }
  }

  lemma AllDecided(c: Searcher, span: Span, w: Worker, reported: set<nat>, count: int, k: nat)
    requires 0 < c.lineBuffer && WorkerInv(c, span, w, reported, count)
    requires w.pc.Done? && w.pc != Done(LimitMet) && span.start <= k < span.limit <= span.end && Hit(c, span, k)
    ensures k + 1 in reported
  {
    assert Decided(c, span, reported, span.end);
    assert In(reported, k);
  }

  lemma HitReported(c: Searcher, s: State, t: nat, k: nat)
    requires Valid(c) && Inv(c, s) && AllDone(s) && t < Workers(c)
    requires forall u :: 0 <= u < |s.workers| ==> s.workers[u].pc != Done(LimitMet)
    requires SpanOf(c, t).start <= k < SpanOf(c, t).limit && Hit(c, SpanOf(c, t), k)
    ensures k + 1 in Reported(s.callbacks)
  {
    hide WorkerInv, Reported, Genuine, CountInv, MutexInv, Hit, SpanOf, NoDuplicates;
    SpanGood(c, t);
    assert WorkerInv(c, SpanOf(c, t), s.workers[t], Reported(s.callbacks), s.count);
    assert s.workers[t].pc.Done?;
    AllDecided(c, SpanOf(c, t), s.workers[t], Reported(s.callbacks), s.count, k);
  }

  /** If no thread gave up, every wanted line has been reported. */
  lemma NobodyGaveUp(c: Searcher, s: State)
    requires Valid(c) && Inv(c, s) && AllDone(s)
    requires forall t :: 0 <= t < |s.workers| ==> s.workers[t].pc != Done(LimitMet)
    ensures Wanted(c) <= Reported(s.callbacks)
  {
    hide Inv, AreWords, IsComplete, Reported, AllDone, SpanOf, Hit;
    forall n | n in Wanted(c) ensures n in Reported(s.callbacks) {
      var k :| 0 <= k < |Lines(c)| && Findable(c, k) && n == k + 1;
      var t :| 0 <= t < Workers(c) && SpanOf(c, t).start <= k < SpanOf(c, t).limit && Hit(c, SpanOf(c, t), k);
      HitReported(c, s, t, k);
    }
  }

  lemma LimitWasMet(c: Searcher, s: State, t: nat)
    requires Valid(c) && Inv(c, s) && t < |s.workers| && s.workers[t].pc == Done(LimitMet)
    ensures s.count >= c.limit
  {
    assert WorkerInv(c, SpanOf(c, t), s.workers[t], Reported(s.callbacks), s.count);
  }

  /** The number of results is exactly the smaller of the limit and the number of matching covered
      lines, in every interleaving; and below the limit all of them are reported. */
  lemma SearchIsExact(c: Searcher, schedule: seq<nat>)
    requires Valid(c) && AllDone(Run(c, schedule))
    ensures var callbacks := Run(c, schedule).callbacks;
            && |callbacks| == Max(0, Min(c.limit, |Wanted(c)|))
            && Reported(callbacks) <= Wanted(c)
            && (|Wanted(c)| <= c.limit ==> Reported(callbacks) == Wanted(c))
  {
    hide Runnable, IsComplete, Wanted, Genuine, WorkerInv, Reported, Run;
    var s := Run(c, schedule);
    InvRun(c, schedule);
    ReportedCount(s.callbacks);
    ReportedWanted(c, s.callbacks);
    SubsetCount(Reported(s.callbacks), Wanted(c));
    if t :| 0 <= t < |s.workers| && s.workers[t].pc == Done(LimitMet) {
      LimitWasMet(c, s, t);
    } else {
      NobodyGaveUp(c, s);
      SubsetCount(Wanted(c), Reported(s.callbacks));
    }
  }

  // ---- both counts of what there is to find agree ----

  lemma {:induction false} SameHitsIn(c: Searcher, c': Searcher, s: Text)
    requires c' == c.(limit := c'.limit)
    ensures HitsIn(c', s) == HitsIn(c, s)
    decreases |s|
  {
    match Rest(s)
    case None =>
    case Some(r) => SameHitsIn(c, c', r);
  }

  lemma {:induction false} SameHitsFrom(c: Searcher, c': Searcher, end: nat, i: nat)
    requires Runnable(c) && Runnable(c') && c' == c.(limit := c'.limit)
    ensures HitsFrom(c', end, i) == HitsFrom(c, end, i)
    decreases end - i
  {
    hide HitsIn, CString, LookupOf;
    if i >= end {
    } else {
      var r := BatchText(c, end, i);
      if r.Found? {
        SameHitsIn(c, c', CString(r.text));
        SameHitsFrom(c, c', end, i + c.lineBuffer);
      }
    }
  }

  lemma SameSpan(c: Searcher, c': Searcher, t: nat)
    requires Runnable(c) && Runnable(c') && c' == c.(limit := c'.limit)
    ensures SpanOf(c', t) == SpanOf(c, t)
  {
  }

  lemma {:induction false} SameHitsUpTo(c: Searcher, c': Searcher, n: nat)
    requires Runnable(c) && Runnable(c') && c' == c.(limit := c'.limit)
    ensures HitsUpTo(c', n) == HitsUpTo(c, n)
  {
    hide HitsFrom, AreWords, SpanOf;
    if n == 0 {
    } else {
      SameHitsUpTo(c, c', n - 1);
      SameSpan(c, c', n - 1);
      SameHitsFrom(c, c', SpanOf(c, n - 1).end, SpanOf(c, n - 1).start);
    }
  }

  lemma SameWanted(c: Searcher, c': Searcher)
    requires Valid(c) && Valid(c') && c' == c.(limit := c'.limit)
    ensures Wanted(c') == Wanted(c)
  {
    forall k | 0 <= k < |Lines(c)| ensures Findable(c', k) <==> Findable(c, k) {
      forall t | 0 <= t < Workers(c) ensures Hit(c', SpanOf(c', t), k) <==> Hit(c, SpanOf(c, t), k) {
      }
    }
  }

  /** On a complete index the matching tokens of the batches are as many as the wanted lines: a
      search whose limit is never met reports them all. */
  lemma HitsAreWanted(c: Searcher)
    requires Valid(c)
    ensures TotalHits(c) == |Wanted(c)|
  {
    var c' := c.(limit := TotalHits(c) + |Wanted(c)|);
    var schedule := SearchCanEnd(c', []);
    SameHitsUpTo(c, c', Workers(c));
    SameWanted(c, c');
    SearchIsExact(c', [] + schedule);
    SearchCountExact(c', [] + schedule);
  }

  /** A thread that went through its share has reported exactly the hits of the lines below its
      limit: all of them, and of a share that is not a multiple of the batch size never the last line. */
  lemma ThreadIsExact(c: Searcher, schedule: seq<nat>, t: nat, k: nat)
    requires Valid(c) && t < Workers(c) && t < |Run(c, schedule).workers| && SpanOf(c, t).start <= k < SpanOf(c, t).end
    requires var pc := Run(c, schedule).workers[t].pc; pc == Done(Finished) || pc == Done(Exhausted)
    ensures k + 1 in Reported(Run(c, schedule).callbacks) <==> k < SpanOf(c, t).limit && Hit(c, SpanOf(c, t), k)
  {
    var s := Run(c, schedule);
    InvRun(c, schedule);
    assert WorkerInv(c, SpanOf(c, t), s.workers[t], Reported(s.callbacks), s.count);
    assert In(Reported(s.callbacks), k) <==> k + 1 in Reported(s.callbacks);
  }

  // ---- which lines are looked at ----

  /** Line `k` is in the batch that the thread of this span looks up at line `i`. */
  ghost predicate InBatchAt(c: Searcher, span: Span, i: nat, k: nat)
    requires 0 < c.lineBuffer
  {
    Aligned(c, span, i) && i < span.end && i <= |Lines(c)| && i <= k < BatchStop(c, span, i)
  }

  lemma BatchOfAligned(c: Searcher, span: Span, k: nat)
    requires 0 < c.lineBuffer && span.start <= k
    ensures var i := BatchOf(c, span, k); 0 <= i <= k < i + c.lineBuffer && Aligned(c, span, i)
  {
    var q, r := (k - span.start) / c.lineBuffer, (k - span.start) % c.lineBuffer;
    Partitioning.Euclid(k - span.start, c.lineBuffer);
    DivUnique(q * c.lineBuffer, c.lineBuffer, q, 0);
    MulMono(0, q, c.lineBuffer);
  }

  lemma AlignedAfter(c: Searcher, span: Span, i: nat)
    requires 0 < c.lineBuffer && Aligned(c, span, i)
    ensures span.start <= i
  {
  }

  /** The lines below the limit of a span are exactly those in its batches. */
  lemma SpanIsBatches(c: Searcher, t: nat, k: nat)
    requires Valid(c) && t < Workers(c)
    ensures SpanOf(c, t).start <= k < SpanOf(c, t).limit <==> exists i: nat :: InBatchAt(c, SpanOf(c, t), i, k)
  {
    var span := SpanOf(c, t);
    SpanGood(c, t);
    hide Aligned, SpanOf, IsComplete, AreWords;
    if span.start <= k < span.limit {
      var i := BatchOf(c, span, k);
      BatchOfAligned(c, span, k);
      StopIsLimit(c, span, i);
      assert InBatchAt(c, span, i, k);
    }
    if i: nat :| InBatchAt(c, span, i, k) {
      StopIsLimit(c, span, i);
      AlignedAfter(c, span, i);
    }
  }

  /** Some thread looks line `k` up. */
  ghost predicate Examined(c: Searcher, k: nat)
    requires Valid(c)
  {
    exists t, i: nat :: 0 <= t < Workers(c) && InBatchAt(c, SpanOf(c, t), i, k)
  }

  lemma CoveredIsExamined(c: Searcher, k: nat)
    requires Valid(c)
    ensures Covered(c, k) <==> Examined(c, k)
  {
    hide InBatchAt, SpanOf, IsComplete, AreWords;
    if t :| 0 <= t < Workers(c) && SpanOf(c, t).start <= k < SpanOf(c, t).limit {
      SpanIsBatches(c, t, k);
      var i: nat :| InBatchAt(c, SpanOf(c, t), i, k);
    }
    if t, i: nat :| 0 <= t < Workers(c) && InBatchAt(c, SpanOf(c, t), i, k) {
      SpanIsBatches(c, t, k);
    }
  }

  lemma CoveredAt(c: Searcher, k: nat)
    requires Valid(c) && k < |Lines(c)|
    requires Workers(c) == 1 || (LinesEach(c) % c.lineBuffer == 0 && c.index.len % Workers(c) <= 1)
    ensures Covered(c, k)
  {
    var w, each := Workers(c), LinesEach(c);
    PositiveShare(c);
    LinesOfIndex(c);
    Partitioning.Euclid(c.index.len, w);
    Partitioning.Euclid(k, each);
    var t := k / each;
    if t >= w { MulMono(w, t, each); }
    if w == 1 { assert SpanOf(c, 0).start <= k < SpanOf(c, 0).limit; }
    else { assert SpanOf(c, t).start <= k < SpanOf(c, t).limit; }
  }

  lemma NotCovered(c: Searcher, k: nat)
    requires Valid(c) && Workers(c) > 1
    requires k == Workers(c) * LinesEach(c) || (k == LinesEach(c) - 1 && LinesEach(c) % c.lineBuffer != 0)
    ensures !Covered(c, k)
  {
    forall t | 0 <= t < Workers(c) ensures !(SpanOf(c, t).start <= k < SpanOf(c, t).limit) {
      PositiveShare(c);
      LinesOfIndex(c);
      MulMono(t + 1, Workers(c), LinesEach(c));
      assert (t + 1) * LinesEach(c) == t * LinesEach(c) + LinesEach(c);
      if t > 0 { MulMono(1, t, LinesEach(c)); }
    }
  }

  /** Every complete line of the file is examined exactly when there is one thread, or the batch
      size divides the share and at most one line (the one after the last newline) is left over. */
  lemma CoverageExact(c: Searcher)
    requires Valid(c)
    ensures var threads := Min(c.threads, c.index.len);
            (forall k :: 0 <= k < |Lines(c)| ==> Covered(c, k)) <==>
              threads == 1 || (c.index.len / threads % c.lineBuffer == 0 && c.index.len % threads <= 1)
  {
    var w, each, left := Workers(c), LinesEach(c), c.index.len % Workers(c);
    SharesExact(c.index.len, c.threads);
    PositiveShare(c);
    LinesOfIndex(c);
    Partitioning.Euclid(c.index.len, w);
    if w == 1 || (each % c.lineBuffer == 0 && left <= 1) {
      forall k | 0 <= k < |Lines(c)| ensures Covered(c, k) {
        CoveredAt(c, k);
      }
    } else if each % c.lineBuffer != 0 {
      MulMono(2, w, each);
      NotCovered(c, each - 1);
    } else {
      NotCovered(c, w * each);
    }
  }

  /** With more than one line and a thread for each of them, every share is one line: all complete
      lines are examined when a batch is one line too, and otherwise none is. */
  lemma CoverageOfMany(c: Searcher)
    requires Valid(c) && c.threads >= c.index.len > 1
    ensures (forall k :: 0 <= k < |Lines(c)| ==> Covered(c, k)) <==> c.lineBuffer == 1
    ensures c.lineBuffer > 1 ==> forall k: nat :: !Covered(c, k)
  {
    CoverageExact(c);
    SharesExact(c.index.len, c.threads);
    DivUnique(c.index.len, c.index.len, 1, 0);
    BufferPositive(c);
    if c.lineBuffer > 1 {
      DivUnique(1, c.lineBuffer, 0, 1);
      forall k: nat ensures !Covered(c, k) {
      }
    }
  }
}
