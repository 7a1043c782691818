/** What a search does with any offset file and any `len`: mutual exclusion, the
    limit, no deadlock, and an end under every schedule. */
module SearchSafety {
  import opened Wrappers
  import opened Machine
  import opened TextFiles
  import opened Tokenizer
  import opened LineLookup
  import opened Searching

  predicate InCritical(pc: Pc) {
    pc.Checking? || pc.Reporting? || pc.Unlocking?
  }

  /** One result may be counted before its callback has run. */
  ghost function InFlight(s: State): nat {
    if s.holder.Some? && s.holder.value < |s.workers| && s.workers[s.holder.value].pc.Reporting? then 1 else 0
  }

  ghost predicate CountInv(c: Searcher, s: State) {
    0 <= s.count <= Max(c.limit, 0) && s.count == |s.callbacks| + InFlight(s)
  }

  /** Mutual exclusion: the threads inside the mutex are exactly its one holder. */
  ghost predicate MutexInv(s: State) {
    && (s.holder.Some? ==> s.holder.value < |s.workers|)
    && forall t :: 0 <= t < |s.workers| ==> (InCritical(s.workers[t].pc) <==> s.holder == Some(t))
  }

  /** Something the search may report: a token that matches. */
  ghost predicate Presentable(c: Searcher, text: Text) {
    |text| > 0 && NEWLINE !in text && NulFree(text) && c.hasCallback && c.matches(text)
  }

  /** What every thread keeps, whatever it reads from the index. */
  ghost predicate WorkerSafe(c: Searcher, end: nat, w: Worker) {
    && (!w.pc.BatchHead? && !w.pc.Done? ==> w.i < end && (w.cursor.Some? ==> NulFree(w.cursor.value)))
    && (w.pc.Locking? || w.pc.Checking? || w.pc.Reporting? ==> Presentable(c, w.line))
  }

  ghost predicate Safe(c: Searcher, s: State)
    requires Runnable(c)
  {
    && |s.workers| == Workers(c)
    && CountInv(c, s) && MutexInv(s)
    && (forall a :: 0 <= a < |s.callbacks| ==> Presentable(c, s.callbacks[a].text))
    && (forall t :: 0 <= t < |s.workers| ==> WorkerSafe(c, SpanOf(c, t).end, s.workers[t]))
  }

  lemma TokenSafe(c: Searcher, end: nat, w: Worker)
    requires WorkerSafe(c, end, w) && w.pc.TokenHead?
    ensures WorkerSafe(c, end, AtTokenHead(c, w))
  {
    if w.cursor.Some? { TokenIsFirstLine(w.cursor.value); }
  }

  lemma EndWithin(c: Searcher, t: nat)
    requires Runnable(c) && t < Workers(c)
    ensures SpanOf(c, t).end <= c.index.len
  {
    ShareInside(c.index.len, Workers(c), t);
  }

  lemma BatchSafe(c: Searcher, end: nat, w: Worker, count: int)
    requires Runnable(c) && w.pc.BatchHead?
    ensures WorkerSafe(c, end, AtBatchHead(c, end, w, count))
  {
    hide Runnable, BatchText, NulFree, CString;
    if w.i < end && BatchText(c, end, w.i).Found? {
      CStringWhole(BatchText(c, end, w.i).text);
    }
  }

  /** The thread that takes a step stays safe. */
  lemma StepperSafe(c: Searcher, s: State, t: nat)
    requires Runnable(c) && Safe(c, s) && t < |s.workers|
    ensures t < |Step(c, s, t).workers| && WorkerSafe(c, SpanOf(c, t).end, Step(c, s, t).workers[t])
  {
    hide AtBatchHead, AtTokenHead, NulFree, Presentable, Runnable, SpanOf, CountInv, MutexInv;
    var w, end := s.workers[t], SpanOf(c, t).end;
    assert WorkerSafe(c, end, w);
    if w.pc.BatchHead? {
      BatchSafe(c, end, w, s.count);
    } else if w.pc.TokenHead? {
      TokenSafe(c, end, w);
    }
  }

  lemma BatchOutside(c: Searcher, end: nat, w: Worker, count: int)
    requires Runnable(c)
    ensures w.pc.BatchHead? ==> !InCritical(AtBatchHead(c, end, w, count).pc)
  {
    hide Runnable, BatchText, CString;
  }

  lemma TokenOutside(c: Searcher, w: Worker)
    ensures w.pc.TokenHead? ==> !InCritical(AtTokenHead(c, w).pc)
  {
    hide Token, Rest;
  }

  lemma StepCounts(c: Searcher, s: State, t: nat)
    requires Runnable(c) && Safe(c, s)
    ensures CountInv(c, Step(c, s, t)) && MutexInv(Step(c, s, t))
  {
    hide Presentable, Runnable, SpanOf, WorkerSafe, AtBatchHead, AtTokenHead;
    if t < |s.workers| {
      if s.workers[t].pc.BatchHead? { BatchOutside(c, SpanOf(c, t).end, s.workers[t], s.count); }
      if s.workers[t].pc.TokenHead? { TokenOutside(c, s.workers[t]); }
    }
  }

  lemma StepCallbacks(c: Searcher, s: State, t: nat)
    requires Runnable(c) && Safe(c, s)
    ensures forall a :: 0 <= a < |Step(c, s, t).callbacks| ==> Presentable(c, Step(c, s, t).callbacks[a].text)
  {
    hide Presentable, Runnable, SpanOf, NulFree, CountInv, MutexInv, AtBatchHead, AtTokenHead;
    if t < |s.workers| && s.workers[t].pc.Reporting? {
      assert WorkerSafe(c, SpanOf(c, t).end, s.workers[t]);
    }
  }

  lemma StepOthers(c: Searcher, s: State, t: nat)
    requires Runnable(c)
    ensures |Step(c, s, t).workers| == |s.workers|
    ensures forall u :: 0 <= u < |s.workers| && u != t ==> Step(c, s, t).workers[u] == s.workers[u]
  {
    hide Runnable, SpanOf, AtBatchHead, AtTokenHead;
  }

  lemma SafeStep(c: Searcher, s: State, t: nat)
    requires Runnable(c) && Safe(c, s)
    ensures Safe(c, Step(c, s, t))
  {
    hide Presentable, Runnable, SpanOf, CountInv, MutexInv, Step, WorkerSafe;
    StepCounts(c, s, t);
    StepCallbacks(c, s, t);
    StepOthers(c, s, t);
    if t < |s.workers| { StepperSafe(c, s, t); }
  }

  lemma SafeInit(c: Searcher)
    requires Runnable(c)
    ensures Safe(c, Init(c))
  {
  }

  lemma {:induction false} SafeRun(c: Searcher, schedule: seq<nat>)
    requires Runnable(c)
    ensures Safe(c, Run(c, schedule))
  {
    if |schedule| == 0 {
      SafeInit(c);
    } else {
      SafeRun(c, schedule[..|schedule| - 1]);
      SafeStep(c, Run(c, schedule[..|schedule| - 1]), schedule[|schedule| - 1]);
    }
  }

  /** On any index, at every moment of every interleaving: no more results than the limit, although
      the counter is also read outside the mutex; at most one thread inside the mutex; every result
      is a non-empty token without newline or NUL that matches. */
  lemma SearchKeepsLimit(c: Searcher, schedule: seq<nat>)
    requires Runnable(c)
    ensures var s := Run(c, schedule);
            && |s.callbacks| <= s.count <= Max(c.limit, 0)
            && (forall a :: 0 <= a < |s.callbacks| ==> Presentable(c, s.callbacks[a].text))
            && forall t, u :: 0 <= t < u < |s.workers| ==> !(InCritical(s.workers[t].pc) && InCritical(s.workers[u].pc))
  {
    SafeRun(c, schedule);
  }

  // ---- no thread ends because of a lookup ----

  ghost predicate NoneFailed(s: State) {
    forall t :: 0 <= t < |s.workers| ==> s.workers[t].pc != Done(LookupFailed)
  }

  lemma BatchSucceeds(c: Searcher, end: nat, w: Worker, count: int)
    requires Runnable(c) && IsCounted(c.index) && NonIncreasing(c.index.entries) && end <= c.index.len
    requires w.pc.BatchHead?
    ensures AtBatchHead(c, end, w, count).pc != Done(LookupFailed)
  {
    hide IsCounted, NonIncreasing, LookupOf;
    if w.i < end { LookupSucceeds(c.index, w.i, BatchSize(c, end, w.i), c.memory(w.i)); }
  }

  lemma NoneFailedStep(c: Searcher, s: State, t: nat)
    requires Runnable(c) && IsCounted(c.index) && NonIncreasing(c.index.entries) && Safe(c, s) && NoneFailed(s)
    ensures NoneFailed(Step(c, s, t))
  {
    hide Runnable, IsCounted, NonIncreasing, SpanOf, AtBatchHead, CountInv, MutexInv, WorkerSafe, Presentable;
    StepOthers(c, s, t);
    if t < |s.workers| && s.workers[t].pc.BatchHead? {
      EndWithin(c, t);
      BatchSucceeds(c, SpanOf(c, t).end, s.workers[t], s.count);
    }
  }

  /** On an index whose entries are all counted and never rise, no lookup of any thread fails. */
  lemma {:induction false} SearchNeverFails(c: Searcher, schedule: seq<nat>)
    requires Runnable(c) && IsCounted(c.index) && NonIncreasing(c.index.entries)
    ensures NoneFailed(Run(c, schedule))
  {
    hide Runnable, IsCounted, NonIncreasing, Step, SpanOf, Safe;
    if |schedule| == 0 {
    } else {
      var before := schedule[..|schedule| - 1];
      SearchNeverFails(c, before);
      SafeRun(c, before);
      NoneFailedStep(c, Run(c, before), schedule[|schedule| - 1]);
    }
  }

  // ---- they always can end ----

  /** What is left of a batch once the cursor is where it is; `each` bounds the work of a batch. */
  ghost function InBatchWork(each: nat, end: nat, w: Worker): nat {
    (if w.i < end then end - w.i - 1 else 0) * each + 2 + 8 * if w.cursor.Some? then |w.cursor.value| + 1 else 0
  }

  /** An upper bound on the steps one thread can still take. */
  ghost function Work(each: nat, end: nat, w: Worker): nat {
    match w.pc
    case BatchHead => (if w.i < end then end - w.i else 0) * each + 1
    case TokenHead => InBatchWork(each, end, w)
    case NoMatch => InBatchWork(each, end, w) + 1
    case Unlocking(_) => InBatchWork(each, end, w) + 1
    case Reporting => InBatchWork(each, end, w) + 2
    case Checking => InBatchWork(each, end, w) + 3
    case Locking => InBatchWork(each, end, w) + 4
    case Done(_) => 0
  }

  ghost function Each(c: Searcher): nat {
    8 * (|c.index.file| + 3)
  }

  ghost function WorkUpTo(c: Searcher, s: State, n: nat): nat
    requires Runnable(c) && n <= |s.workers|
  {
    if n == 0 then 0 else WorkUpTo(c, s, n - 1) + Work(Each(c), SpanOf(c, n - 1).end, s.workers[n - 1])
  }

  lemma {:induction false} WorkOfOne(c: Searcher, s: State, s': State, t: nat, n: nat)
    requires Runnable(c) && n <= |s.workers| == |s'.workers| && t < |s.workers|
    requires forall u :: 0 <= u < |s.workers| && u != t ==> s'.workers[u] == s.workers[u]
    requires Work(Each(c), SpanOf(c, t).end, s'.workers[t]) < Work(Each(c), SpanOf(c, t).end, s.workers[t])
    ensures WorkUpTo(c, s', n) <= WorkUpTo(c, s, n) && (t < n ==> WorkUpTo(c, s', n) < WorkUpTo(c, s, n))
  {
    if n == 0 {
    } else {
      WorkOfOne(c, s, s', t, n - 1);
    }
  }

  lemma BatchWithin(c: Searcher, end: nat, w: Worker)
    requires Runnable(c) && w.i < end && BatchText(c, end, w.i).Found?
    ensures |BatchText(c, end, w.i).text| <= |c.index.file|
  {
  }

  lemma BatchWork(each: nat, end: nat, w: Worker, next: Worker)
    requires w.pc.BatchHead? && next.pc.TokenHead? && next.i == w.i < end
    requires next.cursor.Some? && 8 * |next.cursor.value| + 10 < each + 1
    ensures Work(each, end, next) < Work(each, end, w)
  {
    assert (end - w.i) * each == (end - w.i - 1) * each + each;
  }

  lemma WorkAtBatchHead(c: Searcher, end: nat, w: Worker, count: int)
    requires Runnable(c) && w.pc.BatchHead?
    ensures Work(Each(c), end, AtBatchHead(c, end, w, count)) < Work(Each(c), end, w)
  {
    hide Runnable, BatchText, CString;
    if w.i < end && count < c.limit && BatchText(c, end, w.i).Found? {
      var text := BatchText(c, end, w.i).text;
      BatchWithin(c, end, w);
      CStringWhole(text);
      BatchWork(Each(c), end, w, w.(pc := TokenHead, cursor := Some(CString(text)), lineNumber := w.i));
    }
  }

  lemma WorkAtTokenHead(c: Searcher, each: nat, end: nat, w: Worker)
    requires 0 < c.lineBuffer && w.pc.TokenHead? && w.i < end
    ensures Work(each, end, AtTokenHead(c, w)) < Work(each, end, w)
  {
    if w.cursor == None {
      var next := w.i + c.lineBuffer;
      MulMono(if next < end then end - next else 0, end - w.i - 1, each);
    }
  }

  /** The order of the program points inside a batch. */
  predicate Later(pc: Pc, next: Pc) {
    match pc
    case NoMatch => next.TokenHead? || next.Done?
    case Locking => next.Checking?
    case Checking => next.Reporting? || next.Unlocking?
    case Reporting => next.Unlocking?
    case Unlocking(_) => next.TokenHead? || next.Done?
    case _ => false
  }

  lemma WorkLater(each: nat, end: nat, w: Worker, next: Pc)
    requires Later(w.pc, next)
    ensures Work(each, end, w.(pc := next)) < Work(each, end, w)
  {
    assert InBatchWork(each, end, w.(pc := next)) == InBatchWork(each, end, w);
  }

  predicate Blocked(s: State, t: nat) {
    t >= |s.workers| || s.workers[t].pc.Done? || (s.workers[t].pc.Locking? && s.holder != None)
  }

  lemma BufferPositive(c: Searcher)
    requires Runnable(c)
    ensures 0 < c.lineBuffer
  {
  }

  /** A step that is not blocked changes one thread, which then has less to do. */
  lemma StepOfOne(c: Searcher, s: State, t: nat)
    requires Runnable(c) && Safe(c, s) && !Blocked(s, t)
    ensures var s', end := Step(c, s, t), SpanOf(c, t).end;
            && |s'.workers| == |s.workers|
            && (forall u :: 0 <= u < |s.workers| && u != t ==> s'.workers[u] == s.workers[u])
            && Work(Each(c), end, s'.workers[t]) < Work(Each(c), end, s.workers[t])
  {
    hide Runnable, SpanOf, Work, AtBatchHead, AtTokenHead, CountInv, MutexInv, Presentable, NulFree;
    var s', w, end := Step(c, s, t), s.workers[t], SpanOf(c, t).end;
    assert WorkerSafe(c, end, w);
    BufferPositive(c);
    if w.pc.BatchHead? {
      WorkAtBatchHead(c, end, w, s.count);
    } else if w.pc.TokenHead? {
      WorkAtTokenHead(c, Each(c), end, w);
    } else {
      assert s'.workers[t] == w.(pc := s'.workers[t].pc);
      WorkLater(Each(c), end, w, s'.workers[t].pc);
    }
  }

  /** Every step that is not blocked uses up work. */
  lemma StepWorks(c: Searcher, s: State, t: nat)
    requires Runnable(c) && Safe(c, s) && !Blocked(s, t)
    ensures |Step(c, s, t).workers| == |s.workers|
    ensures WorkUpTo(c, Step(c, s, t), |s.workers|) < WorkUpTo(c, s, |s.workers|)
  {
    hide Runnable, Safe, Work, Step, SpanOf;
    StepOfOne(c, s, t);
    WorkOfOne(c, s, Step(c, s, t), t, |s.workers|);
  }

  /** No deadlock: as long as some thread has not ended, some thread can take a step. */
  lemma SomeoneCanStep(c: Searcher, s: State) returns (t: nat)
    requires Runnable(c) && Safe(c, s) && !AllDone(s)
    ensures !Blocked(s, t)
  {
    if s.holder.Some? {
      t := s.holder.value;
      assert InCritical(s.workers[t].pc);
    } else {
      t :| 0 <= t < |s.workers| && !s.workers[t].pc.Done?;
    }
  }

  ghost function TotalWork(c: Searcher, s: State): nat
    requires Runnable(c)
  {
    WorkUpTo(c, s, |s.workers|)
  }

  /** How many of the scheduled steps did something. */
  ghost function StepsTaken(c: Searcher, schedule: seq<nat>): nat
    requires Runnable(c)
  {
    if |schedule| == 0 then 0
    else
      var n := |schedule| - 1;
      StepsTaken(c, schedule[..n]) + if Blocked(Run(c, schedule[..n]), schedule[n]) then 0 else 1
  }

  /** No schedule can keep the search going: the steps that do something are bounded in advance. */
  lemma {:induction false} SearchIsBounded(c: Searcher, schedule: seq<nat>)
    requires Runnable(c)
    ensures StepsTaken(c, schedule) + TotalWork(c, Run(c, schedule)) <= TotalWork(c, Init(c))
  {
    if |schedule| > 0 {
      var n := |schedule| - 1;
      var s, t := Run(c, schedule[..n]), schedule[n];
      SearchIsBounded(c, schedule[..n]);
      SafeRun(c, schedule[..n]);
      if Blocked(s, t) {
        assert Step(c, s, t) == s;
      } else {
        StepWorks(c, s, t);
      }
    }
  }

  /** From every reachable state the search can be scheduled to its end. */
  lemma {:induction false} SearchCanEnd(c: Searcher, schedule: seq<nat>) returns (more: seq<nat>)
    requires Runnable(c)
    ensures AllDone(Run(c, schedule + more))
    decreases TotalWork(c, Run(c, schedule))
  {
    var s := Run(c, schedule);
    SafeRun(c, schedule);
    if AllDone(s) {
      more := [];
      assert schedule + [] == schedule;
    } else {
      var t := SomeoneCanStep(c, s);
      StepWorks(c, s, t);
      assert (schedule + [t])[..|schedule|] == schedule;
      assert Run(c, schedule + [t]) == Step(c, s, t);
      var rest := SearchCanEnd(c, schedule + [t]);
      more := [t] + rest;
      assert schedule + more == (schedule + [t]) + rest;
    }
  }

  // ---- giving up ----

  lemma CountGrows(c: Searcher, s: State, t: nat)
    requires Runnable(c)
    ensures s.count <= Step(c, s, t).count
  {
    hide Runnable, SpanOf, AtBatchHead, AtTokenHead;
  }

  lemma GivesUp(c: Searcher, s: State, t: nat)
    requires Runnable(c) && t < |s.workers| && s.count >= c.limit
    ensures t < |Step(c, s, t).workers|
    ensures s.workers[t].pc.BatchHead? || s.workers[t].pc.NoMatch? || s.workers[t].pc.Done? ==>
              Step(c, s, t).workers[t].pc.Done?
  {
    hide Runnable, SpanOf, AtTokenHead;
  }

  lemma RunStep(c: Searcher, schedule: seq<nat>, t: nat)
    requires Runnable(c)
    ensures Run(c, schedule + [t]) == Step(c, Run(c, schedule), t)
  {
    assert (schedule + [t])[..|schedule|] == schedule;
  }

  /** A thread that comes to a batch, or has seen a token that does not match, when the limit is met
      looks nothing up any more: wherever the others get in the meantime, its next step is its last. */
  lemma {:induction false} LimitEndsThread(c: Searcher, s: State, schedule: seq<nat>, more: seq<nat>, t: nat)
    requires Runnable(c) && s == Run(c, schedule) && t < |s.workers| && s.count >= c.limit
    requires s.workers[t].pc.BatchHead? || s.workers[t].pc.NoMatch?
    ensures var s' := Run(c, schedule + more);
            && |s'.workers| == |s.workers| && s'.count >= c.limit
            && (if t in more then s'.workers[t].pc.Done? else s'.workers[t] == s.workers[t])
  {
    hide Runnable, Step, SpanOf, Run;
    if |more| == 0 {
      assert schedule + more == schedule;
    } else {
      var n := |more| - 1;
      LimitEndsThread(c, s, schedule, more[..n], t);
      var before := Run(c, schedule + more[..n]);
      RunStep(c, schedule + more[..n], more[n]);
      assert schedule + more == schedule + more[..n] + [more[n]] && more == more[..n] + [more[n]];
      StepOthers(c, before, more[n]);
      CountGrows(c, before, more[n]);
      GivesUp(c, before, t);
    }
  }
}
