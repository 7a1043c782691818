/** How many results a search over any offset file with any `len` reports: what has been reported and
    what the threads have still to find always add up, until the limit is met. */
module SearchCounts {
  import opened Wrappers
  import opened Machine
  import opened TextFiles
  import opened Tokenizer
  import opened LineLookup
  import opened Searching
  import opened SearchSafety

  // ---- what there is to be found ----

  /** Of the tokens of a text, those the search reports. */
  ghost function HitsIn(c: Searcher, s: Text): nat
    decreases |s|
  {
    (if c.hasCallback && |Token(s)| > 0 && c.matches(Token(s)) then 1 else 0)
    + match Rest(s)
      case None => 0
      case Some(r) => HitsIn(c, r)
  }

  /** In the batches from line `i` on. */
  ghost function HitsFrom(c: Searcher, end: nat, i: nat): nat
    requires Runnable(c)
    decreases end - i
  {
    if i >= end then 0
    else
      match BatchText(c, end, i)
      case Found(text) => HitsIn(c, CString(text)) + HitsFrom(c, end, i + c.lineBuffer)
      case _ => 0
  }

  /** After the token at hand. */
  ghost function HitsAfter(c: Searcher, end: nat, w: Worker): nat
    requires Runnable(c)
  {
    (if w.cursor.Some? then HitsIn(c, w.cursor.value) else 0) + HitsFrom(c, end, w.i + c.lineBuffer)
  }

  /** What a thread has still to report; nothing once it has given up. */
  ghost function Remaining(c: Searcher, end: nat, w: Worker): nat
    requires Runnable(c)
  {
    match w.pc
    case BatchHead => HitsFrom(c, end, w.i)
    case TokenHead => HitsAfter(c, end, w)
    case NoMatch => HitsAfter(c, end, w)
    case Locking => 1 + HitsAfter(c, end, w)
    case Checking => 1 + HitsAfter(c, end, w)
    case Reporting => 1 + HitsAfter(c, end, w)
    case Unlocking(exit) => if exit then 0 else HitsAfter(c, end, w)
    case Done(_) => 0
  }

  ghost function RemainingUpTo(c: Searcher, s: State, n: nat): nat
    requires Runnable(c) && n <= |s.workers|
  {
    if n == 0 then 0 else RemainingUpTo(c, s, n - 1) + Remaining(c, SpanOf(c, n - 1).end, s.workers[n - 1])
  }

  /** All the hits in the batches of the first `n` threads. */
  ghost function HitsUpTo(c: Searcher, n: nat): nat
    requires Runnable(c)
  {
    if n == 0 then 0 else HitsUpTo(c, n - 1) + HitsFrom(c, SpanOf(c, n - 1).end, SpanOf(c, n - 1).start)
  }

  ghost function TotalHits(c: Searcher): nat
    requires Runnable(c)
  {
    HitsUpTo(c, Workers(c))
  }

  // ---- a step moves hits from what remains to what is reported, or gives them up ----

  lemma BatchHeadKeeps(c: Searcher, end: nat, w: Worker, count: int)
    requires Runnable(c) && w.pc.BatchHead?
    ensures Remaining(c, end, AtBatchHead(c, end, w, count)) <= Remaining(c, end, w)
    ensures count < c.limit ==> Remaining(c, end, AtBatchHead(c, end, w, count)) == Remaining(c, end, w)
  {
    hide Runnable, BatchText, CString, HitsIn;
  }

  lemma TokenHeadKeeps(c: Searcher, end: nat, w: Worker)
    requires Runnable(c) && w.pc.TokenHead?
    ensures Remaining(c, end, AtTokenHead(c, w)) == Remaining(c, end, w)
  {
    hide Runnable, BatchText, CString, Token, Rest;
    if w.cursor == None {
      assert HitsAfter(c, end, w) == HitsFrom(c, end, w.i + c.lineBuffer);
    }
  }

  ghost function Sum(c: Searcher, end: nat, s: State, t: nat): nat
    requires Runnable(c) && t < |s.workers|
  {
    |s.callbacks| + Remaining(c, end, s.workers[t])
  }

  /** What the steps of one thread change: a hit goes over to the results, or hits are given up,
      and then the counter has reached the limit. */
  lemma StepperKeeps(c: Searcher, s: State, t: nat)
    requires Runnable(c) && t < |s.workers|
    ensures t < |Step(c, s, t).workers| && s.count <= Step(c, s, t).count
    ensures Sum(c, SpanOf(c, t).end, Step(c, s, t), t) <= Sum(c, SpanOf(c, t).end, s, t)
    ensures s.count < c.limit ==> Sum(c, SpanOf(c, t).end, Step(c, s, t), t) == Sum(c, SpanOf(c, t).end, s, t)
  {
    hide Runnable, SpanOf, HitsFrom, HitsIn, AtBatchHead, AtTokenHead;
    var w, end := s.workers[t], SpanOf(c, t).end;
    if w.pc.BatchHead? {
      BatchHeadKeeps(c, end, w, s.count);
    } else if w.pc.TokenHead? {
      TokenHeadKeeps(c, end, w);
    }
  }

  lemma {:induction false} RemainingOfOne(c: Searcher, s: State, s': State, t: nat, n: nat)
    requires Runnable(c) && n <= |s.workers| == |s'.workers| && t < |s.workers|
    requires forall u :: 0 <= u < |s.workers| && u != t ==> s'.workers[u] == s.workers[u]
    ensures RemainingUpTo(c, s', n) - RemainingUpTo(c, s, n) == if t >= n then 0 else
              Remaining(c, SpanOf(c, t).end, s'.workers[t]) - Remaining(c, SpanOf(c, t).end, s.workers[t])
  {
    hide Runnable, SpanOf, Remaining;
    if n == 0 {
    } else {
      RemainingOfOne(c, s, s', t, n - 1);
    }
  }

  /** Nothing is found twice or from nowhere; hits are given up only at the limit. */
  ghost predicate Conserved(c: Searcher, s: State)
    requires Runnable(c)
  {
    var sum := |s.callbacks| + RemainingUpTo(c, s, |s.workers|);
    sum <= TotalHits(c) && (sum == TotalHits(c) || s.count >= c.limit)
  }

  lemma StepNobody(c: Searcher, s: State, t: nat)
    requires Runnable(c) && t >= |s.workers|
    ensures Step(c, s, t) == s
  {
  }

  lemma ConservedStep(c: Searcher, s: State, t: nat)
    requires Runnable(c) && Conserved(c, s)
    ensures Conserved(c, Step(c, s, t))
  {
    hide Runnable, SpanOf, Remaining, Step, TotalHits;
    StepOthers(c, s, t);
    if t < |s.workers| {
      StepperKeeps(c, s, t);
      RemainingOfOne(c, s, Step(c, s, t), t, |s.workers|);
    } else {
      StepNobody(c, s, t);
    }
  }

  lemma {:induction false} ConservedInit(c: Searcher, n: nat)
    requires Runnable(c) && n <= Workers(c)
    ensures |Init(c).workers| == Workers(c) && |Init(c).callbacks| == 0
    ensures RemainingUpTo(c, Init(c), n) == HitsUpTo(c, n)
  {
    hide Runnable, SpanOf, HitsFrom;
    if n == 0 {
    } else {
      ConservedInit(c, n - 1);
    }
  }

  lemma {:induction false} ConservedRun(c: Searcher, schedule: seq<nat>)
    requires Runnable(c)
    ensures Conserved(c, Run(c, schedule))
  {
    hide Runnable, Step, Init, HitsUpTo, RemainingUpTo;
    if |schedule| == 0 {
      ConservedInit(c, Workers(c));
    } else {
      ConservedRun(c, schedule[..|schedule| - 1]);
      ConservedStep(c, Run(c, schedule[..|schedule| - 1]), schedule[|schedule| - 1]);
    }
  }

  lemma {:induction false} NothingRemains(c: Searcher, s: State, n: nat)
    requires Runnable(c) && AllDone(s) && n <= |s.workers|
    ensures RemainingUpTo(c, s, n) == 0
  {
    hide Runnable, SpanOf, HitsFrom;
    if n == 0 {
    } else {
      NothingRemains(c, s, n - 1);
    }
  }

  /** Over any index, in every interleaving: once all threads have ended, the number of results is
      exactly the smaller of the limit and the number of matching tokens in their batches. */
  lemma SearchCountExact(c: Searcher, schedule: seq<nat>)
    requires Runnable(c) && AllDone(Run(c, schedule))
    ensures |Run(c, schedule).callbacks| == Max(0, Min(c.limit, TotalHits(c)))
  {
    hide Runnable, Run, RemainingUpTo, TotalHits, MutexInv;
    SafeRun(c, schedule);
    ConservedRun(c, schedule);
    NothingRemains(c, Run(c, schedule), |Run(c, schedule).workers|);
  }
}
