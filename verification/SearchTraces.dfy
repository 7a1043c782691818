/** Which tokens a search over any offset file with any `len` reports, and under which numbers: every
    result has an origin, a thread, a batch and a place in it. */
module SearchTraces {
  import opened Wrappers
  import opened Machine
  import opened TextFiles
  import opened Tokenizer
  import opened LineLookup
  import opened Searching
  import opened SearchSafety
  import opened SearchCounts
  import opened SearchOutcome
  import Partitioning

  // ---- what there is to be found ----

  /** What the thread of a span that ends at `end` gets for the batch at line `i`. */
  ghost function TextAt(c: Searcher, end: nat, i: nat): LookupResult
    requires Runnable(c) && i < end
  {
    LookupOf(c.index, i, if i + c.lineBuffer > end then end - i - 1 else c.lineBuffer, c.memory(i))
  }

  ghost function TokensAt(c: Searcher, end: nat, i: nat): seq<Text>
    requires Runnable(c) && i < end
  {
    match TextAt(c, end, i)
    case Found(text) => Tokens(CString(text))
    case _ => []
  }

  ghost predicate IsBatch(c: Searcher, span: Span, i: nat)
    requires Runnable(c)
  {
    span.start <= i && (i - span.start) % c.lineBuffer == 0
  }

  /** The thread of this span comes to line `i`: every batch before it is found. */
  ghost predicate Reached(c: Searcher, span: Span, i: nat)
    requires Runnable(c)
  {
    && IsBatch(c, span, i)
    && forall h: nat :: h < i && h < span.end && IsBatch(c, span, h) ==> TextAt(c, span.end, h).Found?
  }

  /** Token `j` of the batch at `i` is there, is not empty and matches. */
  ghost predicate HitAt(c: Searcher, span: Span, i: nat, j: int)
    requires Runnable(c)
  {
    && i < span.end && Reached(c, span, i) && 0 <= j < |TokensAt(c, span.end, i)|
    && c.hasCallback && |TokensAt(c, span.end, i)[j]| > 0 && c.matches(TokensAt(c, span.end, i)[j])
  }

  datatype Origin = Origin(thread: nat, batch: nat, token: int)

  ghost predicate IsHit(c: Searcher, o: Origin)
    requires Runnable(c)
  {
    o.thread < Workers(c) && HitAt(c, SpanOf(c, o.thread), o.batch, o.token)
  }

  /** The result of a hit: its line number counts the tokens of its batch. */
  ghost predicate IsResult(c: Searcher, o: Origin, cb: Callback)
    requires Runnable(c)
  {
    && IsHit(c, o)
    && cb == Callback(o.batch + o.token + 1, TokensAt(c, SpanOf(c, o.thread).end, o.batch)[o.token])
  }

  // ---- where the results of a run come from ----

  /** The token a thread has just taken. */
  ghost function OriginOf(t: nat, w: Worker): Origin {
    Origin(t, w.i, w.lineNumber - w.i - 1)
  }

  ghost function OriginsAfter(origins: seq<Origin>, s: State, t: nat): seq<Origin> {
    if t < |s.workers| && s.workers[t].pc.Reporting? then origins + [OriginOf(t, s.workers[t])] else origins
  }

  /** One origin for every result of the run, in the same order. */
  ghost function OriginsOf(c: Searcher, schedule: seq<nat>): seq<Origin>
    requires Runnable(c)
  {
    if |schedule| == 0 then []
    else
      var n := |schedule| - 1;
      OriginsAfter(OriginsOf(c, schedule[..n]), Run(c, schedule[..n]), schedule[n])
  }

  // ---- the invariant of one thread ----

  ghost predicate Before(b: nat, j: int, i: nat, n: int) {
    b < i || (b == i && j < n)
  }

  /** Of the hits of this thread exactly those before token `n` of the batch at `i` are reported. */
  ghost predicate Upto(c: Searcher, span: Span, t: nat, origins: seq<Origin>, i: nat, n: int)
    requires Runnable(c)
  {
    forall b: nat, j: int :: Origin(t, b, j) in origins <==> HitAt(c, span, b, j) && Before(b, j, i, n)
  }

  ghost predicate Everything(c: Searcher, span: Span, t: nat, origins: seq<Origin>)
    requires Runnable(c)
  {
    forall b: nat, j: int :: Origin(t, b, j) in origins <==> HitAt(c, span, b, j)
  }

  /** The tokens from token `n` on are still under the cursor. */
  ghost predicate Ahead(tokens: seq<Text>, n: int, cursor: Option<Text>) {
    && 0 <= n <= |tokens|
    && match cursor
       case None => n == |tokens|
       case Some(s) => Tokens(s) == tokens[n..]
  }

  ghost predicate AtToken(c: Searcher, span: Span, w: Worker)
    requires Runnable(c)
  {
    && w.i < span.end && Reached(c, span, w.i) && TextAt(c, span.end, w.i).Found?
    && Ahead(TokensAt(c, span.end, w.i), w.lineNumber - w.i, w.cursor)
  }

  ghost predicate Reading(c: Searcher, span: Span, t: nat, w: Worker, origins: seq<Origin>)
    requires Runnable(c)
  {
    AtToken(c, span, w) && Upto(c, span, t, origins, w.i, w.lineNumber - w.i)
  }

  ghost predicate Holding(c: Searcher, span: Span, t: nat, w: Worker, origins: seq<Origin>)
    requires Runnable(c)
  {
    && AtToken(c, span, w) && HitAt(c, span, w.i, w.lineNumber - w.i - 1)
    && w.line == TokensAt(c, span.end, w.i)[w.lineNumber - w.i - 1]
    && Upto(c, span, t, origins, w.i, w.lineNumber - w.i - 1)
  }

  ghost predicate Traced(c: Searcher, span: Span, t: nat, w: Worker, origins: seq<Origin>, count: int)
    requires Runnable(c)
  {
    match w.pc
    case BatchHead => Reached(c, span, w.i) && Upto(c, span, t, origins, w.i, 0)
    case TokenHead => Reading(c, span, t, w, origins)
    case NoMatch => Reading(c, span, t, w, origins)
    case Locking => Holding(c, span, t, w, origins)
    case Checking => Holding(c, span, t, w, origins)
    case Reporting => Holding(c, span, t, w, origins)
    case Unlocking(exit) => if exit then count >= c.limit else Reading(c, span, t, w, origins)
    case Done(reason) => if reason == LimitMet then count >= c.limit else Everything(c, span, t, origins)
  }

  // ---- the steps of one thread keep it ----

  lemma Moved(c: Searcher, span: Span, t: nat, origins: seq<Origin>, i: nat, n: int, i': nat, n': int)
    requires Runnable(c) && Upto(c, span, t, origins, i, n)
    requires forall b: nat, j: int :: HitAt(c, span, b, j) ==> (Before(b, j, i, n) <==> Before(b, j, i', n'))
    ensures Upto(c, span, t, origins, i', n')
  {
    hide Runnable, HitAt, Before;
  }

  lemma AllMoved(c: Searcher, span: Span, t: nat, origins: seq<Origin>, i: nat, n: int)
    requires Runnable(c) && Upto(c, span, t, origins, i, n)
    requires forall b: nat, j: int :: HitAt(c, span, b, j) ==> Before(b, j, i, n)
    ensures Everything(c, span, t, origins)
  {
    hide Runnable, HitAt, Before;
  }

  lemma TextIsBatch(c: Searcher, end: nat, i: nat)
    requires Runnable(c) && i < end
    ensures TextAt(c, end, i) == BatchText(c, end, i)
  {
  }

  /** Nothing is found from a batch on that is not there. */
  lemma NothingBeyond(c: Searcher, span: Span, i: nat, b: nat, j: int)
    requires Runnable(c) && Reached(c, span, i) && (i < span.end ==> !TextAt(c, span.end, i).Found?)
    requires HitAt(c, span, b, j)
    ensures Before(b, j, i, 0)
  {
    hide Runnable, LookupOf;
  }

  lemma FirstToken(c: Searcher, end: nat, i: nat, text: Text)
    requires Runnable(c) && i < end && TextAt(c, end, i) == Found(text)
    ensures Ahead(TokensAt(c, end, i), 0, Some(CString(text)))
  {
    hide Runnable, TextAt, Tokens, CString;
    var tokens := TokensAt(c, end, i);
    assert tokens[0..] == tokens;
  }

  lemma TracedBatchHead(c: Searcher, span: Span, t: nat, w: Worker, origins: seq<Origin>, count: int)
    requires Runnable(c) && w.pc.BatchHead? && Traced(c, span, t, w, origins, count)
    ensures Traced(c, span, t, AtBatchHead(c, span.end, w, count), origins, count)
  {
    hide Runnable, Upto, Everything, Reached, HitAt, Before, BatchText, TextAt, TokensAt, Ahead, CString;
    if w.i < span.end { TextIsBatch(c, span.end, w.i); }
    if w.i >= span.end || (count < c.limit && !TextAt(c, span.end, w.i).Found?) {
      forall b: nat, j: int | HitAt(c, span, b, j) ensures Before(b, j, w.i, 0) {
        NothingBeyond(c, span, w.i, b, j);
      }
      AllMoved(c, span, t, origins, w.i, 0);
    } else if count < c.limit {
      FirstToken(c, span.end, w.i, TextAt(c, span.end, w.i).text);
    }
  }

  /** Batches are `lineBuffer` lines apart. */
  lemma BatchesApart(c: Searcher, span: Span, i: nat, h: nat)
    requires Runnable(c) && IsBatch(c, span, i)
    ensures IsBatch(c, span, i + c.lineBuffer)
    ensures IsBatch(c, span, h) && h < i + c.lineBuffer ==> h <= i
  {
    var d := i - span.start;
    ResidueStep(d, c.lineBuffer);
    if IsBatch(c, span, h) && i < h < i + c.lineBuffer {
      Partitioning.Euclid(d, c.lineBuffer);
      DivUnique(h - span.start, c.lineBuffer, d / c.lineBuffer, h - i);
    }
  }

  lemma NextBatch(c: Searcher, span: Span, i: nat)
    requires Runnable(c) && Reached(c, span, i) && i < span.end && TextAt(c, span.end, i).Found?
    ensures Reached(c, span, i + c.lineBuffer)
  {
    hide Runnable, IsBatch, TextAt;
    BatchesApart(c, span, i, i);
    forall h: nat | h < i + c.lineBuffer && h < span.end && IsBatch(c, span, h)
      ensures TextAt(c, span.end, h).Found?
    {
      BatchesApart(c, span, i, h);
    }
  }

  lemma BatchOfHit(c: Searcher, span: Span, i: nat, b: nat, j: int)
    requires Runnable(c) && Reached(c, span, i) && i < span.end && HitAt(c, span, b, j)
    ensures Before(b, j, i, |TokensAt(c, span.end, i)|) <==> Before(b, j, i + c.lineBuffer, 0)
  {
    hide Runnable, IsBatch, TextAt, TokensAt;
    BatchesApart(c, span, i, b);
    BufferPositive(c);
  }

  lemma NextToken(tokens: seq<Text>, n: int, s: Text)
    requires Ahead(tokens, n, Some(s))
    ensures 0 <= n < |tokens| && tokens[n] == Token(s) && Ahead(tokens, n + 1, Rest(s))
  {
    hide Token, Rest;
    TokensStep(s);
    assert tokens[n..][0] == tokens[n];
    assert tokens[n + 1..] == tokens[n..][1..];
    if Rest(s).Some? { assert ([Token(s)] + Tokens(Rest(s).value))[1..] == Tokens(Rest(s).value); }
  }

  lemma BeforeNext(c: Searcher, span: Span, i: nat, n: int, b: nat, j: int)
    requires Runnable(c) && HitAt(c, span, b, j) && !HitAt(c, span, i, n)
    ensures Before(b, j, i, n) <==> Before(b, j, i, n + 1)
  {
    hide Runnable, HitAt;
  }

  lemma EndOfBatch(c: Searcher, span: Span, t: nat, w: Worker, origins: seq<Origin>)
    requires Runnable(c) && Reading(c, span, t, w, origins) && w.cursor == None
    ensures Reached(c, span, w.i + c.lineBuffer) && Upto(c, span, t, origins, w.i + c.lineBuffer, 0)
  {
    hide Runnable, Upto, Reached, HitAt, Before, TextAt, TokensAt;
    var n := |TokensAt(c, span.end, w.i)|;
    NextBatch(c, span, w.i);
    forall b: nat, j: int | HitAt(c, span, b, j)
      ensures Before(b, j, w.i, n) <==> Before(b, j, w.i + c.lineBuffer, 0)
    {
      BatchOfHit(c, span, w.i, b, j);
    }
    Moved(c, span, t, origins, w.i, n, w.i + c.lineBuffer, 0);
  }

  /** The worker of `AtTokenHead` once it has taken the token. */
  ghost function Taken(w: Worker, s: Text): Worker {
    w.(cursor := Rest(s), lineNumber := w.lineNumber + 1, line := Token(s))
  }

  lemma TakenIsHit(c: Searcher, span: Span, w: Worker, s: Text)
    requires Runnable(c) && AtToken(c, span, w) && w.cursor == Some(s)
    ensures AtToken(c, span, Taken(w, s))
    ensures var tokens, n := TokensAt(c, span.end, w.i), w.lineNumber - w.i;
            0 <= n < |tokens| && tokens[n] == Token(s)
    ensures HitAt(c, span, w.i, w.lineNumber - w.i) <==> c.hasCallback && |Token(s)| > 0 && c.matches(Token(s))
  {
    hide Runnable, Reached, TextAt, TokensAt, Ahead, Token, Rest;
    NextToken(TokensAt(c, span.end, w.i), w.lineNumber - w.i, s);
  }

  /** The token is a hit to be reported, or there is one token less to come. */
  lemma TokenTaken(c: Searcher, span: Span, t: nat, w: Worker, origins: seq<Origin>, s: Text)
    requires Runnable(c) && Reading(c, span, t, w, origins) && w.cursor == Some(s)
    ensures var hit := c.hasCallback && |Token(s)| > 0 && c.matches(Token(s));
            if hit then Holding(c, span, t, Taken(w, s), origins) else Reading(c, span, t, Taken(w, s), origins)
  {
    hide Runnable, AtToken, Upto, HitAt, Before, TokensAt, Token, Rest;
    var n := w.lineNumber - w.i;
    TakenIsHit(c, span, w, s);
    if !HitAt(c, span, w.i, n) {
      forall b: nat, j: int | HitAt(c, span, b, j) ensures Before(b, j, w.i, n) <==> Before(b, j, w.i, n + 1) {
        BeforeNext(c, span, w.i, n, b, j);
      }
      Moved(c, span, t, origins, w.i, n, w.i, n + 1);
    }
  }

  /** Nothing in the invariant of a thread inside a batch depends on its program counter. */
  lemma SamePlace(c: Searcher, span: Span, t: nat, w: Worker, pc: Pc, origins: seq<Origin>)
    requires Runnable(c)
    ensures Reading(c, span, t, w.(pc := pc), origins) <==> Reading(c, span, t, w, origins)
    ensures Holding(c, span, t, w.(pc := pc), origins) <==> Holding(c, span, t, w, origins)
  {
    hide Runnable, Upto, HitAt, Reached, TextAt, TokensAt, Ahead;
  }

  lemma TracedTokenHead(c: Searcher, span: Span, t: nat, w: Worker, origins: seq<Origin>, count: int)
    requires Runnable(c) && w.pc.TokenHead? && Traced(c, span, t, w, origins, count)
    ensures Traced(c, span, t, AtTokenHead(c, w), origins, count)
  {
    hide Runnable, Reading, Holding, Reached, Upto, Everything, Token, Rest;
    if w.cursor == None {
      EndOfBatch(c, span, t, w, origins);
    } else {
      var s := w.cursor.value;
      TokenTaken(c, span, t, w, origins, s);
      SamePlace(c, span, t, Taken(w, s), NoMatch, origins);
      SamePlace(c, span, t, Taken(w, s), Locking, origins);
    }
  }

  // ---- the other steps ----

  lemma TracedElsewhere(c: Searcher, span: Span, t: nat, w: Worker, origins: seq<Origin>, count: int, count': int)
    requires Runnable(c) && Traced(c, span, t, w, origins, count) && count <= count'
    ensures Traced(c, span, t, w, origins, count')
  {
    hide Runnable, Reading, Holding, Reached, Upto, Everything;
  }

  /** The result that thread `t` reports is one of its hits, a new one. */
  lemma NewResult(c: Searcher, t: nat, w: Worker, origins: seq<Origin>)
    requires Runnable(c) && t < Workers(c) && Holding(c, SpanOf(c, t), t, w, origins)
    ensures IsResult(c, OriginOf(t, w), Callback(w.lineNumber, w.line))
    ensures OriginOf(t, w) !in origins
  {
    hide Runnable, HitAt, SpanOf, TokensAt, AtToken;
    assert !Before(w.i, w.lineNumber - w.i - 1, w.i, w.lineNumber - w.i - 1);
  }

  lemma UptoReported(c: Searcher, span: Span, t: nat, origins: seq<Origin>, i: nat, n: int)
    requires Runnable(c) && Upto(c, span, t, origins, i, n) && HitAt(c, span, i, n)
    ensures Upto(c, span, t, origins + [Origin(t, i, n)], i, n + 1)
  {
    hide Runnable, HitAt;
  }

  lemma TracedReporting(c: Searcher, span: Span, t: nat, w: Worker, origins: seq<Origin>, count: int)
    requires Runnable(c) && Holding(c, span, t, w, origins)
    ensures Traced(c, span, t, w.(pc := Unlocking(false)), origins + [OriginOf(t, w)], count)
  {
    hide Runnable, HitAt, TokensAt, AtToken, Upto;
    UptoReported(c, span, t, origins, w.i, w.lineNumber - w.i - 1);
    SamePlace(c, span, t, w, Unlocking(false), origins + [OriginOf(t, w)]);
  }

  lemma TracedOther(c: Searcher, span: Span, t: nat, w: Worker, origins: seq<Origin>, o: Origin, count: int)
    requires Runnable(c) && Traced(c, span, t, w, origins, count) && o.thread != t
    ensures Traced(c, span, t, w, origins + [o], count)
  {
    hide Runnable, HitAt, TokensAt, AtToken, Reached, Before;
    forall b: nat, j: int ensures Origin(t, b, j) in origins + [o] <==> Origin(t, b, j) in origins {
      assert Origin(t, b, j) != o;
    }
  }

  /** The thread that takes the step. */
  lemma TracedStepper(c: Searcher, s: State, t: nat, origins: seq<Origin>)
    requires Runnable(c) && t < |s.workers| && Traced(c, SpanOf(c, t), t, s.workers[t], origins, s.count)
    ensures t < |Step(c, s, t).workers|
    ensures Traced(c, SpanOf(c, t), t, Step(c, s, t).workers[t], OriginsAfter(origins, s, t), Step(c, s, t).count)
  {
    hide Runnable, SpanOf, Reading, Holding, Reached, Upto, Everything, AtBatchHead, AtTokenHead, OriginOf;
    var w, span := s.workers[t], SpanOf(c, t);
    match w.pc
    case BatchHead => TracedBatchHead(c, span, t, w, origins, s.count);
    case TokenHead => TracedTokenHead(c, span, t, w, origins, s.count);
    case NoMatch => SamePlace(c, span, t, w, TokenHead, origins);
    case Locking => SamePlace(c, span, t, w, Checking, origins);
    case Checking => SamePlace(c, span, t, w, Reporting, origins);
    case Reporting => TracedReporting(c, span, t, w, origins, s.count);
    case Unlocking(_) => SamePlace(c, span, t, w, TokenHead, origins);
    case Done(_) =>
  }

  // ---- all threads ----

  ghost predicate Distinct(origins: seq<Origin>) {
    forall a, b :: 0 <= a < b < |origins| ==> origins[a] != origins[b]
  }

  /** One origin for each result, none twice. */
  ghost predicate Explained(c: Searcher, callbacks: seq<Callback>, origins: seq<Origin>)
    requires Runnable(c)
  {
    && |origins| == |callbacks| && Distinct(origins)
    && forall a :: 0 <= a < |origins| ==> IsResult(c, origins[a], callbacks[a])
  }

  ghost predicate AllTraced(c: Searcher, s: State, origins: seq<Origin>)
    requires Runnable(c)
  {
    && |s.workers| == Workers(c)
    && forall t :: 0 <= t < |s.workers| ==> Traced(c, SpanOf(c, t), t, s.workers[t], origins, s.count)
  }

  lemma ExplainedMore(c: Searcher, callbacks: seq<Callback>, origins: seq<Origin>, o: Origin, cb: Callback)
    requires Runnable(c) && Explained(c, callbacks, origins) && IsResult(c, o, cb) && o !in origins
    ensures Explained(c, callbacks + [cb], origins + [o])
  {
    hide Runnable, IsResult;
  }

  lemma ExplainedStep(c: Searcher, s: State, t: nat, origins: seq<Origin>)
    requires Runnable(c) && Explained(c, s.callbacks, origins) && AllTraced(c, s, origins)
    ensures Explained(c, Step(c, s, t).callbacks, OriginsAfter(origins, s, t))
  {
    hide Runnable, SpanOf, Holding, Explained, AtBatchHead, AtTokenHead, OriginOf, Reading, Reached, Upto, Everything;
    if t < |s.workers| && s.workers[t].pc.Reporting? {
      var w := s.workers[t];
      NewResult(c, t, w, origins);
      ExplainedMore(c, s.callbacks, origins, OriginOf(t, w), Callback(w.lineNumber, w.line));
    }
  }

  lemma TracedUnmoved(c: Searcher, s: State, t: nat, u: nat, origins: seq<Origin>, count: int)
    requires Runnable(c) && u < |s.workers| && u != t && s.count <= count
    requires Traced(c, SpanOf(c, u), u, s.workers[u], origins, s.count)
    ensures Traced(c, SpanOf(c, u), u, s.workers[u], OriginsAfter(origins, s, t), count)
  {
    hide Runnable, SpanOf, Traced;
    var w, span := s.workers[u], SpanOf(c, u);
    TracedElsewhere(c, span, u, w, origins, s.count, count);
    if t < |s.workers| { TracedOther(c, span, u, w, origins, OriginOf(t, s.workers[t]), count); }
  }

  lemma NobodyReports(origins: seq<Origin>, s: State, t: nat)
    requires t >= |s.workers|
    ensures OriginsAfter(origins, s, t) == origins
  {
  }

  lemma TracedStep(c: Searcher, s: State, t: nat, origins: seq<Origin>)
    requires Runnable(c) && AllTraced(c, s, origins)
    ensures AllTraced(c, Step(c, s, t), OriginsAfter(origins, s, t))
  {
    hide Runnable, SpanOf, Step, Traced, OriginsAfter;
    StepOthers(c, s, t);
    if t < |s.workers| {
      TracedStepper(c, s, t, origins);
      StepperKeeps(c, s, t);
      forall u | 0 <= u < |s.workers| && u != t
        ensures Traced(c, SpanOf(c, u), u, s.workers[u], OriginsAfter(origins, s, t), Step(c, s, t).count)
      {
        TracedUnmoved(c, s, t, u, origins, Step(c, s, t).count);
      }
    } else {
      StepNobody(c, s, t);
      NobodyReports(origins, s, t);
    }
  }

  lemma TracedInit(c: Searcher)
    requires Runnable(c)
    ensures AllTraced(c, Init(c), []) && Explained(c, Init(c).callbacks, [])
  {
    hide TextAt, TokensAt;
    forall t | 0 <= t < |Init(c).workers|
      ensures Traced(c, SpanOf(c, t), t, Init(c).workers[t], [], 0)
    {
      var span := SpanOf(c, t);
      assert Reached(c, span, span.start);
    }
  }

  lemma {:induction false} TracedRun(c: Searcher, schedule: seq<nat>)
    requires Runnable(c)
    ensures AllTraced(c, Run(c, schedule), OriginsOf(c, schedule))
    ensures Explained(c, Run(c, schedule).callbacks, OriginsOf(c, schedule))
  {
    hide Runnable, AllTraced, Explained, Step, OriginsAfter, Init;
    if |schedule| == 0 {
      TracedInit(c);
    } else {
      var n := |schedule| - 1;
      TracedRun(c, schedule[..n]);
      TracedStep(c, Run(c, schedule[..n]), schedule[n], OriginsOf(c, schedule[..n]));
      ExplainedStep(c, Run(c, schedule[..n]), schedule[n], OriginsOf(c, schedule[..n]));
    }
  }

  // ---- the theorems ----

  lemma DoneMeans(c: Searcher, s: State, origins: seq<Origin>, t: nat, b: nat, j: int)
    requires Runnable(c) && AllTraced(c, s, origins) && AllDone(s) && s.count < c.limit
    requires t < Workers(c) && HitAt(c, SpanOf(c, t), b, j)
    ensures Origin(t, b, j) in origins
  {
    hide Runnable, SpanOf, HitAt, Workers;
    assert Traced(c, SpanOf(c, t), t, s.workers[t], origins, s.count);
  }

  lemma NobodyInside(c: Searcher, s: State)
    requires Runnable(c) && Safe(c, s) && AllDone(s)
    ensures s.count == |s.callbacks|
  {
    hide Runnable, SpanOf, WorkerSafe, Presentable;
  }

  /** Over any index, in every interleaving: each result is a non-empty matching token of a batch that
      a thread comes to, numbered by its place after the first line of the batch; no token is reported
      twice; and if the search ends below the limit, every such token has been reported. */
  lemma SearchIsTraced(c: Searcher, schedule: seq<nat>)
    requires Runnable(c)
    ensures var s, origins := Run(c, schedule), OriginsOf(c, schedule);
            && |origins| == |s.callbacks| && Distinct(origins)
            && (forall a :: 0 <= a < |origins| ==> IsResult(c, origins[a], s.callbacks[a]))
            && (AllDone(s) && |s.callbacks| < c.limit ==> forall o :: IsHit(c, o) ==> o in origins)
  {
    hide Runnable, SpanOf, HitAt, Workers, AllTraced, IsResult, Run, OriginsOf, Safe;
    var s, origins := Run(c, schedule), OriginsOf(c, schedule);
    TracedRun(c, schedule);
    SafeRun(c, schedule);
    if AllDone(s) && |s.callbacks| < c.limit {
      NobodyInside(c, s);
      forall o | IsHit(c, o) ensures o in origins {
        DoneMeans(c, s, origins, o.thread, o.batch, o.token);
      }
    }
  }

  lemma SameHit(c: Searcher, c': Searcher, o: Origin)
    requires Runnable(c) && Runnable(c') && c' == c.(limit := c'.limit)
    ensures IsHit(c', o) <==> IsHit(c, o)
  {
    hide Runnable, CString, Tokens, LookupOf;
    if o.thread < Workers(c) { SameSpan(c, c', o.thread); }
    forall end: nat, i: nat | i < end ensures TextAt(c', end, i) == TextAt(c, end, i) {
    }
  }

  lemma SameTotal(c: Searcher, c': Searcher)
    requires Runnable(c) && Runnable(c') && c' == c.(limit := c'.limit)
    ensures TotalHits(c') == TotalHits(c)
  {
    SameHitsUpTo(c, c', Workers(c));
  }

  lemma ResultIsHit(c: Searcher, callbacks: seq<Callback>, origins: seq<Origin>, o: Origin)
    requires Runnable(c) && |origins| == |callbacks|
    requires forall a :: 0 <= a < |origins| ==> IsResult(c, origins[a], callbacks[a])
    ensures o in origins ==> IsHit(c, o)
  {
    hide Runnable, IsHit;
  }

  /** What the count of a search counts: the hits can be listed, each once. */
  lemma HitsListed(c: Searcher) returns (hits: seq<Origin>)
    requires Runnable(c)
    ensures Distinct(hits) && |hits| == TotalHits(c)
    ensures forall o :: o in hits <==> IsHit(c, o)
  {
    hide IsHit, Run, OriginsOf, TotalHits;
    var c' := c.(limit := TotalHits(c) + 1);
    var schedule := SearchCanEnd(c', []);
    var all := [] + schedule;
    SameTotal(c, c');
    SearchCountExact(c', all);
    SearchIsTraced(c', all);
    hits := OriginsOf(c', all);
    forall o ensures o in hits <==> IsHit(c, o) {
      SameHit(c, c', o);
      ResultIsHit(c', Run(c', all).callbacks, hits, o);
    }
  }

  lemma {:induction false} DistinctCount(origins: seq<Origin>)
    requires Distinct(origins)
    ensures |set o | o in origins| == |origins|
  {
    if |origins| == 0 {
      assert (set o | o in origins) == {};
    } else {
      var n := |origins| - 1;
      DistinctCount(origins[..n]);
      assert (set o | o in origins) == (set o | o in origins[..n]) + {origins[n]} by {
        assert origins == origins[..n] + [origins[n]];
      }
    }
  }

  lemma TotalIsMin(total: nat, limit: int)
    requires total <= limit
    ensures Max(0, Min(limit, total)) == total
  {
  }

  /** Once all threads have ended, a limit that leaves room for all hits has let all of them through,
      even if it is met exactly. */
  lemma AllHitsReported(c: Searcher, schedule: seq<nat>)
    requires Runnable(c) && AllDone(Run(c, schedule)) && TotalHits(c) <= c.limit
    ensures forall o :: o in OriginsOf(c, schedule) <==> IsHit(c, o)
  {
    hide *;
    var s, origins := Run(c, schedule), OriginsOf(c, schedule);
    var hits := HitsListed(c);
    var reported, wanted := set o | o in origins, set o | o in hits;
    SearchIsTraced(c, schedule);
    SearchCountExact(c, schedule);
    TotalIsMin(TotalHits(c), c.limit);
    DistinctCount(origins);
    DistinctCount(hits);
    forall o | o in origins ensures o in hits {
      ResultIsHit(c, s.callbacks, origins, o);
    }
    SubsetCount(reported, wanted);
    forall o ensures o in origins <==> IsHit(c, o) {
      assert o in origins <==> o in reported;
      assert o in hits <==> o in wanted;
    }
  }
}
