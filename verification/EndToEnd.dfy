/** Indexing, lookup and search together, against the naive splitting of the file into lines. */
module EndToEnd {
  import opened Machine
  import opened TextFiles
  import opened OffsetFiles
  import opened IndexTheorems
  import opened OverlapTheorems
  import opened Tokenizer
  import opened LineLookup
  import TextIndexer
  import S = Searching
  import SearchTheorems
  import SearchCounts
  import SearchOutcome
  import SearchTraces
  import Partitioning

  /** The index that `f_index_text_file` builds and `f_index_init` wraps. */
  function BuiltIndex(file: Text, c: Config): (index: Index)
    requires UsableConfig(|file|, c)
    ensures 0 < index.len
  {
    Index(file, IndexEntries(file, c), IndexLen(file, c))
  }

  lemma BuiltFile(file: Text, c: Config)
    requires UsableConfig(|file|, c)
    ensures BuiltIndex(file, c).file == file
  {
  }

  /** A built index is the complete newline index exactly when no reduction loses a list and no
      newline sits between two thread ranges. */
  lemma BuiltIsCompleteIff(file: Text, c: Config)
    requires WellFormedConfig(|file|, c) && |CompleteIndex(file)| <= UINT_MAX
    ensures IsComplete(BuiltIndex(file, c)) <==> AllReduceOK(file, c) && NoNewlineInGap(file, c)
  {
    CompleteIff(file, c);
    LenIff(file, c);
  }

  lemma BuiltIsCompleteWithin(file: Text, c: Config)
    requires WellFormedConfig(|file|, c) && IndexLen(file, c) <= UINT_MAX
    ensures IsComplete(BuiltIndex(file, c)) <==> AllReduceOK(file, c) && NoNewlineInGap(file, c)
  {
    CompleteIff(file, c);
    LenIff(file, c);
    hide IndexEntries, IndexLen, AllReduceOK, NoNewlineInGap, CompleteIndex;
  }

  /** In a well-formed configuration lookups on a built index are safe exactly when no reduction lost
      a list; newlines between thread ranges only make it coarser. */
  lemma BuiltIsValidIff(file: Text, c: Config)
    requires WellFormedConfig(|file|, c) && IndexLen(file, c) <= UINT_MAX
    ensures ValidIndex(BuiltIndex(file, c)) <==> AllReduceOK(file, c)
  {
    LenIff(file, c);
    if AllReduceOK(file, c) {
      IndexExact(file, c);
      assert IndexEntries(file, c)[0] in IndexEntries(file, c);
    }
  }

  /** Whatever the reductions lost, a built index is one with too large a `len` at worst. */
  lemma BuiltIsShort(file: Text, c: Config)
    requires WellFormedConfig(|file|, c) && IndexLen(file, c) <= UINT_MAX
    ensures IsShort(BuiltIndex(file, c))
  {
    LenIff(file, c);
    IndexDescends(file, c);
    EntriesWithin(file, c);
    assert IndexEntries(file, c)[0] in IndexEntries(file, c);
  }

  lemma LenPositive(file: Text, c: Config)
    requires UsableConfig(|file|, c)
    ensures 0 < IndexLen(file, c) == BuiltIndex(file, c).len
  {
  }

  lemma BuiltAreWords(file: Text, c: Config)
    requires UsableConfig(|file|, c)
    ensures AreWords(IndexEntries(file, c)) && AreWords(BuiltIndex(file, c).entries)
    ensures forall k :: 0 <= k < |IndexEntries(file, c)| ==> IndexEntries(file, c)[k] < ALLOCATABLE
  {
    EntriesWithin(file, c);
    ConfigOfUsable(file, c);
    hide IndexEntries, IndexLen;
    forall k | 0 <= k < |IndexEntries(file, c)| ensures IndexEntries(file, c)[k] < EXACT {
      assert IndexEntries(file, c)[k] in IndexEntries(file, c);
    }
  }
  lemma ConfigOfUsable(file: Text, c: Config)
    requires UsableConfig(|file|, c)
    ensures ValidConfig(c) && |file| < EXACT
  {
  }

  lemma BuiltIndexIs(file: Text, c: Config)
    requires UsableConfig(|file|, c)
    ensures BuiltIndex(file, c) == Index(file, IndexEntries(file, c), IndexLen(file, c))
  {
  }

  lemma BuiltIsCounted(file: Text, c: Config)
    requires UsableConfig(|file|, c) && IndexLen(file, c) <= UINT_MAX
    ensures IsCounted(BuiltIndex(file, c)) <==> AllReduceOK(file, c)
  {
    hide IndexEntries, IndexLen, AllReduceOK, UsableConfig;
    LenIff(file, c);
    LenPositive(file, c);
    BuiltIndexIs(file, c);
    BuiltAreWords(file, c);
  }

  lemma BuiltIsLines(file: Text, c: Config, start: nat, count: nat)
    requires WellFormedConfig(|file|, c) && IndexLen(file, c) <= UINT_MAX
    requires AllReduceOK(file, c) && ValidIndex(BuiltIndex(file, c))
    ensures NoNewlineInGap(file, c) && start + count < TWO_64 ==>
              var lines := SplitLines(file).lines;
              LookupSpec(BuiltIndex(file, c), start, count) ==
              if start > |lines| then Null else Found(Concat(lines[start..Min(start + count, |lines|)]))
  {
    CompleteIff(file, c);
    if NoNewlineInGap(file, c) && start + count < TWO_64 {
      LookupIsLines(BuiltIndex(file, c), start, count);
    }
  }

  /** Among the usable configurations the well-formed ones are exactly those under which no lookup on
      an index that lost no list ever fails, unless its sum wraps. */
  lemma NeverFailsIffWellFormed(n: nat, c: Config)
    requires UsableConfig(n, c) && IndexLen(Newlines(n), c) <= UINT_MAX
    ensures WellFormedConfig(n, c) <==>
              forall file: Text :: |file| == n && AllReduceOK(file, c) && IndexLen(file, c) <= UINT_MAX ==>
                NeverFails(BuiltIndex(file, c))
  {
    hide UsableConfig, WellFormedConfig, IndexEntries, IndexLen, AllReduceOK, NeverFails, IsCounted, NonIncreasing;
    hide Newlines;
    OrderedFileIffWellFormed(n, c);
    AllNewlinesOK(Newlines(n), c);
    if NonIncreasing(IndexEntries(Newlines(n), c)) { NewlinesWellFormed(n, c); }
    forall file: Text | |file| == n && AllReduceOK(file, c) && IndexLen(file, c) <= UINT_MAX
      ensures NeverFails(BuiltIndex(file, c)) <==> NonIncreasing(IndexEntries(file, c))
    {
      BuiltIsCounted(file, c);
      BuiltIndexIs(file, c);
      NoLookupFailsIff(BuiltIndex(file, c));
    }
  }

  /** How many lines `len` counts that no entry stands for. */
  function Lost(file: Text, c: Config): int
    requires UsableConfig(|file|, c)
  {
    IndexLen(file, c) - |IndexEntries(file, c)|
  }

  /** What a lookup on a built index answers. Lines are shifted by those a lost list took from the
      index, and the first of them unreadable; when none is lost, -1 means that the sum wrapped; when
      moreover no newline is between thread ranges, the answer is the lines of the naive splitting. */
  ghost predicate IsAnswer(file: Text, c: Config, start: nat, count: nat, r: LookupResult)
    requires WellFormedConfig(|file|, c)
  {
    var index, lost, lines := BuiltIndex(file, c), Lost(file, c), SplitLines(file).lines;
    && IsShort(index) && 0 <= lost && (lost == 0 <==> AllReduceOK(file, c))
    && (lost <= start && start + count < TWO_64 ==> r == LookupSpec(Recounted(index), start - lost, count))
    && (lost == 0 ==> (r == Failed <==> start < IndexLen(file, c) && start + count >= TWO_64))
    && (lost == 0 && NoNewlineInGap(file, c) && start + count < TWO_64 ==>
          r == if start > |lines| then Null else Found(Concat(lines[start..Min(start + count, |lines|)])))
  }

  lemma BuiltLookup(file: Text, c: Config, start: nat, count: nat, memory: Memory)
    requires WellFormedConfig(|file|, c) && IndexLen(file, c) <= UINT_MAX
    requires start < TWO_64 && count < TWO_64 && 0 < BuiltIndex(file, c).len
    ensures IsAnswer(file, c, start, count, LookupOf(BuiltIndex(file, c), start, count, memory))
  {
    hide IndexEntries, IndexLen, AllReduceOK, NoNewlineInGap, WellFormedConfig, UsableConfig, BuiltIndex;
    hide LookupSpec, LookupOf, ValidIndex, IsShort, SplitLines, Concat;
    BuiltIsShort(file, c);
    BuiltIsValidIff(file, c);
    LenIff(file, c);
    BuiltIndexIs(file, c);
    var index, lost := BuiltIndex(file, c), Lost(file, c);
    if lost <= start && start + count < TWO_64 { ShortIsShifted(index, start, count, memory); }
    if AllReduceOK(file, c) {
      LookupOfValid(index, start, count, memory);
      BuiltIsLines(file, c, start, count);
    }
  }

  /** Index a file, then look lines up in it, for every configuration under which the indexer ends. */
  method IndexAndLookup(file: Text, c: Config, start: nat, count: nat, memory: Memory) returns (r: LookupResult)
    requires UsableConfig(|file|, c) && IndexLen(file, c) <= UINT_MAX
    requires start < TWO_64 && count < TWO_64
    ensures r == LookupOf(BuiltIndex(file, c), start, count, memory)
    ensures WellFormedConfig(|file|, c) ==> IsAnswer(file, c, start, count, r)
    ensures AllReduceOK(file, c) && NonIncreasing(IndexEntries(file, c)) && start + count < TWO_64 ==> r != Failed
  {
    hide *;
    LenPositive(file, c);
    BuiltAreWords(file, c);
    BuiltIndexIs(file, c);
    ConfigOfUsable(file, c);
    var lookup := TextIndexer.IndexTextFile(file, c);
    var index := Index(file, lookup.entries, lookup.len);
    r := Lookup(index, start, count, memory);
    if AllReduceOK(file, c) && NonIncreasing(IndexEntries(file, c)) && start + count < TWO_64 {
      BuiltIsCounted(file, c);
      LookupSucceeds(index, start, count, memory);
    }
    if WellFormedConfig(|file|, c) {
      BuiltLookup(file, c, start, count, memory);
    }
  }

  /** The matching non-empty lines among the covered ones, on the lines of the file itself. */
  ghost predicate IsMatch(file: Text, matches: Text -> bool, k: nat) {
    var lines := SplitLines(file).lines;
    k < |lines| && |lines[k]| > 1 && matches(LineText(lines[k]))
  }

  ghost function Matches(file: Text, matches: Text -> bool): set<nat> {
    set k | 0 <= k < |SplitLines(file).lines| && IsMatch(file, matches, k) :: k + 1
  }

  /** A search can run on a built index whenever the sizes fit the C types; the theorems about lines
      apply to it when moreover the index is complete. */
  lemma SearchIsValidIff(file: Text, c: Config, sc: S.Searcher)
    requires UsableConfig(|file|, c) && sc.index == BuiltIndex(file, c)
    requires IndexLen(file, c) <= Partitioning.INT_MAX
    ensures S.Runnable(sc) <==> 0 < sc.threads <= Partitioning.INT_MAX && 0 < sc.lineBuffer <= UINT_MAX
    ensures S.Valid(sc) <==> S.Runnable(sc) && IsComplete(sc.index)
    ensures WellFormedConfig(|file|, c) ==>
              (S.Valid(sc) <==> S.Runnable(sc) && AllReduceOK(file, c) && NoNewlineInGap(file, c))
  {
    hide UsableConfig, WellFormedConfig, IndexLen, BuiltIndex, AllReduceOK, NoNewlineInGap, IsComplete, AreWords;
    BuiltIndexIs(file, c);
    LenPositive(file, c);
    BuiltAreWords(file, c);
    ConfigOfUsable(file, c);
    if WellFormedConfig(|file|, c) { BuiltIsCompleteWithin(file, c); }
  }
  ghost predicate LinesNulFree(file: Text) {
    forall k :: 0 <= k < |SplitLines(file).lines| ==> NulFree(SplitLines(file).lines[k])
  }

  /** Every line is free of NULs, and every line with something in it is looked up by some thread. */
  ghost predicate ReachesEveryLine(sc: S.Searcher)
    requires S.Valid(sc)
  {
    && LinesNulFree(sc.index.file)
    && forall k :: 0 <= k < |S.Lines(sc)| && |S.Lines(sc)[k]| > 1 ==> S.Covered(sc, k)
  }

  lemma LineShape(file: Text, k: nat)
    requires k < |SplitLines(file).lines|
    ensures IsLine(SplitLines(file).lines[k])
  {
    SplitLinesSound(file);
  }

  /** The matcher sees a line as it is exactly when the line has no NUL. */
  lemma SeenIff(line: Text)
    requires IsLine(line)
    ensures |line| > 0 && (SeenText(line) == LineText(line) <==> NulFree(line))
    ensures !NulFree(line) ==> |line| > 1
  {
    CStringWhole(LineText(line));
    assert line == LineText(line) + [NEWLINE];
  }

  lemma FindableIsMatch(sc: S.Searcher, k: nat)
    requires S.Valid(sc) && sc.hasCallback && LinesNulFree(sc.index.file) && k < |S.Lines(sc)| && S.Covered(sc, k)
    ensures S.Findable(sc, k) <==> IsMatch(sc.index.file, sc.matches, k)
  {
    LineShape(sc.index.file, k);
    SeenIff(S.Lines(sc)[k]);
    var t :| 0 <= t < S.Workers(sc) && S.SpanOf(sc, t).start <= k < S.SpanOf(sc, t).limit;
    assert S.Hit(sc, S.SpanOf(sc, t), k) <==> IsMatch(sc.index.file, sc.matches, k);
  }

  /** What is found is looked up, has something in it, and is matched as it is seen. */
  lemma FindableOnly(sc: S.Searcher, k: nat)
    requires S.Valid(sc) && S.Findable(sc, k)
    ensures S.Covered(sc, k) && k < |S.Lines(sc)| && |S.Lines(sc)[k]| > 0
    ensures |SeenText(S.Lines(sc)[k])| > 0 && sc.matches(SeenText(S.Lines(sc)[k]))
  {
  }

  lemma ReachedIsMatch(sc: S.Searcher, k: nat)
    requires S.Valid(sc) && sc.hasCallback && ReachesEveryLine(sc) && k < |S.Lines(sc)|
    ensures S.Findable(sc, k) <==> IsMatch(sc.index.file, sc.matches, k)
  {
    LineShape(sc.index.file, k);
    SeenIff(S.Lines(sc)[k]);
    hide S.SpanOf, S.Covered, S.Findable;
    if S.Covered(sc, k) {
      FindableIsMatch(sc, k);
    } else if S.Findable(sc, k) {
      FindableOnly(sc, k);
    }
  }

  lemma WantedIsMatches(sc: S.Searcher)
    requires S.Valid(sc) && sc.hasCallback && ReachesEveryLine(sc)
    ensures S.Wanted(sc) == Matches(sc.index.file, sc.matches)
  {
    hide ReachesEveryLine, S.Findable, IsMatch, IsComplete, AreWords;
    forall k | 0 <= k < |S.Lines(sc)| ensures S.Findable(sc, k) <==> IsMatch(sc.index.file, sc.matches, k) {
      ReachedIsMatch(sc, k);
    }
  }

  /** Whatever the matcher, the wanted lines are the matching non-empty lines of the file. */
  ghost predicate FindsEveryMatch(sc: S.Searcher)
    requires S.Valid(sc)
  {
    forall m: Text -> bool :: S.Wanted(sc.(matches := m)) == Matches(sc.index.file, m)
  }

  lemma SameCovered(sc: S.Searcher, m: Text -> bool, k: nat)
    requires S.Valid(sc)
    ensures S.Covered(sc.(matches := m), k) <==> S.Covered(sc, k)
  {
    forall t | 0 <= t < S.Workers(sc) ensures S.SpanOf(sc.(matches := m), t) == S.SpanOf(sc, t) {
    }
  }

  lemma SameReach(sc: S.Searcher, m: Text -> bool)
    requires S.Valid(sc)
    ensures S.Valid(sc.(matches := m)) && (ReachesEveryLine(sc.(matches := m)) <==> ReachesEveryLine(sc))
  {
    var sc' := sc.(matches := m);
    forall k | 0 <= k < |S.Lines(sc)| ensures S.Covered(sc', k) <==> S.Covered(sc, k) {
      SameCovered(sc, m, k);
    }
  }

  /** A line that is not reached, with a matcher that gives it away. */
  lemma Unreached(sc: S.Searcher) returns (m: Text -> bool, k: nat)
    requires S.Valid(sc) && !ReachesEveryLine(sc)
    ensures k < |S.Lines(sc)| && IsMatch(sc.index.file, m, k) && !S.Findable(sc.(matches := m), k)
  {
    var lines := S.Lines(sc);
    if i :| 0 <= i < |lines| && |lines[i]| > 1 && !S.Covered(sc, i) {
      m, k := (t: Text) => true, i;
      SameCovered(sc, m, k);
      hide S.Covered, S.Findable, S.SpanOf;
      if S.Findable(sc.(matches := m), k) { FindableOnly(sc.(matches := m), k); }
    } else {
      k :| 0 <= k < |lines| && !NulFree(lines[k]);
      var text := lines[k][..|lines[k]| - 1];
      m := (t: Text) => t == text;
      LineShape(sc.index.file, k);
      SeenIff(lines[k]);
      hide S.Covered, S.Findable, S.SpanOf;
      if S.Findable(sc.(matches := m), k) { FindableOnly(sc.(matches := m), k); }
    }
  }

  /** The search is a search for the matching lines of the file, for every matcher, exactly when it
      reaches every line. */
  lemma FindsEveryMatchIff(sc: S.Searcher)
    requires S.Valid(sc) && sc.hasCallback
    ensures FindsEveryMatch(sc) <==> ReachesEveryLine(sc)
  {
    hide ReachesEveryLine, S.Findable, IsMatch, IsComplete, AreWords;
    if ReachesEveryLine(sc) {
      forall m: Text -> bool ensures S.Wanted(sc.(matches := m)) == Matches(sc.index.file, m) {
        SameReach(sc, m);
        WantedIsMatches(sc.(matches := m));
      }
    } else {
      var m, k := Unreached(sc);
      assert k + 1 in Matches(sc.index.file, m) && k + 1 !in S.Wanted(sc.(matches := m));
    }
  }

  /** The results carry lines of the file, with their numbers and texts. */
  ghost predicate AreLines(file: Text, callbacks: seq<S.Callback>) {
    var lines := SplitLines(file).lines;
    forall a :: 0 <= a < |callbacks| ==>
      && 0 < callbacks[a].lineNumber <= |lines| && |lines[callbacks[a].lineNumber - 1]| > 0
      && callbacks[a].text == LineText(lines[callbacks[a].lineNumber - 1])
  }

  lemma ResultsAreLines(sc: S.Searcher, schedule: seq<nat>)
    requires S.Valid(sc) && LinesNulFree(sc.index.file)
    ensures AreLines(sc.index.file, S.Run(sc, schedule).callbacks)
  {
    SearchOutcome.SearchIsSafe(sc, schedule);
    var callbacks := S.Run(sc, schedule).callbacks;
    forall a | 0 <= a < |callbacks|
      ensures var lines, k := SplitLines(sc.index.file).lines, callbacks[a].lineNumber - 1;
              0 <= k < |lines| && |lines[k]| > 0 && callbacks[a].text == LineText(lines[k])
    {
      assert SearchTheorems.Genuine(sc, callbacks[a]);
      LineShape(sc.index.file, callbacks[a].lineNumber - 1);
      SeenIff(S.Lines(sc)[callbacks[a].lineNumber - 1]);
    }
  }

  /** Index a file, then search it; when all threads have ended, in whatever order they ran: on any
      built index the number of results is the smaller of the limit and the number of matching tokens.
      On a complete one these are the wanted lines, no line comes twice, and below the limit all of them
      are reported. They are the matching non-empty lines of the file, whatever the matcher, exactly
      when no line has a NUL and every line with something in it is looked up. */
  lemma IndexAndSearch(file: Text, c: Config, sc: S.Searcher, schedule: seq<nat>)
    requires UsableConfig(|file|, c) && sc.index == BuiltIndex(file, c)
    requires S.Runnable(sc) && S.AllDone(S.Run(sc, schedule))
    ensures |S.Run(sc, schedule).callbacks| == Max(0, Min(sc.limit, SearchCounts.TotalHits(sc)))
    ensures var origins := SearchTraces.OriginsOf(sc, schedule);
            && SearchTraces.Explained(sc, S.Run(sc, schedule).callbacks, origins)
            && (SearchCounts.TotalHits(sc) <= sc.limit ==> forall o :: o in origins <==> SearchTraces.IsHit(sc, o))
    ensures S.Valid(sc) ==>
              var wanted, callbacks := S.Wanted(sc), S.Run(sc, schedule).callbacks;
              && |wanted| == SearchCounts.TotalHits(sc)
              && SearchTheorems.NoDuplicates(callbacks) && S.Reported(callbacks) <= wanted
              && (|wanted| <= sc.limit ==> S.Reported(callbacks) == wanted)
    ensures S.Valid(sc) && LinesNulFree(file) ==> AreLines(file, S.Run(sc, schedule).callbacks)
    ensures S.Valid(sc) && sc.hasCallback ==>
              && (FindsEveryMatch(sc) <==> ReachesEveryLine(sc))
              && (ReachesEveryLine(sc) ==> S.Wanted(sc) == Matches(file, sc.matches))
  {
    hide S.Run, S.Wanted, Matches, S.Reported, S.Runnable, IsComplete, SearchTheorems.Genuine, SplitLines;
    hide BuiltIndex, LinesNulFree, ReachesEveryLine, FindsEveryMatch, AreLines, UsableConfig;
    hide SearchTraces.IsHit, SearchTraces.IsResult, SearchTraces.OriginsOf, SearchCounts.TotalHits;
    BuiltFile(file, c);
    SearchCounts.SearchCountExact(sc, schedule);
    SearchTraces.SearchIsTraced(sc, schedule);
    if SearchCounts.TotalHits(sc) <= sc.limit { SearchTraces.AllHitsReported(sc, schedule); }
    if S.Valid(sc) {
      SearchOutcome.HitsAreWanted(sc);
      SearchOutcome.SearchIsExact(sc, schedule);
      SearchOutcome.SearchIsSafe(sc, schedule);
      if LinesNulFree(file) { ResultsAreLines(sc, schedule); }
      if sc.hasCallback {
        FindsEveryMatchIff(sc);
        if ReachesEveryLine(sc) { WantedIsMatches(sc); }
      }
    }
  }
}
