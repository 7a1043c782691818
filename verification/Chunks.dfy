/** Chunks of a concurrent scan and their in-place recombination through tail pointers. */
module Chunks {
  import opened Nodes

  /** What a chunk stands for: the items reachable from `first`, and its `empty` flag.
      A reduced chunk can be hollow: flagged non-empty although `first` is NULL. */
  datatype Part<T> = Part(items: seq<T>, empty: bool) {
    predicate Hollow() { !empty && |items| == 0 }
  }

  class Chunk {
    var current: nat
    var first: BytesNode?
    var last: BytesNode?
    var empty: bool
    var lineCount: nat

    /** `f_chunk_new` */
    constructor (current: nat, firstref: BytesNode?, lastref: BytesNode?)
      ensures this.current == current && first == firstref && last == lastref
      ensures empty == (firstref == null) && lineCount == 0
    {
      this.current := current;
      first := firstref;
      last := lastref;
      lineCount := 0;
      empty := firstref == null;
    }
  }

  // ---- what the reduction computes, for the first n parts ----

  /** How many lists survive: the non-empty parts after the last hollow one. */
  function LiveCount<T>(parts: seq<Part<T>>, n: nat): nat
    requires n <= |parts|
  {
    if n == 0 then 0
    else if parts[n - 1].empty then LiveCount(parts, n - 1)
    else if |parts[n - 1].items| == 0 then 0
    else LiveCount(parts, n - 1) + 1
  }

  /** The surviving lists, later parts first. */
  function LiveItems<T>(parts: seq<Part<T>>, n: nat): seq<T>
    requires n <= |parts|
  {
    if n == 0 then []
    else if parts[n - 1].empty then LiveItems(parts, n - 1)
    else if |parts[n - 1].items| == 0 then []
    else parts[n - 1].items + LiveItems(parts, n - 1)
  }

  predicate AllEmpty<T>(parts: seq<Part<T>>, n: nat)
    requires n <= |parts|
  {
    forall i :: 0 <= i < n ==> parts[i].empty
  }

  function Reduce<T>(parts: seq<Part<T>>): Part<T> {
    var n := |parts|;
    if n == 1 then parts[0]
    else Part(if LiveCount(parts, n) >= 2 then LiveItems(parts, n) else [], AllEmpty(parts, n))
  }

  // ---- what the header promises: chunk n-1 first, chunk 0 last ----

  function Concatenation<T>(parts: seq<Part<T>>, n: nat): seq<T>
    requires n <= |parts|
  {
    if n == 0 then [] else parts[n - 1].items + Concatenation(parts, n - 1)
  }

  /** As the scan makes them: flagged empty exactly when there is nothing in them. */
  ghost predicate Sound<T>(parts: seq<Part<T>>) {
    forall i :: 0 <= i < |parts| ==> (parts[i].empty <==> |parts[i].items| == 0)
  }

  function NonEmptyCount<T>(parts: seq<Part<T>>, n: nat): nat
    requires n <= |parts|
  {
    if n == 0 then 0 else NonEmptyCount(parts, n - 1) + if parts[n - 1].empty then 0 else 1
  }

  predicate ReduceOK<T>(parts: seq<Part<T>>) {
    |parts| == 1 || NonEmptyCount(parts, |parts|) != 1
  }

  lemma {:induction false} SoundLive<T>(parts: seq<Part<T>>, n: nat)
    requires n <= |parts| && Sound(parts)
    ensures LiveCount(parts, n) == NonEmptyCount(parts, n)
    ensures LiveItems(parts, n) == Concatenation(parts, n)
    ensures |Concatenation(parts, n)| == 0 <==> NonEmptyCount(parts, n) == 0
    ensures AllEmpty(parts, n) <==> NonEmptyCount(parts, n) == 0
  {
    if n == 0 {
    } else {
      assert parts[n - 1].empty <==> |parts[n - 1].items| == 0;
      hide Sound;
      SoundLive(parts, n - 1);
    }
  }

  /** Of the first `n` parts only part `i` is not empty. */
  ghost predicate IsOnly<T>(parts: seq<Part<T>>, n: nat, i: nat)
    requires n <= |parts|
  {
    i < n && !parts[i].empty && forall j :: 0 <= j < n && j != i ==> parts[j].empty
  }

  ghost predicate OnlyOne<T>(parts: seq<Part<T>>, n: nat)
    requires n <= |parts|
  {
    exists i: nat :: IsOnly(parts, n, i)
  }

  ghost predicate AreTwo<T>(parts: seq<Part<T>>, n: nat, i: nat, j: nat)
    requires n <= |parts|
  {
    i < j < n && !parts[i].empty && !parts[j].empty
  }

  ghost predicate AtLeastTwo<T>(parts: seq<Part<T>>, n: nat)
    requires n <= |parts|
  {
    exists i: nat, j: nat :: AreTwo(parts, n, i, j)
  }

  lemma CountNone<T>(parts: seq<Part<T>>)
    ensures NonEmptyCount(parts, 0) == 0 && AllEmpty(parts, 0) && !OnlyOne(parts, 0) && !AtLeastTwo(parts, 0)
  {
  }

  lemma CountStep<T>(parts: seq<Part<T>>, n: nat)
    requires 0 < n <= |parts|
    ensures NonEmptyCount(parts, n) == NonEmptyCount(parts, n - 1) + if parts[n - 1].empty then 0 else 1
  {
  }

  lemma SkippedAt<T>(parts: seq<Part<T>>, n: nat, i: nat, j: nat)
    requires 0 < n <= |parts| && parts[n - 1].empty
    ensures IsOnly(parts, n, i) <==> IsOnly(parts, n - 1, i)
    ensures AreTwo(parts, n, i, j) <==> AreTwo(parts, n - 1, i, j)
  {
  }

  lemma SkippedPart<T>(parts: seq<Part<T>>, n: nat)
    requires 0 < n <= |parts| && parts[n - 1].empty
    ensures AllEmpty(parts, n) <==> AllEmpty(parts, n - 1)
    ensures OnlyOne(parts, n) <==> OnlyOne(parts, n - 1)
    ensures AtLeastTwo(parts, n) <==> AtLeastTwo(parts, n - 1)
  {
    hide IsOnly, AreTwo;
    var m := n - 1;
    if i: nat :| IsOnly(parts, n, i) { SkippedAt(parts, n, i, i); }
    if i: nat :| IsOnly(parts, m, i) { SkippedAt(parts, n, i, i); }
    if i: nat, j: nat :| AreTwo(parts, n, i, j) { SkippedAt(parts, n, i, j); }
    if i: nat, j: nat :| AreTwo(parts, m, i, j) { SkippedAt(parts, n, i, j); }
  }

  lemma AddedPart<T>(parts: seq<Part<T>>, n: nat)
    requires 0 < n <= |parts| && !parts[n - 1].empty
    ensures !AllEmpty(parts, n)
    ensures OnlyOne(parts, n) <==> AllEmpty(parts, n - 1)
    ensures AtLeastTwo(parts, n) <==> !AllEmpty(parts, n - 1)
  {
    if i :| 0 <= i < n - 1 && !parts[i].empty {
      assert AreTwo(parts, n, i, n - 1);
    } else {
      assert IsOnly(parts, n, n - 1);
    }
  }

  lemma {:induction false} CountMeans<T>(parts: seq<Part<T>>, n: nat)
    requires n <= |parts|
    ensures NonEmptyCount(parts, n) == 0 <==> AllEmpty(parts, n)
    ensures NonEmptyCount(parts, n) == 1 <==> OnlyOne(parts, n)
    ensures NonEmptyCount(parts, n) >= 2 <==> AtLeastTwo(parts, n)
  {
    hide *;
    if n == 0 {
      CountNone(parts);
    } else {
      CountMeans(parts, n - 1);
      CountStep(parts, n);
      if parts[n - 1].empty {
        SkippedPart(parts, n);
      } else {
        AddedPart(parts, n);
      }
    }
  }

  /** The documented concatenation comes out exactly when there is one chunk, or the number of
      non-empty chunks is not one; otherwise the result is hollow. */
  lemma ReduceIsConcatenation<T>(parts: seq<Part<T>>)
    requires Sound(parts)
    ensures ReduceOK(parts) <==> |parts| == 1 || !OnlyOne(parts, |parts|)
    ensures Reduce(parts).items == Concatenation(parts, |parts|) <==> ReduceOK(parts)
    ensures Reduce(parts).empty <==> AllEmpty(parts, |parts|)
    ensures Reduce(parts).Hollow() <==> !ReduceOK(parts)
  {
    SoundLive(parts, |parts|);
    CountMeans(parts, |parts|);
    hide OnlyOne;
    if |parts| == 1 {
      assert Concatenation(parts, 1) == parts[0].items + Concatenation(parts, 0);
    }
  }

  /** A hollow part wipes out what came before it. */
  lemma {:induction false} LiveAfterHollow<T>(parts: seq<Part<T>>, k: nat, rest: seq<Part<T>>, m: nat)
    requires k < |parts| && parts[k].Hollow() && rest == parts[k + 1..] && m <= |rest|
    ensures LiveItems(parts, k + 1 + m) == LiveItems(rest, m)
    ensures LiveCount(parts, k + 1 + m) == LiveCount(rest, m)
  {
    if m == 0 {
    } else {
      LiveAfterHollow(parts, k, rest, m - 1);
      assert rest[m - 1] == parts[k + m];
    }
  }

  /** What comes out when hollow parts go in: after the last of them the parts count as if they were
      alone, except that a single list is lost, even when there is just one part after it. */
  lemma ReduceAfterHollow<T>(parts: seq<Part<T>>, k: nat)
    requires k < |parts| && |parts| > 1 && parts[k].Hollow() && Sound(parts[k + 1..])
    ensures var rest := parts[k + 1..];
            Reduce(parts).items == if AtLeastTwo(rest, |rest|) then Concatenation(rest, |rest|) else []
    ensures !Reduce(parts).empty
  {
    var rest := parts[k + 1..];
    LiveAfterHollow(parts, k, rest, |rest|);
    SoundLive(rest, |rest|);
    CountMeans(rest, |rest|);
    hide AtLeastTwo, LiveItems, LiveCount, Concatenation;
  }

  lemma {:induction false} LiveMembers<T>(parts: seq<Part<T>>, n: nat, x: T)
    requires n <= |parts| && x in LiveItems(parts, n)
    ensures exists i :: 0 <= i < n && x in parts[i].items
  {
    if parts[n - 1].empty || x !in parts[n - 1].items {
      LiveMembers(parts, n - 1, x);
    }
  }

  /** Nothing is invented: every item of the result is an item of some part. */
  lemma ReduceMembers<T>(parts: seq<Part<T>>, x: T)
    requires x in Reduce(parts).items
    ensures exists i :: 0 <= i < |parts| && x in parts[i].items
  {
    if |parts| != 1 { LiveMembers(parts, |parts|, x); }
  }

  lemma {:induction false} LiveOfEmpty<T>(parts: seq<Part<T>>, n: nat)
    requires n <= |parts| && AllEmpty(parts, n)
    ensures LiveCount(parts, n) == 0
  {
    if n == 0 {
    } else {
      LiveOfEmpty(parts, n - 1);
    }
  }

  /** The first non-empty part, or `n` if there is none. */
  function FirstNonEmpty<T>(parts: seq<Part<T>>, n: nat): (k: nat)
    requires n <= |parts|
    ensures k <= n && (k < n ==> !parts[k].empty) && forall i :: 0 <= i < k ==> parts[i].empty
  {
    if n == 0 then 0
    else
      var k := FirstNonEmpty(parts, n - 1);
      if k < n - 1 then k else if parts[n - 1].empty then n else n - 1
  }

  ghost predicate NoHollow<T>(parts: seq<Part<T>>, n: nat)
    requires n <= |parts|
  {
    forall i :: 0 <= i < n ==> !parts[i].Hollow()
  }

  // ---- the splice on the heap ----

  /** Nodes that only the chunk at hand can reach: its list, and its tail even when the list
      itself was lost. */
  type Region = set<BytesNode>

  ghost predicate HoldsList(c: Chunk, part: Part<BytesNode>, region: Region)
    reads c, region
  {
    && (forall n :: n in part.items ==> n in region)
    && IsList(c.first, part.items)
    && c.empty == part.empty
    && (part.empty ==> |part.items| == 0)
  }

  /** `last` is the tail this chunk's list will be joined by. */
  ghost predicate HoldsTail(c: Chunk, part: Part<BytesNode>, region: Region)
    reads c
  {
    && (!part.empty ==> c.last != null && c.last in region)
    && (|part.items| > 0 ==> c.last == part.items[|part.items| - 1])
  }

  ghost predicate Holds(c: Chunk, part: Part<BytesNode>, region: Region)
    reads c, region
  {
    HoldsList(c, part, region) && HoldsTail(c, part, region)
  }

  ghost predicate Disjoint(regions: seq<Region>) {
    forall i, j :: 0 <= i < j < |regions| ==> regions[i] !! regions[j]
  }

  ghost function Tails(chunks: seq<Chunk>): Region
    reads chunks
  {
    set c | c in chunks && !c.empty && c.last != null :: c.last
  }

  /** A chain `a` whose tail points at the list `b` is one list. */
  lemma ListJoin(a: seq<BytesNode>, second: BytesNode?, b: seq<BytesNode>)
    requires |a| > 0 && Distinct(a)
    requires forall i :: 0 <= i < |a| - 1 ==> a[i].next == After(a, i)
    requires a[|a| - 1].next == second && IsList(second, b)
    requires forall n :: n in a ==> n !in b
    ensures IsList(a[0], a + b)
  {
    var all: seq<BytesNode> := a + b;
    forall i | 0 <= i < |all|
      ensures all[i].next == After(all, i)
    {
      if i < |a| - 1 {
        assert all[i] == a[i] && After(all, i) == After(a, i);
      } else if i >= |a| {
        assert all[i] == b[i - |a|] && After(all, i) == After(b, i - |a|);
      }
    }
    forall i, j | 0 <= i < j < |all|
      ensures all[i] != all[j]
    {
      if i < |a| <= j {
        assert all[i] in a && all[j] == b[j - |a|];
      } else if |a| <= i {
        assert all[i] == b[i - |a|] && all[j] == b[j - |a|];
      }
    }
  }

  /** `f_chunks_swap` */
  method Swap(last: BytesNode, child: BytesNode?)
    modifies last`next
    ensures last.next == child
  {
    last.next := child;
  }

  /** The variables of the loop: `current` is the list accumulated so far. */
  datatype Splicing = Splicing(current: BytesNode?, first: BytesNode?, last: BytesNode?, head: bool)

  /** The chunks to be spliced, what they hold, the nodes each of them and all of them can reach. */
  datatype Family = Family(chunks: seq<Chunk>, parts: seq<Part<BytesNode>>, regions: seq<Region>, universe: Region)

  /** The tail of the result: that of the first non-empty chunk, whether or not its list survived. */
  ghost function FirstTail(f: Family, n: nat): BytesNode?
    requires n <= |f.parts| == |f.chunks|
    reads f.chunks
  {
    var k := FirstNonEmpty(f.parts, n);
    if k < n then f.chunks[k].last else null
  }

  /** The state of the loop after `n` parts. */
  ghost predicate Spliced(f: Family, n: nat, seen: Region, s: Splicing)
    requires n <= |f.parts| == |f.chunks|
    reads f.chunks, seen
  {
    var cur := LiveItems(f.parts, n);
    && (forall x :: x in cur ==> x in seen)
    && IsList(s.current, cur) && (LiveCount(f.parts, n) == 0 <==> s.current == null)
    && s.first == (if LiveCount(f.parts, n) >= 2 then s.current else null)
    && (s.head <==> AllEmpty(f.parts, n))
    && s.last == FirstTail(f, n) && (!s.head ==> s.last != null && s.last in seen)
    && (NoHollow(f.parts, n) && !s.head ==> |cur| > 0 && s.last == cur[|cur| - 1])
  }

  /** The chunks from `i` on are still as they were handed over; `seen` is what the earlier ones
      reached, and `tails` are the only nodes that change. */
  ghost predicate Waiting(f: Family, i: nat, seen: Region, tails: Region)
    reads f.chunks, f.universe
  {
    && |f.chunks| == |f.parts| == |f.regions| && i <= |f.chunks| && Disjoint(f.regions) && seen <= f.universe
    && (forall j :: i <= j < |f.chunks| ==>
          && f.regions[j] <= f.universe && seen !! f.regions[j] && Holds(f.chunks[j], f.parts[j], f.regions[j])
          && (!f.chunks[j].empty && f.chunks[j].last != null ==> f.chunks[j].last in tails))
  }

  lemma SplicedNone(f: Family, tails: Region)
    requires Waiting(f, 0, {}, tails)
    ensures Spliced(f, 0, {}, Splicing(null, null, null, true))
  {
  }

  lemma SplicedSkip(f: Family, i: nat, seen: Region, s: Splicing, tails: Region)
    requires Waiting(f, i, seen, tails) && i < |f.chunks| && f.chunks[i].empty && Spliced(f, i, seen, s)
    ensures Waiting(f, i + 1, seen, tails) && Spliced(f, i + 1, seen, s)
  {
  }

  /** What a non-empty part adds. */
  lemma LiveStep<T>(parts: seq<Part<T>>, i: nat)
    requires i < |parts| && !parts[i].empty
    ensures LiveItems(parts, i + 1) == if |parts[i].items| == 0 then [] else parts[i].items + LiveItems(parts, i)
    ensures LiveCount(parts, i + 1) == if |parts[i].items| == 0 then 0 else LiveCount(parts, i) + 1
    ensures !AllEmpty(parts, i + 1) && (AllEmpty(parts, i) ==> LiveCount(parts, i) == 0)
    ensures FirstNonEmpty(parts, i + 1) == FirstNonEmpty(parts, i)
    ensures AllEmpty(parts, i) <==> FirstNonEmpty(parts, i) == i
    ensures NoHollow(parts, i + 1) <==> NoHollow(parts, i) && |parts[i].items| > 0
  {
    if AllEmpty(parts, i) { LiveOfEmpty(parts, i); }
  }

  /** A list whose tail is swapped onto a disjoint list is followed by it. */
  method SwapLists(tail: BytesNode, first: BytesNode?, current: BytesNode?,
                   ghost items: seq<BytesNode>, ghost cur: seq<BytesNode>)
    requires IsList(first, items) && IsList(current, cur) && tail !in cur && forall n :: n in items ==> n !in cur
    requires |items| > 0 ==> tail == items[|items| - 1]
    modifies tail`next
    ensures |items| > 0 ==> IsList(first, items + cur)
  {
    Swap(tail, current);
    assert forall k :: 0 <= k < |cur| ==> cur[k] != tail;
    if |items| > 0 {
      ListJoin(items, current, cur);
    }
  }

  /** The body of the loop for a non-empty chunk. When a hollow chunk is linked, its lost tail
      swallows the accumulated list and NULL is left. */
  method Link(s: Splicing, c: Chunk, ghost f: Family, ghost i: nat, ghost seen: Region) returns (next: Splicing)
    requires i < |f.chunks| == |f.parts| == |f.regions| && c == f.chunks[i] && !c.empty
    requires Holds(c, f.parts[i], f.regions[i]) && seen !! f.regions[i] && Spliced(f, i, seen, s)
    modifies c.last`next
    ensures Spliced(f, i + 1, seen + f.regions[i], next) && !next.head
  {
    hide LiveItems, LiveCount, AllEmpty, NoHollow, FirstNonEmpty;
    LiveStep(f.parts, i);
    if s.current == null {
      next := s.(current := c.first);
      if s.head {
        next := next.(last := c.last, head := false);
      }
      assert |LiveItems(f.parts, i)| == 0;
    } else {
      var tail, parent := c.last, c.first;
      SwapLists(tail, parent, s.current, f.parts[i].items, LiveItems(f.parts, i));
      next := s.(first := parent, current := parent);
    }
  }

  /** It leaves the later chunks as they are. */
  method Absorb(s: Splicing, c: Chunk, ghost f: Family, ghost i: nat, ghost seen: Region, ghost tails: Region)
    returns (next: Splicing)
    requires Waiting(f, i, seen, tails) && i < |f.chunks| && c == f.chunks[i] && !c.empty
    requires Spliced(f, i, seen, s)
    modifies c.last`next
    ensures Spliced(f, i + 1, seen + f.regions[i], next) && !next.head
    ensures Waiting(f, i + 1, seen + f.regions[i], tails)
  {
    hide Spliced;
    next := Link(s, c, f, i, seen);
  }

  lemma SplicedAll(f: Family, seen: Region, s: Splicing)
    requires |f.parts| == |f.chunks| && |f.parts| != 1 && Spliced(f, |f.parts|, seen, s)
    ensures s.last == FirstTail(f, |f.parts|) && (!s.head ==> s.last != null && s.last in seen)
    ensures var r := Reduce(f.parts);
            && (forall x :: x in r.items ==> x in seen) && IsList(s.first, r.items)
            && r.empty == s.head && (s.head ==> |r.items| == 0)
            && (NoHollow(f.parts, |f.parts|) && |r.items| > 0 ==> s.last == r.items[|r.items| - 1])
  {
    if s.head { LiveOfEmpty(f.parts, |f.parts|); }
  }

  /** Copies the chunk fields into a new result. */
  method Result(idx: nat, first: BytesNode?, last: BytesNode?, empty: bool, lineCount: nat,
                ghost part: Part<BytesNode>, ghost universe: Region)
    returns (result: Chunk)
    requires (forall n :: n in part.items ==> n in universe) && IsList(first, part.items)
    requires empty == part.empty && (part.empty ==> |part.items| == 0)
    ensures fresh(result) && result.current == idx && result.lineCount == lineCount
    ensures HoldsList(result, part, universe)
    ensures result.last == last
  {
    result := new Chunk(idx, first, last);
    result.empty, result.lineCount := empty, lineCount;
  }

  lemma WaitingTail(f: Family, i: nat, seen: Region, tails: Region)
    requires Waiting(f, i, seen, tails) && i < |f.chunks| && !f.chunks[i].empty
    ensures |f.regions| == |f.chunks| && f.chunks[i].last != null && f.chunks[i].last in tails
  {
  }

  /** The loop over all chunks. */
  method Splice(cs: seq<Chunk>, ghost f: Family, ghost tails: Region)
    returns (s: Splicing, empty: bool, ghost seen: Region)
    requires cs == f.chunks && |f.chunks| == |f.parts| && Waiting(f, 0, {}, tails)
    modifies tails`next
    ensures Waiting(f, |cs|, seen, tails) && Spliced(f, |cs|, seen, s) && empty == s.head
  {
    hide Waiting, Spliced;
    s := Splicing(null, null, null, true);
    empty, seen := true, {};
    SplicedNone(f, tails);
    var i := 0;
    while i < |cs|
      invariant i <= |cs| && Waiting(f, i, seen, tails) && Spliced(f, i, seen, s) && empty == s.head
    {
      if cs[i].empty {
        SplicedSkip(f, i, seen, s, tails);
        i := i + 1;
        continue;
      }
      WaitingTail(f, i, seen, tails);
      ghost var region := f.regions[i];
      s := Absorb(s, cs[i], f, i, seen, tails);
      seen := seen + region;
      empty := false;
      i := i + 1;
    }
  }

  /** `f_chunk_array_reverse_reduce`: only the `next` fields of the tails change. `last` is the tail
      of the first non-empty chunk, which is the tail of the result unless a hollow chunk came in. */
  method ReverseReduce(idx: nat, chunks: seq<Chunk>, ghost parts: seq<Part<BytesNode>>, ghost regions: seq<Region>,
                       ghost universe: Region)
    returns (result: Chunk)
    requires |chunks| == |parts| == |regions| && Disjoint(regions)
    requires forall k :: 0 <= k < |parts| ==> Holds(chunks[k], parts[k], regions[k]) && regions[k] <= universe
    modifies Tails(chunks)`next
    ensures fresh(result) && result.current == idx
    ensures HoldsList(result, Reduce(parts), universe)
    ensures result.last ==
              if |parts| == 1 then chunks[0].last else FirstTail(Family(chunks, parts, regions, universe), |parts|)
    ensures NoHollow(parts, |parts|) || |parts| == 1 ==> Holds(result, Reduce(parts), universe)
    ensures |parts| == 1 ==> result.lineCount == chunks[0].lineCount
  {
    if |chunks| == 1 {
      var c := chunks[0];
      result := Result(idx, c.first, c.last, c.empty, c.lineCount, parts[0], universe);
    } else {
      ghost var f, seen := Family(chunks, parts, regions, universe), {};
      var s, empty;
      s, empty, seen := Splice(chunks, f, Tails(chunks));
      SplicedAll(f, seen, s);
      hide Spliced, Waiting, FirstTail, Reduce, IsList;
      result := Result(idx, s.first, s.last, empty, 0, Reduce(parts), universe);
    }
  }
}
