/** What the index is about: the line starts of a byte sequence, and the naive splitting of
    that sequence into lines. Nothing here mentions windows, threads or chunks. */
module TextFiles {

  newtype byte = x: int | 0 <= x < 256

  type Text = seq<byte>

  const NEWLINE: byte := 10
  const NUL: byte := 0

  /** `p + 1` for every newline `p` in `[lo, hi)`, highest first. */
  function LineStarts(file: Text, lo: nat, hi: nat): seq<nat> {
    if hi <= lo then []
    else (if hi <= |file| && file[hi - 1] == NEWLINE then [hi] else []) + LineStarts(file, lo, hi - 1)
  }

  /** The complete index as it lies in the lookup file: highest line start first, 0 last. */
  function CompleteIndex(file: Text): seq<nat> {
    LineStarts(file, 0, |file|) + [0]
  }

  ghost predicate StrictlyDecreasing(s: seq<nat>) {
    forall i, j :: 0 <= i < j < |s| ==> s[i] > s[j]
  }

  ghost predicate NonIncreasing(s: seq<nat>) {
    forall i, j :: 0 <= i < j < |s| ==> s[i] >= s[j]
  }

  ghost predicate IsLineStart(file: Text, lo: nat, hi: nat, x: nat) {
    lo < x <= hi && x <= |file| && file[x - 1] == NEWLINE
  }

  lemma {:induction false} LineStartsStep(file: Text, lo: nat, hi: nat)
    requires lo < hi
    ensures LineStarts(file, lo, hi)
         == (if hi <= |file| && file[hi - 1] == NEWLINE then [hi] else []) + LineStarts(file, lo, hi - 1)
  {
  }

  lemma {:induction false} LineStartsMembers(file: Text, lo: nat, hi: nat, x: nat)
    ensures x in LineStarts(file, lo, hi) <==> IsLineStart(file, lo, hi, x)
    decreases hi
  {
    if hi <= lo {
    } else {
      LineStartsStep(file, lo, hi);
      hide LineStarts;
      LineStartsMembers(file, lo, hi - 1, x);
    }
  }

  lemma LineStartsBound(file: Text, lo: nat, hi: nat, x: nat)
    requires x in LineStarts(file, lo, hi)
    ensures lo < x <= hi
  {
    LineStartsMembers(file, lo, hi, x);
  }

  lemma LineStartsNone(file: Text, lo: nat, hi: nat)
    requires hi <= lo
    ensures LineStarts(file, lo, hi) == []
  {
  }

  lemma {:induction false} LineStartsDecrease(file: Text, lo: nat, hi: nat)
    ensures StrictlyDecreasing(LineStarts(file, lo, hi))
    decreases hi
  {
    hide LineStarts, IsLineStart;
    if hi <= lo {
      LineStartsNone(file, lo, hi);
    } else {
      LineStartsStep(file, lo, hi);
      LineStartsDecrease(file, lo, hi - 1);
      var rest := LineStarts(file, lo, hi - 1);
      forall k | 0 <= k < |rest| ensures rest[k] < hi {
        LineStartsBound(file, lo, hi - 1, rest[k]);
      }
    }
  }

  /** The list is the one strictly decreasing list with exactly the line starts as members. */
  lemma LineStartsExact(file: Text, lo: nat, hi: nat)
    ensures StrictlyDecreasing(LineStarts(file, lo, hi))
    ensures forall x :: x in LineStarts(file, lo, hi) <==> IsLineStart(file, lo, hi, x)
  {
    LineStartsDecrease(file, lo, hi);
    forall x ensures x in LineStarts(file, lo, hi) <==> IsLineStart(file, lo, hi, x) {
      LineStartsMembers(file, lo, hi, x);
    }
  }

  lemma {:induction false} LineStartsConcat(file: Text, lo: nat, mid: nat, hi: nat)
    requires lo <= mid <= hi
    ensures LineStarts(file, lo, hi) == LineStarts(file, mid, hi) + LineStarts(file, lo, mid)
    decreases hi - mid
  {
    hide *;
    if mid == hi {
      LineStartsNone(file, mid, hi);
    } else {
      LineStartsConcat(file, lo, mid, hi - 1);
      LineStartsStep(file, lo, hi);
      LineStartsStep(file, mid, hi);
    }
  }

  /** Two strictly decreasing lists with the same members are the same list. */
  lemma {:induction false} DecreasingUnique(a: seq<nat>, b: seq<nat>)
    requires StrictlyDecreasing(a) && StrictlyDecreasing(b)
    requires forall x :: x in a <==> x in b
    ensures a == b
  {
    assert b != [] ==> b[0] in a;
    if a == [] {
    } else {
      assert a[0] in b && (b != [] ==> b[0] in a);
      assert a[0] == b[0];
      var a', b' := a[1..], b[1..];
      forall x ensures x in a' <==> x in b' {
        assert x in a <==> x == a[0] || x in a';
        assert x in b <==> x == b[0] || x in b';
      }
      DecreasingUnique(a', b');
      assert a == [a[0]] + a' && b == [b[0]] + b';
    }
  }

  // ---- naive line splitting ----

  /** Complete lines, each with its newline, and the unterminated tail. */
  datatype Split = Split(lines: seq<Text>, tail: Text)

  function SplitLines(s: Text): Split {
    if s == [] then Split([], [])
    else
      var n := |s| - 1;
      var before := SplitLines(s[..n]);
      if s[n] == NEWLINE then Split(before.lines + [before.tail + [NEWLINE]], [])
      else Split(before.lines, before.tail + [s[n]])
  }

  function Concat(lines: seq<Text>): Text {
    if lines == [] then [] else Concat(lines[..|lines| - 1]) + lines[|lines| - 1]
  }

  ghost predicate IsLine(l: Text) {
    l != [] && l[|l| - 1] == NEWLINE && NEWLINE !in l[..|l| - 1]
  }

  ghost predicate IsSplitOf(sp: Split, s: Text) {
    && Concat(sp.lines) + sp.tail == s
    && (forall k :: 0 <= k < |sp.lines| ==> IsLine(sp.lines[k]))
    && NEWLINE !in sp.tail
  }

  lemma {:induction false} ConcatSnoc(lines: seq<Text>, l: Text)
    ensures Concat(lines + [l]) == Concat(lines) + l
  {
    assert (lines + [l])[..|lines|] == lines;
  }

  lemma {:induction false} ConcatAppend(a: seq<Text>, b: seq<Text>)
    ensures Concat(a + b) == Concat(a) + Concat(b)
    decreases |b|
  {
    if b == [] {
      assert a + b == a;
    } else {
      var b', l := b[..|b| - 1], b[|b| - 1];
      assert a + b == (a + b') + [l] && b == b' + [l];
      ConcatSnoc(a + b', l);
      ConcatAppend(a, b');
      ConcatSnoc(b', l);
    }
  }

  lemma SplitSnoc(before: Split, s: Text, c: byte)
    requires IsSplitOf(before, s)
    ensures c == NEWLINE ==> IsSplitOf(Split(before.lines + [before.tail + [NEWLINE]], []), s + [c])
    ensures c != NEWLINE ==> IsSplitOf(Split(before.lines, before.tail + [c]), s + [c])
  {
    if c == NEWLINE {
      var l := before.tail + [NEWLINE];
      assert l[..|l| - 1] == before.tail;
      assert IsLine(l);
      ConcatSnoc(before.lines, l);
      assert Concat(before.lines) + l + [] == (Concat(before.lines) + before.tail) + [NEWLINE];
    } else {
      assert Concat(before.lines) + (before.tail + [c]) == (Concat(before.lines) + before.tail) + [c];
    }
  }

  /** `SplitLines` is the splitting: it is one ... */
  lemma {:induction false} SplitLinesSound(s: Text)
    ensures IsSplitOf(SplitLines(s), s)
  {
    if s == [] {
    } else {
      var n := |s| - 1;
      SplitLinesSound(s[..n]);
      var before := SplitLines(s[..n]);
      SplitSnoc(before, s[..n], s[n]);
      assert s == s[..n] + [s[n]];
    }
  }

  /** ... and there is no other. */
  lemma {:induction false} SplitLinesUnique(sp: Split, s: Text)
    requires IsSplitOf(sp, s)
    ensures sp == SplitLines(s)
    decreases |s|
  {
    var m := |sp.lines|;
    if sp.tail != [] {
      var t := |sp.tail| - 1;
      var shorter := Split(sp.lines, sp.tail[..t]);
      assert s[..|s| - 1] == Concat(sp.lines) + sp.tail[..t];
      assert s[|s| - 1] == sp.tail[t];
      assert sp.tail[t] in sp.tail;
      SplitLinesUnique(shorter, s[..|s| - 1]);
      assert sp.tail == sp.tail[..t] + [sp.tail[t]];
    } else if m > 0 {
      var l := sp.lines[m - 1];
      assert IsLine(l);
      var body := l[..|l| - 1];
      var shorter := Split(sp.lines[..m - 1], body);
      assert s == Concat(sp.lines[..m - 1]) + l;
      assert l == body + [NEWLINE];
      hide Concat, IsLine;
      assert s[..|s| - 1] == Concat(sp.lines[..m - 1]) + body;
      assert s[|s| - 1] == NEWLINE;
      SplitLinesUnique(shorter, s[..|s| - 1]);
      assert sp.lines == sp.lines[..m - 1] + [l];
    } else {
      assert s == [];
    }
  }

  /** Start offset of line `k` in the naive splitting. */
  function StartOf(file: Text, k: nat): nat
    requires k <= |SplitLines(file).lines|
  {
    |Concat(SplitLines(file).lines[..k])|
  }

  lemma {:induction false} LineStartsPrefix(file: Text, f: Text, lo: nat, hi: nat)
    requires hi <= |f| <= |file| && forall i :: 0 <= i < |f| ==> f[i] == file[i]
    ensures LineStarts(file, lo, hi) == LineStarts(f, lo, hi)
    decreases hi
  {
    if hi <= lo {
    } else {
      LineStartsStep(file, lo, hi);
      LineStartsStep(f, lo, hi);
      hide LineStarts;
      LineStartsPrefix(file, f, lo, hi - 1);
    }
  }

  /** One more byte puts at most one entry in front of the index ... */
  lemma IndexGrows(f: Text, c: byte)
    ensures CompleteIndex(f + [c]) == (if c == NEWLINE then [|f| + 1] else []) + CompleteIndex(f)
  {
    LineStartsPrefix(f + [c], f, 0, |f|);
  }

  /** ... and at most one line at the end of the splitting; the earlier lines start where they did. */
  lemma LinesGrow(f: Text, c: byte)
    ensures |SplitLines(f + [c]).lines| == |SplitLines(f).lines| + if c == NEWLINE then 1 else 0
    ensures forall k :: 0 <= k <= |SplitLines(f).lines| ==> StartOf(f + [c], k) == StartOf(f, k)
    ensures c == NEWLINE ==> StartOf(f + [c], |SplitLines(f + [c]).lines|) == |f| + 1
  {
    var file, lines := f + [c], SplitLines(f).lines;
    assert file[..|f|] == f && file != [];
    var grown := SplitLines(file);
    SplitLinesSound(file);
    assert grown.lines[..|grown.lines|] == grown.lines;
    assert |Concat(grown.lines)| + |grown.tail| == |file|;
    hide Concat;
    forall k | 0 <= k <= |lines| ensures StartOf(file, k) == StartOf(f, k) {
      assert grown.lines[..k] == lines[..k];
    }
  }

  lemma EmptyIndex()
    ensures CompleteIndex([]) == [0] && |SplitLines([]).lines| == 0 && StartOf([], 0) == 0
  {
  }

  /** The index read backwards is the list of line starts of the naive splitting. */
  lemma {:induction false} EntryIsLineStart(file: Text)
    ensures |CompleteIndex(file)| == |SplitLines(file).lines| + 1
    ensures forall k :: 0 <= k <= |SplitLines(file).lines| ==>
              CompleteIndex(file)[|SplitLines(file).lines| - k] == StartOf(file, k)
  {
    if file == [] {
      EmptyIndex();
    } else {
      var f, c := file[..|file| - 1], file[|file| - 1];
      assert file == f + [c];
      hide SplitLines, CompleteIndex, StartOf;
      EntryIsLineStart(f);
      IndexGrows(f, c);
      LinesGrow(f, c);
    }
  }

  /** Slicing the file between two line starts gives back the lines between them. */
  lemma {:induction false} SliceIsLines(file: Text, a: nat, b: nat)
    requires a <= b <= |SplitLines(file).lines|
    ensures StartOf(file, a) <= StartOf(file, b) <= |file|
    ensures file[StartOf(file, a)..StartOf(file, b)] == Concat(SplitLines(file).lines[a..b])
  {
    hide SplitLines, Concat, IsLine;
    var ls := SplitLines(file).lines;
    SplitLinesSound(file);
    ConcatAppend(ls[..a], ls[a..b]);
    assert ls[..b] == ls[..a] + ls[a..b];
    ConcatAppend(ls[..b], ls[b..]);
    assert ls == ls[..b] + ls[b..];
    assert file == (Concat(ls[..b]) + Concat(ls[b..])) + SplitLines(file).tail;
    assert file[..StartOf(file, b)] == Concat(ls[..b]);
    assert file[StartOf(file, a)..StartOf(file, b)] == Concat(ls[..b])[StartOf(file, a)..];
  }
}
