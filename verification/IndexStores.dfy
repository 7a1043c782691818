/** The two forms of the finished index: an append-only file of offsets, highest first, and an
    ascending array. Both are written from the list of one chunk. */
module IndexStores {
  import opened TextFiles
  import opened Nodes
  import opened Chunks

  /** The offset file. Only appending is possible. */
  class LookupFile {
    var entries: seq<nat>
    var len: nat

    /** `f_lookup_file_init` */
    constructor ()
      ensures entries == [] && len == 0
    {
      entries := [];
      len := 0;
    }

    /** `f_lookup_file_append` */
    method Append(offset: nat)
      modifies this`entries
      ensures entries == old(entries) + [offset]
    {
      entries := entries + [offset];
    }
  }

  /** `f_lookup_file_from_chunk`. `len` grows by the line count of the chunk, whatever the
      number of entries written. */
  method FileFromChunk(lookup: LookupFile?, chunk: Chunk, first: bool, last: bool, ghost nodes: seq<BytesNode>)
    returns (init: LookupFile)
    requires first || lookup != null
    requires IsList(chunk.first, nodes)
    modifies if first then {} else {lookup}
    ensures if first then fresh(init) else init == lookup
    ensures init.entries == (if first then [] else old(lookup.entries)) + OffsetsOf(nodes) + if last then [0] else []
    ensures init.len == (if first then 0 else old(lookup.len)) + chunk.lineCount + if last then 1 else 0
  {
    if first {
      init := new LookupFile();
    } else {
      init := lookup;
    }
    var current := chunk.first;
    var len := chunk.lineCount;
    ghost var k := 0;
    ghost var before := init.entries;
    while current != null
      invariant 0 <= k <= |nodes| && IsList(chunk.first, nodes)
      invariant current == if k < |nodes| then nodes[k] else null
      invariant init.entries == before + OffsetsOf(nodes)[..k]
      invariant init.len == if first then 0 else old(lookup.len)
      decreases |nodes| - k
    {
      init.Append(current.bytes.offset);
      assert current == nodes[k] && current.next == After(nodes, k);
      current := current.next;
      k := k + 1;
    }
    assert OffsetsOf(nodes)[..k] == OffsetsOf(nodes);
    if last {
      init.Append(0);
      init.len := init.len + len + 1;
    } else {
      init.len := init.len + len;
    }
  }

  /** The array form: ascending, led by 0, its last value repeated as a sentinel. */
  function MemValues(offsets: seq<nat>): seq<nat> {
    var n := |offsets|;
    seq(n + 2, k requires 0 <= k < n + 2 =>
      if k == 0 || n == 0 then 0 else if k <= n then offsets[n - k] else offsets[0])
  }

  /** `f_lookup_mem_from_chunk`. The list must fit the array that `line_count` sizes. */
  method MemFromChunk(chunk: Chunk, ghost nodes: seq<BytesNode>) returns (values: array<nat>)
    requires IsList(chunk.first, nodes)
    requires |nodes| <= chunk.lineCount + 1
    ensures fresh(values) && values.Length == chunk.lineCount + 2
    ensures values[0] == 0 && values[chunk.lineCount + 1] == values[chunk.lineCount]
    ensures forall j :: 0 <= j < |nodes| && j < chunk.lineCount ==> values[chunk.lineCount - j] == OffsetsOf(nodes)[j]
    ensures |nodes| == chunk.lineCount ==> values[..] == MemValues(OffsetsOf(nodes))
  {
    var current := chunk.first;
    var len := chunk.lineCount;
    values := new nat[len + 2];
    var i := len;
    ghost var k := 0;
    while current != null
      invariant 0 <= k <= |nodes| && i == len - k
      invariant current == if k < |nodes| then nodes[k] else null
      invariant forall j :: 0 <= j < k ==> values[len - j] == OffsetsOf(nodes)[j]
      decreases |nodes| - k
    {
      values[i] := current.bytes.offset;
      i := i - 1;
      assert current == nodes[k] && current.next == After(nodes, k);
      current := current.next;
      k := k + 1;
    }
    values[0] := 0;
    values[len + 1] := values[len];
    if |nodes| == len {
      forall m | 0 <= m < len + 2 ensures values[m] == MemValues(OffsetsOf(nodes))[m] {
        if 0 < m <= len { assert values[len - (len - m)] == OffsetsOf(nodes)[len - m]; }
        if m == len + 1 && len > 0 { assert values[len - 0] == OffsetsOf(nodes)[0]; }
      }
    }
  }

  /** Both forms agree: value `k` is the entry `k` places before the final 0. The array is
      ascending whenever the file is strictly decreasing. */
  lemma MemAgreesWithFile(offsets: seq<nat>)
    ensures |MemValues(offsets)| == |offsets| + 2
    ensures forall k :: 0 <= k <= |offsets| ==> MemValues(offsets)[k] == (offsets + [0])[|offsets| - k]
    ensures MemValues(offsets)[|offsets| + 1] == MemValues(offsets)[|offsets|]
    ensures StrictlyDecreasing(offsets + [0]) <==>
              forall i, j :: 0 <= i < j <= |offsets| ==> MemValues(offsets)[i] < MemValues(offsets)[j]
  {
    var n, file, mem := |offsets|, offsets + [0], MemValues(offsets);
    assert forall k :: 0 <= k <= n ==> mem[k] == file[n - k];
    if forall i, j :: 0 <= i < j <= n ==> mem[i] < mem[j] {
      forall i, j | 0 <= i < j < |file| ensures file[i] > file[j] {
        assert mem[n - i] == file[n - (n - i)] && mem[n - j] == file[n - (n - j)];
      }
    }
  }

  lemma AtomicStep(bs: seq<Bytes>, n: nat)
    requires 0 < n <= |bs| && forall k :: 0 <= k < |bs| ==> bs[k].atomic
    ensures Aggregated(bs, n) == [bs[n - 1].offset] + Aggregated(bs, n - 1)
  {
  }

  lemma {:induction false} AtomicOffsets(bs: seq<Bytes>, n: nat)
    requires n <= |bs| && forall k :: 0 <= k < |bs| ==> bs[k].atomic
    ensures |Aggregated(bs, n)| == n && forall j :: 0 <= j < n ==> Aggregated(bs, n)[j] == bs[n - 1 - j].offset
  {
    if n == 0 {
    } else {
      hide Aggregated;
      AtomicStep(bs, n);
      AtomicOffsets(bs, n - 1);
      forall j | 0 <= j < n ensures Aggregated(bs, n)[j] == bs[n - 1 - j].offset {
        if j > 0 { assert Aggregated(bs, n)[j] == Aggregated(bs, n - 1)[j - 1]; }
      }
    }
  }

  /** The forward list of `f_node_from_reversed_bytes_node`, made from a scan (where every entry is
      atomic), holds the values of the array without its sentinel. */
  lemma {:induction false} ForwardListAgrees(bs: seq<Bytes>)
    requires forall k :: 0 <= k < |bs| ==> bs[k].atomic
    ensures [0] + Aggregated(bs, |bs|) == MemValues(seq(|bs|, k requires 0 <= k < |bs| => bs[k].offset))[..|bs| + 1]
  {
    AtomicOffsets(bs, |bs|);
  }
}
