/** The two linked lists of the library: partial offsets (`f_bytes_node`, newest first) and
    the forward list of absolute offsets (`f_node`). */
module Nodes {
  import opened Machine

  /** `atomic` marks an offset that starts a new line by itself. */
  datatype Bytes = Bytes(atomic: bool, offset: nat)

  class BytesNode {
    const bytes: Bytes
    var next: BytesNode?

    constructor (bytes: Bytes)
      ensures this.bytes == bytes && next == null
    {
      this.bytes := bytes;
      next := null;
    }
  }

  class OffsetNode {
    const offset: nat
    var next: OffsetNode?

    constructor (offset: nat)
      ensures this.offset == offset && next == null
    {
      this.offset := offset;
      next := null;
    }
  }

  ghost predicate Distinct<T>(s: seq<T>) {
    forall i, j :: 0 <= i < j < |s| ==> s[i] != s[j]
  }

  ghost function After(nodes: seq<BytesNode>, i: nat): BytesNode? {
    if i + 1 < |nodes| then nodes[i + 1] else null
  }

  ghost function OffsetAfter(nodes: seq<OffsetNode>, i: nat): OffsetNode? {
    if i + 1 < |nodes| then nodes[i + 1] else null
  }

  /** Following `next` from `first` visits exactly `nodes`, once each, and then meets NULL. */
  ghost predicate IsList(first: BytesNode?, nodes: seq<BytesNode>)
    reads nodes
  {
    && (if |nodes| == 0 then first == null else first == nodes[0])
    && (forall i {:trigger nodes[i].next} :: 0 <= i < |nodes| ==> nodes[i].next == After(nodes, i))
    && Distinct(nodes)
  }

  ghost predicate IsOffsetList(first: OffsetNode?, nodes: seq<OffsetNode>)
    reads nodes
  {
    && (if |nodes| == 0 then first == null else first == nodes[0])
    && (forall i {:trigger nodes[i].next} :: 0 <= i < |nodes| ==> nodes[i].next == OffsetAfter(nodes, i))
    && Distinct(nodes)
  }

  lemma ListCons(n: BytesNode, nodes: seq<BytesNode>)
    requires IsList(n.next, nodes) && n !in nodes
    ensures IsList(n, [n] + nodes)
  {
    var all := [n] + nodes;
    forall i | 0 <= i < |all|
      ensures all[i].next == After(all, i)
    {
      if i > 0 { assert all[i] == nodes[i - 1] && After(all, i) == After(nodes, i - 1); }
    }
  }

  function ValuesOf(nodes: seq<OffsetNode>): seq<nat> {
    seq(|nodes|, i requires 0 <= i < |nodes| => nodes[i].offset)
  }

  lemma OffsetListCons(n: OffsetNode, nodes: seq<OffsetNode>)
    requires IsOffsetList(n.next, nodes) && n !in nodes
    ensures IsOffsetList(n, [n] + nodes)
    ensures ValuesOf([n] + nodes) == [n.offset] + ValuesOf(nodes)
  {
    var all := [n] + nodes;
    forall i | 0 <= i < |all|
      ensures all[i].next == OffsetAfter(all, i)
    {
      if i > 0 { assert all[i] == nodes[i - 1] && OffsetAfter(all, i) == OffsetAfter(nodes, i - 1); }
    }
  }

  function BytesOf(nodes: seq<BytesNode>): seq<Bytes> {
    seq(|nodes|, i requires 0 <= i < |nodes| => nodes[i].bytes)
  }

  function OffsetsOf(nodes: seq<BytesNode>): seq<nat> {
    seq(|nodes|, i requires 0 <= i < |nodes| => nodes[i].bytes.offset)
  }

  /** `f_bytes_node_prepend`: with an empty list the new head keeps its own `next`. */
  method Prepend(head: BytesNode?, parent: BytesNode, ghost nodes: seq<BytesNode>) returns (newHead: BytesNode)
    requires IsList(head, nodes) && parent !in nodes
    modifies parent`next
    ensures newHead == parent
    ensures parent.next == if head == null then old(parent.next) else head
    ensures head != null || old(parent.next) == null ==> IsList(newHead, [parent] + nodes)
  {
    if head == null {
      newHead := parent;
    } else {
      parent.next := head;
      newHead := parent;
    }
    if head != null || old(parent.next) == null {
      ListCons(parent, nodes);
    }
  }

  // ---- aggregation of partial offsets ----

  /** The offset entry `k` stands for: its own, plus that of a non-atomic entry right before it. */
  function AbsoluteAt(bs: seq<Bytes>, k: nat): nat
    requires k < |bs|
  {
    if k > 0 && !bs[k - 1].atomic then U64(bs[k - 1].offset + bs[k].offset) else bs[k].offset
  }

  /** Absolute offsets of the atomic ones of the first `n` entries, last entry first. */
  function Aggregated(bs: seq<Bytes>, n: nat): seq<nat>
    requires n <= |bs|
  {
    if n == 0 then []
    else (if bs[n - 1].atomic then [AbsoluteAt(bs, n - 1)] else []) + Aggregated(bs, n - 1)
  }

  function CountAtomic(bs: seq<Bytes>, n: nat): nat
    requires n <= |bs|
  {
    if n == 0 then 0 else CountAtomic(bs, n - 1) + if bs[n - 1].atomic then 1 else 0
  }

  lemma {:induction false} AggregatedLength(bs: seq<Bytes>, n: nat)
    requires n <= |bs|
    ensures |Aggregated(bs, n)| == CountAtomic(bs, n)
  {
    if n == 0 {
    } else {
      AggregatedLength(bs, n - 1);
    }
  }

  /** The count is that of the atomic entries. */
  lemma {:induction false} CountAtomicExact(bs: seq<Bytes>, n: nat)
    requires n <= |bs|
    ensures CountAtomic(bs, n) == |set k | 0 <= k < n && bs[k].atomic|
  {
    if n == 0 {
    } else {
      CountAtomicExact(bs, n - 1);
      var before, all := set k | 0 <= k < n - 1 && bs[k].atomic, set k | 0 <= k < n && bs[k].atomic;
      if bs[n - 1].atomic {
        assert all == before + {n - 1};
      } else {
        assert all == before;
      }
    }
  }

  /** One result per atomic entry; the entry preceded by `a` atomic ones is `a` places from the end.
      It is the offset of the entry, increased by that of the entry right before it if that one is
      not atomic. */
  lemma {:induction false} AggregatedAt(bs: seq<Bytes>, n: nat, k: nat)
    requires k < n <= |bs| && bs[k].atomic
    ensures |Aggregated(bs, n)| == CountAtomic(bs, n) && CountAtomic(bs, k) < CountAtomic(bs, n)
    ensures var place := CountAtomic(bs, n) - 1 - CountAtomic(bs, k);
            && (k == 0 || bs[k - 1].atomic ==> Aggregated(bs, n)[place] == bs[k].offset)
            && (k > 0 && !bs[k - 1].atomic ==>
                  Aggregated(bs, n)[place] == (bs[k - 1].offset + bs[k].offset) % TWO_64)
  {
    AggregatedLength(bs, n);
    AggregatedLength(bs, n - 1);
    if k == n - 1 {
      if k > 0 { U64IsResidue(bs[k - 1].offset + bs[k].offset); }
    } else {
      AggregatedAt(bs, n - 1, k);
    }
  }

  /** Creates a node and puts it in front of a list. */
  method NewBefore(offset: nat, head: OffsetNode?, ghost nodes: seq<OffsetNode>)
    returns (node: OffsetNode, ghost result: seq<OffsetNode>)
    requires IsOffsetList(head, nodes)
    ensures fresh(node) && result == [node] + nodes && IsOffsetList(node, result)
    ensures ValuesOf(result) == [offset] + ValuesOf(nodes)
  {
    node := new OffsetNode(offset);
    node.next := head;
    result := [node] + nodes;
    OffsetListCons(node, nodes);
  }

  /** `f_node_from_reversed_bytes_node`. `out0` is what the caller left in `*out`; it ends up in
      the result only when the list has no atomic entry. */
  method FromReversedBytesNode(out0: OffsetNode?, ghost outNodes: seq<OffsetNode>,
                               bytesHead: BytesNode?, ghost nodes: seq<BytesNode>)
    returns (out: OffsetNode, ghost result: seq<OffsetNode>)
    requires IsList(bytesHead, nodes) && IsOffsetList(out0, outNodes)
    ensures IsOffsetList(out, result)
    ensures CountAtomic(BytesOf(nodes), |nodes|) > 0 ==>
              ValuesOf(result) == [0] + Aggregated(BytesOf(nodes), |nodes|) && fresh(result)
    ensures CountAtomic(BytesOf(nodes), |nodes|) == 0 ==> ValuesOf(result) == [0] + ValuesOf(outNodes)
  {
    ghost var bs := BytesOf(nodes);
    var prev: BytesNode? := null;
    var current := bytesHead;
    var last := 0;
    var head := out0;
    result := outNodes;
    ghost var k := 0;
    while current != null
      invariant 0 <= k <= |nodes| && IsList(bytesHead, nodes)
      invariant current == if k < |nodes| then nodes[k] else null
      invariant prev == if k > 0 && !bs[k - 1].atomic then nodes[k - 1] else null
      invariant IsOffsetList(head, result)
      invariant last == 0 <==> |Aggregated(bs, k)| == 0
      invariant last == 0 ==> head == out0 && result == outNodes
      invariant last != 0 ==> fresh(result) && ValuesOf(result) == Aggregated(bs, k)
      decreases |nodes| - k
    {
      assert current.bytes == bs[k] && current.next == After(nodes, k);
      var offset: nat;
      if !current.bytes.atomic {
        prev := current;
        current := current.next;
        k := k + 1;
        continue;
      } else if prev != null {
        offset := U64(prev.bytes.offset + current.bytes.offset);
        prev := null;
      } else {
        offset := current.bytes.offset;
      }
      if last == 0 {
        head, result := NewBefore(offset, null, []);
        last := 1;
      } else {
        head, result := NewBefore(offset, head, result);
      }
      current := current.next;
      k := k + 1;
    }
    AggregatedLength(bs, k);
    out, result := NewBefore(0, head, result);
  }

  /** The example of the header: {8,false} {6,true} {2,false} {1,true} gives 0, 3, 14. */
  lemma AggregatedExample()
    ensures [0] + Aggregated([Bytes(false, 8), Bytes(true, 6), Bytes(false, 2), Bytes(true, 1)], 4) == [0, 3, 14]
  {
    var bs := [Bytes(false, 8), Bytes(true, 6), Bytes(false, 2), Bytes(true, 1)];
    assert Aggregated(bs, 2) == [14];
  }
}
