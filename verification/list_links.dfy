/** The pointer surgery of `swap_in_list` on the doubly linked, weight-ordered
    node list, and the proof that it exchanges two nodes' positions. */
module ListLinks {
  import opened Wrappers

  type NodeId = nat

  /** The `next`/`prev` fields of every node of the arena. */
  datatype Links = Links(next: map<NodeId, Option<NodeId>>, prev: map<NodeId, Option<NodeId>>)

  /** No node occurs twice in `xs`. */
  ghost predicate Distinct(xs: seq<NodeId>) {
    forall i, j :: 0 <= i < j < |xs| ==> xs[i] != xs[j]
  }

  /** `l` is the doubly linked list whose traversal from its head is `xs`. */
  ghost predicate Encodes(l: Links, xs: seq<NodeId>) {
    && Distinct(xs)
    && (forall i :: 0 <= i < |xs| ==> xs[i] in l.next && xs[i] in l.prev)
    && (forall i :: 0 <= i < |xs| ==>
          l.next[xs[i]] == (if i + 1 < |xs| then Some(xs[i + 1]) else None))
    && (forall i :: 0 <= i < |xs| ==>
          l.prev[xs[i]] == (if i > 0 then Some(xs[i - 1]) else None))
  }

  /** `xs` with the entries at `i` and `j` exchanged. */
  function Swap(xs: seq<NodeId>, i: nat, j: nat): (ys: seq<NodeId>)
    requires i < |xs| && j < |xs|
    ensures |ys| == |xs|
    ensures ys[i] == xs[j] && ys[j] == xs[i]
    ensures forall k :: 0 <= k < |xs| && k != i && k != j ==> ys[k] == xs[k]
  {
    xs[i := xs[j]][j := xs[i]]
  }

  function NextOf(l: Links, n: NodeId): Option<NodeId> {
    if n in l.next then l.next[n] else None
  }

  function PrevOf(l: Links, n: NodeId): Option<NodeId> {
    if n in l.prev then l.prev[n] else None
  }

  /** `node->prev = p` when `node` is not null. */
  function SetPrev(l: Links, node: Option<NodeId>, p: NodeId): Links {
    if node.Some? then l.(prev := l.prev[node.value := Some(p)]) else l
  }

  /** `node->next = n` when `node` is not null. */
  function SetNext(l: Links, node: Option<NodeId>, n: NodeId): Links {
    if node.Some? then l.(next := l.next[node.value := Some(n)]) else l
  }

  /** `swap_in_list(a, b)`, statement for statement. */
  function SwapInList(l: Links, a: NodeId, b: NodeId): Links {
    // std::swap of both fields
    var an := NextOf(l, a);
    var ap := PrevOf(l, a);
    var bn := NextOf(l, b);
    var bp := PrevOf(l, b);
    var l1 := l.(next := l.next[a := bn][b := an], prev := l.prev[a := bp][b := ap]);
    // a node that became its own successor is given the other node instead
    var l2 := if NextOf(l1, a) == Some(a) then l1.(next := l1.next[a := Some(b)]) else l1;
    var l3 := if NextOf(l2, b) == Some(b) then l2.(next := l2.next[b := Some(a)]) else l2;
    // re-link the neighbours
    var l4 := SetPrev(l3, NextOf(l3, a), a);
    var l5 := SetPrev(l4, NextOf(l4, b), b);
    var l6 := SetNext(l5, PrevOf(l5, a), a);
    SetNext(l6, PrevOf(l6, b), b)
  }

  /** The links of the node at position `k`. */
  lemma Entry(l: Links, xs: seq<NodeId>, k: nat)
    requires Encodes(l, xs) && k < |xs|
    ensures NextOf(l, xs[k]) == (if k + 1 < |xs| then Some(xs[k + 1]) else None)
    ensures PrevOf(l, xs[k]) == (if k > 0 then Some(xs[k - 1]) else None)
  {
  }

  /** Exchanging the nodes at two distinct positions gives the list of the
      exchanged order. */
  lemma SwapEncodes(l: Links, xs: seq<NodeId>, p: nat, q: nat)
    requires Encodes(l, xs)
    requires p < |xs| && q < |xs| && p != q
    ensures Encodes(SwapInList(l, xs[p], xs[q]), Swap(xs, p, q))
  {
    var ys := Swap(xs, p, q);
    var r := SwapInList(l, xs[p], xs[q]);
    forall k | 0 <= k < |ys|
      ensures ys[k] in r.next && ys[k] in r.prev
      ensures r.next[ys[k]] == (if k + 1 < |ys| then Some(ys[k + 1]) else None)
      ensures r.prev[ys[k]] == (if k > 0 then Some(ys[k - 1]) else None)
    {
      SwappedNext(l, xs, p, q, k);
      SwappedPrev(l, xs, p, q, k);
    }
    assert Encodes(r, ys);
  }

  /** After exchanging the nodes at `p` and `q`, the node at position `k` of
      the exchanged order has the successor that position calls for. */
  lemma SwappedNext(l: Links, xs: seq<NodeId>, p: nat, q: nat, k: nat)
    requires Encodes(l, xs)
    requires p < |xs| && q < |xs| && p != q && k < |xs|
    ensures var ys := Swap(xs, p, q);
      var r := SwapInList(l, xs[p], xs[q]);
      && ys[k] in r.next
      && r.next[ys[k]] == (if k + 1 < |ys| then Some(ys[k + 1]) else None)
  {
    Entry(l, xs, p);
    Entry(l, xs, q);
    Entry(l, xs, k);
  }

  /** The same for the predecessor. */
  lemma SwappedPrev(l: Links, xs: seq<NodeId>, p: nat, q: nat, k: nat)
    requires Encodes(l, xs)
    requires p < |xs| && q < |xs| && p != q && k < |xs|
    ensures var ys := Swap(xs, p, q);
      var r := SwapInList(l, xs[p], xs[q]);
      && ys[k] in r.prev
      && r.prev[ys[k]] == (if k > 0 then Some(ys[k - 1]) else None)
  {
    Entry(l, xs, p);
    Entry(l, xs, q);
    Entry(l, xs, k);
  }

  /** `swap_in_list` exchanges the positions of any two distinct list nodes,
      adjacent or not, and leaves every other node where it was; `prev` and
      `next` stay mutually consistent, so no node becomes its own successor. */
  lemma SwapInListExchanges(l: Links, xs: seq<NodeId>, p: nat, q: nat)
    requires Encodes(l, xs)
    requires p < |xs| && q < |xs| && p != q
    ensures Encodes(SwapInList(l, xs[p], xs[q]), Swap(xs, p, q))
    ensures forall k :: 0 <= k < |xs| ==>
              SwapInList(l, xs[p], xs[q]).next[xs[k]] != Some(xs[k])
  {
    SwapEncodes(l, xs, p, q);
    var ys := Swap(xs, p, q);
    var r := SwapInList(l, xs[p], xs[q]);
    assert Encodes(r, ys);
    forall k | 0 <= k < |xs| ensures r.next[xs[k]] != Some(xs[k]) {
      var m := if k == p then q else if k == q then p else k;
      assert ys[m] == xs[k] && 0 <= m < |ys|;
      Entry(r, ys, m);
      if m + 1 < |ys| {
        assert ys[m] != ys[m + 1];
      }
    }
  }
}
