/** The weight-ordered list as the tree keeps it: `order` lists the nodes from
    `list_head` towards the tail and `rank` gives each node its position. The
    two are inverse to each other, so `order` has no duplicates and `rank`
    answers "where is this node". `push_head` and `swap_in_list` keep them
    inverse, and under that agreement the tree's `next`/`prev` are those of
    the doubly linked list `ListLinks` models pointer by pointer. */
module ListOrder {
  import opened Wrappers
  import opened HuffmanTree
  import ListLinks

  /** `rank` is the inverse of `order`. */
  ghost predicate Inverse(t: Tree) {
    && (forall i | 0 <= i < |t.order| :: t.order[i] in t.rank && t.rank[t.order[i]] == i)
    && (forall n | n in t.rank :: t.rank[n] < |t.order| && t.order[t.rank[n]] == n)
  }

  /** The list holds exactly the nodes of the arena, each once. */
  ghost predicate Listed(t: Tree) {
    Inverse(t) && t.rank.Keys == t.nodes.Keys
  }

  /** A list whose ranks invert it has no node twice. */
  lemma InverseDistinct(t: Tree)
    requires Inverse(t)
    ensures ListLinks.Distinct(t.order)
  {
    forall i, j | 0 <= i < j < |t.order|
      ensures t.order[i] != t.order[j]
    {
      assert t.rank[t.order[i]] == i && t.rank[t.order[j]] == j;
    }
  }

  /** The successor and predecessor of the node at position `i`. */
  lemma NeighboursAt(t: Tree, i: nat)
    requires Inverse(t) && i < |t.order|
    ensures Next(t, t.order[i]) == (if i + 1 < |t.order| then Some(t.order[i + 1]) else None)
    ensures Prev(t, t.order[i]) == (if i > 0 then Some(t.order[i - 1]) else None)
  {
  }

  /** The fresh tree lists its single node. */
  lemma NewTreeListed()
    ensures Listed(NewTree())
  {
    var t := NewTree();
    assert t.rank == map[t.root := 0];
  }

  /** `push_head` of a node not yet in the list puts it at position 0 and
      moves every listed node one place back. */
  lemma PushHeadInverse(t: Tree, n: NodeId)
    requires Inverse(t) && n !in t.rank && PushHead(t, n).Success?
    ensures var u := PushHead(t, n).value;
      && Inverse(u) && u.rank.Keys == t.rank.Keys + {n}
      && u.nodes.Keys == t.nodes.Keys
  {
    var u := PushHead(t, n).value;
    assert u.rank.Keys == t.rank.Keys + {n} by {
      forall m | m in u.rank ensures m in t.rank || m == n {
        var shifted := map m | m in t.rank :: t.rank[m] + 1;
        assert u.rank == shifted[n := 0];
      }
    }
    forall i | 0 <= i < |u.order|
      ensures u.order[i] in u.rank && u.rank[u.order[i]] == i
    {
      if i > 0 {
        assert u.order[i] == t.order[i - 1];
      }
    }
  }

  /** `swap_in_list(a, b)` on two listed nodes: each takes the other's
      position, every other node keeps its own, and the ranks still invert
      the list. */
  lemma SwapInListExchanges(t: Tree, a: NodeId, b: NodeId)
    requires Inverse(t) && a in t.rank && b in t.rank
    ensures SwapInList(t, a, b).Success?
    ensures var u := SwapInList(t, a, b).value;
      && Inverse(u) && u.rank.Keys == t.rank.Keys
      && u.order[t.rank[a]] == b && u.order[t.rank[b]] == a
      && u.rank[a] == t.rank[b] && u.rank[b] == t.rank[a]
      && (forall i | 0 <= i < |t.order| && i != t.rank[a] && i != t.rank[b] :: u.order[i] == t.order[i])
      && (forall m | m in t.rank && m != a && m != b :: u.rank[m] == t.rank[m])
  {
    var u := SwapInList(t, a, b).value;
    forall m | m in u.rank
      ensures u.rank[m] < |u.order| && u.order[u.rank[m]] == m
    {
    }
  }

  /** The tree's view agrees with the pointer-level list: when `l` is the
      doubly linked list whose traversal is `order`, every node's `next`
      and `prev` are the tree's `Next` and `Prev`, and the pointer surgery of
      `swap_in_list` yields the list of the tree's swapped `order`. */
  lemma AgreesWithLinks(t: Tree, l: ListLinks.Links, a: NodeId, b: NodeId)
    requires Inverse(t) && ListLinks.Encodes(l, t.order)
    requires a in t.rank && b in t.rank && a != b
    ensures forall n | n in t.rank ::
      Next(t, n) == ListLinks.NextOf(l, n) && Prev(t, n) == ListLinks.PrevOf(l, n)
    ensures SwapInList(t, a, b).Success?
    ensures ListLinks.Encodes(ListLinks.SwapInList(l, a, b), SwapInList(t, a, b).value.order)
  {
    forall n | n in t.rank
      ensures Next(t, n) == ListLinks.NextOf(l, n) && Prev(t, n) == ListLinks.PrevOf(l, n)
    {
      ListLinks.Entry(l, t.order, t.rank[n]);
    }
    assert t.order[t.rank[a]] == a && t.order[t.rank[b]] == b;
    ListLinks.SwapEncodes(l, t.order, t.rank[a], t.rank[b]);
  }
}
