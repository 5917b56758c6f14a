/** The weights of the code tree. Every internal node weighs as much as its
    two children together, NYT leaves weigh nothing, and every update adds
    one to the leaf of the symbol it is given and to no other leaf: so each
    symbol's leaf counts its occurrences.

    The proof follows `increse_weight` level by level. Bumping a node leaves
    its parent one short; the recursive call on the parent makes up for it.
    The promotions, block changes and list fix-ups on the way move nodes and
    cells but change no weight and no node's sum of child weights. */
module TreeWeights {
  import opened Wrappers
  import opened Symbols
  import opened HuffmanTree
  import opened TreeShape

  // ---------------------------------------------------------------------------
  // Links

  /** The child in slot `c` of `n`, if any, names `n` as its parent. */
  ghost predicate Answered(t: Tree, n: NodeId, c: Option<NodeId>) {
    c.Some? ==> c.value in t.nodes && t.nodes[c.value].parent == Some(n)
  }

  /** Node `n`'s links agree with its neighbours': its children name it as
      parent, its two children differ, and its parent is another node holding
      `n` in one of its child slots. */
  ghost predicate LinkedAt(t: Tree, n: NodeId)
    requires n in t.nodes
  {
    var node := t.nodes[n];
    && Answered(t, n, node.left) && Answered(t, n, node.right)
    && (node.left.Some? ==> node.left != node.right)
    && (node.parent.Some? ==>
          && node.parent != Some(n) && node.parent.value in t.nodes
          && (t.nodes[node.parent.value].left == Some(n) || t.nodes[node.parent.value].right == Some(n)))
  }

  ghost predicate Linked(t: Tree) {
    forall n | n in t.nodes :: LinkedAt(t, n)
  }

  /** `u` has the same nodes as `t` with the same parent and child links. */
  ghost predicate SameLinks(t: Tree, u: Tree) {
    && u.nodes.Keys == t.nodes.Keys
    && (forall n | n in t.nodes :: Links(u.nodes[n]) == Links(t.nodes[n]))
  }

  lemma SameLinksLinked(t: Tree, u: Tree)
    requires Linked(t) && SameLinks(t, u)
    ensures Linked(u)
  {
    forall n | n in u.nodes
      ensures LinkedAt(u, n)
    {
      assert LinkedAt(t, n);
      var node := t.nodes[n];
      assert Links(u.nodes[n]) == Links(node);
      if node.left.Some? {
        assert Links(u.nodes[node.left.value]) == Links(t.nodes[node.left.value]);
      }
      if node.right.Some? {
        assert Links(u.nodes[node.right.value]) == Links(t.nodes[node.right.value]);
      }
      if node.parent.Some? {
        assert Links(u.nodes[node.parent.value]) == Links(t.nodes[node.parent.value]);
      }
    }
  }

  // ---------------------------------------------------------------------------
  // Weights

  /** The weight of a possibly empty child slot. */
  function SlotWeight(t: Tree, c: Option<NodeId>): nat {
    if c.Some? then Weight(t, c.value) else 0
  }

  /** What `n`'s children weigh together. */
  function ChildSum(t: Tree, n: NodeId): nat
    requires n in t.nodes
  {
    SlotsWeight(t, t.nodes[n])
  }

  function SlotsWeight(t: Tree, node: Node): nat {
    SlotWeight(t, node.left) + SlotWeight(t, node.right)
  }

  /** An internal node `n` weighs as much as its children. */
  ghost predicate SumsAt(t: Tree, n: NodeId)
    requires n in t.nodes
  {
    HasChild(t.nodes[n]) ==> t.nodes[n].weight == ChildSum(t, n)
  }

  ghost predicate Summed(t: Tree) {
    forall n | n in t.nodes :: SumsAt(t, n)
  }

  /** The state in the middle of `increse_weight`: every internal node but
      `x` weighs its children's sum, and `x`, if internal, weighs one less. */
  ghost predicate Pending(t: Tree, x: NodeId) {
    && x in t.nodes
    && (forall n | n in t.nodes && n != x :: SumsAt(t, n))
    && (HasChild(t.nodes[x]) ==> t.nodes[x].weight + 1 == ChildSum(t, x))
  }

  predicate NytLeaf(node: Node) {
    node.symbol == NYT_SYMBOL && !HasChild(node)
  }

  /** NYT leaves weigh nothing. */
  ghost predicate NytWeightless(t: Tree) {
    forall n | n in t.nodes && NytLeaf(t.nodes[n]) :: t.nodes[n].weight == 0
  }

  /** The weight invariant of the code tree. */
  ghost predicate Weighted(t: Tree) {
    Linked(t) && Summed(t) && NytWeightless(t)
  }

  /** `u` has the same nodes as `t`, each with the same weight, symbol and
      children's total weight, and each internal exactly when it was. */
  ghost predicate SameWeights(t: Tree, u: Tree) {
    && u.nodes.Keys == t.nodes.Keys
    && (forall n | n in t.nodes ::
          && u.nodes[n].weight == t.nodes[n].weight && u.nodes[n].symbol == t.nodes[n].symbol
          && HasChild(u.nodes[n]) == HasChild(t.nodes[n]) && ChildSum(u, n) == ChildSum(t, n))
  }

  /** From `t` to `u` the leaf `x` gained one and no other leaf changed;
      the same nodes are internal, with the same symbols. */
  ghost predicate LeavesBumped(t: Tree, u: Tree, x: NodeId) {
    && u.nodes.Keys == t.nodes.Keys
    && (forall n | n in t.nodes ::
          HasChild(u.nodes[n]) == HasChild(t.nodes[n]) && u.nodes[n].symbol == t.nodes[n].symbol)
    && (forall n | n in t.nodes && !HasChild(t.nodes[n]) ::
          u.nodes[n].weight == t.nodes[n].weight + (if n == x then 1 else 0))
  }

  lemma SameWeightsKeep(t: Tree, u: Tree, x: NodeId)
    requires SameWeights(t, u)
    ensures Pending(t, x) ==> Pending(u, x)
    ensures Summed(t) ==> Summed(u)
    ensures NytWeightless(t) ==> NytWeightless(u)
  {
    forall n | n in t.nodes
      ensures SumsAt(u, n) == SumsAt(t, n)
    {
    }
  }

  /** Links and weights untouched make weights the same. */
  lemma SameLinksWeights(t: Tree, u: Tree)
    requires SameLinks(t, u)
    requires forall n | n in t.nodes :: u.nodes[n].weight == t.nodes[n].weight
    ensures SameWeights(t, u)
  {
    forall n | n in t.nodes
      ensures HasChild(u.nodes[n]) == HasChild(t.nodes[n]) && u.nodes[n].symbol == t.nodes[n].symbol
      ensures ChildSum(u, n) == ChildSum(t, n)
    {
      assert Links(u.nodes[n]) == Links(t.nodes[n]);
    }
  }

  /** From `t` to `u` no leaf changed weight; the same nodes are internal,
      with the same symbols. */
  ghost predicate LeavesKept(t: Tree, u: Tree) {
    && u.nodes.Keys == t.nodes.Keys
    && (forall n | n in t.nodes ::
          HasChild(u.nodes[n]) == HasChild(t.nodes[n]) && u.nodes[n].symbol == t.nodes[n].symbol)
    && (forall n | n in t.nodes && !HasChild(t.nodes[n]) :: u.nodes[n].weight == t.nodes[n].weight)
  }

  lemma SameWeightsLeaves(t: Tree, u: Tree)
    requires SameWeights(t, u)
    ensures LeavesKept(t, u)
  {
  }

  /** Bumping an internal node changes no leaf. */
  lemma InternalBumpKeeps(t: Tree, u: Tree, y: NodeId)
    requires LeavesBumped(t, u, y) && y in t.nodes && HasChild(t.nodes[y])
    ensures LeavesKept(t, u)
  {
  }

  lemma KeptThenBumped(t: Tree, u: Tree, v: Tree, x: NodeId)
    requires LeavesKept(t, u) && LeavesBumped(u, v, x)
    ensures LeavesBumped(t, v, x)
  {
  }

  lemma BumpedThenKept(t: Tree, u: Tree, v: Tree, x: NodeId)
    requires LeavesBumped(t, u, x) && LeavesKept(u, v)
    ensures LeavesBumped(t, v, x)
  {
  }

  lemma KeptTrans(t: Tree, u: Tree, v: Tree)
    requires LeavesKept(t, u) && LeavesKept(u, v)
    ensures LeavesKept(t, v)
  {
  }

  // ---------------------------------------------------------------------------
  // The tree swap

  /** What `swap_in_tree` does to the parent of the node it moves away: the
      left slot if it holds `gone`, otherwise the right one, takes `repl`. */
  function Rewired(node: Node, gone: NodeId, repl: NodeId): (r: Node)
    ensures r.left == Some(repl) || r.right == Some(repl)
    ensures r == node.(left := r.left, right := r.right)
  {
    if node.left == Some(gone) then node.(left := Some(repl)) else node.(right := Some(repl))
  }

  /** A child slot other than the one rewired keeps its child, and every
      child of the result is `repl` or a child the node had. */
  lemma RewiredSlots(node: Node, gone: NodeId, repl: NodeId)
    requires node.left == Some(gone) || node.right == Some(gone)
    ensures forall m: NodeId | m != gone && (node.left == Some(m) || node.right == Some(m)) ::
      Rewired(node, gone, repl).left == Some(m) || Rewired(node, gone, repl).right == Some(m)
    ensures Rewired(node, gone, repl).left.Some? ==>
      Rewired(node, gone, repl).left == Some(repl) || Rewired(node, gone, repl).left == node.left
    ensures Rewired(node, gone, repl).right.Some? ==>
      Rewired(node, gone, repl).right == Some(repl) || Rewired(node, gone, repl).right == node.right
    ensures node.left != Some(gone) ==> Rewired(node, gone, repl).left == node.left
    ensures node.right != Some(gone) || node.left == Some(gone) ==> Rewired(node, gone, repl).right == node.right
  {
  }

  /** Two nodes may be swapped: distinct, neither the other's parent. */
  ghost predicate Swappable(t: Tree, a: NodeId, b: NodeId) {
    && a in t.nodes && b in t.nodes && a != b
    && t.nodes[a].parent != Some(b) && t.nodes[b].parent != Some(a)
  }

  /** The records after swapping `a` and `b` under different parents (or at
      the root): each parent's slot takes the other node, the two exchange
      parents, and no other node changes. */
  ghost predicate SwappedApart(t: Tree, u: Tree, a: NodeId, b: NodeId)
    requires a in t.nodes && b in t.nodes
  {
    var pa := t.nodes[a].parent;
    var pb := t.nodes[b].parent;
    && u.nodes.Keys == t.nodes.Keys
    && u.nodes[a] == t.nodes[a].(parent := pb)
    && u.nodes[b] == t.nodes[b].(parent := pa)
    && (pa.Some? ==> pa.value in t.nodes && u.nodes[pa.value] == Rewired(t.nodes[pa.value], a, b))
    && (pb.Some? ==> pb.value in t.nodes && u.nodes[pb.value] == Rewired(t.nodes[pb.value], b, a))
    && (forall n | n in t.nodes && n != a && n != b && Some(n) != pa && Some(n) != pb :: u.nodes[n] == t.nodes[n])
  }

  /** The node map with the slot of `gone` under `p`, if any, rewired. */
  function RewireAt(nodes: map<NodeId, Node>, p: Option<NodeId>, gone: NodeId, repl: NodeId): map<NodeId, Node> {
    if p.Some? && p.value in nodes then nodes[p.value := Rewired(nodes[p.value], gone, repl)] else nodes
  }

  lemma ReplaceChildRewires(t: Tree, q: NodeId, gone: NodeId, repl: NodeId)
    requires ReplaceChild(t, q, gone, repl).Success?
    ensures ReplaceChild(t, q, gone, repl).value == t.(nodes := RewireAt(t.nodes, Some(q), gone, repl))
  {
    ReplaceChildEffect(t, q, gone, repl);
  }

  /** `swap_in_tree` as updates of the node map: both parents' slots, then
      both parents. */
  lemma SwapInTreeNodes(t: Tree, a: NodeId, b: NodeId)
    requires a in t.nodes && b in t.nodes && SwapInTree(t, a, b).Success?
    ensures var pa := t.nodes[a].parent;
      var pb := t.nodes[b].parent;
      var m := RewireAt(RewireAt(t.nodes, pa, a, b), pb, b, a);
      SwapInTree(t, a, b).value.nodes == m[a := m[a].(parent := pb)][b := m[a := m[a].(parent := pb)][b].(parent := pa)]
  {
    var pa := t.nodes[a].parent;
    var pb := t.nodes[b].parent;
    var t1 := if pa.Some? then ReplaceChild(t, pa.value, a, b).value else t.(root := b);
    if pa.Some? {
      ReplaceChildRewires(t, pa.value, a, b);
    }
    var t2 := if pb.Some? then ReplaceChild(t1, pb.value, b, a).value else t1.(root := a);
    if pb.Some? {
      ReplaceChildRewires(t1, pb.value, b, a);
    }
    assert SwapInTree(t, a, b).value == SetParent(SetParent(t2, a, pb), b, pa);
  }

  lemma SwapApartEffect(t: Tree, a: NodeId, b: NodeId)
    requires Linked(t) && Swappable(t, a, b) && SwapInTree(t, a, b).Success?
    requires t.nodes[a].parent.None? || t.nodes[a].parent != t.nodes[b].parent
    ensures SwappedApart(t, SwapInTree(t, a, b).value, a, b)
  {
    assert LinkedAt(t, a) && LinkedAt(t, b);
    var pa := t.nodes[a].parent;
    var pb := t.nodes[b].parent;
    var m1 := RewireAt(t.nodes, pa, a, b);
    var m2 := RewireAt(m1, pb, b, a);
    assert m1.Keys == t.nodes.Keys && m1[a] == t.nodes[a] && m1[b] == t.nodes[b];
    assert pb.Some? ==> m1[pb.value] == t.nodes[pb.value];
    assert m2.Keys == t.nodes.Keys && m2[a] == t.nodes[a] && m2[b] == t.nodes[b];
    assert pa.Some? ==> m2[pa.value] == Rewired(t.nodes[pa.value], a, b);
    assert pb.Some? ==> m2[pb.value] == Rewired(t.nodes[pb.value], b, a);
    assert forall n | n in t.nodes && Some(n) != pa && Some(n) != pb :: m2[n] == t.nodes[n];
    SwapInTreeNodes(t, a, b);
  }

  /** Swapping two children of the same node leaves that node with `a` on
      the left and `b` on the right, and changes nothing else. */
  lemma SwapSiblingsEffect(t: Tree, a: NodeId, b: NodeId)
    requires Linked(t) && Swappable(t, a, b) && SwapInTree(t, a, b).Success?
    requires t.nodes[a].parent.Some? && t.nodes[a].parent == t.nodes[b].parent
    ensures var q := t.nodes[a].parent.value;
      && q in t.nodes
      && SwapInTree(t, a, b).value.nodes == t.nodes[q := t.nodes[q].(left := Some(a), right := Some(b))]
  {
    assert LinkedAt(t, a) && LinkedAt(t, b);
    var q := t.nodes[a].parent.value;
    var t1 := ReplaceChild(t, q, a, b).value;
    ReplaceChildEffect(t, q, a, b);
    var t2 := ReplaceChild(t1, q, b, a).value;
    ReplaceChildEffect(t1, q, b, a);
    assert t2.nodes == t.nodes[q := t.nodes[q].(left := Some(a), right := Some(b))];
    assert SwapInTree(t, a, b).value == SetParent(SetParent(t2, a, Some(q)), b, Some(q));
  }

  lemma SwappedApartSymmetric(t: Tree, u: Tree, a: NodeId, b: NodeId)
    requires a in t.nodes && b in t.nodes && SwappedApart(t, u, a, b)
    ensures SwappedApart(t, u, b, a)
  {
  }

  /** After a swap under different parents, `a`'s links still agree with
      its neighbours'. */
  lemma ApartLinkedMoved(t: Tree, u: Tree, a: NodeId, b: NodeId)
    requires Linked(t) && Swappable(t, a, b) && SwappedApart(t, u, a, b)
    requires t.nodes[a].parent.None? || t.nodes[a].parent != t.nodes[b].parent
    ensures LinkedAt(u, a)
  {
    assert LinkedAt(t, a) && LinkedAt(t, b);
    var pb := t.nodes[b].parent;
    var node := t.nodes[a];
    if pb.Some? {
      RewiredSlots(t.nodes[pb.value], b, a);
    }
    if node.left.Some? {
      var c := node.left.value;
      assert c != a && c != b && u.nodes[c].parent == t.nodes[c].parent;
    }
    if node.right.Some? {
      var c := node.right.value;
      assert c != a && c != b && u.nodes[c].parent == t.nodes[c].parent;
    }
  }

  /** After a swap under different parents, `a`'s old parent's links still
      agree with its neighbours'. */
  lemma ApartLinkedParent(t: Tree, u: Tree, a: NodeId, b: NodeId)
    requires Linked(t) && Swappable(t, a, b) && SwappedApart(t, u, a, b)
    requires t.nodes[a].parent.Some? && t.nodes[a].parent != t.nodes[b].parent
    ensures LinkedAt(u, t.nodes[a].parent.value)
  {
    var pa := t.nodes[a].parent.value;
    var pb := t.nodes[b].parent;
    assert LinkedAt(t, a) && LinkedAt(t, b) && LinkedAt(t, pa);
    var node := t.nodes[pa];
    RewiredSlots(node, a, b);
    if pb.Some? {
      RewiredSlots(t.nodes[pb.value], b, a);
    }
    if node.left.Some? && node.left.value != a {
      var c := node.left.value;
      assert c != b && u.nodes[c].parent == t.nodes[c].parent;
    }
    if node.right.Some? && node.right.value != a {
      var c := node.right.value;
      assert c != b && u.nodes[c].parent == t.nodes[c].parent;
    }
    if node.parent.Some? {
      ApartSlotKept(t, u, a, b, node.parent.value, pa);
    }
  }

  /** Through a swap under different parents, a slot holding a node other
      than the two swapped keeps it. */
  lemma ApartSlotKept(t: Tree, u: Tree, a: NodeId, b: NodeId, m: NodeId, k: NodeId)
    requires Linked(t) && Swappable(t, a, b) && SwappedApart(t, u, a, b) && m in t.nodes
    requires t.nodes[a].parent.None? || t.nodes[a].parent != t.nodes[b].parent
    requires k != a && k != b && (t.nodes[m].left == Some(k) || t.nodes[m].right == Some(k))
    ensures u.nodes[m].left == Some(k) || u.nodes[m].right == Some(k)
  {
    assert LinkedAt(t, a) && LinkedAt(t, b);
    var pa := t.nodes[a].parent;
    var pb := t.nodes[b].parent;
    if Some(m) == pa {
      RewiredSlots(t.nodes[m], a, b);
    } else if Some(m) == pb {
      RewiredSlots(t.nodes[m], b, a);
    }
  }

  /** After a swap under different parents, any other node's links still
      agree with its neighbours'. */
  lemma ApartLinkedOther(t: Tree, u: Tree, a: NodeId, b: NodeId, n: NodeId)
    requires Linked(t) && Swappable(t, a, b) && SwappedApart(t, u, a, b) && n in t.nodes
    requires t.nodes[a].parent.None? || t.nodes[a].parent != t.nodes[b].parent
    requires n != a && n != b && Some(n) != t.nodes[a].parent && Some(n) != t.nodes[b].parent
    ensures LinkedAt(u, n)
  {
    assert LinkedAt(t, a) && LinkedAt(t, b) && LinkedAt(t, n);
    var node := t.nodes[n];
    assert u.nodes[n] == node;
    if node.left.Some? {
      var c := node.left.value;
      assert c != a && c != b && u.nodes[c].parent == t.nodes[c].parent;
    }
    if node.right.Some? {
      var c := node.right.value;
      assert c != a && c != b && u.nodes[c].parent == t.nodes[c].parent;
    }
    if node.parent.Some? {
      ApartSlotKept(t, u, a, b, node.parent.value, n);
    }
  }

  /** A swap under different parents keeps every link answered. */
  lemma ApartLinked(t: Tree, u: Tree, a: NodeId, b: NodeId)
    requires Linked(t) && Swappable(t, a, b) && SwappedApart(t, u, a, b)
    requires t.nodes[a].parent.None? || t.nodes[a].parent != t.nodes[b].parent
    ensures Linked(u)
  {
    SwappedApartSymmetric(t, u, a, b);
    forall n | n in u.nodes
      ensures LinkedAt(u, n)
    {
      var pa := t.nodes[a].parent;
      var pb := t.nodes[b].parent;
      if n == a {
        ApartLinkedMoved(t, u, a, b);
      } else if n == b {
        ApartLinkedMoved(t, u, b, a);
      } else if Some(n) == pa {
        ApartLinkedParent(t, u, a, b);
      } else if Some(n) == pb {
        ApartLinkedParent(t, u, b, a);
      } else {
        ApartLinkedOther(t, u, a, b, n);
      }
    }
  }

  /** Swapping two siblings keeps every link answered. */
  lemma SiblingsLinked(t: Tree, u: Tree, a: NodeId, b: NodeId, q: NodeId)
    requires Linked(t) && Swappable(t, a, b)
    requires t.nodes[a].parent == Some(q) && t.nodes[b].parent == Some(q) && q in t.nodes
    requires u.nodes == t.nodes[q := t.nodes[q].(left := Some(a), right := Some(b))]
    ensures Linked(u)
  {
    assert LinkedAt(t, a) && LinkedAt(t, b) && LinkedAt(t, q);
    assert (t.nodes[q].left == Some(a) && t.nodes[q].right == Some(b))
        || (t.nodes[q].left == Some(b) && t.nodes[q].right == Some(a));
    forall n | n in u.nodes
      ensures LinkedAt(u, n)
    {
      assert LinkedAt(t, n);
      var node := t.nodes[n];
      if node.parent.Some? {
        assert LinkedAt(t, node.parent.value);
      }
    }
  }

  /** With both nodes of equal weight, rewiring a slot keeps the sum. */
  lemma RewiredWeight(t: Tree, node: Node, gone: NodeId, repl: NodeId)
    requires node.left == Some(gone) || node.right == Some(gone)
    requires Weight(t, gone) == Weight(t, repl)
    ensures SlotsWeight(t, Rewired(node, gone, repl)) == SlotsWeight(t, node)
  {
  }

  /** Children's weights read the same in trees with the same weights. */
  lemma SlotsWeightKept(t: Tree, u: Tree, node: Node)
    requires u.nodes.Keys == t.nodes.Keys
    requires forall n | n in t.nodes :: u.nodes[n].weight == t.nodes[n].weight
    ensures SlotsWeight(u, node) == SlotsWeight(t, node)
  {
  }

  lemma SiblingsWeights(t: Tree, u: Tree, a: NodeId, b: NodeId, q: NodeId)
    requires Linked(t) && Swappable(t, a, b)
    requires t.nodes[a].parent == Some(q) && t.nodes[b].parent == Some(q) && q in t.nodes
    requires u.nodes == t.nodes[q := t.nodes[q].(left := Some(a), right := Some(b))]
    ensures SameWeights(t, u)
  {
    assert LinkedAt(t, a) && LinkedAt(t, b);
    assert (t.nodes[q].left == Some(a) && t.nodes[q].right == Some(b))
        || (t.nodes[q].left == Some(b) && t.nodes[q].right == Some(a));
    forall n | n in t.nodes
      ensures ChildSum(u, n) == ChildSum(t, n)
    {
      SlotsWeightKept(t, u, t.nodes[n]);
    }
  }

  lemma ApartWeights(t: Tree, u: Tree, a: NodeId, b: NodeId)
    requires Linked(t) && Swappable(t, a, b) && SwappedApart(t, u, a, b)
    requires Weight(t, a) == Weight(t, b)
    ensures SameWeights(t, u)
  {
    assert LinkedAt(t, a) && LinkedAt(t, b);
    var pa := t.nodes[a].parent;
    var pb := t.nodes[b].parent;
    assert forall n | n in t.nodes :: u.nodes[n].weight == t.nodes[n].weight;
    forall n | n in t.nodes
      ensures ChildSum(u, n) == ChildSum(t, n)
    {
      SlotsWeightKept(t, u, u.nodes[n]);
      if Some(n) == pa {
        RewiredWeight(t, t.nodes[n], a, b);
      } else if Some(n) == pb {
        RewiredWeight(t, t.nodes[n], b, a);
      }
    }
  }

  /** `swap_in_tree` of two equal-weight nodes, distinct and neither the
      other's parent, keeps every link answered and changes no weight and no
      node's sum of child weights. */
  lemma SwapInTreeWeights(t: Tree, a: NodeId, b: NodeId)
    requires Linked(t) && Swappable(t, a, b) && SwapInTree(t, a, b).Success?
    requires Weight(t, a) == Weight(t, b)
    ensures Linked(SwapInTree(t, a, b).value) && SameWeights(t, SwapInTree(t, a, b).value)
  {
    var u := SwapInTree(t, a, b).value;
    var pa := t.nodes[a].parent;
    if pa.Some? && pa == t.nodes[b].parent {
      SwapSiblingsEffect(t, a, b);
      SiblingsLinked(t, u, a, b, pa.value);
      SiblingsWeights(t, u, a, b, pa.value);
    } else {
      SwapApartEffect(t, a, b);
      ApartLinked(t, u, a, b);
      ApartWeights(t, u, a, b);
    }
  }

  // ---------------------------------------------------------------------------
  // Increment

  /** `u` differs from `t` in node records only in the block cells. */
  ghost predicate CellsOnly(t: Tree, u: Tree) {
    && u.nodes.Keys == t.nodes.Keys
    && (forall n | n in t.nodes :: u.nodes[n] == t.nodes[n].(cell := u.nodes[n].cell))
  }

  lemma CellsOnlyKeeps(t: Tree, u: Tree)
    requires CellsOnly(t, u)
    ensures Linked(t) ==> Linked(u)
    ensures SameWeights(t, u)
  {
    assert SameLinks(t, u) by {
      forall n | n in t.nodes
        ensures Links(u.nodes[n]) == Links(t.nodes[n])
      {
      }
    }
    if Linked(t) {
      SameLinksLinked(t, u);
    }
    SameLinksWeights(t, u);
  }

  lemma DetachCells(t: Tree, x: NodeId)
    requires Detach(t, x).Success?
    ensures CellsOnly(t, Detach(t, x).value)
  {
  }

  lemma AttachCells(t: Tree, x: NodeId)
    requires Attach(t, x).Success?
    ensures CellsOnly(t, Attach(t, x).value)
  {
  }

  lemma FixUpCells(t: Tree, x: NodeId)
    requires FixUp(t, x).Success?
    ensures CellsOnly(t, FixUp(t, x).value)
  {
  }

  /** The promotion of step 1 keeps every link answered and changes no
      weight and no node's sum of child weights. */
  lemma PromoteWeights(t: Tree, x: NodeId)
    requires Linked(t) && Promote(t, x).Success?
    ensures Linked(Promote(t, x).value) && SameWeights(t, Promote(t, x).value)
  {
    var u := Promote(t, x).value;
    var node := t.nodes[x];
    if NextHasWeight(t, x, node.weight) {
      var head := t.cells[node.cell.value];
      var t1 := if Some(head) != node.parent then SwapInTree(t, head, x).value else t;
      if Some(head) != node.parent {
        SwapInTreeWeights(t, head, x);
      }
      assert u == SwapInList(t1, head, x).value;
      CellsOnlyKeeps(t1, u);
      if Some(head) != node.parent {
        SameWeightsTrans(t, t1, u);
      }
    } else {
      CellsOnlyKeeps(t, u);
    }
  }

  lemma SameWeightsTrans(t: Tree, u: Tree, v: Tree)
    requires SameWeights(t, u) && SameWeights(u, v)
    ensures SameWeights(t, v)
  {
  }

  /** Step 3 moves no link, and only `x`'s weight. */
  lemma BumpLinks(t: Tree, x: NodeId)
    requires Linked(t) && x in t.nodes
    ensures var u := Bump(t, x);
      && Linked(u) && LeavesBumped(t, u, x)
      && (forall n | n in t.nodes && n != x :: u.nodes[n].weight == t.nodes[n].weight)
      && u.nodes[x].weight == t.nodes[x].weight + 1
  {
    var u := Bump(t, x);
    assert SameLinks(t, u) by {
      forall n | n in t.nodes
        ensures Links(u.nodes[n]) == Links(t.nodes[n])
      {
      }
    }
    SameLinksLinked(t, u);
  }

  /** After step 3 only `x`'s parent sees its children grow, by one. */
  lemma BumpChildSum(t: Tree, x: NodeId, n: NodeId)
    requires Linked(t) && x in t.nodes && n in t.nodes
    ensures Some(n) != t.nodes[x].parent ==> ChildSum(Bump(t, x), n) == ChildSum(t, n)
    ensures Some(n) == t.nodes[x].parent ==> ChildSum(Bump(t, x), n) == ChildSum(t, n) + 1
  {
    assert LinkedAt(t, n) && LinkedAt(t, x);
  }

  /** Step 3, `++node->weight`, on a tree waiting for `x`: `x` is brought
      level with its children, and its parent, if any, is left one short. */
  lemma BumpWeights(t: Tree, x: NodeId)
    requires Linked(t) && Pending(t, x) && NytWeightless(t) && !NytLeaf(t.nodes[x])
    ensures var u := Bump(t, x);
      && Linked(u) && NytWeightless(u) && LeavesBumped(t, u, x)
      && (t.nodes[x].parent.None? ==> Summed(u))
      && (t.nodes[x].parent.Some? ==>
            Pending(u, t.nodes[x].parent.value) && HasChild(u.nodes[t.nodes[x].parent.value]))
  {
    var u := Bump(t, x);
    BumpLinks(t, x);
    assert LinkedAt(t, x);
    var p := t.nodes[x].parent;
    forall n | n in u.nodes && Some(n) != p
      ensures SumsAt(u, n)
    {
      BumpChildSum(t, x, n);
      if n != x {
        assert SumsAt(t, n);
      }
    }
    if p.Some? {
      BumpChildSum(t, x, p.value);
      assert SumsAt(t, p.value);
    }
  }

  /** The state in which `climb` starts after the node `x` has been bumped:
      a root `x` leaves the tree summed, otherwise `x`'s parent is internal
      and waits for its own increment. */
  ghost predicate Climbing(t: Tree, x: NodeId) {
    && x in t.nodes
    && (t.nodes[x].parent.None? ==> Summed(t))
    && (t.nodes[x].parent.Some? ==>
          Pending(t, t.nodes[x].parent.value) && HasChild(t.nodes[t.nodes[x].parent.value]))
  }

  /** Steps 1-4 of `increse_weight` on a tree waiting for `x`. */
  lemma ReweighWeights(t: Tree, x: NodeId)
    requires Linked(t) && Pending(t, x) && NytWeightless(t) && !NytLeaf(t.nodes[x])
    requires Reweigh(t, x).Success?
    ensures var u := Reweigh(t, x).value;
      Linked(u) && NytWeightless(u) && LeavesBumped(t, u, x) && Climbing(u, x)
  {
    var t1 := Promote(t, x).value;
    PromoteWeights(t, x);
    SameWeightsKeep(t, t1, x);
    var t2 := Detach(t1, x).value;
    DetachCells(t1, x);
    CellsOnlyKeeps(t1, t2);
    SameWeightsKeep(t1, t2, x);
    SameWeightsTrans(t, t1, t2);
    SameWeightsLeaves(t, t2);
    var t3 := Bump(t2, x);
    BumpWeights(t2, x);
    KeptThenBumped(t, t2, t3, x);
    var t4 := Attach(t3, x).value;
    AttachCells(t3, x);
    CellsOnlyKeeps(t3, t4);
    SameWeightsLeaves(t3, t4);
    BumpedThenKept(t, t3, t4, x);
    var p := t3.nodes[x].parent;
    SameWeightsKeep(t3, t4, if p.Some? then p.value else x);
    assert Reweigh(t, x).value == t4;
  }

  /** `increse_weight` on a tree waiting for `x` that is not an NYT leaf:
      it leaves the tree weighted, and of all leaves only `x` (if a leaf)
      has gained one. */
  lemma {:induction false} IncrementWeights(t: Tree, x: NodeId, fuel: nat, r: Tree)
    requires Linked(t) && Pending(t, x) && NytWeightless(t) && !NytLeaf(t.nodes[x])
    requires Increment(t, x, fuel) == Success(r)
    ensures Weighted(r) && LeavesBumped(t, r, x)
    decreases fuel, 1
  {
    RaiseWeights(t, x, fuel - 1, r);
  }

  lemma {:induction false} RaiseWeights(t: Tree, x: NodeId, fuel: nat, r: Tree)
    requires Linked(t) && Pending(t, x) && NytWeightless(t) && !NytLeaf(t.nodes[x])
    requires Raise(t, x, fuel) == Success(r)
    ensures Weighted(r) && LeavesBumped(t, r, x)
    decreases fuel, 3
  {
    var t4 := Reweigh(t, x).value;
    ReweighWeights(t, x);
    ClimbWeights(t4, x, fuel, r);
    BumpedThenKept(t, t4, r, x);
  }

  lemma {:induction false} ClimbWeights(t: Tree, x: NodeId, fuel: nat, r: Tree)
    requires Linked(t) && NytWeightless(t) && Climbing(t, x)
    requires Climb(t, x, fuel) == Success(r)
    ensures Weighted(r) && LeavesKept(t, r)
    decreases fuel, 2
  {
    var p := t.nodes[x].parent;
    if p.Some? {
      var t5 := Increment(t, p.value, fuel).value;
      IncrementWeights(t, p.value, fuel, t5);
      InternalBumpKeeps(t, t5, p.value);
      FixUpCells(t5, x);
      CellsOnlyKeeps(t5, r);
      SameWeightsKeep(t5, r, x);
      SameWeightsLeaves(t5, r);
      KeptTrans(t, t5, r);
    }
  }

  // ---------------------------------------------------------------------------
  // Construction, new symbols and update

  /** A fresh tree, a lone NYT leaf of weight 0, is weighted. */
  lemma NewTreeWeighted()
    ensures Weighted(NewTree())
  {
    var t := NewTree();
    assert LinkedAt(t, t.root);
  }

  /** The tree `u` that `new_symbol` makes from `t`: the old NYT leaf `o`
      gets the fresh NYT leaf and the symbol's fresh leaf as children, and
      the location table points the symbol and NYT at them. */
  ghost predicate SplitOf(t: Tree, u: Tree, o: NodeId, symbol: int)
    requires 0 <= symbol < |t.location| && NYT_SYMBOL < |t.location|
  {
    var sym := t.nextNode;
    var nyt := t.nextNode + 1;
    && o in t.nodes && sym !in t.nodes && nyt !in t.nodes
    && u.nodes.Keys == t.nodes.Keys + {sym, nyt}
    && u.nodes[o] == t.nodes[o].(symbol := INTERNAL_SYMBOL, left := Some(nyt), right := Some(sym))
    && Links(u.nodes[nyt]) == (NYT_SYMBOL, Some(o), None, None) && u.nodes[nyt].weight == 0
    && Links(u.nodes[sym]) == (symbol, Some(o), None, None) && u.nodes[sym].weight == 0
    && (forall n | n in t.nodes && n != o :: u.nodes[n] == t.nodes[n])
    && u.location == t.location[symbol := Some(sym)][NYT_SYMBOL := Some(nyt)]
  }

  lemma SplitLinkedAt(t: Tree, u: Tree, o: NodeId, symbol: int, n: NodeId)
    requires 0 <= symbol < |t.location| && NYT_SYMBOL < |t.location|
    requires Linked(t) && SplitOf(t, u, o, symbol) && !HasChild(t.nodes[o]) && n in u.nodes
    ensures LinkedAt(u, n)
  {
    assert LinkedAt(t, o);
    if n in t.nodes {
      assert LinkedAt(t, n);
      var node := t.nodes[n];
      if node.parent.Some? {
        assert node.parent.value != o;
      }
    }
  }

  lemma SplitSumsAt(t: Tree, u: Tree, o: NodeId, symbol: int, n: NodeId)
    requires 0 <= symbol < |t.location| && NYT_SYMBOL < |t.location|
    requires Linked(t) && Summed(t) && SplitOf(t, u, o, symbol) && n in u.nodes
    requires !HasChild(t.nodes[o]) && t.nodes[o].weight == 0
    ensures SumsAt(u, n)
  {
    if n in t.nodes && n != o {
      assert LinkedAt(t, n) && SumsAt(t, n);
      var node := t.nodes[n];
      assert u.nodes[n] == node;
      if node.left.Some? {
        assert Weight(u, node.left.value) == Weight(t, node.left.value);
      }
      if node.right.Some? {
        assert Weight(u, node.right.value) == Weight(t, node.right.value);
      }
    }
  }

  /** Splitting a weightless NYT leaf keeps the tree weighted. */
  lemma SplitWeights(t: Tree, u: Tree, o: NodeId, symbol: int)
    requires 0 <= symbol < SYMBOL_NUM && NYT_SYMBOL < |t.location|
    requires Weighted(t) && SplitOf(t, u, o, symbol) && NytLeaf(t.nodes[o])
    ensures Weighted(u)
  {
    forall n | n in u.nodes
      ensures LinkedAt(u, n) && SumsAt(u, n)
    {
      SplitLinkedAt(t, u, o, symbol, n);
      SplitSumsAt(t, u, o, symbol, n);
    }
  }

  /** In a shaped tree, `new_symbol` is the split of the NYT leaf. */
  lemma NewSymbolSplits(t: Tree, symbol: int, u: Tree)
    requires Shaped(t) && 0 <= symbol < SYMBOL_NUM && NewSymbol(t, symbol) == Success(u)
    ensures t.location[NYT_SYMBOL].Some?
    ensures SplitOf(t, u, t.location[NYT_SYMBOL].value, symbol)
    ensures NytLeaf(t.nodes[t.location[NYT_SYMBOL].value])
  {
    NewSymbolSucceeds(t, symbol);
    NewSymbolPushes(t, symbol);
    SplitFresh(t, symbol, t.nodes[t.order[0]].cell, PushLeaves(t, symbol).value.0, u);
  }

  /** `new_symbol` of a real symbol keeps the tree weighted, and gives the
      symbol a leaf of weight 0. */
  lemma NewSymbolWeights(t: Tree, symbol: int, u: Tree)
    requires Shaped(t) && Weighted(t) && 0 <= symbol < SYMBOL_NUM
    requires NewSymbol(t, symbol) == Success(u)
    ensures Weighted(u)
    ensures |u.location| == |t.location| && u.location[symbol].Some?
    ensures Weight(u, u.location[symbol].value) == 0
  {
    NewSymbolSplits(t, symbol, u);
    SplitWeights(t, u, t.location[NYT_SYMBOL].value, symbol);
  }

  /** Summed trees wait for nothing: any leaf may be incremented. */
  lemma SummedPending(t: Tree, x: NodeId)
    requires Summed(t) && x in t.nodes && !HasChild(t.nodes[x])
    ensures Pending(t, x)
  {
  }

  /** `new_symbol` leaves every other real symbol's leaf as it was. */
  lemma SplitKeepsOthers(t: Tree, u: Tree, symbol: int, s: int)
    requires Shaped(t) && 0 <= symbol < SYMBOL_NUM && t.location[NYT_SYMBOL].Some?
    requires SplitOf(t, u, t.location[NYT_SYMBOL].value, symbol)
    requires 0 <= s < SYMBOL_NUM && s != symbol && t.location[s].Some?
    ensures u.location[s] == t.location[s] && u.nodes[t.location[s].value] == t.nodes[t.location[s].value]
  {
    assert t.nodes[t.location[s].value].symbol == s;
  }

  /** The tree `update` increments: after `new_symbol` when the symbol is
      new. */
  lemma UpdateInserts(t: Tree, symbol: int)
    requires Shaped(t) && Weighted(t) && 0 <= symbol < SYMBOL_NUM && Update(t, symbol).Success?
    ensures var t1 := if t.location[symbol].None? then NewSymbol(t, symbol).value else t;
      && Shaped(t1) && Weighted(t1) && |t1.location| == |t.location| && t1.location[symbol].Some?
      && Weight(t1, t1.location[symbol].value)
         == (if t.location[symbol].Some? then Weight(t, t.location[symbol].value) else 0)
      && Update(t, symbol) == Increment(t1, t1.location[symbol].value, |t1.order|)
      && (forall s | 0 <= s < SYMBOL_NUM && s != symbol && t.location[s].Some? ::
            t1.location[s] == t.location[s] && t1.nodes[t.location[s].value] == t.nodes[t.location[s].value])
      && (forall s | 0 <= s < SYMBOL_NUM && s != symbol :: t1.location[s] == t.location[s])
  {
    if t.location[symbol].None? {
      var t1 := NewSymbol(t, symbol).value;
      NewSymbolWeights(t, symbol, t1);
      NewSymbolShape(t, symbol, t1);
      NewSymbolSplits(t, symbol, t1);
      forall s | 0 <= s < SYMBOL_NUM && s != symbol && t.location[s].Some?
        ensures t1.location[s] == t.location[s] && t1.nodes[t.location[s].value] == t.nodes[t.location[s].value]
      {
        SplitKeepsOthers(t, t1, symbol, s);
      }
    }
  }

  /** The increment `update` ends with, from the tree `t1` it made of `t`. */
  lemma IncrementCounts(t: Tree, t1: Tree, symbol: int, u: Tree)
    requires Shaped(t) && 0 <= symbol < SYMBOL_NUM
    requires Shaped(t1) && Weighted(t1) && |t1.location| == |t.location| && t1.location[symbol].Some?
    requires Increment(t1, t1.location[symbol].value, |t1.order|) == Success(u)
    requires forall s | 0 <= s < SYMBOL_NUM && s != symbol && t.location[s].Some? ::
      t1.location[s] == t.location[s] && t1.nodes[t.location[s].value] == t.nodes[t.location[s].value]
    ensures Weighted(u) && u.location == t1.location
    ensures Weight(u, u.location[symbol].value) == Weight(t1, t1.location[symbol].value) + 1
    ensures forall s | 0 <= s < SYMBOL_NUM && s != symbol && t.location[s].Some? ::
      u.location[s] == t.location[s] && Weight(u, u.location[s].value) == Weight(t, t.location[s].value)
  {
    var x := t1.location[symbol].value;
    assert t1.nodes[x].symbol == symbol;
    SummedPending(t1, x);
    IncrementWeights(t1, x, |t1.order|, u);
    IncrementShape(t1, x, |t1.order|, u);
    forall s | 0 <= s < SYMBOL_NUM && s != symbol && t.location[s].Some?
      ensures u.location[s] == t.location[s] && Weight(u, u.location[s].value) == Weight(t, t.location[s].value)
    {
      OtherLeafKept(t1, u, x, s);
    }
  }

  /** A leaf of another symbol keeps its weight through an increment of `x`. */
  lemma OtherLeafKept(t: Tree, u: Tree, x: NodeId, s: int)
    requires Shaped(t) && LeavesBumped(t, u, x) && x in t.nodes && u.location == t.location
    requires 0 <= s < SYMBOL_NUM && t.location[s].Some? && t.nodes[x].symbol != s
    ensures Weight(u, u.location[s].value) == Weight(t, t.location[s].value)
  {
    assert t.nodes[t.location[s].value].symbol == s;
  }

  /** `update(symbol)` for a real symbol keeps the tree weighted; the
      symbol's leaf gains exactly one (a new leaf ends at one), and every
      other symbol keeps its leaf and that leaf's weight. */
  lemma UpdateWeights(t: Tree, symbol: int)
    requires Shaped(t) && Weighted(t) && 0 <= symbol < SYMBOL_NUM && Update(t, symbol).Success?
    ensures var u := Update(t, symbol).value;
      && Weighted(u)
      && |u.location| == |t.location| && u.location[symbol].Some?
      && Weight(u, u.location[symbol].value)
         == (if t.location[symbol].Some? then Weight(t, t.location[symbol].value) else 0) + 1
      && (forall s | 0 <= s < SYMBOL_NUM && s != symbol && t.location[s].Some? ::
            u.location[s] == t.location[s] && Weight(u, u.location[s].value) == Weight(t, t.location[s].value))
      && (forall s | 0 <= s < SYMBOL_NUM && s != symbol :: u.location[s] == t.location[s])
  {
    UpdateInserts(t, symbol);
    var t1 := if t.location[symbol].None? then NewSymbol(t, symbol).value else t;
    IncrementCounts(t, t1, symbol, Update(t, symbol).value);
  }

  /** The weight of `s`'s leaf, or 0 while `s` has none. */
  function LeafWeight(t: Tree, s: int): nat {
    if 0 <= s < |t.location| && t.location[s].Some? then Weight(t, t.location[s].value) else 0
  }

  /** `update(symbol)` adds one to the symbol's leaf weight and nothing to
      any other symbol's, and gives a leaf to that symbol and to no other. */
  lemma UpdateLeafWeights(t: Tree, symbol: int, u: Tree)
    requires Shaped(t) && Weighted(t) && 0 <= symbol < SYMBOL_NUM && Update(t, symbol) == Success(u)
    ensures Shaped(u) && Weighted(u)
    ensures forall s | 0 <= s < SYMBOL_NUM ::
      LeafWeight(u, s) == LeafWeight(t, s) + (if s == symbol then 1 else 0)
    ensures forall s | 0 <= s < SYMBOL_NUM ::
      u.location[s].Some? <==> (t.location[s].Some? || s == symbol)
  {
    UpdateWeights(t, symbol);
    UpdateShape(t, symbol);
  }
}
