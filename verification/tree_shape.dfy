/** The link structure the encoder's up-walk and the decoder's down-walk rely
    on, and its preservation by every tree operation that succeeds.

    `Shaped` says: the root is a node and is the only node without a parent;
    every node with a child carries `INTERNAL_SYMBOL`; every id in use is below
    the allocator's next id; and the location table has one slot per real
    symbol plus NYT, each filled slot naming a node that carries that symbol. */
module TreeShape {
  import opened Wrappers
  import opened Symbols
  import opened HuffmanTree
  import ListLinks

  ghost predicate Shaped(t: Tree) {
    && t.root in t.nodes
    && (forall n | n in t.nodes :: n < t.nextNode)
    && (forall n | n in t.nodes :: t.nodes[n].parent.None? <==> n == t.root)
    && (forall n | n in t.nodes :: HasChild(t.nodes[n]) ==> t.nodes[n].symbol == INTERNAL_SYMBOL)
    && |t.location| == SYMBOL_NUM + 1
    && (forall s | 0 <= s < |t.location| && t.location[s].Some? ::
          t.location[s].value in t.nodes && t.nodes[t.location[s].value].symbol == s)
  }

  /** The fields of a node the walks look at. */
  function Links(node: Node): (int, Option<NodeId>, Option<NodeId>, Option<NodeId>) {
    (node.symbol, node.parent, node.left, node.right)
  }

  /** `u` differs from `t` at most in weights, cells, the list and the pool. */
  ghost predicate SameShape(t: Tree, u: Tree) {
    && u.nodes.Keys == t.nodes.Keys
    && (forall n | n in t.nodes :: Links(u.nodes[n]) == Links(t.nodes[n]))
    && u.root == t.root && u.location == t.location && u.nextNode == t.nextNode
  }

  lemma SameShapeKeeps(t: Tree, u: Tree)
    requires Shaped(t) && SameShape(t, u)
    ensures Shaped(u)
  {
    forall n | n in u.nodes
      ensures HasChild(u.nodes[n]) ==> u.nodes[n].symbol == INTERNAL_SYMBOL
    {
      assert Links(u.nodes[n]) == Links(t.nodes[n]);
    }
    forall s | 0 <= s < |u.location| && u.location[s].Some?
      ensures u.location[s].value in u.nodes && u.nodes[u.location[s].value].symbol == s
    {
      assert Links(u.nodes[u.location[s].value]) == Links(t.nodes[u.location[s].value]);
    }
  }

  lemma SameShapeTrans(t: Tree, u: Tree, v: Tree)
    requires SameShape(t, u) && SameShape(u, v)
    ensures SameShape(t, v)
  {
  }

  // ---------------------------------------------------------------------------
  // Construction

  /** A fresh tree is shaped, and its root is the NYT leaf. */
  lemma NewTreeShaped()
    ensures Shaped(NewTree())
    ensures NewTree().location[NYT_SYMBOL] == Some(NewTree().root)
  {
    var t := NewTree();
    assert t.nodes.Keys == {t.root};
    assert t.root == 0 && t.nextNode == 1;
  }

  // ---------------------------------------------------------------------------
  // Operations that leave the links alone

  lemma SwapInListShape(t: Tree, a: NodeId, b: NodeId)
    requires SwapInList(t, a, b).Success?
    ensures SameShape(t, SwapInList(t, a, b).value)
  {
  }

  lemma DetachShape(t: Tree, x: NodeId)
    requires Detach(t, x).Success?
    ensures SameShape(t, Detach(t, x).value)
  {
    var u := Detach(t, x).value;
    forall n | n in t.nodes
      ensures Links(u.nodes[n]) == Links(t.nodes[n])
    {
    }
  }

  lemma BumpShape(t: Tree, x: NodeId)
    ensures SameShape(t, Bump(t, x))
  {
  }

  lemma AttachShape(t: Tree, x: NodeId)
    requires Attach(t, x).Success?
    ensures SameShape(t, Attach(t, x).value)
  {
  }

  lemma FixUpShape(t: Tree, x: NodeId)
    requires FixUp(t, x).Success?
    ensures SameShape(t, FixUp(t, x).value)
  {
  }

  // ---------------------------------------------------------------------------
  // The tree swap

  /** `u` has the same nodes as `t`, with the same symbols, the same child
      slots filled, and the same location table and allocator. */
  ghost predicate SameSkeleton(t: Tree, u: Tree) {
    && u.nodes.Keys == t.nodes.Keys
    && (forall n | n in t.nodes ::
          u.nodes[n].symbol == t.nodes[n].symbol && HasChild(u.nodes[n]) == HasChild(t.nodes[n]))
    && u.location == t.location && u.nextNode == t.nextNode
  }

  /** Every node outside `except` keeps its parent. */
  ghost predicate ParentsKept(t: Tree, u: Tree, except: set<NodeId>) {
    forall n | n in t.nodes && n !in except :: n in u.nodes && u.nodes[n].parent == t.nodes[n].parent
  }

  /** `gone`'s slot under `q` now holds `repl`; nothing else changes. */
  lemma ReplaceChildEffect(t: Tree, q: NodeId, gone: NodeId, repl: NodeId)
    requires ReplaceChild(t, q, gone, repl).Success?
    ensures var u := ReplaceChild(t, q, gone, repl).value;
      && q in t.nodes
      && u == t.(nodes := t.nodes[q := u.nodes[q]])
      && (t.nodes[q].left == Some(gone) ==> u.nodes[q] == t.nodes[q].(left := Some(repl)))
      && (t.nodes[q].left != Some(gone) ==> u.nodes[q] == t.nodes[q].(right := Some(repl)))
  {
  }

  lemma ReplaceChildSkeleton(t: Tree, q: NodeId, gone: NodeId, repl: NodeId)
    requires ReplaceChild(t, q, gone, repl).Success?
    ensures var u := ReplaceChild(t, q, gone, repl).value;
      SameSkeleton(t, u) && ParentsKept(t, u, {}) && u.root == t.root
  {
    ReplaceChildEffect(t, q, gone, repl);
  }

  lemma SetParentSkeleton(t: Tree, n: NodeId, p: Option<NodeId>)
    ensures var u := SetParent(t, n, p);
      && SameSkeleton(t, u) && ParentsKept(t, u, {n}) && u.root == t.root
      && (n in t.nodes ==> u.nodes[n].parent == p)
  {
  }

  lemma SkeletonTrans(t: Tree, u: Tree, v: Tree)
    requires SameSkeleton(t, u) && SameSkeleton(u, v)
    ensures SameSkeleton(t, v)
  {
  }

  /** What `swap_in_tree` leaves alone: the node set, every symbol, every
      node's child slots being filled or not, every parent but those of the
      two swapped nodes, and everything outside the node records. */
  lemma SwapInTreeFrame(t: Tree, a: NodeId, b: NodeId)
    requires SwapInTree(t, a, b).Success?
    ensures var u := SwapInTree(t, a, b).value;
      && a in t.nodes && b in t.nodes
      && SameSkeleton(t, u)
      && ParentsKept(t, u, {a, b})
      && u.nodes[b].parent == t.nodes[a].parent
      && (a != b ==> u.nodes[a].parent == t.nodes[b].parent)
      && (t.nodes[b].parent.None? ==> u.root == a)
      && (t.nodes[b].parent.Some? && t.nodes[a].parent.None? ==> u.root == b)
      && (t.nodes[b].parent.Some? && t.nodes[a].parent.Some? ==> u.root == t.root)
  {
    var an := t.nodes[a];
    var bn := t.nodes[b];
    var t1 := if an.parent.Some? then ReplaceChild(t, an.parent.value, a, b).value else t.(root := b);
    if an.parent.Some? {
      ReplaceChildSkeleton(t, an.parent.value, a, b);
    }
    assert SameSkeleton(t, t1) && ParentsKept(t, t1, {});
    var t2 := if bn.parent.Some? then ReplaceChild(t1, bn.parent.value, b, a).value else t1.(root := a);
    if bn.parent.Some? {
      ReplaceChildSkeleton(t1, bn.parent.value, b, a);
    }
    assert SameSkeleton(t1, t2) && ParentsKept(t1, t2, {});
    SkeletonTrans(t, t1, t2);
    var t3 := SetParent(t2, a, bn.parent);
    SetParentSkeleton(t2, a, bn.parent);
    SkeletonTrans(t, t2, t3);
    var u := SetParent(t3, b, an.parent);
    SetParentSkeleton(t3, b, an.parent);
    SkeletonTrans(t, t3, u);
    assert SwapInTree(t, a, b).value == u;
  }

  /** The parts of `Shaped` that do not mention parents carry over. */
  lemma SkeletonKeeps(t: Tree, u: Tree)
    requires Shaped(t) && SameSkeleton(t, u)
    ensures u.root in u.nodes ==> u.root in t.nodes
    ensures forall n | n in u.nodes :: n < u.nextNode
    ensures forall n | n in u.nodes :: HasChild(u.nodes[n]) ==> u.nodes[n].symbol == INTERNAL_SYMBOL
    ensures |u.location| == SYMBOL_NUM + 1
    ensures forall s | 0 <= s < |u.location| && u.location[s].Some? ::
      u.location[s].value in u.nodes && u.nodes[u.location[s].value].symbol == s
  {
    forall n | n in u.nodes
      ensures HasChild(u.nodes[n]) ==> u.nodes[n].symbol == INTERNAL_SYMBOL
    {
      assert HasChild(u.nodes[n]) == HasChild(t.nodes[n]);
    }
  }

  lemma SwapInTreeShape(t: Tree, a: NodeId, b: NodeId)
    requires Shaped(t) && SwapInTree(t, a, b).Success?
    ensures Shaped(SwapInTree(t, a, b).value)
  {
    var u := SwapInTree(t, a, b).value;
    SwapInTreeFrame(t, a, b);
    forall n | n in u.nodes
      ensures u.nodes[n].parent.None? <==> n == u.root
    {
      if n != a && n != b {
        assert u.nodes[n].parent == t.nodes[n].parent;
      }
    }
    SkeletonKeeps(t, u);
  }

  // ---------------------------------------------------------------------------
  // Increment

  lemma PromoteShape(t: Tree, x: NodeId)
    requires Shaped(t) && Promote(t, x).Success?
    ensures Shaped(Promote(t, x).value)
    ensures Promote(t, x).value.location == t.location
  {
    var node := t.nodes[x];
    if NextHasWeight(t, x, node.weight) {
      var head := t.cells[node.cell.value];
      var t1 :=
        if Some(head) != node.parent then SwapInTree(t, head, x).value else t;
      if Some(head) != node.parent {
        SwapInTreeShape(t, head, x);
        SwapInTreeFrame(t, head, x);
      }
      SwapInListShape(t1, head, x);
      SameShapeKeeps(t1, Promote(t, x).value);
    }
  }

  lemma ReweighShape(t: Tree, x: NodeId)
    requires Shaped(t) && Reweigh(t, x).Success?
    ensures Shaped(Reweigh(t, x).value)
    ensures Reweigh(t, x).value.location == t.location
  {
    var t1 := Promote(t, x).value;
    PromoteShape(t, x);
    var t2 := Detach(t1, x).value;
    DetachShape(t1, x);
    var t3 := Bump(t2, x);
    BumpShape(t2, x);
    var t4 := Attach(t3, x).value;
    AttachShape(t3, x);
    assert Reweigh(t, x).value == t4;
    SameShapeTrans(t1, t2, t3);
    SameShapeTrans(t1, t3, t4);
    SameShapeKeeps(t1, t4);
  }

  lemma FixUpKeeps(t: Tree, x: NodeId, r: Tree)
    requires Shaped(t) && FixUp(t, x) == Success(r)
    ensures Shaped(r) && r.location == t.location
  {
    FixUpShape(t, x);
    SameShapeKeeps(t, r);
  }

  /** Every weight increment that succeeds keeps the tree shaped and leaves
      the location table alone. */
  lemma {:induction false} IncrementShape(t: Tree, x: NodeId, fuel: nat, r: Tree)
    requires Shaped(t) && Increment(t, x, fuel) == Success(r)
    ensures Shaped(r) && r.location == t.location
    decreases fuel, 1
  {
    RaiseShape(t, x, fuel - 1, r);
  }

  lemma {:induction false} RaiseShape(t: Tree, x: NodeId, fuel: nat, r: Tree)
    requires Shaped(t) && Raise(t, x, fuel) == Success(r)
    ensures Shaped(r) && r.location == t.location
    decreases fuel, 3
  {
    var t4 := Reweigh(t, x).value;
    ReweighShape(t, x);
    ClimbShape(t4, x, fuel, r);
  }

  lemma {:induction false} ClimbShape(t: Tree, x: NodeId, fuel: nat, r: Tree)
    requires Shaped(t) && Climb(t, x, fuel) == Success(r)
    ensures Shaped(r) && r.location == t.location
    decreases fuel, 2
  {
    var p := t.nodes[x].parent;
    if p.Some? {
      var t5 := Increment(t, p.value, fuel).value;
      IncrementShape(t, p.value, fuel, t5);
      FixUpKeeps(t5, x, r);
    }
  }

  // ---------------------------------------------------------------------------
  // New symbols and update

  /** The second half of `new_symbol` rewires exactly the old NYT leaf `o`
      and the two new leaves. */
  lemma SplitEffect(t: Tree, nyt: NodeId, sym: NodeId, symbol: int)
    requires 0 <= symbol < |t.location| && NYT_SYMBOL < |t.location|
    requires Split(t, nyt, sym, symbol).Success? && nyt in t.nodes && sym in t.nodes && nyt != sym
    requires t.location[NYT_SYMBOL].value != nyt && t.location[NYT_SYMBOL].value != sym
    ensures var u := Split(t, nyt, sym, symbol).value;
      var o := t.location[NYT_SYMBOL].value;
      && u.nodes.Keys == t.nodes.Keys
      && u.nodes[o] == t.nodes[o].(symbol := INTERNAL_SYMBOL, left := Some(nyt), right := Some(sym))
      && u.nodes[nyt] == t.nodes[nyt].(parent := Some(o))
      && u.nodes[sym] == t.nodes[sym].(parent := Some(o))
      && (forall n | n in t.nodes && n != o && n != nyt && n != sym :: u.nodes[n] == t.nodes[n])
      && u.location == t.location[symbol := Some(sym)][NYT_SYMBOL := Some(nyt)]
      && u.order == t.order && u.root == t.root && u.nextNode == t.nextNode
  {
  }

  /** In a shaped tree whose list head is NYT, `new_symbol` is the split of
      the tree with both fresh leaves pushed. */
  lemma NewSymbolPushes(t: Tree, symbol: int)
    requires Shaped(t) && 0 <= symbol < |t.location|
    requires |t.order| > 0 && t.order[0] in t.nodes && t.nodes[t.order[0]].symbol == NYT_SYMBOL
    ensures t.order[0] < t.nextNode && PushLeaves(t, symbol).Success?
    ensures NewSymbol(t, symbol) == Split(PushLeaves(t, symbol).value.0, t.nextNode + 1, t.nextNode, symbol)
  {
    assert t.order[0] < t.nextNode;
    NewSymbolSplits(t, symbol);
  }

  /** With NYT at the head of the list, `new_symbol` pushes both leaves and
      splits. */
  lemma NewSymbolSplits(t: Tree, symbol: int)
    requires 0 <= symbol < |t.location| && NYT_SYMBOL < |t.location|
    requires |t.order| > 0 && t.order[0] in t.nodes && t.nodes[t.order[0]].symbol == NYT_SYMBOL
    ensures PushLeaves(t, symbol).Success?
    ensures NewSymbol(t, symbol) == Split(PushLeaves(t, symbol).value.0, t.nextNode + 1, t.nextNode, symbol)
  {
    var pushed := PushLeaves(t, symbol);
    assert pushed.Success? && pushed.value.1 == t.nextNode + 1 && pushed.value.2 == t.nextNode;
  }

  /** In a shaped tree, `new_symbol` succeeds exactly when the list head is
      NYT and the NYT leaf has no children. */
  lemma NewSymbolSucceeds(t: Tree, symbol: int)
    requires Shaped(t) && 0 <= symbol < |t.location|
    ensures var o := t.location[NYT_SYMBOL];
      NewSymbol(t, symbol).Success? <==>
        && |t.order| > 0 && t.order[0] in t.nodes && t.nodes[t.order[0]].symbol == NYT_SYMBOL
        && o.Some? && !HasChild(t.nodes[o.value])
  {
    if |t.order| > 0 && t.order[0] in t.nodes && t.nodes[t.order[0]].symbol == NYT_SYMBOL {
      NewSymbolPushes(t, symbol);
      var t4 := PushLeaves(t, symbol).value.0;
      if t.location[NYT_SYMBOL].Some? {
        var o := t.location[NYT_SYMBOL].value;
        assert o in t.nodes;
        assert t4.nodes[o] == t.nodes[o];
      }
    }
  }

  /** The two fresh leaves `t.nextNode` (the symbol) and `t.nextNode + 1`
      (NYT), both of weight 0 and sharing the cell `c`, pushed onto a shaped
      tree `t`. */
  ghost predicate PushedLeaves(t: Tree, symbol: int, c: Option<CellId>, t4: Tree) {
    && t4.nodes == t.nodes[t.nextNode := Node(symbol, 0, None, None, None, c)]
                          [t.nextNode + 1 := Node(NYT_SYMBOL, 0, None, None, None, c)]
    && t4.location == t.location && t4.root == t.root && t4.nextNode == t.nextNode + 2
    && t4.order == [t.nextNode + 1, t.nextNode] + t.order
  }

  /** The second half of `new_symbol`, the split of NYT over the freshly
      pushed leaves: the old NYT leaf `o` becomes an internal node whose left
      child is the new NYT leaf and whose right child is the symbol's leaf,
      both of weight 0 and in front of the list; the location table points the
      symbol and NYT at them, and nothing else changes. */
  lemma SplitFresh(t: Tree, symbol: int, c: Option<CellId>, t4: Tree, u: Tree)
    requires Shaped(t) && 0 <= symbol < |t.location| && PushedLeaves(t, symbol, c, t4)
    requires Split(t4, t.nextNode + 1, t.nextNode, symbol) == Success(u)
    ensures t.location[NYT_SYMBOL].Some? && t.location[NYT_SYMBOL].value in t.nodes
    ensures u.nodes.Keys == t.nodes.Keys + {t.nextNode, t.nextNode + 1}
    ensures t.nextNode !in t.nodes && t.nextNode + 1 !in t.nodes
    ensures var o := t.location[NYT_SYMBOL].value;
      var sym := t.nextNode;
      var nyt := t.nextNode + 1;
      && u.order == [nyt, sym] + t.order
      && u.nodes[o] == t.nodes[o].(symbol := INTERNAL_SYMBOL, left := Some(nyt), right := Some(sym))
      && Links(u.nodes[nyt]) == (NYT_SYMBOL, Some(o), None, None) && u.nodes[nyt].weight == 0
      && Links(u.nodes[sym]) == (symbol, Some(o), None, None) && u.nodes[sym].weight == 0
      && (forall n | n in t.nodes && n != o :: u.nodes[n] == t.nodes[n])
      && u.location == t.location[symbol := Some(sym)][NYT_SYMBOL := Some(nyt)]
      && u.root == t.root && u.nextNode == t.nextNode + 2
  {
    var o := t.location[NYT_SYMBOL].value;
    assert o in t.nodes && o < t.nextNode;
    SplitEffect(t4, t.nextNode + 1, t.nextNode, symbol);
  }

  /** Splitting NYT over freshly pushed leaves keeps the tree shaped. */
  lemma SplitFreshShape(t: Tree, symbol: int, c: Option<CellId>, t4: Tree, u: Tree)
    requires Shaped(t) && 0 <= symbol < |t.location| && PushedLeaves(t, symbol, c, t4)
    requires Split(t4, t.nextNode + 1, t.nextNode, symbol) == Success(u)
    ensures Shaped(u)
    ensures u.location[symbol].Some?
    ensures forall s | 0 <= s < |t.location| && t.location[s].Some? :: u.location[s].Some?
  {
    SplitFresh(t, symbol, c, t4, u);
    var o := t.location[NYT_SYMBOL].value;
    var sym := t.nextNode;
    var nyt := t.nextNode + 1;
    forall n | n in u.nodes
      ensures u.nodes[n].parent.None? <==> n == u.root
    {
      if n != nyt && n != sym && n != o {
        assert u.nodes[n] == t.nodes[n];
      }
    }
    forall n | n in u.nodes
      ensures HasChild(u.nodes[n]) ==> u.nodes[n].symbol == INTERNAL_SYMBOL
    {
      if n != nyt && n != sym && n != o {
        assert u.nodes[n] == t.nodes[n];
      }
    }
    forall s | 0 <= s < |u.location| && u.location[s].Some?
      ensures u.location[s].value in u.nodes && u.nodes[u.location[s].value].symbol == s
    {
      if s != symbol && s != NYT_SYMBOL {
        assert u.location[s] == t.location[s];
        assert t.nodes[t.location[s].value].symbol == s;
      }
    }
  }

  /** `new_symbol` keeps the tree shaped and gives the symbol a leaf. */
  lemma NewSymbolShape(t: Tree, symbol: int, u: Tree)
    requires Shaped(t) && 0 <= symbol < |t.location| && NewSymbol(t, symbol) == Success(u)
    ensures Shaped(u)
    ensures u.location[symbol].Some?
    ensures forall s | 0 <= s < |t.location| && t.location[s].Some? :: u.location[s].Some?
  {
    NewSymbolSucceeds(t, symbol);
    NewSymbolPushes(t, symbol);
    SplitFreshShape(t, symbol, t.nodes[t.order[0]].cell, PushLeaves(t, symbol).value.0, u);
  }

  /** `update(symbol)` keeps the tree shaped; afterwards the symbol has a
      leaf, and every symbol that had a leaf still has one. */
  lemma UpdateShape(t: Tree, symbol: int)
    requires Shaped(t) && Update(t, symbol).Success?
    ensures Shaped(Update(t, symbol).value)
    ensures Update(t, symbol).value.location[symbol].Some?
    ensures forall s | 0 <= s < |t.location| && t.location[s].Some? :: Update(t, symbol).value.location[s].Some?
  {
    var t1 := if t.location[symbol].None? then NewSymbol(t, symbol).value else t;
    if t.location[symbol].None? {
      NewSymbolShape(t, symbol, t1);
    }
    IncrementShape(t1, t1.location[symbol].value, |t1.order|, Update(t, symbol).value);
  }
}
