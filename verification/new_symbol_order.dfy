/** `new_symbol` on an ordered tree: the two fresh leaves and the old NYT
    leaf, all of weight 0, fill the first three places of the list and share
    the old NYT leaf's cell, whose leader is the old NYT leaf now at place 2;
    everything else moves two places back. The tree is then poised for the
    increment of the new symbol's leaf. */
module NewSymbolOrder {
  import opened Wrappers
  import opened Symbols
  import opened HuffmanTree
  import opened TreeShape
  import opened TreeWeights
  import opened ListOrder
  import opened Blocks
  import opened NytOrder
  import opened PromoteOrder

  /** `u` is `t` after `new_symbol(symbol)`: the list, cells and location
      table ... */
  ghost predicate GrownList(t: Tree, u: Tree, symbol: int)
    requires |t.order| > 0 && 0 <= symbol < |t.location| && NYT_SYMBOL < |t.location|
  {
    var sym, nyt := t.nextNode, t.nextNode + 1;
    && u.order == [nyt, sym] + t.order && Listed(u)
    && u.cells == t.cells && u.pool == t.pool && u.nextCell == t.nextCell
    && u.location == t.location[symbol := Some(sym)][NYT_SYMBOL := Some(nyt)]
  }

  /** ... and the node records: the old NYT leaf `o` turns internal over the
      two fresh leaves, which weigh nothing and share `o`'s cell. */
  ghost predicate GrownNodes(t: Tree, u: Tree, symbol: int)
    requires |t.order| > 0
  {
    var o, sym, nyt := t.order[0], t.nextNode, t.nextNode + 1;
    && o in t.nodes && sym !in t.nodes && nyt !in t.nodes
    && u.nodes.Keys == t.nodes.Keys + {sym, nyt}
    && u.nodes[o] == t.nodes[o].(symbol := INTERNAL_SYMBOL, left := Some(nyt), right := Some(sym))
    && u.nodes[nyt] == Node(NYT_SYMBOL, 0, Some(o), None, None, t.nodes[o].cell)
    && u.nodes[sym] == Node(symbol, 0, Some(o), None, None, t.nodes[o].cell)
    && (forall n | n in t.nodes && n != o :: u.nodes[n] == t.nodes[n])
  }

  /** One fresh leaf taken and pushed onto the front of a listed tree keeps
      it listed and touches no cell. */
  lemma PushFreshListed(t: Tree, symbol: int)
    requires Listed(t) && |t.order| > 0 && t.order[0] in t.nodes && t.nextNode !in t.nodes
    ensures var (t1, n) := GetNode(t, symbol);
      && PushHead(t1, n).Success?
      && var u := PushHead(t1, n).value;
        && Listed(u) && u.order[0] == n && n in u.nodes && u.nextNode == t.nextNode + 1
        && u.cells == t.cells && u.pool == t.pool && u.nextCell == t.nextCell
  {
    var (t1, n) := GetNode(t, symbol);
    assert t1.order == t.order && t1.rank == t.rank;
    PushHeadInverse(t1, n);
  }

  /** Pushing the two fresh leaves keeps the list listing every node once
      and touches no cell. */
  lemma PushLeavesListed(t: Tree, symbol: int)
    requires Listed(t) && |t.order| > 0 && t.order[0] in t.nodes
    requires t.nextNode !in t.nodes && t.nextNode + 1 !in t.nodes
    ensures PushLeaves(t, symbol).Success?
    ensures var t4 := PushLeaves(t, symbol).value.0;
      && Listed(t4) && t4.cells == t.cells && t4.pool == t.pool && t4.nextCell == t.nextCell
  {
    PushFreshListed(t, symbol);
    var (t1, sym) := GetNode(t, symbol);
    var t2 := PushHead(t1, sym).value;
    assert t2.nextNode !in t2.nodes;
    PushFreshListed(t2, NYT_SYMBOL);
    var (t3, nyt) := GetNode(t2, NYT_SYMBOL);
    assert PushLeaves(t, symbol) == Success((PushHead(t3, nyt).value, nyt, sym));
  }

  /** The split rewrites node records of existing nodes and points the
      location table at the two leaves; nothing else changes. */
  lemma SplitFrame(t: Tree, nyt: NodeId, sym: NodeId, symbol: int)
    requires 0 <= symbol < |t.location| && NYT_SYMBOL < |t.location|
    requires Split(t, nyt, sym, symbol).Success? && nyt in t.nodes && sym in t.nodes
    ensures var u := Split(t, nyt, sym, symbol).value;
      && u == t.(nodes := u.nodes, location := t.location[symbol := Some(sym)][NYT_SYMBOL := Some(nyt)])
      && u.nodes.Keys == t.nodes.Keys
  {
  }

  /** Whether the list lists every node once depends on the list, the ranks
      and which nodes exist only. */
  lemma ListedFrame(t: Tree, u: Tree)
    requires Listed(t) && u.order == t.order && u.rank == t.rank && u.nodes.Keys == t.nodes.Keys
    ensures Listed(u)
  {
  }

  /** The split over two freshly pushed leaves keeps the list, the cells
      and the pool ... */
  lemma SplitGrowsList(t: Tree, symbol: int, t4: Tree, u: Tree)
    requires |t.order| > 0 && 0 <= symbol < |t.location| && NYT_SYMBOL < |t.location|
    requires t4.location == t.location && t4.order == [t.nextNode + 1, t.nextNode] + t.order && Listed(t4)
    requires t4.cells == t.cells && t4.pool == t.pool && t4.nextCell == t.nextCell
    requires Split(t4, t.nextNode + 1, t.nextNode, symbol) == Success(u)
    requires t.nextNode in t4.nodes && t.nextNode + 1 in t4.nodes
    requires t.location[NYT_SYMBOL] == Some(t.order[0]) && t.order[0] < t.nextNode
    ensures GrownList(t, u, symbol)
  {
    SplitFrame(t4, t.nextNode + 1, t.nextNode, symbol);
    ListedFrame(t4, u);
  }

  /** ... and rewrites the node records as `GrownNodes` says. */
  lemma SplitGrowsNodes(t: Tree, symbol: int, t4: Tree, u: Tree)
    requires |t.order| > 0 && 0 <= symbol < |t.location| && NYT_SYMBOL < |t.location|
    requires t.order[0] in t.nodes && t.nextNode !in t.nodes && t.nextNode + 1 !in t.nodes
    requires t.location[NYT_SYMBOL] == Some(t.order[0])
    requires var c := t.nodes[t.order[0]].cell;
      t4.nodes == t.nodes[t.nextNode := Node(symbol, 0, None, None, None, c)]
                         [t.nextNode + 1 := Node(NYT_SYMBOL, 0, None, None, None, c)]
    requires t4.location == t.location
    requires Split(t4, t.nextNode + 1, t.nextNode, symbol) == Success(u)
    ensures GrownNodes(t, u, symbol)
  {
    SplitEffect(t4, t.nextNode + 1, t.nextNode, symbol);
  }

  /** Pushing the two fresh leaves adds them, weightless and sharing the
      old head's cell, to the arena. */
  lemma PushedNodes(t: Tree, symbol: int)
    requires |t.order| > 0 && t.order[0] in t.nodes && t.order[0] < t.nextNode
    ensures PushLeaves(t, symbol).Success?
    ensures var c := t.nodes[t.order[0]].cell;
      PushLeaves(t, symbol).value.0.nodes == t.nodes[t.nextNode := Node(symbol, 0, None, None, None, c)]
                                                    [t.nextNode + 1 := Node(NYT_SYMBOL, 0, None, None, None, c)]
  {
  }

  /** `new_symbol` on a listed tree headed by a childless NYT leaf, with
      two fresh node identifiers to hand out, succeeds and grows the tree as
      `GrownList` and `GrownNodes` say. */
  lemma GrowsFrom(t: Tree, symbol: int)
    requires Listed(t) && |t.order| > 0 && t.order[0] in t.nodes && t.order[0] < t.nextNode
    requires t.nextNode !in t.nodes && t.nextNode + 1 !in t.nodes
    requires 0 <= symbol < |t.location| && NYT_SYMBOL < |t.location|
    requires t.location[NYT_SYMBOL] == Some(t.order[0])
    requires t.nodes[t.order[0]].symbol == NYT_SYMBOL && !HasChild(t.nodes[t.order[0]])
    ensures NewSymbol(t, symbol).Success?
    ensures GrownList(t, NewSymbol(t, symbol).value, symbol) && GrownNodes(t, NewSymbol(t, symbol).value, symbol)
  {
    PushLeavesListed(t, symbol);
    PushedNodes(t, symbol);
    var pushed := PushLeaves(t, symbol).value;
    var t4 := pushed.0;
    assert pushed.1 == t.nextNode + 1 && pushed.2 == t.nextNode;
    assert t4.nodes[t.order[0]] == t.nodes[t.order[0]];
    assert NewSymbol(t, symbol) == Split(t4, t.nextNode + 1, t.nextNode, symbol);
    var u := NewSymbol(t, symbol).value;
    SplitGrowsList(t, symbol, t4, u);
    SplitGrowsNodes(t, symbol, t4, u);
  }

  /** `new_symbol` of a real symbol on a shaped, listed tree headed by its
      NYT leaf succeeds and grows the tree as `GrownList` and `GrownNodes` say. */
  lemma NewSymbolGrows(t: Tree, symbol: int)
    requires Shaped(t) && Listed(t) && NytFront(t) && NytWeightless(t) && IsRealSymbol(symbol)
    ensures NewSymbol(t, symbol).Success?
    ensures GrownList(t, NewSymbol(t, symbol).value, symbol) && GrownNodes(t, NewSymbol(t, symbol).value, symbol)
  {
    NytLeafAtFront(t);
    assert t.order[0] < t.nextNode && t.nextNode !in t.nodes && t.nextNode + 1 !in t.nodes;
    GrowsFrom(t, symbol);
  }

  // ---------------------------------------------------------------------------
  // The list after the split

  /** The position of `t`'s list that position `i` of a list with two
      places put in front copies. */
  function Behind(i: int): int {
    if i < 2 then 0 else i - 2
  }

  /** `u`'s list is `t`'s with two more places in front, which copy the
      weight and the cell of `t`'s head; every listed node of `t` moves two
      places back. */
  ghost predicate FrontDoubled(t: Tree, u: Tree) {
    && |t.order| > 0 && |u.order| == |t.order| + 2 && u.cells == t.cells
    && (forall i | 0 <= i < |u.order| ::
          WeightAt(u, i) == WeightAt(t, Behind(i)) && CellAt(u, i) == CellAt(t, Behind(i)))
    && (forall m | m in t.rank :: m in u.rank && u.rank[m] == t.rank[m] + 2)
  }

  /** Two more places in front, copying the head, keep weights in order,
      equal weights sharing a cell, and every cell naming its run's last
      node. */
  lemma DoubledBlocked(t: Tree, u: Tree)
    requires Blocked(t) && FrontDoubled(t, u)
    ensures Blocked(u)
  {
    forall i, j | 0 <= i <= j < |u.order|
      ensures WeightAt(u, i) <= WeightAt(u, j)
    {
      assert WeightAt(t, Behind(i)) <= WeightAt(t, Behind(j));
    }
    forall i, j | 0 <= i < |u.order| && 0 <= j < |u.order| && WeightAt(u, i) == WeightAt(u, j)
      ensures CellAt(u, i) == CellAt(u, j)
    {
      assert CellAt(t, Behind(i)) == CellAt(t, Behind(j));
    }
    forall i | 0 <= i < |u.order|
      ensures LeadsAt(u, i)
    {
      assert LeadsAt(t, Behind(i));
      var leader := t.cells[CellAt(t, Behind(i)).value];
      var j := t.rank[leader];
      assert WeightAt(u, j + 2) == WeightAt(t, j);
      if j + 1 < |t.order| {
        assert WeightAt(u, j + 3) == WeightAt(t, j + 1);
      }
    }
  }

  /** After the split, every place of the list holds the weight and cell of
      the place it copies: the two fresh leaves are weightless like the old
      NYT leaf and share its cell, and every other node keeps its own. */
  lemma GrownCopies(t: Tree, u: Tree, symbol: int)
    requires Listed(t) && |t.order| > 0 && WeightAt(t, 0) == 0
    requires u.order == [t.nextNode + 1, t.nextNode] + t.order && GrownNodes(t, u, symbol)
    ensures forall i | 0 <= i < |u.order| ::
      WeightAt(u, i) == WeightAt(t, Behind(i)) && CellAt(u, i) == CellAt(t, Behind(i))
  {
    forall i | 2 <= i < |u.order|
      ensures WeightAt(u, i) == WeightAt(t, i - 2) && CellAt(u, i) == CellAt(t, i - 2)
    {
      var n := t.order[i - 2];
      assert u.order[i] == n && n in t.nodes;
      if n != t.order[0] {
        assert u.nodes[n] == t.nodes[n];
      }
    }
  }

  /** After the split every listed node sits two places further back. */
  lemma GrownShifts(t: Tree, u: Tree)
    requires Inverse(t) && Inverse(u) && u.order == [t.nextNode + 1, t.nextNode] + t.order
    ensures forall m | m in t.rank :: m in u.rank && u.rank[m] == t.rank[m] + 2
  {
    forall m | m in t.rank
      ensures m in u.rank && u.rank[m] == t.rank[m] + 2
    {
      assert u.order[t.rank[m] + 2] == t.order[t.rank[m]];
    }
  }

  /** So the list after the split is the old one with its head doubled. */
  lemma GrownDoubled(t: Tree, u: Tree, symbol: int)
    requires |t.order| > 0 && 0 <= symbol < |t.location| && NYT_SYMBOL < |t.location|
    requires Listed(t) && WeightAt(t, 0) == 0
    requires GrownList(t, u, symbol) && GrownNodes(t, u, symbol)
    ensures FrontDoubled(t, u)
  {
    GrownCopies(t, u, symbol);
    GrownShifts(t, u);
  }

  /** `new_symbol` keeps the list invariant. */
  lemma NewSymbolRanked(t: Tree, u: Tree, symbol: int)
    requires |t.order| > 0 && 0 <= symbol < |t.location| && NYT_SYMBOL < |t.location|
    requires Ranked(t) && WeightAt(t, 0) == 0
    requires GrownList(t, u, symbol) && GrownNodes(t, u, symbol)
    ensures Ranked(u) && FrontDoubled(t, u)
  {
    GrownDoubled(t, u, symbol);
    DoubledBlocked(t, u);
  }

  /** After `new_symbol` the fresh NYT leaf heads the list, its parent (the
      old NYT leaf) comes third, behind the symbol's fresh leaf. */
  lemma NewSymbolFront(t: Tree, u: Tree, symbol: int)
    requires NytFront(t) && IsRealSymbol(symbol)
    requires GrownList(t, u, symbol) && GrownNodes(t, u, symbol)
    ensures NytFront(u) && !Reversed(u)
  {
    var o, sym, nyt := t.order[0], t.nextNode, t.nextNode + 1;
    assert u.order[0] == nyt && u.order[1] == sym && u.order[2] == o;
    forall n | n in u.nodes && n != nyt
      ensures u.nodes[n].symbol != NYT_SYMBOL
    {
      if n != sym && n != o {
        assert u.nodes[n] == t.nodes[n];
      }
    }
  }

  /** After `new_symbol` every parent still lies further along the list. */
  lemma NewSymbolParents(t: Tree, u: Tree, symbol: int)
    requires ParentsAfter(t) && !Reversed(t) && !Reversed(u) && |t.order| > 0
    requires 0 <= symbol < |t.location| && NYT_SYMBOL < |t.location|
    requires GrownList(t, u, symbol) && GrownNodes(t, u, symbol) && FrontDoubled(t, u)
    ensures ParentsAfter(u)
  {
    var o, sym, nyt := t.order[0], t.nextNode, t.nextNode + 1;
    assert u.order[0] == nyt && u.order[1] == sym && u.order[2] == o;
    forall n | n in u.nodes && u.nodes[n].parent.Some?
      ensures n in u.rank && u.nodes[n].parent.value in u.rank
      ensures Pos(u, u.nodes[n].parent.value) > Pos(u, n)
    {
      if n != nyt && n != sym {
        assert u.nodes[n].parent == t.nodes[n].parent;
      }
    }
  }

  /** After `new_symbol` only the three nodes in front weigh nothing: the
      symbol's fresh leaf and its parent behind the NYT leaf. */
  lemma NewSymbolZeros(t: Tree, u: Tree, symbol: int)
    requires Positive(t) && |t.order| > 0
    requires 0 <= symbol < |t.location| && NYT_SYMBOL < |t.location|
    requires GrownList(t, u, symbol) && GrownNodes(t, u, symbol) && FrontDoubled(t, u)
    ensures ZerosNear(u, t.nextNode)
  {
    forall i | 3 <= i < |u.order|
      ensures WeightAt(u, i) > 0
    {
      assert WeightAt(u, i) == WeightAt(t, i - 2);
    }
  }

  /** After `new_symbol` every node still has two children or none. */
  lemma NewSymbolFull(t: Tree, u: Tree, symbol: int)
    requires Full(t) && |t.order| > 0 && GrownNodes(t, u, symbol)
    ensures Full(u)
  {
    var o, sym, nyt := t.order[0], t.nextNode, t.nextNode + 1;
    forall n | n in u.nodes
      ensures u.nodes[n].left.Some? <==> u.nodes[n].right.Some?
    {
      if n != nyt && n != sym && n != o {
        assert u.nodes[n] == t.nodes[n];
      }
    }
  }

  /** The tree `new_symbol` grows from an ordered tree is poised for the
      increment of the symbol's fresh leaf, with its front in order. */
  lemma GrownPoised(t: Tree, u: Tree, symbol: int)
    requires Full(t) && Ranked(t) && NytFront(t) && ParentsAfter(t) && !Reversed(t) && Positive(t)
    requires IsRealSymbol(symbol) && WeightAt(t, 0) == 0
    requires GrownList(t, u, symbol) && GrownNodes(t, u, symbol) && Shaped(u) && Weighted(u)
    ensures Poised(u, t.nextNode) && !Reversed(u)
  {
    NewSymbolRanked(t, u, symbol);
    NewSymbolFront(t, u, symbol);
    NewSymbolParents(t, u, symbol);
    NewSymbolZeros(t, u, symbol);
    NewSymbolFull(t, u, symbol);
    SummedPending(u, t.nextNode);
  }

  /** On a tree that keeps every invariant of the encoder and whose list is
      not reversed, `new_symbol` of a real symbol succeeds and leaves the
      tree poised for the increment of the symbol's fresh leaf, with its
      front in order. */
  lemma NewSymbolPoised(t: Tree, symbol: int)
    requires Shaped(t) && Weighted(t) && Full(t) && Ranked(t)
    requires NytFront(t) && ParentsAfter(t) && !Reversed(t) && Positive(t)
    requires IsRealSymbol(symbol)
    ensures NewSymbol(t, symbol).Success? && GrownList(t, NewSymbol(t, symbol).value, symbol)
    ensures Poised(NewSymbol(t, symbol).value, t.nextNode) && !Reversed(NewSymbol(t, symbol).value)
  {
    NytLeafAtFront(t);
    NewSymbolGrows(t, symbol);
    var u := NewSymbol(t, symbol).value;
    NewSymbolShape(t, symbol, u);
    NewSymbolWeights(t, symbol, u);
    GrownPoised(t, u, symbol);
  }
}
