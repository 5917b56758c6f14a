/** Step 1 of `increse_weight` on an ordered tree: the node always finds its
    block's leader ahead of it, the source's three assertions hold, and the
    promotion keeps every parent after its children in the list.

    `Poised(t, x)` is the state in which the increment of `x` starts: the
    tree is shaped, linked and ranked, every internal node but `x` weighs its
    children's sum, the NYT leaf and its family hold the front of the list,
    and at most `x` and its parent weigh nothing behind the NYT leaf. */
module PromoteOrder {
  import opened Wrappers
  import opened Symbols
  import opened HuffmanTree
  import opened TreeShape
  import opened TreeWeights
  import opened ListOrder
  import opened Linkers
  import opened Blocks
  import opened NytOrder

  ghost predicate Poised(t: Tree, x: NodeId) {
    && Shaped(t) && Linked(t) && Full(t) && Pending(t, x) && NytWeightless(t)
    && Ranked(t) && NytFront(t) && ParentsAfter(t) && ZerosNear(t, x)
    && x in t.rank && x != t.order[0]
    && (Reversed(t) ==> x != t.order[2])
  }

  /** When the next node weighs as much as `x`, `x`'s cell names a node
      further along its run, which is neither `x` nor a child of `x`, and
      neither sits in the reversed part of the front. */
  lemma LeaderAhead(t: Tree, x: NodeId)
    requires Poised(t, x) && NextHasWeight(t, x, t.nodes[x].weight)
    ensures var l := t.rank[x];
      var c := t.nodes[x].cell;
      && c.Some? && c.value in t.cells && t.cells[c.value] in t.rank && t.cells[c.value] in t.nodes
      && var h := t.cells[c.value];
        && l < t.rank[h] && EndsRun(t, l, t.rank[h]) && t.order[t.rank[h]] == h
        && t.nodes[h].weight == t.nodes[x].weight && CellAt(t, l) == c
        && !(Reversed(t) && l <= 2) && t.rank[h] >= 2
        && Pos(t, x) == l && Pos(t, h) == t.rank[h]
        && t.nodes[h].parent != Some(x)
  {
    LeaderRun(t, x);
    ReversedWaitsFar(t, x);
    var h := t.cells[t.nodes[x].cell.value];
    if t.nodes[h].parent.Some? {
      assert Pos(t, t.nodes[h].parent.value) > Pos(t, h);
    }
  }

  /** In a reversed front, the NYT leaf's parent weighs less than the
      sibling after it while it waits, so a waiting node whose next node
      weighs as much lies beyond the front. */
  lemma ReversedWaitsFar(t: Tree, x: NodeId)
    requires Shaped(t) && Linked(t) && NytFront(t) && Inverse(t) && NytWeightless(t)
    requires Pending(t, x) && x in t.rank && x != t.order[0] && (Reversed(t) ==> x != t.order[2])
    requires NextHasWeight(t, x, t.nodes[x].weight)
    ensures Reversed(t) ==> t.rank[x] >= 3
  {
    var l := t.rank[x];
    assert t.order[l] == x;
    NeighboursAt(t, l);
    NytLeafAtFront(t);
    if Reversed(t) && l < 3 {
      assert l != 0 && l != 2;
      ReversedFamily(t);
    }
  }

  /** In an ordered list, when the next node weighs as much as `x`, `x`'s
      cell is live and names the last node of their run, further along. */
  lemma LeaderRun(t: Tree, x: NodeId)
    requires Ranked(t) && x in t.rank && x in t.nodes && NextHasWeight(t, x, t.nodes[x].weight)
    ensures var l := t.rank[x];
      var c := t.nodes[x].cell;
      && c.Some? && c.value in t.cells && t.cells[c.value] in t.rank && t.cells[c.value] in t.nodes
      && var h := t.cells[c.value];
        && l < t.rank[h] && EndsRun(t, l, t.rank[h]) && t.order[t.rank[h]] == h
        && t.nodes[h].weight == t.nodes[x].weight && CellAt(t, l) == c
  {
    var l := t.rank[x];
    assert t.order[l] == x;
    NeighboursAt(t, l);
    assert LeadsAt(t, l);
    var h := t.cells[t.nodes[x].cell.value];
    assert t.order[t.rank[h]] == h;
  }

  /** What step 1 leaves for steps 2-4: the tree still shaped, linked,
      waiting for `x` and ordered, `x` now last of its run, `x` no nearer the
      front, and the front either as it was or, when `x` was the sibling
      whose leader is its parent, reversed with `x` as the sibling. */
  ghost predicate PromotedOrdered(t: Tree, x: NodeId, u: Tree)
    requires x in t.rank
  {
    && Shaped(u) && Linked(u) && Full(u) && Pending(u, x) && NytWeightless(u) && u.location == t.location
    && Promoted(u, x) && NytFront(u) && ParentsAfter(u) && ZerosNear(u, x)
    && x in u.rank && x != u.order[0] && |u.order| == |t.order| && Pos(u, x) >= Pos(t, x)
    && (|| (Reversed(u) == Reversed(t) && (Reversed(t) ==> u.order[2] == t.order[2]) && (Reversed(u) ==> x != u.order[2]))
        || (!Reversed(t) && Reversed(u) && x == u.order[2]))
  }

  /** No node of `x`'s weight follows it: step 1 does nothing. */
  lemma PromoteStays(t: Tree, x: NodeId)
    requires Poised(t, x) && !NextHasWeight(t, x, t.nodes[x].weight)
    ensures Promote(t, x) == Success(t) && PromotedOrdered(t, x, t)
  {
    var l := t.rank[x];
    assert t.order[l] == x;
    NeighboursAt(t, l);
    if l + 1 < |t.order| {
      assert t.order[l + 1] in t.nodes;
    }
    RankedPromoted(t, x);
  }

  /** Exchanging two nodes of one run in the list moves no weight and no
      cell from its position, and leaves the later one promoted when the
      run's cell names the other. */
  lemma SwapWithinRun(t: Tree, x: NodeId, h: NodeId)
    requires Ranked(t) && x in t.rank && h in t.rank
    requires t.rank[x] < t.rank[h] && EndsRun(t, t.rank[x], t.rank[h])
    requires CellAt(t, t.rank[x]).Some? && CellAt(t, t.rank[x]).value in t.cells
    requires t.cells[CellAt(t, t.rank[x]).value] == h
    ensures SwapInList(t, h, x).Success?
    ensures var u := SwapInList(t, h, x).value;
      && (forall i :: WeightAt(u, i) == WeightAt(t, i) && CellAt(u, i) == CellAt(t, i))
      && Promoted(u, x) && u.rank[x] == t.rank[h] && u.rank[h] == t.rank[x]
  {
    var l, m := t.rank[x], t.rank[h];
    SwapInListExchanges(t, h, x);
    var u := SwapInList(t, h, x).value;
    assert t.order[l] == x && t.order[m] == h;
    assert LeadsAt(t, l) && LeadsAt(t, m);
    forall i
      ensures WeightAt(u, i) == WeightAt(t, i) && CellAt(u, i) == CellAt(t, i)
    {
    }
    forall i | 0 <= i < |u.order| && WeightAt(u, i) != WeightAt(u, m)
      ensures LeadsAt(u, i)
    {
      assert LeadsAt(t, i);
      var g := t.cells[CellAt(t, i).value];
      assert t.order[t.rank[g]] == g;
    }
    assert u.order[l] == h;
  }

  /** A leader that is `x`'s own parent weighs what `x` weighs, so `x`'s
      sibling weighs nothing: it is the NYT leaf, and `x` is the sibling at
      position 1 of a front that is not reversed. */
  lemma ParentLeaderFront(t: Tree, x: NodeId)
    requires Poised(t, x) && NextHasWeight(t, x, t.nodes[x].weight)
    requires t.nodes[x].cell.Some? && t.nodes[x].cell.value in t.cells
    requires t.nodes[x].parent == Some(t.cells[t.nodes[x].cell.value])
    ensures !Reversed(t) && |t.order| >= 3 && x == t.order[1] && t.nodes[x].parent == Some(t.order[2])
  {
    LeaderAhead(t, x);
    var h := t.nodes[x].parent.value;
    assert LinkedAt(t, x) && LinkedAt(t, h) && SumsAt(t, h);
    var s := if t.nodes[h].left == Some(x) then t.nodes[h].right.value else t.nodes[h].left.value;
    assert LinkedAt(t, s);
    assert t.nodes[s].weight == 0;
    assert t.order[t.rank[s]] == s;
    assert WeightAt(t, t.rank[s]) == 0;
    assert t.rank[s] == 0;
    if Reversed(t) {
      ReversedFamily(t);
    } else {
      NormalFamily(t);
    }
  }

  /** A change of the list alone keeps every property of the node records. */
  lemma ListOnlyKeeps(t: Tree, u: Tree, x: NodeId)
    requires u.nodes == t.nodes && u.root == t.root && u.location == t.location && u.nextNode == t.nextNode
    ensures Shaped(t) ==> Shaped(u)
    ensures Linked(t) ==> Linked(u)
    ensures Full(t) ==> Full(u)
    ensures Pending(t, x) ==> Pending(u, x)
    ensures NytWeightless(t) ==> NytWeightless(u)
  {
    assert forall n :: Weight(u, n) == Weight(t, n);
  }

  /** Parents stay after their children when no node's `Pos` moves. */
  lemma PosKeptParents(t: Tree, u: Tree)
    requires ParentsAfter(t) && u.nodes == t.nodes && u.rank.Keys == t.rank.Keys
    requires forall n | n in t.rank :: Pos(u, n) == Pos(t, n)
    ensures ParentsAfter(u)
  {
  }

  /** Exchanging positions 1 and 2 while the front turns round moves no
      node's `Pos`. */
  lemma FlipKeepsPos(t: Tree, u: Tree)
    requires Inverse(t) && |t.order| >= 3 && Reversed(t) != Reversed(u)
    requires u.rank.Keys == t.rank.Keys && u.rank[t.order[1]] == 2 && u.rank[t.order[2]] == 1
    requires forall m | m in t.rank && m != t.order[1] && m != t.order[2] :: u.rank[m] == t.rank[m]
    ensures forall n | n in t.rank :: n in u.rank && Pos(u, n) == Pos(t, n)
  {
    forall n | n in t.rank
      ensures n in u.rank && Pos(u, n) == Pos(t, n)
    {
      assert t.order[t.rank[n]] == n;
    }
  }

  /** Exchanging positions 1 and 2 with the same weights everywhere keeps
      the zeros where they were allowed. */
  lemma FlipKeepsZeros(t: Tree, u: Tree, x: NodeId)
    requires ZerosNear(t, x) && u.nodes == t.nodes && |u.order| == |t.order| >= 3
    requires forall i :: WeightAt(u, i) == WeightAt(t, i)
    requires u.order[1] == t.order[2] && u.order[2] == t.order[1]
    ensures ZerosNear(u, x)
  {
    forall i | 1 <= i < |u.order| && WeightAt(u, i) == 0
      ensures i <= 2 && (u.order[i] == x || (x in u.nodes && u.nodes[x].parent == Some(u.order[i])))
    {
      assert WeightAt(t, i) == 0;
    }
  }

  /** The leader is the parent: step 1 only exchanges the two in the list,
      which reverses the front without moving any node's `Pos`. */
  lemma PromoteToParent(t: Tree, x: NodeId)
    requires Poised(t, x) && NextHasWeight(t, x, t.nodes[x].weight)
    requires t.nodes[x].cell.Some? && t.nodes[x].cell.value in t.cells
    requires t.nodes[x].parent == Some(t.cells[t.nodes[x].cell.value])
    ensures Promote(t, x).Success? && PromotedOrdered(t, x, Promote(t, x).value)
  {
    LeaderAhead(t, x);
    ParentLeaderFront(t, x);
    var h := t.order[2];
    NeighboursAt(t, 1);
    SwapWithinRun(t, x, h);
    SwapInListExchanges(t, h, x);
    var u := SwapInList(t, h, x).value;
    assert Promote(t, x) == Success(u);
    ListOnlyKeeps(t, u, x);
    NormalFamily(t);
    assert u.order[1] == h && u.order[2] == x && u.order[0] == t.order[0];
    assert Reversed(u);
    FlipKeepsPos(t, u);
    PosKeptParents(t, u);
    FlipKeepsZeros(t, u, x);
    assert NytFront(u);
  }

  // ---------------------------------------------------------------------------
  // The tree swap

  /** `swap_in_tree` of two distinct nodes of a linked tree, neither the
      other's parent nor the NYT leaf, does not fail. */
  lemma SwapInTreeSucceeds(t: Tree, a: NodeId, b: NodeId)
    requires Linked(t) && Swappable(t, a, b)
    requires t.nodes[a].symbol != NYT_SYMBOL && t.nodes[b].symbol != NYT_SYMBOL
    ensures SwapInTree(t, a, b).Success?
  {
    assert LinkedAt(t, a) && LinkedAt(t, b);
    var an, bn := t.nodes[a], t.nodes[b];
    if an.parent.Some? {
      var t1 := ReplaceChild(t, an.parent.value, a, b).value;
      ReplaceChildEffect(t, an.parent.value, a, b);
      if bn.parent.Some? {
        assert t1.nodes[bn.parent.value].left == Some(b) || t1.nodes[bn.parent.value].right == Some(b);
      }
    }
  }

  /** Both child slots filled or both empty, node by node, as before. */
  ghost predicate SameSlots(t: Tree, u: Tree) {
    && u.nodes.Keys == t.nodes.Keys
    && (forall n | n in t.nodes ::
          u.nodes[n].left.Some? == t.nodes[n].left.Some? && u.nodes[n].right.Some? == t.nodes[n].right.Some?)
  }

  lemma ReplaceChildSlots(t: Tree, q: NodeId, gone: NodeId, repl: NodeId)
    requires ReplaceChild(t, q, gone, repl).Success?
    ensures SameSlots(t, ReplaceChild(t, q, gone, repl).value)
  {
    ReplaceChildEffect(t, q, gone, repl);
  }

  lemma SetParentSlots(t: Tree, n: NodeId, p: Option<NodeId>)
    ensures SameSlots(t, SetParent(t, n, p))
  {
  }

  lemma SlotsFull(t: Tree, u: Tree, v: Tree)
    requires SameSlots(t, u) && SameSlots(u, v)
    ensures SameSlots(t, v) && (Full(t) ==> Full(v))
  {
  }

  /** `swap_in_tree` rewires filled slots only, so every node keeps two
      children or none. */
  lemma SwapInTreeFull(t: Tree, a: NodeId, b: NodeId)
    requires Full(t) && SwapInTree(t, a, b).Success?
    ensures Full(SwapInTree(t, a, b).value)
  {
    var an, bn := t.nodes[a], t.nodes[b];
    var t1 := if an.parent.Some? then ReplaceChild(t, an.parent.value, a, b).value else t.(root := b);
    if an.parent.Some? {
      ReplaceChildSlots(t, an.parent.value, a, b);
    }
    var t2 := if bn.parent.Some? then ReplaceChild(t1, bn.parent.value, b, a).value else t1.(root := a);
    if bn.parent.Some? {
      ReplaceChildSlots(t1, bn.parent.value, b, a);
    }
    SlotsFull(t, t1, t2);
    var t3 := SetParent(t2, a, bn.parent);
    SetParentSlots(t2, a, bn.parent);
    SetParentSlots(t3, b, an.parent);
    SlotsFull(t2, t3, SetParent(t3, b, an.parent));
    SlotsFull(t, t2, SetParent(t3, b, an.parent));
  }

  /** Moving links alone keeps the list invariant. */
  lemma DataKeptRanked(t: Tree, u: Tree)
    requires Ranked(t) && DataKept(t, u)
    ensures Ranked(u)
  {
    DataKeptPositions(t, u);
    forall i | 0 <= i < |u.order|
      ensures LeadsAt(u, i)
    {
      assert LeadsAt(t, i);
    }
  }

  /** A leader further along than `x` that is not `x`'s parent weighs more
      than nothing, and then nothing behind the NYT leaf does. */
  lemma ApartPositive(t: Tree, x: NodeId)
    requires Poised(t, x) && NextHasWeight(t, x, t.nodes[x].weight)
    requires t.nodes[x].cell.Some? && t.nodes[x].cell.value in t.cells
    requires t.nodes[x].parent != Some(t.cells[t.nodes[x].cell.value])
    ensures Positive(t) && t.nodes[x].weight > 0
  {
    LeaderAhead(t, x);
    var h := t.cells[t.nodes[x].cell.value];
    var m := t.rank[h];
    assert t.order[m] == h && h != x;
    assert WeightAt(t, m) == t.nodes[x].weight > 0;
    assert LinkedAt(t, x);
    if t.nodes[x].parent.Some? {
      var p := t.nodes[x].parent.value;
      assert LinkedAt(t, p) && SumsAt(t, p);
      assert t.nodes[p].weight >= t.nodes[x].weight;
    }
  }

  /** The children of a leader that is not `x`'s parent all come before
      `x`: one coming between them would weigh what its parent weighs,
      leaving a weightless sibling that `ZerosNear` does not allow. */
  lemma LeaderChildBefore(t: Tree, x: NodeId, n: NodeId)
    requires Poised(t, x) && NextHasWeight(t, x, t.nodes[x].weight)
    requires t.nodes[x].cell.Some? && t.nodes[x].cell.value in t.cells
    requires t.nodes[x].parent != Some(t.cells[t.nodes[x].cell.value])
    requires n in t.nodes && t.nodes[n].parent == Some(t.cells[t.nodes[x].cell.value])
    ensures n in t.rank && Pos(t, n) < Pos(t, x)
  {
    LeaderAhead(t, x);
    ApartPositive(t, x);
    var h := t.cells[t.nodes[x].cell.value];
    var l, m := t.rank[x], t.rank[h];
    assert LinkedAt(t, n) && LinkedAt(t, h) && SumsAt(t, h);
    assert t.nodes[h].left.Some? && t.nodes[h].right.Some?;
    var s := if t.nodes[h].left == Some(n) then t.nodes[h].right.value else t.nodes[h].left.value;
    SiblingShare(t, h, n, s);
    assert t.order[t.rank[s]] == s && t.order[t.rank[n]] == n && t.order[l] == x && t.order[m] == h;
    LeaderNotNytParent(t, l, m);
    assert t.rank[s] != 0;
    assert WeightAt(t, t.rank[s]) == t.nodes[s].weight > 0;
    assert WeightAt(t, t.rank[n]) < WeightAt(t, l);
    PosBefore(t, n, x);
  }

  /** A parent weighs as much as one child and its sibling together. */
  lemma SiblingShare(t: Tree, h: NodeId, n: NodeId, s: NodeId)
    requires h in t.nodes && LinkedAt(t, h) && SumsAt(t, h)
    requires || (t.nodes[h].left == Some(n) && t.nodes[h].right == Some(s))
             || (t.nodes[h].left == Some(s) && t.nodes[h].right == Some(n))
    ensures n in t.nodes && s in t.nodes && s != n && t.nodes[s].parent == Some(h)
    ensures t.nodes[h].weight == t.nodes[n].weight + t.nodes[s].weight
  {
  }

  /** A leader further along the run of a node that is not its child is
      not the NYT leaf's parent: that parent sits in the front, where only
      its own other child can precede it within a run. */
  lemma LeaderNotNytParent(t: Tree, l: nat, m: nat)
    requires Linked(t) && NytFront(t) && Inverse(t)
    requires 1 <= l < m < |t.order| && m >= 2 && !(Reversed(t) && l <= 2)
    requires t.order[m] in t.nodes && t.order[l] in t.nodes
    requires t.nodes[t.order[l]].parent != Some(t.order[m])
    ensures t.nodes[t.order[0]].parent != Some(t.order[m])
  {
    if Reversed(t) {
      ReversedFamily(t);
      assert t.order[1] != t.order[m];
    } else {
      NormalFamily(t);
      if m != 2 {
        assert t.order[2] != t.order[m];
      }
    }
  }

  /** Behind a reversed front, `Pos` follows the list. */
  lemma PosBefore(t: Tree, a: NodeId, b: NodeId)
    requires a in t.rank && b in t.rank && t.rank[a] < t.rank[b]
    requires !(Reversed(t) && t.rank[b] <= 2)
    ensures Pos(t, a) < Pos(t, b)
  {
  }

  /** `x` waits for its increment with a leader `h` further along its run
      that is not its parent: step 1 swaps the two in the tree and in the
      list. */
  ghost predicate Apart(t: Tree, x: NodeId, h: NodeId) {
    && Poised(t, x) && NextHasWeight(t, x, t.nodes[x].weight)
    && t.nodes[x].cell.Some? && t.nodes[x].cell.value in t.cells
    && h == t.cells[t.nodes[x].cell.value] && t.nodes[x].parent != Some(h)
  }

  /** A node none of whose slots holds `a` or `b` is untouched by their
      swap. */
  lemma SwapInTreeElsewhere(t: Tree, a: NodeId, b: NodeId, q: NodeId)
    requires Linked(t) && Swappable(t, a, b) && SwapInTree(t, a, b).Success?
    requires q in t.nodes && q != a && q != b
    requires t.nodes[q].left != Some(a) && t.nodes[q].left != Some(b)
    requires t.nodes[q].right != Some(a) && t.nodes[q].right != Some(b)
    ensures q in SwapInTree(t, a, b).value.nodes && SwapInTree(t, a, b).value.nodes[q] == t.nodes[q]
  {
    assert LinkedAt(t, a) && LinkedAt(t, b);
    var pa := t.nodes[a].parent;
    if pa.Some? && pa == t.nodes[b].parent {
      SwapSiblingsEffect(t, a, b);
    } else {
      SwapApartEffect(t, a, b);
    }
  }

  /** The tree swap succeeds and keeps every property of the tree that step
      1 needs, and the list swap after it succeeds too. */
  lemma ApartSwaps(t: Tree, x: NodeId, h: NodeId)
    requires Apart(t, x, h)
    ensures SwapInTree(t, h, x).Success?
    ensures var t1 := SwapInTree(t, h, x).value;
      && Shaped(t1) && Linked(t1) && Full(t1) && Pending(t1, x) && NytWeightless(t1)
      && DataKept(t, t1) && Ranked(t1) && Promote(t, x) == SwapInList(t1, h, x)
  {
    LeaderAhead(t, x);
    assert t.order[t.rank[x]] == x && t.order[t.rank[h]] == h;
    assert t.nodes[x].symbol != NYT_SYMBOL && t.nodes[h].symbol != NYT_SYMBOL;
    SwapInTreeSucceeds(t, h, x);
    var t1 := SwapInTree(t, h, x).value;
    SwapInTreeShape(t, h, x);
    SwapInTreeWeights(t, h, x);
    SameWeightsKeep(t, t1, x);
    SwapInTreeFull(t, h, x);
    SwapInTreeData(t, h, x);
    DataKeptRanked(t, t1);
  }

  /** Where `x` and its leader sit: never at position 2, behind position 2
      in a reversed front, and when `x` is the sibling at position 1 the
      leader lies behind position 2 under another parent. */
  lemma ApartPlaces(t: Tree, x: NodeId, h: NodeId)
    requires Apart(t, x, h)
    ensures h in t.rank && h in t.nodes && Swappable(t, h, x)
    ensures var l, m := t.rank[x], t.rank[h];
      && 1 <= l < m && l != 2 && (Reversed(t) ==> l >= 3)
      && (l == 1 ==> m >= 3 && !Reversed(t) && t.nodes[h].parent != t.nodes[x].parent)
  {
    LeaderAhead(t, x);
    var l, m := t.rank[x], t.rank[h];
    assert t.order[l] == x && t.order[m] == h;
    if !Reversed(t) {
      NotNormalParent(t, x);
      if l == 1 {
        NormalFamily(t);
        var np := t.order[2];
        assert LinkedAt(t, np) && LinkedAt(t, h);
      }
    }
  }

  /** Swaps behind position 2 leave the front as it was. */
  lemma FrontFar(t: Tree, x: NodeId, h: NodeId, t1: Tree, u: Tree)
    requires Linked(t) && NytFront(t) && Inverse(t) && Swappable(t, h, x)
    requires x in t.rank && h in t.rank && t.rank[x] >= 3 && t.rank[h] >= 3
    requires SwapInTree(t, h, x) == Success(t1) && DataKept(t, t1)
    requires SwapInList(t1, h, x) == Success(u)
    ensures NytFront(u) && Reversed(u) == Reversed(t)
    ensures u.order[1] == t.order[1] && u.order[2] == t.order[2]
  {
    var l, m := t.rank[x], t.rank[h];
    assert t.order[l] == x && t.order[m] == h;
    SwapInTreeFrame(t, h, x);
    SwapInListExchanges(t1, h, x);
    var nyt := t.order[0];
    assert u.order[0] == nyt && u.order[1] == t.order[1] && u.order[2] == t.order[2];
    assert u.nodes[nyt].parent == t.nodes[nyt].parent;
    var np := t.nodes[nyt].parent.value;
    assert np == t.order[1] || np == t.order[2];
    SwapInTreeElsewhere(t, h, x, np);
    assert forall n | n in u.nodes && u.nodes[n].symbol == NYT_SYMBOL :: n == u.order[0];
    FrontKept(t, u);
  }

  /** Swapping the sibling at position 1 with a leader behind position 2
      puts the leader in the sibling's place. */
  lemma FrontNear(t: Tree, x: NodeId, h: NodeId, t1: Tree, u: Tree)
    requires Linked(t) && NytFront(t) && Inverse(t) && Swappable(t, h, x) && !Reversed(t)
    requires x in t.rank && h in t.rank && t.rank[x] == 1 && t.rank[h] >= 3
    requires t.nodes[h].parent != t.nodes[x].parent
    requires SwapInTree(t, h, x) == Success(t1) && DataKept(t, t1)
    requires SwapInList(t1, h, x) == Success(u)
    ensures NytFront(u) && !Reversed(u)
  {
    var m := t.rank[h];
    assert t.order[1] == x && t.order[m] == h;
    NormalFamily(t);
    SwapInTreeFrame(t, h, x);
    SwapApartEffect(t, h, x);
    SwapInListExchanges(t1, h, x);
    var nyt, np := t.order[0], t.order[2];
    assert u.order[0] == nyt && u.order[1] == h && u.order[2] == np;
    assert u.nodes[nyt].parent == Some(np);
    assert u.nodes[np].left == Some(nyt) && u.nodes[np].right == Some(h);
    assert forall n | n in u.nodes && u.nodes[n].symbol == NYT_SYMBOL :: n == u.order[0];
    NormalFrontAt(u);
  }

  /** The tree swap and the list swap leave the NYT leaf's family at the
      front, reversed exactly when it was. */
  lemma ApartFront(t: Tree, x: NodeId, h: NodeId, t1: Tree, u: Tree)
    requires Apart(t, x, h) && SwapInTree(t, h, x) == Success(t1) && DataKept(t, t1)
    requires SwapInList(t1, h, x) == Success(u)
    ensures NytFront(u) && Reversed(u) == Reversed(t)
    ensures Reversed(t) ==> u.order[2] == t.order[2] && x != u.order[2]
  {
    ApartPlaces(t, x, h);
    if t.rank[x] == 1 {
      FrontNear(t, x, h, t1, u);
    } else {
      FrontFar(t, x, h, t1, u);
      assert t.order[t.rank[x]] == x;
    }
  }

  /** Exchanging the ranks of `x` and a later `h` exchanges their `Pos` and
      moves no other node's, when the front keeps its orientation and the
      two lie behind a reversed front. */
  lemma ApartPos(t: Tree, x: NodeId, h: NodeId, u: Tree)
    requires Inverse(t) && x in t.rank && h in t.rank && 1 <= t.rank[x] < t.rank[h]
    requires Reversed(t) ==> t.rank[x] >= 3
    requires Reversed(u) == Reversed(t) && u.rank == t.rank[h := t.rank[x]][x := t.rank[h]]
    ensures Pos(u, x) == Pos(t, h) && Pos(u, h) == Pos(t, x)
    ensures forall n | n in t.rank && n != x && n != h :: n in u.rank && Pos(u, n) == Pos(t, n)
  {
  }

  /** Only the NYT leaf weighs nothing, so no zero is out of place. */
  lemma PositiveZeros(t: Tree, u: Tree, x: NodeId)
    requires Positive(t) && |u.order| == |t.order|
    requires forall i :: WeightAt(u, i) == WeightAt(t, i)
    ensures Positive(u) && ZerosNear(u, x)
  {
    forall i | 1 <= i < |u.order|
      ensures WeightAt(u, i) > 0
    {
      assert WeightAt(t, i) > 0;
    }
  }

  /** Every child of the leader comes before `x`. */
  lemma ApartChildren(t: Tree, x: NodeId, h: NodeId)
    requires Apart(t, x, h)
    ensures forall n | n in t.nodes && t.nodes[n].parent == Some(h) :: n in t.rank && Pos(t, n) < Pos(t, x)
  {
    forall n | n in t.nodes && t.nodes[n].parent == Some(h)
      ensures n in t.rank && Pos(t, n) < Pos(t, x)
    {
      LeaderChildBefore(t, x, n);
    }
  }

  /** After `x` and its leader exchange parents and `Pos`, every parent is
      still after its children: `x` takes the leader's place below the
      leader's parent, the leader takes `x`'s place below `x`'s parent, `x`'s
      children move nowhere and the leader's all came before `x`. */
  lemma ApartParents(t: Tree, x: NodeId, h: NodeId, u: Tree)
    requires ParentsAfter(t) && x in t.nodes && h in t.nodes
    requires x in t.rank && h in t.rank && Pos(t, x) < Pos(t, h)
    requires t.nodes[h].parent != Some(x) && t.nodes[x].parent != Some(h)
    requires forall n | n in t.nodes && t.nodes[n].parent == Some(h) :: n in t.rank && Pos(t, n) < Pos(t, x)
    requires u.nodes.Keys == t.nodes.Keys && u.rank.Keys == t.rank.Keys && ParentsKept(t, u, {h, x})
    requires u.nodes[x].parent == t.nodes[h].parent && u.nodes[h].parent == t.nodes[x].parent
    requires Pos(u, x) == Pos(t, h) && Pos(u, h) == Pos(t, x)
    requires forall n | n in t.rank && n != x && n != h :: n in u.rank && Pos(u, n) == Pos(t, n)
    ensures ParentsAfter(u)
  {
    forall n | n in u.nodes && u.nodes[n].parent.Some?
      ensures n in u.rank && u.nodes[n].parent.value in u.rank
      ensures Pos(u, u.nodes[n].parent.value) > Pos(u, n)
    {
      if n != x && n != h {
        assert u.nodes[n].parent == t.nodes[n].parent;
      }
    }
  }

  /** The leader is not `x`'s parent: step 1 swaps the two in the tree and
      in the list, so `x` moves to the end of its run without any parent
      falling behind a child. */
  lemma PromoteApart(t: Tree, x: NodeId)
    requires Poised(t, x) && NextHasWeight(t, x, t.nodes[x].weight)
    requires t.nodes[x].cell.Some? && t.nodes[x].cell.value in t.cells
    requires t.nodes[x].parent != Some(t.cells[t.nodes[x].cell.value])
    ensures Promote(t, x).Success? && PromotedOrdered(t, x, Promote(t, x).value)
  {
    var h := t.cells[t.nodes[x].cell.value];
    assert Apart(t, x, h);
    LeaderAhead(t, x);
    ApartPlaces(t, x, h);
    ApartPositive(t, x);
    ApartSwaps(t, x, h);
    var t1 := SwapInTree(t, h, x).value;
    DataKeptPositions(t, t1);
    SwapWithinRun(t1, x, h);
    var u := SwapInList(t1, h, x).value;
    ListOnlyKeeps(t1, u, x);
    ApartFront(t, x, h, t1, u);
    ApartPos(t, x, h, u);
    SwapInTreeFrame(t, h, x);
    ApartChildren(t, x, h);
    ApartParents(t, x, h, u);
    PositiveZeros(t, u, x);
    assert t.order[0] != x;
    assert u.order[0] == t.order[0];
  }

  /** Step 1 of `increse_weight` never fails on a tree waiting for `x` in
      order, and leaves it promoted and still in order. */
  lemma PromoteReady(t: Tree, x: NodeId)
    requires Poised(t, x)
    ensures Promote(t, x).Success? && PromotedOrdered(t, x, Promote(t, x).value)
  {
    if !NextHasWeight(t, x, t.nodes[x].weight) {
      PromoteStays(t, x);
    } else {
      LeaderAhead(t, x);
      if t.nodes[x].parent == Some(t.cells[t.nodes[x].cell.value]) {
        PromoteToParent(t, x);
      } else {
        PromoteApart(t, x);
      }
    }
  }
}
