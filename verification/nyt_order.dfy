/** Where the NYT leaf and its family sit in the weight-ordered list, and
    how parents follow their children there.

    The NYT leaf always heads the list. Once a symbol has been seen, its
    parent and its sibling hold positions 1 and 2: normally the sibling
    first, but for the span of one `increse_weight` of the sibling the
    parent may come first (the list is then "reversed" at its front, and
    the fix-up of step 6 puts it back). `Pos` reads a node's position as if
    the front were not reversed; along every parent link `Pos` grows, so
    the up-walk from any node reaches the root within the list's length. */
module NytOrder {
  import opened Wrappers
  import opened Symbols
  import opened HuffmanTree
  import opened TreeShape
  import opened TreeWeights
  import opened ListOrder
  import opened Blocks

  /** Every node has two children or none. */
  ghost predicate Full(t: Tree) {
    forall n | n in t.nodes :: t.nodes[n].left.Some? <==> t.nodes[n].right.Some?
  }

  /** The NYT leaf's parent has it on the left, some sibling on the right,
      and the two sit at positions 1 and 2 of the list. */
  ghost predicate NytFamily(t: Tree)
    requires |t.order| >= 3 && t.order[0] in t.nodes
  {
    var nyt := t.order[0];
    && t.nodes[nyt].parent.Some? && t.nodes[nyt].parent.value in t.nodes
    && var np := t.nodes[nyt].parent.value;
      && t.nodes[np].left == Some(nyt) && t.nodes[np].right.Some?
      && var sib := t.nodes[np].right.value;
        || (t.order[1] == sib && t.order[2] == np)
        || (t.order[1] == np && t.order[2] == sib)
  }

  /** The NYT leaf heads the list and is the only node with the NYT symbol;
      after the first symbol its family holds positions 1 and 2. */
  ghost predicate NytFront(t: Tree) {
    && |t.order| > 0 && t.order[0] in t.nodes
    && |t.location| > NYT_SYMBOL && t.location[NYT_SYMBOL] == Some(t.order[0])
    && (forall n | n in t.nodes && t.nodes[n].symbol == NYT_SYMBOL :: n == t.order[0])
    && (|t.order| == 1 || (|t.order| >= 3 && NytFamily(t)))
  }

  /** The NYT leaf's parent comes before its sibling. */
  ghost predicate Reversed(t: Tree) {
    |t.order| >= 3 && t.order[0] in t.nodes && t.nodes[t.order[0]].parent == Some(t.order[1])
  }

  /** A node's position with a reversed front read the normal way round. */
  ghost function Pos(t: Tree, n: NodeId): nat
    requires n in t.rank
  {
    var r := t.rank[n];
    if Reversed(t) && 1 <= r <= 2 then 3 - r else r
  }

  /** Every parent lies further along the list than its child. */
  ghost predicate ParentsAfter(t: Tree) {
    forall n | n in t.nodes && t.nodes[n].parent.Some? ::
      n in t.rank && t.nodes[n].parent.value in t.rank && Pos(t, t.nodes[n].parent.value) > Pos(t, n)
  }

  /** Only `x` or its parent may weigh nothing behind the NYT leaf, and
      only in the first three places. */
  ghost predicate ZerosNear(t: Tree, x: NodeId) {
    forall i | 1 <= i < |t.order| && WeightAt(t, i) == 0 ::
      && i <= 2
      && (t.order[i] == x || (x in t.nodes && t.nodes[x].parent == Some(t.order[i])))
  }

  /** Only the NYT leaf weighs nothing. */
  ghost predicate Positive(t: Tree) {
    forall i | 1 <= i < |t.order| :: WeightAt(t, i) > 0
  }

  // ---------------------------------------------------------------------------
  // Basic facts

  /** The NYT leaf is a leaf of weight 0. */
  lemma NytLeafAtFront(t: Tree)
    requires Shaped(t) && NytWeightless(t) && NytFront(t)
    ensures NytLeaf(t.nodes[t.order[0]]) && WeightAt(t, 0) == 0
  {
  }

  /** The NYT leaf heads the list with its parent at position 2 and the
      parent's other child at position 1: the front is in order, the normal
      way round. */
  lemma NormalFrontAt(t: Tree)
    requires |t.order| >= 3 && t.order[0] in t.nodes && t.order[1] != t.order[2]
    requires |t.location| > NYT_SYMBOL && t.location[NYT_SYMBOL] == Some(t.order[0])
    requires forall n | n in t.nodes && t.nodes[n].symbol == NYT_SYMBOL :: n == t.order[0]
    requires t.nodes[t.order[0]].parent == Some(t.order[2]) && t.order[2] in t.nodes
    requires t.nodes[t.order[2]].left == Some(t.order[0]) && t.nodes[t.order[2]].right == Some(t.order[1])
    ensures NytFront(t) && !Reversed(t)
  {
  }

  /** A tree that keeps the first three places of the list, the NYT leaf's
      parent link, that parent's child slots, the location table and the
      NYT symbol on the NYT leaf alone keeps its front as it was. */
  lemma FrontKept(t: Tree, u: Tree)
    requires NytFront(t) && |t.order| >= 3 && |u.order| == |t.order| && u.location == t.location
    requires u.order[0] == t.order[0] && u.order[1] == t.order[1] && u.order[2] == t.order[2]
    requires u.order[0] in u.nodes && u.nodes[u.order[0]].parent == t.nodes[t.order[0]].parent
    requires var np := t.nodes[t.order[0]].parent.value;
      np in u.nodes && u.nodes[np].left == t.nodes[np].left && u.nodes[np].right == t.nodes[np].right
    requires forall n | n in u.nodes && u.nodes[n].symbol == NYT_SYMBOL :: n == u.order[0]
    ensures NytFront(u) && Reversed(u) == Reversed(t)
  {
  }

  /** `Pos` is a position of the list, and different nodes have different
      ones. */
  lemma PosBounded(t: Tree, n: NodeId)
    requires Inverse(t) && n in t.rank
    ensures Pos(t, n) < |t.order|
    ensures Pos(t, n) == 0 <==> t.rank[n] == 0
  {
  }

  lemma PosInjective(t: Tree, a: NodeId, b: NodeId)
    requires Inverse(t) && a in t.rank && b in t.rank && a != b
    ensures Pos(t, a) != Pos(t, b)
  {
    assert t.order[t.rank[a]] == a && t.order[t.rank[b]] == b;
  }

  /** In a reversed list, the parent of the NYT leaf is at position 1 and its
      sibling, a child of that parent, at position 2. */
  lemma ReversedFamily(t: Tree)
    requires Linked(t) && NytFront(t) && Reversed(t)
    ensures var np := t.order[1];
      && np in t.nodes && t.nodes[np].left == Some(t.order[0]) && t.nodes[np].right == Some(t.order[2])
      && t.order[2] in t.nodes && t.nodes[t.order[2]].parent == Some(np)
  {
    assert LinkedAt(t, t.order[1]);
    ReversedNotSelf(t);
  }

  /** The two family members at positions 1 and 2 are different nodes. */
  lemma ReversedNotSelf(t: Tree)
    requires Linked(t) && NytFront(t) && Reversed(t)
    ensures t.order[1] != t.order[2] && t.order[2] != t.order[0]
  {
    var np := t.order[1];
    assert LinkedAt(t, np);
    assert LinkedAt(t, t.order[0]);
  }

  /** In a list that is not reversed, the sibling of the NYT leaf is at
      position 1 and the parent at position 2. */
  lemma NormalFamily(t: Tree)
    requires Linked(t) && NytFront(t) && |t.order| >= 3 && !Reversed(t)
    ensures var np := t.order[2];
      && np in t.nodes && t.nodes[np].left == Some(t.order[0]) && t.nodes[np].right == Some(t.order[1])
      && t.order[1] in t.nodes && t.nodes[t.order[1]].parent == Some(np)
      && t.nodes[t.order[0]].parent == Some(np)
  {
    var np := t.nodes[t.order[0]].parent.value;
    assert LinkedAt(t, np);
  }

  /** A node waiting for its increment is never the NYT leaf's parent in a
      list that is not reversed: the parent would have to weigh less than
      the sibling before it. */
  lemma NotNormalParent(t: Tree, x: NodeId)
    requires Shaped(t) && Linked(t) && NytWeightless(t) && NytFront(t) && Inverse(t) && Monotone(t)
    requires Pending(t, x) && |t.order| >= 3 && !Reversed(t)
    ensures x != t.order[2]
  {
    NormalFamily(t);
    NytLeafAtFront(t);
    assert WeightAt(t, 1) <= WeightAt(t, 2);
    assert ChildSum(t, t.order[2]) == Weight(t, t.order[1]);
  }

  /** The sibling of a reversed front has no children. */
  lemma ReversedSiblingLeaf(t: Tree, c: NodeId)
    requires Linked(t) && NytFront(t) && Inverse(t) && ParentsAfter(t) && Reversed(t)
    requires c in t.nodes
    ensures t.nodes[c].parent != Some(t.order[2])
  {
    ReversedFamily(t);
    assert Pos(t, t.order[2]) == 1;
    assert LinkedAt(t, t.order[0]);
    if t.nodes[c].parent.Some? {
      PosBounded(t, c);
      assert t.order[t.rank[c]] == c;
    }
  }

  /** The fix-up of step 6 does nothing unless `x` is the sibling of a
      reversed front: any other parent lies further along the list, and the
      root has no parent to meet. */
  lemma FixUpQuiet(t: Tree, x: NodeId)
    requires Inverse(t) && ParentsAfter(t) && x in t.nodes && x in t.rank
    requires t.rank[x] != 0 && !(Reversed(t) && x == t.order[2])
    ensures FixUp(t, x) == Success(t)
  {
    NeighboursAt(t, t.rank[x]);
    assert t.order[t.rank[x]] == x;
    if t.nodes[x].parent.Some? {
      var p := t.nodes[x].parent.value;
      assert t.order[t.rank[p]] == p;
    }
  }
}
