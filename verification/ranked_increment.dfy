/** `increse_weight` on an ordered tree: it never fails, and it leaves the
    tree in order again, so `check_rank` would hold after every update.

    `Poised(t, x) && fuel + Pos(t, x) >= |t.order|` is `Poised` with enough recursion budget for the
    whole walk from `x` to the root; since `Pos` grows along parent links,
    the list's length always suffices. */
module RankedIncrement {
  import opened Wrappers
  import opened Symbols
  import opened HuffmanTree
  import opened TreeShape
  import opened TreeWeights
  import opened ListOrder
  import opened Blocks
  import opened NytOrder
  import opened PromoteOrder

  /** What an increment leaves: the list invariant again, nothing but the
      NYT leaf weightless, and the front oriented as before. */
  ghost predicate Settled(t: Tree, r: Tree) {
    && Ranked(r) && NytFront(r) && ParentsAfter(r) && Positive(r) && Full(r)
    && |r.order| == |t.order|
    && Reversed(r) == Reversed(t) && (Reversed(t) ==> r.order[2] == t.order[2])
  }

  /** The state after steps 1-4 on `x`: in order, with `x`'s parent (if
      any) now waiting, and no weightless node behind the NYT leaf but that
      parent. */
  ghost predicate ClimbReady(t: Tree, x: NodeId, fuel: nat) {
    && Shaped(t) && Linked(t) && NytWeightless(t) && Climbing(t, x) && Full(t)
    && Ranked(t) && NytFront(t) && ParentsAfter(t)
    && x in t.rank && x != t.order[0]
    && (forall i | 1 <= i < |t.order| && WeightAt(t, i) == 0 ::
          i <= 2 && t.nodes[x].parent == Some(t.order[i]))
    && fuel + Pos(t, x) + 1 >= |t.order|
  }

  /** What the climb from `x` leaves: as `Settled`, except that when `x` was
      the sibling of a reversed front the fix-up has turned the front back. */
  ghost predicate ClimbSettled(t: Tree, x: NodeId, r: Tree) {
    && Ranked(r) && NytFront(r) && ParentsAfter(r) && Positive(r) && Full(r)
    && |r.order| == |t.order|
    && (if Reversed(t) && x == t.order[2] then !Reversed(r)
        else Reversed(r) == Reversed(t) && (Reversed(t) ==> r.order[2] == t.order[2]))
  }

  /** `v` is `u` with only `x`'s weight and cell changed. */
  ghost predicate Reweighed(u: Tree, v: Tree, x: NodeId) {
    && v.order == u.order && v.rank == u.rank && v.location == u.location
    && v.nodes.Keys == u.nodes.Keys && x in u.nodes
    && (forall n | n in u.nodes && n != x :: v.nodes[n] == u.nodes[n])
    && v.nodes[x] == u.nodes[x].(weight := v.nodes[x].weight, cell := v.nodes[x].cell)
  }

  /** A new weight and cell for one node other than the NYT leaf move no
      link and no position. */
  lemma ReweighedKeeps(u: Tree, v: Tree, x: NodeId)
    requires Reweighed(u, v, x) && Full(u) && NytFront(u) && ParentsAfter(u) && x != u.order[0]
    ensures Full(v) && NytFront(v) && ParentsAfter(v) && Reversed(v) == Reversed(u)
    ensures forall n | n in u.rank :: Pos(v, n) == Pos(u, n)
  {
    assert forall n | n in u.nodes :: v.nodes[n].parent == u.nodes[n].parent;
    assert Reversed(v) == Reversed(u);
  }

  /** After the bump `x` weighs something, so only its parent may still weigh
      nothing behind the NYT leaf. */
  lemma BumpedZeros(u: Tree, v: Tree, x: NodeId)
    requires ZerosNear(u, x) && Inverse(u) && x in u.rank && Reweighed(u, v, x)
    requires forall i | 0 <= i < |u.order| :: WeightAt(v, i) == WeightAt(u, i) + (if i == u.rank[x] then 1 else 0)
    ensures forall i | 1 <= i < |v.order| && WeightAt(v, i) == 0 :: i <= 2 && v.nodes[x].parent == Some(v.order[i])
  {
    forall i | 1 <= i < |v.order| && WeightAt(v, i) == 0
      ensures i <= 2 && v.nodes[x].parent == Some(v.order[i])
    {
      assert WeightAt(u, i) == 0 && i != u.rank[x];
      assert u.order[u.rank[x]] == x;
    }
  }

  /** Steps 1-4 on a node ready for them succeed and leave it ready to
      climb, with the front either as it was or reversed with `x` as the
      sibling. */
  lemma ReweighReady(t: Tree, x: NodeId, fuel: nat)
    requires Poised(t, x) && fuel + Pos(t, x) >= |t.order|
    ensures fuel > 0 && Reweigh(t, x).Success?
    ensures var t4 := Reweigh(t, x).value;
      && ClimbReady(t4, x, fuel - 1) && |t4.order| == |t.order|
      && (|| (Reversed(t4) == Reversed(t) && (Reversed(t) ==> t4.order[2] == t.order[2])
              && !(Reversed(t4) && x == t4.order[2]))
          || (!Reversed(t) && Reversed(t4) && x == t4.order[2]))
  {
    PosBounded(t, x);
    PromoteReady(t, x);
    var u := Promote(t, x).value;
    ReblockSteps(u, x);
    var t4 := Attach(Bump(Detach(u, x).value, x), x).value;
    assert Reweigh(t, x) == Success(t4);
    ReweighWeights(t, x);
    ReweighShape(t, x);
    ReweighedKeeps(u, t4, x);
    BumpedZeros(u, t4, x);
  }

  /** Once `x` is reweighed, its parent is ready for its own increment: it
      is not the NYT leaf, not the sibling of a reversed front, and lies
      further along the list than `x`. */
  lemma ClimbParentReady(t: Tree, x: NodeId, fuel: nat)
    requires ClimbReady(t, x, fuel) && t.nodes[x].parent.Some?
    ensures Poised(t, t.nodes[x].parent.value) && fuel > 0
    ensures fuel + Pos(t, t.nodes[x].parent.value) >= |t.order|
  {
    var p := t.nodes[x].parent.value;
    assert LinkedAt(t, x);
    NytLeafAtFront(t);
    if Reversed(t) {
      ReversedSiblingLeaf(t, x);
    }
  }

  /** The first two nodes after the NYT leaf exchanged in the list, and the
      cell `c` handed to the new second one if it named the old. */
  ghost function FrontFlip(t: Tree, c: CellId): (r: Tree)
    requires |t.order| >= 3 && c in t.cells
    ensures |r.order| == |t.order| && r.nodes == t.nodes
  {
    var a, b := t.order[1], t.order[2];
    t.(order := ListLinks.Swap(t.order, 1, 2), rank := t.rank[b := 1][a := 2],
       cells := if t.cells[c] == b then t.cells[c := a] else t.cells)
  }

  /** Exchanging two positions of equal weight and cell keeps every
      position's weight and cell and the list's inverse. */
  lemma FrontFlipPositions(t: Tree, c: CellId)
    requires Listed(t) && |t.order| >= 3 && WeightAt(t, 1) == WeightAt(t, 2)
    requires c in t.cells && CellAt(t, 1) == CellAt(t, 2) == Some(c)
    ensures var r := FrontFlip(t, c);
      && Listed(r) && r.rank.Keys == t.rank.Keys
      && (forall i :: WeightAt(r, i) == WeightAt(t, i) && CellAt(r, i) == CellAt(t, i))
  {
    var r := FrontFlip(t, c);
    assert t.order[1] != t.order[2];
    forall i
      ensures WeightAt(r, i) == WeightAt(t, i) && CellAt(r, i) == CellAt(t, i)
    {
    }
    forall n | n in r.rank
      ensures r.rank[n] < |r.order| && r.order[r.rank[n]] == n
    {
    }
  }

  /** Exchanging the first two nodes after the NYT leaf when they weigh the
      same, and handing the run's cell to the new last node if it named the
      old one, keeps the list invariant. */
  lemma FrontFlipRanked(t: Tree, c: CellId)
    requires Ranked(t) && |t.order| >= 3 && WeightAt(t, 1) == WeightAt(t, 2)
    requires c in t.cells && CellAt(t, 2) == Some(c)
    ensures Ranked(FrontFlip(t, c))
    ensures forall i :: WeightAt(FrontFlip(t, c), i) == WeightAt(t, i)
  {
    var r := FrontFlip(t, c);
    assert CellAt(t, 1) == CellAt(t, 2);
    FrontFlipPositions(t, c);
    forall i | 0 <= i < |r.order|
      ensures LeadsAt(r, i)
    {
      assert LeadsAt(t, i);
      var g := t.cells[CellAt(t, i).value];
      assert t.order[t.rank[g]] == g;
    }
  }

  /** The fix-up for the sibling of a reversed front is `FrontFlip`: the
      sibling's predecessor is its parent, so the two change places and
      the parent takes over the cell if it named the sibling. */
  lemma FixUpFlips(t: Tree, x: NodeId)
    requires Inverse(t) && Linked(t) && NytFront(t) && Reversed(t) && x == t.order[2]
    requires CellAt(t, 2).Some? && CellAt(t, 2).value in t.cells
    ensures FixUp(t, x) == Success(FrontFlip(t, CellAt(t, 2).value))
  {
    ReversedFamily(t);
    ReversedNotSelf(t);
    NeighboursAt(t, 2);
    assert t.rank[x] == 2 && t.rank[t.order[1]] == 1;
    assert ListLinks.Swap(t.order, 2, 1) == ListLinks.Swap(t.order, 1, 2);
  }

  /** Turning a reversed front back keeps the NYT leaf's family at the
      front and moves no node's `Pos`. */
  lemma FrontFlipOrdered(t: Tree, c: CellId)
    requires Inverse(t) && Linked(t) && NytFront(t) && ParentsAfter(t) && Reversed(t) && c in t.cells
    ensures var r := FrontFlip(t, c);
      NytFront(r) && ParentsAfter(r) && !Reversed(r)
  {
    ReversedFamily(t);
    ReversedNotSelf(t);
    var r := FrontFlip(t, c);
    assert r.order[0] == t.order[0] && r.order[1] == t.order[2] && r.order[2] == t.order[1];
    FlipKeepsPos(t, r);
    PosKeptParents(t, r);
  }

  /** The fix-up for the sibling of a reversed front: sibling and parent
      weigh the same, so the two change places in the list, the front is
      the normal way round again, and the tree stays in order. */
  lemma FixUpActive(t: Tree, x: NodeId)
    requires Ranked(t) && Shaped(t) && Linked(t) && Summed(t) && NytWeightless(t)
    requires NytFront(t) && ParentsAfter(t) && Positive(t) && Full(t)
    requires Reversed(t) && x == t.order[2]
    ensures FixUp(t, x).Success?
    ensures var r := FixUp(t, x).value;
      && Ranked(r) && NytFront(r) && ParentsAfter(r) && Positive(r) && Full(r)
      && |r.order| == |t.order| && !Reversed(r)
  {
    ReversedFamily(t);
    NytLeafAtFront(t);
    assert SumsAt(t, t.order[1]);
    assert WeightAt(t, 1) == WeightAt(t, 2);
    assert LeadsAt(t, 2);
    var c := CellAt(t, 2).value;
    FixUpFlips(t, x);
    FrontFlipRanked(t, c);
    FrontFlipOrdered(t, c);
    PositiveZeros(t, FrontFlip(t, c), x);
  }

  // ---------------------------------------------------------------------------
  // The whole increment

  /** `increse_weight` on a node ready for it never fails and leaves the
      tree settled. */
  lemma {:induction false} IncrementRanked(t: Tree, x: NodeId, fuel: nat)
    requires Poised(t, x) && fuel > 0 && fuel + Pos(t, x) >= |t.order|
    ensures Increment(t, x, fuel).Success? && Settled(t, Increment(t, x, fuel).value)
    decreases fuel, 1
  {
    RaiseRanked(t, x, fuel - 1);
    var r := Raise(t, x, fuel - 1).value;
    assert Increment(t, x, fuel) == Success(r);
    assert Settled(t, r);
  }

  lemma {:induction false} RaiseRanked(t: Tree, x: NodeId, fuel: nat)
    requires Poised(t, x) && fuel + 1 + Pos(t, x) >= |t.order|
    ensures Raise(t, x, fuel).Success? && Settled(t, Raise(t, x, fuel).value)
    decreases fuel, 3
  {
    ReweighReady(t, x, fuel + 1);
    var t4 := Reweigh(t, x).value;
    ClimbRanked(t4, x, fuel);
  }

  lemma {:induction false} ClimbRanked(t: Tree, x: NodeId, fuel: nat)
    requires ClimbReady(t, x, fuel)
    ensures Climb(t, x, fuel).Success? && ClimbSettled(t, x, Climb(t, x, fuel).value)
    decreases fuel, 2
  {
    if Reversed(t) {
      ReversedFamily(t);
    }
    var parent := t.nodes[x].parent;
    if parent.Some? {
      var p := parent.value;
      ClimbParentReady(t, x, fuel);
      IncrementRanked(t, p, fuel);
      var t5 := Increment(t, p, fuel).value;
      IncrementShape(t, p, fuel, t5);
      IncrementWeights(t, p, fuel, t5);
      assert t.order[t.rank[x]] == x;
      if Reversed(t5) && x == t5.order[2] {
        FixUpActive(t5, x);
      } else {
        assert t5.order[0] == t.order[0];
        FixUpQuiet(t5, x);
      }
    }
  }
}
