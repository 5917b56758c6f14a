/** Which weights `increse_weight` changes: one is added to the node it
    starts from and to every node above that node in the tree it leaves,
    and to nothing else.

    The climb bumps each ancestor once. The swaps on the way move a node
    together with its subtree, and they never move a node that comes before
    the one being bumped in the list, so the nodes bumped already stay below
    the nodes still to come. */
module Ancestry {
  import opened Wrappers
  import opened HuffmanTree
  import opened TreeShape
  import opened TreeWeights
  import opened ListOrder
  import opened Blocks
  import opened NytOrder
  import opened PromoteOrder
  import opened RankedIncrement
  import opened Symbols
  import opened NewSymbolOrder
  import opened Totality

  /** `n` and the nodes above it, at most `fuel` of them. */
  ghost function Lineage(nodes: map<NodeId, Node>, n: NodeId, fuel: nat): set<NodeId>
    decreases fuel
  {
    if fuel == 0 || n !in nodes then {}
    else if nodes[n].parent.None? then {n}
    else {n} + Lineage(nodes, nodes[n].parent.value, fuel - 1)
  }

  /** Every node before `x` in the list keeps its parent in `u`. */
  ghost predicate KeptBefore(t: Tree, x: NodeId, u: Tree)
    requires x in t.rank
  {
    forall n | n in t.rank && Pos(t, n) < Pos(t, x) ::
      n in t.nodes && n in u.nodes && u.nodes[n].parent == t.nodes[n].parent
  }

  /** Every node before `x` in the list keeps its position in `u`. */
  ghost predicate PlacedBefore(t: Tree, x: NodeId, u: Tree)
    requires x in t.rank
  {
    forall n | n in t.rank && Pos(t, n) < Pos(t, x) :: n in u.rank && Pos(u, n) == Pos(t, n)
  }

  /** Along the lineage of `p`, no node comes before `p` in the list. */
  lemma {:induction false} LineageAfter(t: Tree, p: NodeId, fuel: nat)
    requires ParentsAfter(t) && p in t.rank
    ensures forall a | a in Lineage(t.nodes, p, fuel) :: a in t.rank && Pos(t, a) >= Pos(t, p)
    decreases fuel
  {
    if fuel > 0 && p in t.nodes && t.nodes[p].parent.Some? {
      LineageAfter(t, t.nodes[p].parent.value, fuel - 1);
    }
  }

  // ---------------------------------------------------------------------------
  // Step 1 moves nothing before `x`

  /** The leader is the parent: only the list changes, and no node's `Pos`. */
  lemma ToParentKeeps(t: Tree, x: NodeId)
    requires Poised(t, x) && NextHasWeight(t, x, t.nodes[x].weight)
    requires t.nodes[x].cell.Some? && t.nodes[x].cell.value in t.cells
    requires t.nodes[x].parent == Some(t.cells[t.nodes[x].cell.value])
    ensures Promote(t, x).Success?
    ensures KeptBefore(t, x, Promote(t, x).value) && PlacedBefore(t, x, Promote(t, x).value)
  {
    ParentLeaderFront(t, x);
    var h := t.order[2];
    NeighboursAt(t, 1);
    SwapInListExchanges(t, h, x);
    var u := SwapInList(t, h, x).value;
    assert Promote(t, x) == Success(u);
    NormalFamily(t);
    assert u.order[1] == h && u.order[0] == t.order[0];
    FlipKeepsPos(t, u);
  }

  /** The leader is elsewhere: only `x` and the leader, which lies after
      `x`, change parents and positions. */
  lemma ApartKeeps(t: Tree, x: NodeId)
    requires Poised(t, x) && NextHasWeight(t, x, t.nodes[x].weight)
    requires t.nodes[x].cell.Some? && t.nodes[x].cell.value in t.cells
    requires t.nodes[x].parent != Some(t.cells[t.nodes[x].cell.value])
    ensures Promote(t, x).Success?
    ensures KeptBefore(t, x, Promote(t, x).value) && PlacedBefore(t, x, Promote(t, x).value)
  {
    var h := t.cells[t.nodes[x].cell.value];
    assert Apart(t, x, h);
    ApartPlaces(t, x, h);
    ApartSwaps(t, x, h);
    var t1 := SwapInTree(t, h, x).value;
    SwapInTreeFrame(t, h, x);
    var u := SwapInList(t1, h, x).value;
    ApartFront(t, x, h, t1, u);
    ApartPos(t, x, h, u);
    PosBefore(t, x, h);
    assert Promote(t, x) == Success(u);
    PairKeeps(t, x, h, t1, u);
  }

  /** Moving only `x` and a node `h` after it moves nothing before `x`. */
  lemma PairKeeps(t: Tree, x: NodeId, h: NodeId, t1: Tree, u: Tree)
    requires x in t.rank && h in t.rank && Pos(t, x) < Pos(t, h) && t.rank.Keys == t.nodes.Keys
    requires ParentsKept(t, t1, {h, x}) && u.nodes == t1.nodes
    requires forall n | n in t.rank && n != x && n != h :: n in u.rank && Pos(u, n) == Pos(t, n)
    ensures KeptBefore(t, x, u) && PlacedBefore(t, x, u)
  {
  }

  /** Step 1 keeps the parents and positions of the nodes before `x`. */
  lemma PromoteKeeps(t: Tree, x: NodeId)
    requires Poised(t, x)
    ensures Promote(t, x).Success?
    ensures KeptBefore(t, x, Promote(t, x).value) && PlacedBefore(t, x, Promote(t, x).value)
  {
    if !NextHasWeight(t, x, t.nodes[x].weight) {
      PromoteStays(t, x);
    } else {
      LeaderAhead(t, x);
      if t.nodes[x].parent == Some(t.cells[t.nodes[x].cell.value]) {
        ToParentKeeps(t, x);
      } else {
        ApartKeeps(t, x);
      }
    }
  }

  /** Steps 1-4 move `x` no nearer the front and leave the nodes before
      it where they were. */
  lemma ReweighKeeps(t: Tree, x: NodeId)
    requires Poised(t, x)
    ensures Reweigh(t, x).Success?
    ensures var t4 := Reweigh(t, x).value;
      && KeptBefore(t, x, t4) && PlacedBefore(t, x, t4)
      && x in t4.rank && Pos(t4, x) >= Pos(t, x)
  {
    PromoteReady(t, x);
    PromoteKeeps(t, x);
    var u := Promote(t, x).value;
    ReblockSteps(u, x);
    var t4 := Attach(Bump(Detach(u, x).value, x), x).value;
    assert Reweigh(t, x) == Success(t4);
    ReweighShape(t, x);
    ReweighedKeeps(u, t4, x);
    KeptThrough(t, x, u, t4);
  }

  /** A step that changes no node but `x` and no `Pos` keeps what an
      earlier step kept before `x`. */
  lemma KeptThrough(t: Tree, x: NodeId, u: Tree, v: Tree)
    requires x in t.rank && KeptBefore(t, x, u) && PlacedBefore(t, x, u)
    requires forall n | n in u.rank :: n in v.rank && Pos(v, n) == Pos(u, n)
    requires forall n | n in u.nodes && n != x :: n in v.nodes && v.nodes[n] == u.nodes[n]
    ensures KeptBefore(t, x, v) && PlacedBefore(t, x, v)
  {
  }

  /** Steps 1-4 add one to `x` and change no other weight. */
  lemma ReweighAdds(t: Tree, x: NodeId)
    requires Poised(t, x)
    ensures Reweigh(t, x).Success?
    ensures var t4 := Reweigh(t, x).value;
      && t4.nodes.Keys == t.nodes.Keys
      && (forall n | n in t.nodes :: t4.nodes[n].weight == t.nodes[n].weight + (if n == x then 1 else 0))
  {
    PromoteReady(t, x);
    PromoteWeights(t, x);
    var u := Promote(t, x).value;
    ReblockSteps(u, x);
    var t4 := Attach(Bump(Detach(u, x).value, x), x).value;
    assert Reweigh(t, x) == Success(t4);
    AddsThrough(t, u, t4, x);
  }

  /** Weights kept by one step and one added to `x` by the next. */
  lemma AddsThrough(t: Tree, u: Tree, v: Tree, x: NodeId)
    requires u.nodes.Keys == t.nodes.Keys && v.nodes.Keys == u.nodes.Keys && x in u.nodes
    requires forall n | n in t.nodes :: u.nodes[n].weight == t.nodes[n].weight
    requires forall n | n in u.nodes && n != x :: v.nodes[n] == u.nodes[n]
    requires v.nodes[x].weight == u.nodes[x].weight + 1
    ensures forall n | n in t.nodes :: v.nodes[n].weight == t.nodes[n].weight + (if n == x then 1 else 0)
  {
  }

  // ---------------------------------------------------------------------------
  // The whole increment

  /** One level of `increse_weight`: steps 1-4 on `x`, then, below the
      root, the increment of the parent and the fix-up, which moves no
      node's links. */
  lemma IncrementUnfolds(t: Tree, x: NodeId, fuel: nat)
    requires fuel > 0 && Reweigh(t, x).Success? && Increment(t, x, fuel).Success?
    ensures var t4 := Reweigh(t, x).value;
      var r := Increment(t, x, fuel).value;
      && x in t4.nodes
      && (t4.nodes[x].parent.None? ==> r == t4)
      && (t4.nodes[x].parent.Some? ==>
            && Increment(t4, t4.nodes[x].parent.value, fuel - 1).Success?
            && r.nodes == Increment(t4, t4.nodes[x].parent.value, fuel - 1).value.nodes)
  {
    var t4 := Reweigh(t, x).value;
    assert Increment(t, x, fuel) == Raise(t, x, fuel - 1) == Climb(t4, x, fuel - 1);
  }

  /** What `increse_weight(x)` leaves in `r`: one added to `x` and to
      each node above it, and no other weight changed; the nodes counted are
      all of `x`'s ancestors, since every parent of one of them is one of
      them; and no node before `x` in the list has a new parent. */
  ghost predicate Lifted(t: Tree, x: NodeId, fuel: nat, r: Tree)
    requires x in t.rank
  {
    var up := Lineage(r.nodes, x, fuel);
    && r.nodes.Keys == t.nodes.Keys && x in up
    && (forall a | a in up :: a in r.nodes && (r.nodes[a].parent.Some? ==> r.nodes[a].parent.value in up))
    && (forall n | n in t.nodes :: r.nodes[n].weight == t.nodes[n].weight + (if n in up then 1 else 0))
    && KeptBefore(t, x, r)
  }

  /** At the root the increment ends after steps 1-4. */
  lemma RootLifted(t: Tree, x: NodeId, fuel: nat, t4: Tree)
    requires x in t.rank && fuel > 0 && KeptBefore(t, x, t4)
    requires t4.nodes.Keys == t.nodes.Keys && x in t4.nodes && t4.nodes[x].parent.None?
    requires forall n | n in t.nodes :: t4.nodes[n].weight == t.nodes[n].weight + (if n == x then 1 else 0)
    ensures Lifted(t, x, fuel, t4)
  {
    assert Lineage(t4.nodes, x, fuel) == {x};
  }

  /** Below the root, the parent's increment counts the parent and its
      ancestors and keeps `x` under the parent, since `x` comes before it. */
  lemma ParentLifted(t: Tree, x: NodeId, fuel: nat, t4: Tree, p: NodeId, t5: Tree, r: Tree)
    requires x in t.rank && fuel > 1
    requires t4.nodes.Keys == t.nodes.Keys
    requires forall n | n in t.nodes :: t4.nodes[n].weight == t.nodes[n].weight + (if n == x then 1 else 0)
    requires KeptBefore(t, x, t4) && PlacedBefore(t, x, t4) && x in t4.rank && Pos(t4, x) >= Pos(t, x)
    requires x in t4.nodes && t4.nodes[x].parent == Some(p) && p in t4.rank && Pos(t4, x) < Pos(t4, p)
    requires Lifted(t4, p, fuel - 1, t5) && r.nodes == t5.nodes
    requires ParentsAfter(t5) && x in t5.rank
    requires forall a | a in Lineage(t5.nodes, p, fuel - 1) :: a in t5.rank && Pos(t5, a) >= Pos(t5, p)
    ensures Lifted(t, x, fuel, r)
  {
    assert t5.nodes[x].parent == Some(p);
    assert Pos(t5, x) < Pos(t5, p);
    LineageUp(t5.nodes, x, p, fuel);
    KeptAcross(t, x, t4, p, t5, r);
  }

  /** One step up the lineage of a node with a parent. */
  lemma LineageUp(nodes: map<NodeId, Node>, x: NodeId, p: NodeId, fuel: nat)
    requires fuel > 0 && x in nodes && nodes[x].parent == Some(p)
    ensures Lineage(nodes, x, fuel) == {x} + Lineage(nodes, p, fuel - 1)
  {
  }

  /** A node before `x` is before the parent too, so neither step moves it
      or gives it a new parent. */
  lemma KeptAcross(t: Tree, x: NodeId, t4: Tree, p: NodeId, t5: Tree, r: Tree)
    requires x in t.rank && x in t4.rank && p in t4.rank
    requires KeptBefore(t, x, t4) && PlacedBefore(t, x, t4)
    requires Pos(t4, x) >= Pos(t, x) && Pos(t4, x) < Pos(t4, p)
    requires KeptBefore(t4, p, t5) && r.nodes == t5.nodes
    ensures KeptBefore(t, x, r)
  {
    forall n | n in t.rank && Pos(t, n) < Pos(t, x)
      ensures n in t.nodes && n in r.nodes && r.nodes[n].parent == t.nodes[n].parent
    {
      assert Pos(t4, n) == Pos(t, n);
    }
  }

  /** `increse_weight(x)` on a node ready for it adds one to `x` and to
      each of its ancestors in the tree it leaves, and to nothing else. */
  lemma {:induction false} IncrementLineage(t: Tree, x: NodeId, fuel: nat)
    requires Poised(t, x) && fuel > 0 && fuel + Pos(t, x) >= |t.order|
    ensures Increment(t, x, fuel).Success? && Lifted(t, x, fuel, Increment(t, x, fuel).value)
    decreases fuel
  {
    IncrementRanked(t, x, fuel);
    ReweighReady(t, x, fuel);
    ReweighKeeps(t, x);
    ReweighAdds(t, x);
    var t4 := Reweigh(t, x).value;
    var r := Increment(t, x, fuel).value;
    IncrementUnfolds(t, x, fuel);
    if t4.nodes[x].parent.None? {
      RootLifted(t, x, fuel, t4);
    } else {
      var p := t4.nodes[x].parent.value;
      ClimbParentReady(t4, x, fuel - 1);
      IncrementLineage(t4, p, fuel - 1);
      IncrementRanked(t4, p, fuel - 1);
      var t5 := Increment(t4, p, fuel - 1).value;
      LineageAfter(t5, p, fuel - 1);
      ParentLifted(t, x, fuel, t4, p, t5, r);
    }
  }

  /** `update(symbol)` of a symbol seen before, on a tree that keeps the
      invariants, adds one to the symbol's leaf and to every node above it
      in the tree it leaves, and changes no other weight. */
  lemma UpdateSeenAncestors(t: Tree, symbol: int)
    requires Good(t) && IsRealSymbol(symbol) && t.location[symbol].Some?
    ensures var x := t.location[symbol].value;
      && x in t.rank && Update(t, symbol).Success?
      && Lifted(t, x, |t.order|, Update(t, symbol).value)
  {
    var x := t.location[symbol].value;
    LeafPoised(t, symbol);
    PosBounded(t, x);
    IncrementLineage(t, x, |t.order|);
    assert Update(t, symbol) == Increment(t, x, |t.order|);
  }

  /** `update(symbol)` of a new symbol adds one to the leaf `new_symbol`
      made for it and to every node above that leaf in the tree it leaves,
      and changes no other weight of the tree `new_symbol` left. */
  lemma UpdateNewAncestors(t: Tree, symbol: int, t1: Tree)
    requires Good(t) && IsRealSymbol(symbol) && t.location[symbol].None?
    requires NewSymbol(t, symbol) == Success(t1)
    ensures |t1.location| == |t.location| && t1.location[symbol] == Some(t.nextNode) && t.nextNode in t1.rank
    ensures Update(t, symbol).Success? && Lifted(t1, t.nextNode, |t1.order|, Update(t, symbol).value)
  {
    NewSymbolPoised(t, symbol);
    assert t1.location[symbol] == Some(t.nextNode);
    PosBounded(t1, t.nextNode);
    IncrementLineage(t1, t.nextNode, |t1.order|);
    assert Update(t, symbol) == Increment(t1, t.nextNode, |t1.order|);
  }
}
