/** The blocks of the weight-ordered list: runs of nodes of equal weight.
    `check_rank` demands that weights never decrease along the list, that
    every node's cell is live and names a node of the node's own weight, and
    that two neighbours share a cell exactly when they weigh the same.

    `Ranked` is the invariant kept by the tree, which implies all of that:
    the list and ranks agree, the free list is clean, weights never
    decrease, all nodes of one weight share one cell, and that cell names the
    block's leader, the last node of the run (the "highest ranked node in
    block" of the node's declaration). */
module Blocks {
  import opened Wrappers
  import opened HuffmanTree
  import opened TreeShape
  import opened ListOrder
  import opened Linkers

  /** The weight of the node at list position `i`. */
  function WeightAt(t: Tree, i: int): nat {
    if 0 <= i < |t.order| && t.order[i] in t.nodes then t.nodes[t.order[i]].weight else 0
  }

  /** The cell of the node at list position `i`. */
  function CellAt(t: Tree, i: int): Option<CellId> {
    if 0 <= i < |t.order| && t.order[i] in t.nodes then t.nodes[t.order[i]].cell else None
  }

  /** `check_rank()`, assertion for assertion, walking the list from its head. */
  ghost predicate CheckRank(t: Tree) {
    forall i | 0 <= i < |t.order| ::
      && (i + 1 == |t.order| || WeightAt(t, i) <= WeightAt(t, i + 1))
      && CellAt(t, i).Some? && CellAt(t, i).value in t.cells && t.cells[CellAt(t, i).value] in t.nodes
      && t.nodes[t.cells[CellAt(t, i).value]].weight == WeightAt(t, i)
      && (i + 1 < |t.order| ==> (WeightAt(t, i) == WeightAt(t, i + 1) <==> CellAt(t, i) == CellAt(t, i + 1)))
  }

  /** Weights never decrease along the list. */
  ghost predicate Monotone(t: Tree) {
    forall i, j | 0 <= i <= j < |t.order| :: WeightAt(t, i) <= WeightAt(t, j)
  }

  /** Position `j` is the last of the run of equal weights holding `i`. */
  ghost predicate EndsRun(t: Tree, i: int, j: int) {
    && i <= j < |t.order| && WeightAt(t, j) == WeightAt(t, i)
    && (j + 1 == |t.order| || WeightAt(t, j + 1) != WeightAt(t, i))
  }

  /** The cell at position `i` is live and names its run's last node. */
  ghost predicate LeadsAt(t: Tree, i: int) {
    var c := CellAt(t, i);
    && c.Some? && c.value in t.cells && t.cells[c.value] in t.rank
    && EndsRun(t, i, t.rank[t.cells[c.value]])
  }

  /** Nodes of equal weight share their cell. */
  ghost predicate SharedCells(t: Tree) {
    forall i, j | 0 <= i < |t.order| && 0 <= j < |t.order| && WeightAt(t, i) == WeightAt(t, j) ::
      CellAt(t, i) == CellAt(t, j)
  }

  ghost predicate Blocked(t: Tree) {
    && Monotone(t) && SharedCells(t)
    && (forall i | 0 <= i < |t.order| :: LeadsAt(t, i))
  }

  /** The list invariant of the tree. */
  ghost predicate Ranked(t: Tree) {
    Listed(t) && CellsFresh(t) && Blocked(t)
  }

  /** Two positions sharing a live cell lie in one run. */
  lemma SharedCellSameWeight(t: Tree, i: int, j: int)
    requires Listed(t) && LeadsAt(t, i) && LeadsAt(t, j) && CellAt(t, i) == CellAt(t, j)
    ensures WeightAt(t, i) == WeightAt(t, j)
  {
  }

  /** The invariant meets every assertion of `check_rank`. */
  lemma RankedChecks(t: Tree)
    requires Ranked(t)
    ensures CheckRank(t)
  {
    forall i | 0 <= i < |t.order|
      ensures CellAt(t, i).Some? && CellAt(t, i).value in t.cells && t.cells[CellAt(t, i).value] in t.nodes
      ensures t.nodes[t.cells[CellAt(t, i).value]].weight == WeightAt(t, i)
      ensures i + 1 < |t.order| ==> (WeightAt(t, i) == WeightAt(t, i + 1) <==> CellAt(t, i) == CellAt(t, i + 1))
    {
      assert LeadsAt(t, i);
      var h := t.cells[CellAt(t, i).value];
      assert t.order[t.rank[h]] == h;
      if i + 1 < |t.order| && CellAt(t, i) == CellAt(t, i + 1) {
        assert LeadsAt(t, i + 1);
        SharedCellSameWeight(t, i, i + 1);
      }
    }
  }

  /** The fresh tree satisfies the invariant. */
  lemma NewTreeRanked()
    ensures Ranked(NewTree())
  {
    NewTreeListed();
    NewTreeFresh();
    var t := NewTree();
    assert t.order == [t.root] && t.rank[t.root] == 0;
    assert LeadsAt(t, 0);
  }

  // ---------------------------------------------------------------------------
  // What the tree swap leaves alone

  /** `u` has the same nodes as `t` with the same symbols, weights and cells,
      and the same list, cells, pool and location table. */
  ghost predicate DataKept(t: Tree, u: Tree) {
    && u.nodes.Keys == t.nodes.Keys
    && (forall n | n in t.nodes ::
          && u.nodes[n].weight == t.nodes[n].weight && u.nodes[n].cell == t.nodes[n].cell
          && u.nodes[n].symbol == t.nodes[n].symbol)
    && u.order == t.order && u.rank == t.rank && u.cells == t.cells && u.pool == t.pool
    && u.nextCell == t.nextCell && u.location == t.location && u.nextNode == t.nextNode
  }

  lemma DataKeptTrans(t: Tree, u: Tree, v: Tree)
    requires DataKept(t, u) && DataKept(u, v)
    ensures DataKept(t, v)
  {
  }

  lemma ReplaceChildData(t: Tree, q: NodeId, gone: NodeId, repl: NodeId)
    requires ReplaceChild(t, q, gone, repl).Success?
    ensures DataKept(t, ReplaceChild(t, q, gone, repl).value)
  {
    ReplaceChildEffect(t, q, gone, repl);
  }

  lemma SetParentData(t: Tree, n: NodeId, p: Option<NodeId>)
    ensures DataKept(t, SetParent(t, n, p))
  {
  }

  /** `swap_in_tree` moves links only: no weight, cell or symbol changes,
      and the list and the cells are untouched. */
  lemma SwapInTreeData(t: Tree, a: NodeId, b: NodeId)
    requires SwapInTree(t, a, b).Success?
    ensures DataKept(t, SwapInTree(t, a, b).value)
  {
    var an := t.nodes[a];
    var bn := t.nodes[b];
    var t1 := if an.parent.Some? then ReplaceChild(t, an.parent.value, a, b).value else t.(root := b);
    if an.parent.Some? {
      ReplaceChildData(t, an.parent.value, a, b);
    }
    var t2 := if bn.parent.Some? then ReplaceChild(t1, bn.parent.value, b, a).value else t1.(root := a);
    if bn.parent.Some? {
      ReplaceChildData(t1, bn.parent.value, b, a);
    }
    DataKeptTrans(t, t1, t2);
    var t3 := SetParent(t2, a, bn.parent);
    SetParentData(t2, a, bn.parent);
    var u := SetParent(t3, b, an.parent);
    SetParentData(t3, b, an.parent);
    DataKeptTrans(t, t2, t3);
    DataKeptTrans(t, t3, u);
    assert SwapInTree(t, a, b).value == u;
  }

  lemma DataKeptPositions(t: Tree, u: Tree)
    requires DataKept(t, u)
    ensures forall i :: WeightAt(u, i) == WeightAt(t, i) && CellAt(u, i) == CellAt(t, i)
    ensures Listed(t) ==> Listed(u)
    ensures CellsFresh(t) ==> CellsFresh(u)
  {
  }

  // ---------------------------------------------------------------------------
  // Leaving a block and joining the next

  /** The state after step 1 of `increse_weight`: `x` is the last node of its
      run, and the invariant holds except that the cell of `x`'s block, which
      is live, may name another node of `x`'s weight than `x`. */
  ghost predicate Promoted(t: Tree, x: NodeId) {
    && Listed(t) && CellsFresh(t) && Monotone(t) && SharedCells(t)
    && x in t.rank
    && var l := t.rank[x];
      && EndsRun(t, l, l)
      && (forall i | 0 <= i < |t.order| && WeightAt(t, i) != WeightAt(t, l) :: LeadsAt(t, i))
      && CellAt(t, l).Some? && CellAt(t, l).value in t.cells && t.cells[CellAt(t, l).value] in t.rank
      && WeightAt(t, t.rank[t.cells[CellAt(t, l).value]]) == WeightAt(t, l)
  }

  /** A node that already ends its run is promoted. */
  lemma RankedPromoted(t: Tree, x: NodeId)
    requires Ranked(t) && x in t.rank && EndsRun(t, t.rank[x], t.rank[x])
    ensures Promoted(t, x)
  {
    assert LeadsAt(t, t.rank[x]);
  }

  /** How steps 2-4 leave the list: the same order, `x`'s weight one up and
      every other weight kept, every other node's cell kept, and every live
      cell but `x`'s old one still naming what it named. */
  ghost predicate Rebumped(t1: Tree, t4: Tree, x: NodeId)
    requires x in t1.rank
  {
    var l := t1.rank[x];
    && t4.order == t1.order && t4.rank == t1.rank && t4.nodes.Keys == t1.nodes.Keys
    && (forall i | 0 <= i < |t1.order| :: WeightAt(t4, i) == WeightAt(t1, i) + (if i == l then 1 else 0))
    && (forall i | 0 <= i < |t1.order| && i != l :: CellAt(t4, i) == CellAt(t1, i))
    && (forall d | d in t1.cells && Some(d) != CellAt(t1, l) :: d in t4.cells && t4.cells[d] == t1.cells[d])
  }

  /** Every position but `x`'s still leads to its run's last node. */
  lemma OthersLead(t1: Tree, t4: Tree, x: NodeId, i: int)
    requires Promoted(t1, x) && Rebumped(t1, t4, x) && Retargeted(t1, x, t4)
    requires 0 <= i < |t1.order| && i != t1.rank[x]
    ensures LeadsAt(t4, i)
  {
    if WeightAt(t1, i) == WeightAt(t1, t1.rank[x]) {
      BlockmateLeads(t1, t4, x, i);
    } else {
      OutsiderLeads(t1, t4, x, i);
    }
  }

  /** A node left behind in `x`'s old block leads to the node before `x`,
      which `x`'s old cell now names. */
  lemma BlockmateLeads(t1: Tree, t4: Tree, x: NodeId, i: int)
    requires Promoted(t1, x) && Rebumped(t1, t4, x) && Retargeted(t1, x, t4)
    requires 0 <= i < |t1.order| && i != t1.rank[x] && WeightAt(t1, i) == WeightAt(t1, t1.rank[x])
    ensures LeadsAt(t4, i)
  {
    var l := t1.rank[x];
    var k := WeightAt(t1, l);
    assert i < l;
    assert WeightAt(t1, l - 1) == k by {
      assert WeightAt(t1, i) <= WeightAt(t1, l - 1) <= WeightAt(t1, l);
    }
    assert CellAt(t1, i) == CellAt(t1, l);
    assert t1.rank[t1.order[l - 1]] == l - 1;
    assert EndsRun(t4, i, l - 1);
  }

  /** A node of another weight keeps its cell, which keeps naming the same
      leader; that leader still ends the run, because `x`, just past a
      lighter run or just before a heavier one, now weighs neither. */
  lemma OutsiderLeads(t1: Tree, t4: Tree, x: NodeId, i: int)
    requires Promoted(t1, x) && Rebumped(t1, t4, x)
    requires 0 <= i < |t1.order| && WeightAt(t1, i) != WeightAt(t1, t1.rank[x])
    ensures LeadsAt(t4, i)
  {
    var l := t1.rank[x];
    var k := WeightAt(t1, l);
    assert LeadsAt(t1, i);
    var d := CellAt(t1, i).value;
    var h := t1.cells[d];
    var j := t1.rank[h];
    assert EndsRun(t1, i, j);
    assert j != l;
    if j + 1 == l {
      assert WeightAt(t4, j + 1) == k + 1;
      assert WeightAt(t1, i) < k by {
        assert WeightAt(t1, i) <= WeightAt(t1, j) <= WeightAt(t1, l);
      }
    }
    if i > l {
      assert WeightAt(t1, i) >= k + 1 by {
        assert WeightAt(t1, l + 1) <= WeightAt(t1, i);
      }
    }
    assert EndsRun(t4, i, j);
  }

  /** Steps 2-4 of `increse_weight` on a promoted node: leaving the block
      never dereferences a dead cell, and once `x` has gained one and joined
      the next block or started its own, the invariant holds again. */
  lemma ReblockRanked(t1: Tree, x: NodeId, t4: Tree)
    requires Promoted(t1, x) && Rebumped(t1, t4, x) && Listed(t4) && CellsFresh(t4)
    requires Retargeted(t1, x, t4) && Joined(t1, x, t4)
    ensures Ranked(t4)
  {
    ReblockLeads(t1, x, t4);
    ReblockMonotone(t1, x, t4);
    ReblockShared(t1, x, t4);
  }

  /** When a node before `x` shares `x`'s old weight, `x`'s old cell now
      names it. */
  ghost predicate Retargeted(t1: Tree, x: NodeId, t4: Tree)
    requires x in t1.rank
  {
    var l := t1.rank[x];
    l > 0 && WeightAt(t1, l - 1) == WeightAt(t1, l) && CellAt(t1, l).Some? ==>
      CellAt(t1, l).value in t4.cells && t4.cells[CellAt(t1, l).value] == t1.order[l - 1]
  }

  /** `x` shares the cell of a next node of its new weight, or else holds a
      live cell naming itself. */
  ghost predicate Joined(t1: Tree, x: NodeId, t4: Tree)
    requires x in t1.rank
  {
    var l := t1.rank[x];
    && (l + 1 < |t1.order| && WeightAt(t1, l + 1) == WeightAt(t1, l) + 1 ==>
          CellAt(t4, l) == CellAt(t1, l + 1))
    && (!(l + 1 < |t1.order| && WeightAt(t1, l + 1) == WeightAt(t1, l) + 1) ==>
          CellAt(t4, l).Some? && CellAt(t4, l).value in t4.cells && t4.cells[CellAt(t4, l).value] == x)
  }

  lemma ReblockLeads(t1: Tree, x: NodeId, t4: Tree)
    requires Promoted(t1, x) && Rebumped(t1, t4, x) && Listed(t4)
    requires Retargeted(t1, x, t4) && Joined(t1, x, t4)
    ensures forall i | 0 <= i < |t4.order| :: LeadsAt(t4, i)
  {
    var l := t1.rank[x];
    var k := WeightAt(t1, l);
    var n := |t1.order|;
    forall i | 0 <= i < n
      ensures LeadsAt(t4, i)
    {
      if i != l {
        OthersLead(t1, t4, x, i);
      } else if l + 1 < n && WeightAt(t1, l + 1) == k + 1 {
        OthersLead(t1, t4, x, l + 1);
        assert LeadsAt(t4, l + 1);
      } else {
        assert EndsRun(t4, l, l) by {
          if l + 1 < n {
            assert WeightAt(t1, l + 1) > k;
          }
        }
      }
    }
  }

  lemma ReblockMonotone(t1: Tree, x: NodeId, t4: Tree)
    requires Promoted(t1, x) && Rebumped(t1, t4, x)
    ensures Monotone(t4)
  {
    var l := t1.rank[x];
    forall i, j | 0 <= i <= j < |t4.order|
      ensures WeightAt(t4, i) <= WeightAt(t4, j)
    {
      if i == l && j > l {
        assert WeightAt(t1, l + 1) <= WeightAt(t1, j);
      }
    }
  }

  lemma ReblockShared(t1: Tree, x: NodeId, t4: Tree)
    requires Promoted(t1, x) && Rebumped(t1, t4, x) && Joined(t1, x, t4)
    ensures SharedCells(t4)
  {
    var l := t1.rank[x];
    var n := |t1.order|;
    forall i, j | 0 <= i < n && 0 <= j < n && WeightAt(t4, i) == WeightAt(t4, j)
      ensures CellAt(t4, i) == CellAt(t4, j)
    {
      if i == l && j != l {
        ShareNext(t1, t4, x, j);
      } else if j == l && i != l {
        ShareNext(t1, t4, x, i);
      }
    }
  }

  /** A node of `x`'s new weight after `x` shares the cell `x` took. */
  lemma ShareNext(t1: Tree, t4: Tree, x: NodeId, j: int)
    requires Promoted(t1, x) && Rebumped(t1, t4, x) && Joined(t1, x, t4)
    requires 0 <= j < |t1.order| && j != t1.rank[x] && WeightAt(t4, j) == WeightAt(t4, t1.rank[x])
    ensures CellAt(t4, j) == CellAt(t4, t1.rank[x])
  {
    var l := t1.rank[x];
    assert j > l;
    assert WeightAt(t1, l + 1) <= WeightAt(t1, j);
    assert WeightAt(t1, l + 1) > WeightAt(t1, l);
  }

  /** How step 2 leaves the tree: only `x`'s cell field and `x`'s old cell
      change, the free list stays clean, and a run left behind is led by
      the node before `x`. */
  ghost predicate Detached(t1: Tree, x: NodeId, t2: Tree)
    requires x in t1.rank && x in t1.nodes
  {
    var l := t1.rank[x];
    && t2.order == t1.order && t2.rank == t1.rank && t2.nodes.Keys == t1.nodes.Keys
    && (forall n | n in t1.nodes && n != x :: t2.nodes[n] == t1.nodes[n])
    && x in t2.nodes && t2.nodes[x] == t1.nodes[x].(cell := t2.nodes[x].cell)
    && CellsFresh(t2)
    && (forall d | d in t1.cells && Some(d) != CellAt(t1, l) :: d in t2.cells && t2.cells[d] == t1.cells[d])
    && Retargeted(t1, x, t2)
  }

  /** Step 2 on a promoted node: the predecessor takes over a block it
      shares, or the lone node's cell returns to the pool. */
  lemma DetachBlocks(t1: Tree, x: NodeId)
    requires Promoted(t1, x) && x in t1.nodes
    ensures Detach(t1, x).Success? && Detached(t1, x, Detach(t1, x).value)
  {
    var l := t1.rank[x];
    var k := WeightAt(t1, l);
    var c := CellAt(t1, l).value;
    assert t1.order[l] == x;
    NeighboursAt(t1, l);
    if l > 0 && WeightAt(t1, l - 1) == k {
      assert PrevHasWeight(t1, x, t1.nodes[x].weight);
    } else {
      assert !PrevHasWeight(t1, x, t1.nodes[x].weight);
      PutLinkerFresh(t1, Some(c));
    }
  }

  /** Step 3 after step 2: `x` alone gains one. */
  ghost predicate Bumped(t1: Tree, x: NodeId, t3: Tree)
    requires x in t1.rank && x in t1.nodes
  {
    var l := t1.rank[x];
    && t3.order == t1.order && t3.rank == t1.rank && t3.nodes.Keys == t1.nodes.Keys
    && (forall n | n in t1.nodes && n != x :: t3.nodes[n] == t1.nodes[n])
    && x in t3.nodes
    && t3.nodes[x] == t1.nodes[x].(weight := t1.nodes[x].weight + 1, cell := t3.nodes[x].cell)
    && CellsFresh(t3)
    && (forall d | d in t1.cells && Some(d) != CellAt(t1, l) :: d in t3.cells && t3.cells[d] == t1.cells[d])
    && Retargeted(t1, x, t3)
  }

  lemma BumpBlocks(t1: Tree, x: NodeId, t2: Tree)
    requires Promoted(t1, x) && x in t1.nodes && Detached(t1, x, t2)
    ensures Bumped(t1, x, Bump(t2, x))
  {
  }

  /** What step 4 does to the nodes, whichever way it goes: `x` alone takes
      a new cell and every other position keeps its weight and cell. */
  ghost predicate Reattached(t1: Tree, x: NodeId, t4: Tree)
    requires x in t1.rank && x in t1.nodes
  {
    var l := t1.rank[x];
    && t4.order == t1.order && t4.rank == t1.rank && t4.nodes.Keys == t1.nodes.Keys
    && (forall n | n in t1.nodes && n != x :: t4.nodes[n] == t1.nodes[n])
    && x in t4.nodes
    && t4.nodes[x] == t1.nodes[x].(weight := t1.nodes[x].weight + 1, cell := t4.nodes[x].cell)
    && (forall i | 0 <= i < |t1.order| :: WeightAt(t4, i) == WeightAt(t1, i) + (if i == l then 1 else 0))
    && (forall i | 0 <= i < |t1.order| && i != l :: CellAt(t4, i) == CellAt(t1, i))
  }

  /** Step 4 never fails and touches only `x`'s record among the nodes. */
  lemma AttachNodes(t1: Tree, x: NodeId, t3: Tree)
    requires Inverse(t1) && x in t1.rank && x in t1.nodes && Bumped(t1, x, t3)
    ensures Attach(t3, x).Success? && Reattached(t1, x, Attach(t3, x).value)
  {
    var l := t1.rank[x];
    assert t1.order[l] == x;
    var t4 := Attach(t3, x).value;
    assert t4.order == t1.order && t4.nodes.Keys == t1.nodes.Keys;
    assert forall n | n in t1.nodes && n != x :: t4.nodes[n] == t1.nodes[n];
    ElsewhereKept(t1, t4, x);
  }

  /** A tree that differs from `t1` only in `x`'s record keeps the weight
      and cell of every other position. */
  lemma ElsewhereKept(t1: Tree, t4: Tree, x: NodeId)
    requires Inverse(t1) && x in t1.rank
    requires t4.order == t1.order && t4.nodes.Keys == t1.nodes.Keys
    requires forall n | n in t1.nodes && n != x :: t4.nodes[n] == t1.nodes[n]
    ensures forall i | 0 <= i < |t1.order| && i != t1.rank[x] ::
      CellAt(t4, i) == CellAt(t1, i) && WeightAt(t4, i) == WeightAt(t1, i)
  {
    forall i | 0 <= i < |t1.order| && i != t1.rank[x]
      ensures CellAt(t4, i) == CellAt(t1, i) && WeightAt(t4, i) == WeightAt(t1, i)
    {
      assert t1.rank[t1.order[i]] == i;
    }
  }

  /** What step 4 does to the cells: the cells other than `x`'s old one
      keep their targets, the free list stays clean, and `x` joins or starts
      a block. */
  ghost predicate Relinked(t1: Tree, x: NodeId, t4: Tree)
    requires x in t1.rank && x in t1.nodes
  {
    var l := t1.rank[x];
    && (forall d | d in t1.cells && Some(d) != CellAt(t1, l) :: d in t4.cells && t4.cells[d] == t1.cells[d])
    && Retargeted(t1, x, t4) && Joined(t1, x, t4) && CellsFresh(t4)
  }

  /** Step 4 when the next node now weighs as much as `x`: `x` joins its
      block and no cell changes. */
  lemma AttachJoins(t1: Tree, x: NodeId, t3: Tree)
    requires Inverse(t1) && x in t1.rank && x in t1.nodes && Bumped(t1, x, t3)
    requires var l := t1.rank[x];
      l + 1 < |t1.order| && WeightAt(t1, l + 1) == WeightAt(t1, l) + 1
    ensures Attach(t3, x).Success? && Relinked(t1, x, Attach(t3, x).value)
  {
    var l := t1.rank[x];
    assert t1.order[l] == x;
    NeighboursAt(t3, l);
    assert NextHasWeight(t3, x, t3.nodes[x].weight);
    var t4 := Attach(t3, x).value;
    assert t4.cells == t3.cells && t4.pool == t3.pool && t4.nextCell == t3.nextCell;
    assert t1.order[l + 1] != x;
  }

  /** Step 4 otherwise: `x` starts a block of its own with a cell that was
      not live. */
  lemma AttachStarts(t1: Tree, x: NodeId, t3: Tree)
    requires Inverse(t1) && x in t1.rank && x in t1.nodes && Bumped(t1, x, t3)
    requires var l := t1.rank[x];
      !(l + 1 < |t1.order| && WeightAt(t1, l + 1) == WeightAt(t1, l) + 1)
    ensures Attach(t3, x).Success? && Relinked(t1, x, Attach(t3, x).value)
  {
    var l := t1.rank[x];
    assert t1.order[l] == x;
    NeighboursAt(t3, l);
    assert !NextHasWeight(t3, x, t3.nodes[x].weight);
    GetLinkerFresh(t3, x);
  }

  /** Steps 2-4 of `increse_weight` on a promoted node never fail, add one
      to `x`'s weight alone, and restore the invariant. */
  lemma ReblockSteps(t1: Tree, x: NodeId)
    requires Promoted(t1, x) && x in t1.nodes
    ensures Detach(t1, x).Success?
    ensures Attach(Bump(Detach(t1, x).value, x), x).Success?
    ensures var t4 := Attach(Bump(Detach(t1, x).value, x), x).value;
      && Ranked(t4) && Rebumped(t1, t4, x)
      && (forall n | n in t1.nodes && n != x :: t4.nodes[n] == t1.nodes[n])
      && t4.nodes[x] == t1.nodes[x].(weight := t1.nodes[x].weight + 1, cell := t4.nodes[x].cell)
  {
    DetachBlocks(t1, x);
    var t2 := Detach(t1, x).value;
    BumpBlocks(t1, x, t2);
    var t3 := Bump(t2, x);
    var l := t1.rank[x];
    AttachNodes(t1, x, t3);
    if l + 1 < |t1.order| && WeightAt(t1, l + 1) == WeightAt(t1, l) + 1 {
      AttachJoins(t1, x, t3);
    } else {
      AttachStarts(t1, x, t3);
    }
    ReblockRanked(t1, x, Attach(t3, x).value);
  }
}
