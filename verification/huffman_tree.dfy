/** The adaptive Huffman code tree: one arena of nodes threaded through a
    binary tree (`parent`/`left`/`right`), a list ordered by non-decreasing
    weight, and shared block-head cells ("linkers") that name the leader of
    each run of equal-weight nodes.

    Pointers become indices into `nodes` and `cells`. The doubly linked list is
    kept as the sequence `order` it encodes (from `list_head` towards the tail)
    together with each node's position `rank`. `ListOrder` keeps `rank` the
    inverse of `order`, and while it is, `ListOrder.AgreesWithLinks` shows
    that the source's `next`/`prev` surgery (`ListLinks`) realises exactly
    the exchanges made here.
    Every dereference the source makes is checked: a null or dangling pointer,
    a failed `assert` or an exhausted walk yields a `Failure`. */
module HuffmanTree {
  import opened Wrappers
  import opened Symbols
  import ListLinks

  type NodeId = nat
  type CellId = nat

  /** One node of the arena. `cell` is the node's `block_head`. */
  datatype Node = Node(
    symbol: int,
    weight: nat,
    parent: Option<NodeId>,
    left: Option<NodeId>,
    right: Option<NodeId>,
    cell: Option<CellId>)

  /** The whole tree state. `cells` holds the live linkers and their targets;
      `pool` is the free-linker stack, most recently freed first. */
  datatype Tree = Tree(
    nodes: map<NodeId, Node>,
    order: seq<NodeId>,
    rank: map<NodeId, nat>,
    cells: map<CellId, NodeId>,
    pool: seq<CellId>,
    root: NodeId,
    location: seq<Option<NodeId>>,
    nextNode: NodeId,
    nextCell: CellId)

  // ---------------------------------------------------------------------------
  // Field access

  /** Dereference a node pointer. */
  function Get(t: Tree, n: NodeId): (r: Result<Node>)
    ensures r.Success? <==> n in t.nodes
    ensures r.Success? ==> r.value == t.nodes[n]
  {
    if n in t.nodes then Success(t.nodes[n]) else Failure(NullDereference)
  }

  /** Dereference a possibly null node pointer. */
  function GetOpt(t: Tree, n: Option<NodeId>): (r: Result<Node>)
    ensures r.Success? <==> n.Some? && n.value in t.nodes
    ensures r.Success? ==> r.value == t.nodes[n.value]
  {
    if n.Some? then Get(t, n.value) else Failure(NullDereference)
  }

  /** `*linker` for a possibly null linker pointer. */
  function Deref(t: Tree, c: Option<CellId>): (r: Result<NodeId>)
    ensures r.Success? <==> c.Some? && c.value in t.cells
    ensures r.Success? ==> r.value == t.cells[c.value]
  {
    if c.Some? && c.value in t.cells then Success(t.cells[c.value]) else Failure(NullDereference)
  }

  /** Replace node `n`'s record (a no-op on a missing node). */
  function SetNode(t: Tree, n: NodeId, node: Node): Tree {
    if n in t.nodes then t.(nodes := t.nodes[n := node]) else t
  }

  function SetParent(t: Tree, n: NodeId, p: Option<NodeId>): Tree {
    if n in t.nodes then SetNode(t, n, t.nodes[n].(parent := p)) else t
  }

  function SetCell(t: Tree, n: NodeId, c: Option<CellId>): Tree {
    if n in t.nodes then SetNode(t, n, t.nodes[n].(cell := c)) else t
  }

  function Weight(t: Tree, n: NodeId): nat {
    if n in t.nodes then t.nodes[n].weight else 0
  }

  /** `node->next`: the node after `n` in the weight-ordered list. */
  function Next(t: Tree, n: NodeId): Option<NodeId> {
    if n in t.rank && t.rank[n] + 1 < |t.order| then Some(t.order[t.rank[n] + 1]) else None
  }

  /** `node->prev`: the node before `n` in the weight-ordered list. */
  function Prev(t: Tree, n: NodeId): Option<NodeId> {
    if n in t.rank && 0 < t.rank[n] <= |t.order| then Some(t.order[t.rank[n] - 1]) else None
  }

  /** `node->next != nullptr && node->next->weight == w`. */
  predicate NextHasWeight(t: Tree, n: NodeId, w: nat) {
    var nx := Next(t, n);
    nx.Some? && nx.value in t.nodes && t.nodes[nx.value].weight == w
  }

  /** `node->prev != nullptr && node->prev->weight == w`. */
  predicate PrevHasWeight(t: Tree, n: NodeId, w: nat) {
    var pv := Prev(t, n);
    pv.Some? && pv.value in t.nodes && t.nodes[pv.value].weight == w
  }

  // ---------------------------------------------------------------------------
  // Allocation

  /** `get_node`: a fresh, unlinked node of weight 0. */
  function GetNode(t: Tree, symbol: int): (r: (Tree, NodeId))
    ensures r.1 == t.nextNode && r.0.nextNode == t.nextNode + 1
    ensures r.0.nodes == t.nodes[r.1 := Node(symbol, 0, None, None, None, None)]
    ensures r.0 == t.(nodes := r.0.nodes, nextNode := r.0.nextNode)
  {
    (t.(nodes := t.nodes[t.nextNode := Node(symbol, 0, None, None, None, None)],
        nextNode := t.nextNode + 1),
     t.nextNode)
  }

  /** `get_linker(value)`: reuse the most recently freed cell, or allocate one. */
  function GetLinker(t: Tree, value: NodeId): (r: (Tree, CellId))
    ensures r.0.cells == t.cells[r.1 := value]
    ensures |t.pool| > 0 ==> r.1 == t.pool[0] && r.0.pool == t.pool[1..] && r.0.nextCell == t.nextCell
    ensures |t.pool| == 0 ==> r.1 == t.nextCell && r.0.pool == t.pool && r.0.nextCell == t.nextCell + 1
    ensures r.0 == t.(cells := r.0.cells, pool := r.0.pool, nextCell := r.0.nextCell)
  {
    if |t.pool| > 0 then
      (t.(cells := t.cells[t.pool[0] := value], pool := t.pool[1..]), t.pool[0])
    else
      (t.(cells := t.cells[t.nextCell := value], nextCell := t.nextCell + 1), t.nextCell)
  }

  /** `put_linker(linker)`: the cell stops being live and goes on top of the pool. */
  function PutLinker(t: Tree, c: Option<CellId>): (r: Result<Tree>)
    ensures r.Success? <==> c.Some? && c.value in t.cells
    ensures r.Success? ==> r.value.cells == t.cells - {c.value} && r.value.pool == [c.value] + t.pool
    ensures r.Success? ==> r.value == t.(cells := r.value.cells, pool := r.value.pool)
  {
    if c.Some? && c.value in t.cells then
      Success(t.(cells := t.cells - {c.value}, pool := [c.value] + t.pool))
    else
      Failure(NullDereference)
  }

  // ---------------------------------------------------------------------------
  // Construction and lookup

  /** The location table of a fresh tree: only NYT has a node. */
  function InitialLocation(nyt: NodeId): (loc: seq<Option<NodeId>>)
    ensures |loc| == SYMBOL_NUM + 1
    ensures loc[NYT_SYMBOL] == Some(nyt)
    ensures forall s :: 0 <= s < SYMBOL_NUM ==> loc[s] == None
  {
    seq(SYMBOL_NUM + 1, s => if s == NYT_SYMBOL then Some(nyt) else None)
  }

  /** The constructor: a single NYT leaf of weight 0 that is the root, the list
      head and `location[NYT]`, with a block cell pointing at itself. */
  function NewTree(): (t: Tree)
    ensures t.order == [t.root] && t.root in t.nodes && t.nodes.Keys == {t.root}
    ensures t.nodes[t.root] == Node(NYT_SYMBOL, 0, None, None, None, t.nodes[t.root].cell)
    ensures |t.location| == SYMBOL_NUM + 1 && t.location[NYT_SYMBOL] == Some(t.root)
    ensures forall s :: 0 <= s < SYMBOL_NUM ==> t.location[s] == None
    ensures t.nodes[t.root].cell.Some? && t.nodes[t.root].cell.value in t.cells
    ensures t.cells[t.nodes[t.root].cell.value] == t.root
  {
    var (t0, n) := GetNode(Tree(map[], [], map[], map[], [], 0, InitialLocation(0), 0, 0), NYT_SYMBOL);
    var t1 := t0.(root := n, order := [n], rank := map[n := 0], location := InitialLocation(n));
    var (t2, c) := GetLinker(t1, n);
    SetCell(t2, n, Some(c))
  }

  /** `operator[]` / `node(symbol)`: the leaf of `symbol`, or null if it has not
      been seen. The table has one slot per real symbol plus one for NYT. */
  function Lookup(t: Tree, symbol: int): Option<NodeId>
    requires 0 <= symbol < |t.location|
  {
    t.location[symbol]
  }

  // ---------------------------------------------------------------------------
  // Cursor navigation

  predicate IsRoot(t: Tree, n: NodeId)
    requires n in t.nodes
  {
    t.nodes[n].parent == None
  }

  predicate IsLeftChild(t: Tree, n: NodeId)
    requires n in t.nodes && t.nodes[n].parent.Some? && t.nodes[n].parent.value in t.nodes
  {
    t.nodes[t.nodes[n].parent.value].left == Some(n)
  }

  predicate IsRightChild(t: Tree, n: NodeId)
    requires n in t.nodes && t.nodes[n].parent.Some? && t.nodes[n].parent.value in t.nodes
  {
    t.nodes[t.nodes[n].parent.value].right == Some(n)
  }

  function Up(t: Tree, n: Option<NodeId>): Option<NodeId> {
    if n.Some? && n.value in t.nodes then t.nodes[n.value].parent else None
  }

  function DownLeft(t: Tree, n: Option<NodeId>): Option<NodeId> {
    if n.Some? && n.value in t.nodes then t.nodes[n.value].left else None
  }

  function DownRight(t: Tree, n: Option<NodeId>): Option<NodeId> {
    if n.Some? && n.value in t.nodes then t.nodes[n.value].right else None
  }

  /** Every child link is answered by the child's parent link. */
  ghost predicate ChildLinksAnswered(t: Tree) {
    forall n | n in t.nodes ::
      && (t.nodes[n].left.Some? ==>
            (t.nodes[n].left.value in t.nodes && t.nodes[t.nodes[n].left.value].parent == Some(n)))
      && (t.nodes[n].right.Some? ==>
            (t.nodes[n].right.value in t.nodes && t.nodes[t.nodes[n].right.value].parent == Some(n)))
  }

  /** In a tree whose child links are answered, going down and back up
      returns to the start, and the child knows which side it is on. */
  lemma UpAfterDown(t: Tree, n: NodeId)
    requires ChildLinksAnswered(t) && n in t.nodes
    ensures DownLeft(t, Some(n)).Some? ==> Up(t, DownLeft(t, Some(n))) == Some(n)
    ensures DownRight(t, Some(n)).Some? ==> Up(t, DownRight(t, Some(n))) == Some(n)
    ensures DownLeft(t, Some(n)).Some? ==> IsLeftChild(t, DownLeft(t, Some(n)).value)
    ensures DownRight(t, Some(n)).Some? ==> IsRightChild(t, DownRight(t, Some(n)).value)
  {
  }

  // ---------------------------------------------------------------------------
  // List and tree surgery

  /** `push_head(node)`: `node` goes in front of the list and shares the old
      head's block cell. */
  function PushHead(t: Tree, n: NodeId): (r: Result<Tree>)
    ensures r.Success? <==> |t.order| > 0 && t.order[0] in t.nodes && n in t.nodes
    ensures r.Success? ==> r.value.order == [n] + t.order
    ensures r.Success? ==> r.value.nodes == t.nodes[n := t.nodes[n].(cell := t.nodes[t.order[0]].cell)]
    ensures r.Success? ==> n in r.value.rank && r.value.rank[n] == 0
    ensures r.Success? ==> forall m | m in t.rank && m != n :: m in r.value.rank && r.value.rank[m] == t.rank[m] + 1
  {
    if |t.order| > 0 && t.order[0] in t.nodes && n in t.nodes then
      var head := t.order[0];
      var shifted := map m | m in t.rank :: t.rank[m] + 1;
      Success(SetCell(t, n, t.nodes[head].cell).(order := [n] + t.order, rank := shifted[n := 0]))
    else
      Failure(NullDereference)
  }

  /** In `q`'s child slots, the slot holding `gone` now holds `repl`. */
  function ReplaceChild(t: Tree, q: NodeId, gone: NodeId, repl: NodeId): (r: Result<Tree>)
    ensures r.Success? <==> q in t.nodes && (t.nodes[q].left == Some(gone) || t.nodes[q].right == Some(gone))
  {
    var qn :- Get(t, q);
    if qn.left == Some(gone) then Success(SetNode(t, q, qn.(left := Some(repl))))
    else if qn.right == Some(gone) then Success(SetNode(t, q, qn.(right := Some(repl))))
    else Failure(AssertionFailed)
  }

  /** `swap_in_tree(a, b)`, statement for statement. */
  function SwapInTree(t: Tree, a: NodeId, b: NodeId): Result<Tree> {
    var an :- Get(t, a);
    var bn :- Get(t, b);
    if an.symbol == NYT_SYMBOL || bn.symbol == NYT_SYMBOL then Failure(AssertionFailed)
    else
      var t1 :- if an.parent.Some? then ReplaceChild(t, an.parent.value, a, b) else Success(t.(root := b));
      var t2 :- if bn.parent.Some? then ReplaceChild(t1, bn.parent.value, b, a) else Success(t1.(root := a));
      Success(SetParent(SetParent(t2, a, bn.parent), b, an.parent))
  }

  /** `swap_in_list(a, b)`: the two nodes exchange their list positions. */
  function SwapInList(t: Tree, a: NodeId, b: NodeId): (r: Result<Tree>)
    ensures r.Success? <==> a in t.rank && b in t.rank && t.rank[a] < |t.order| && t.rank[b] < |t.order|
    ensures r.Success? ==> r.value.order == ListLinks.Swap(t.order, t.rank[a], t.rank[b])
    ensures r.Success? ==> r.value.rank == t.rank[a := t.rank[b]][b := t.rank[a]]
    ensures r.Success? ==> r.value == t.(order := r.value.order, rank := r.value.rank)
  {
    if a in t.rank && b in t.rank && t.rank[a] < |t.order| && t.rank[b] < |t.order| then
      var i, j := t.rank[a], t.rank[b];
      Success(t.(order := ListLinks.Swap(t.order, i, j), rank := t.rank[a := j][b := i]))
    else
      Failure(NullDereference)
  }

  // ---------------------------------------------------------------------------
  // New symbols

  predicate HasChild(node: Node) {
    node.left.Some? || node.right.Some?
  }

  /** `new_symbol(symbol)`: the NYT leaf becomes an internal node whose left
      child is a fresh NYT leaf and whose right child is a fresh leaf for
      `symbol`; both new leaves are pushed onto the front of the list. */
  function NewSymbol(t: Tree, symbol: int): Result<Tree>
    requires 0 <= symbol < |t.location| && NYT_SYMBOL < |t.location|
  {
    if |t.order| == 0 then Failure(NullDereference)
    else
      var head :- Get(t, t.order[0]);
      if head.symbol != NYT_SYMBOL then Failure(AssertionFailed)
      else
        var pushed :- PushLeaves(t, symbol);
        Split(pushed.0, pushed.1, pushed.2, symbol)
  }

  /** The first half of `new_symbol`: a fresh leaf for `symbol`, then a
      fresh NYT leaf, each pushed onto the front of the list. Yields the tree,
      the new NYT leaf and the symbol's leaf. */
  function PushLeaves(t: Tree, symbol: int): (r: Result<(Tree, NodeId, NodeId)>)
    ensures |t.order| > 0 && t.order[0] in t.nodes ==> r.Success?
    ensures r.Success? ==>
      && r.value.2 == t.nextNode && r.value.1 == t.nextNode + 1 && r.value.0.nextNode == t.nextNode + 2
      && r.value.0.order == [r.value.1, r.value.2] + t.order
      && r.value.0.root == t.root && r.value.0.location == t.location
    ensures |t.order| > 0 && t.order[0] in t.nodes && t.order[0] < t.nextNode ==>
      var c := t.nodes[t.order[0]].cell;
      r.value.0.nodes == t.nodes[t.nextNode := Node(symbol, 0, None, None, None, c)]
                                [t.nextNode + 1 := Node(NYT_SYMBOL, 0, None, None, None, c)]
  {
    var (t1, sym) := GetNode(t, symbol);
    var t2 :- PushHead(t1, sym);
    var (t3, nyt) := GetNode(t2, NYT_SYMBOL);
    Success((PushHead(t3, nyt).value, nyt, sym))
  }

  /** The second half of `new_symbol`: the old NYT leaf becomes the internal
      parent of the two new leaves, and the location table is updated. */
  function Split(t: Tree, nyt: NodeId, sym: NodeId, symbol: int): (r: Result<Tree>)
    requires 0 <= symbol < |t.location| && NYT_SYMBOL < |t.location|
    ensures r.Success? <==>
      t.location[NYT_SYMBOL].Some? && t.location[NYT_SYMBOL].value in t.nodes
      && !HasChild(t.nodes[t.location[NYT_SYMBOL].value])
  {
    var former :- GetOpt(t, t.location[NYT_SYMBOL]);
    if HasChild(former) then Failure(AssertionFailed)
    else
      var o := t.location[NYT_SYMBOL].value;
      var t1 := SetNode(t, o, former.(symbol := INTERNAL_SYMBOL, left := Some(nyt), right := Some(sym)));
      var t2 := SetParent(SetParent(t1, nyt, Some(o)), sym, Some(o));
      Success(t2.(location := t2.location[symbol := Some(sym)][NYT_SYMBOL := Some(nyt)]))
  }

  // ---------------------------------------------------------------------------
  // Weight increment

  /** Step 1 of `increse_weight`: when the next node has the same weight, move
      the node into its block leader's slot (tree swap unless the leader is
      the node's own parent, then list swap). */
  function Promote(t: Tree, x: NodeId): Result<Tree> {
    var node :- Get(t, x);
    if !NextHasWeight(t, x, node.weight) then Success(t)
    else
      var head :- Deref(t, node.cell);
      var hn :- Get(t, head);
      if head == x || hn.parent == Some(x) || hn.weight != node.weight then Failure(AssertionFailed)
      else
        var t1 :-
          if Some(head) != node.parent then SwapInTree(t, head, x)
          else if Next(t, x) == Some(head) then Success(t)
          else Failure(AssertionFailed);
        SwapInList(t1, head, x)
  }

  /** Step 2: leave the current block. A predecessor of equal weight becomes
      the block's leader; otherwise the block had one member and its cell is
      recycled. */
  function Detach(t: Tree, x: NodeId): Result<Tree> {
    var node :- Get(t, x);
    if PrevHasWeight(t, x, node.weight) then
      var _ :- Deref(t, node.cell);
      Success(t.(cells := t.cells[node.cell.value := Prev(t, x).value]))
    else
      var t1 :- PutLinker(t, node.cell);
      Success(SetCell(t1, x, None))
  }

  /** Step 3: `++node->weight`. */
  function Bump(t: Tree, x: NodeId): Tree {
    if x in t.nodes then SetNode(t, x, t.nodes[x].(weight := t.nodes[x].weight + 1)) else t
  }

  /** Step 4: join the block of an equal-weight successor, or start a new one. */
  function Attach(t: Tree, x: NodeId): Result<Tree> {
    var node :- Get(t, x);
    if NextHasWeight(t, x, node.weight) then
      Success(SetCell(t, x, t.nodes[Next(t, x).value].cell))
    else
      var (t1, c) := GetLinker(t, x);
      Success(SetCell(t1, x, Some(c)))
  }

  /** Step 6, after the parent has been incremented: a parent that now sits
      right before its child in the list changes places with it, and takes
      over the block's leadership from the child. */
  function FixUp(t: Tree, x: NodeId): Result<Tree> {
    var node :- Get(t, x);
    if Prev(t, x) != node.parent then Success(t)
    else if node.parent.None? then Failure(NullDereference)
    else
      var p := node.parent.value;
      var t1 :- SwapInList(t, x, p);
      var leader :- Deref(t1, node.cell);
      if leader == x then Success(t1.(cells := t1.cells[node.cell.value := p])) else Success(t1)
  }

  /** Steps 1-4 of `increse_weight` on `x` alone. */
  function Reweigh(t: Tree, x: NodeId): Result<Tree> {
    var t1 :- Promote(t, x);
    var t2 :- Detach(t1, x);
    var t3 := Bump(t2, x);
    Attach(t3, x)
  }

  /** `increse_weight(node)`. `fuel` bounds the recursion. */
  function Increment(t: Tree, x: NodeId, fuel: nat): Result<Tree>
    decreases fuel, 1
  {
    if fuel == 0 then Failure(OutOfFuel) else Raise(t, x, fuel - 1)
  }

  /** One level of `increse_weight`: steps 1-4 on `x`, then the climb to the
      parent. */
  function Raise(t: Tree, x: NodeId, fuel: nat): Result<Tree>
    decreases fuel, 3
  {
    var t4 :- Reweigh(t, x);
    Climb(t4, x, fuel)
  }

  /** The rest of `increse_weight` after step 4: below the root, increment
      the (possibly new) parent, then do the fix-up of step 6. */
  function Climb(t: Tree, x: NodeId, fuel: nat): Result<Tree>
    decreases fuel, 2
  {
    var node :- Get(t, x);
    if node.parent.None? then Success(t)
    else
      var t5 :- Increment(t, node.parent.value, fuel);
      FixUp(t5, x)
  }

  /** `update(symbol)` / `operator<<`: add the symbol if it is new, then
      increment its leaf. */
  function Update(t: Tree, symbol: int): (r: Result<Tree>)
    ensures r.Success? ==> 0 <= symbol < |t.location|
  {
    if !(0 <= symbol < |t.location|) || !(NYT_SYMBOL < |t.location|) then Failure(NullDereference)
    else
      var t1 :- if t.location[symbol].None? then NewSymbol(t, symbol) else Success(t);
      if t1.location[symbol].None? then Failure(NullDereference)
      else Increment(t1, t1.location[symbol].value, |t1.order|)
  }
}
