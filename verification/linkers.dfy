/** The block cells ("linkers") and their free list. A cell is live while it
    is in `cells`; a freed cell goes on top of the pool and is the next one
    handed out. The allocator never hands out a live cell: pooled cells are
    not live, appear once, and like every live cell lie below `nextCell`,
    which is therefore never live either. */
module Linkers {
  import opened Wrappers
  import opened HuffmanTree

  /** The free list and the allocator never name a live cell. */
  ghost predicate CellsFresh(t: Tree) {
    && (forall c | c in t.cells :: c < t.nextCell)
    && (forall i | 0 <= i < |t.pool| :: t.pool[i] !in t.cells && t.pool[i] < t.nextCell)
    && (forall i, j | 0 <= i < j < |t.pool| :: t.pool[i] != t.pool[j])
  }

  /** The fresh tree has one live cell and an empty pool. */
  lemma NewTreeFresh()
    ensures CellsFresh(NewTree())
  {
    var t := NewTree();
    assert t.cells.Keys == {0} && t.nextCell == 1 && t.pool == [];
  }

  /** `get_linker` hands out a cell that was not live, makes exactly that
      cell live as well, and keeps the free list clean. */
  lemma GetLinkerFresh(t: Tree, value: NodeId)
    requires CellsFresh(t)
    ensures var (u, c) := GetLinker(t, value);
      && c !in t.cells && CellsFresh(u)
      && u.cells.Keys == t.cells.Keys + {c} && u.cells[c] == value
  {
    var (u, c) := GetLinker(t, value);
    if |t.pool| > 0 {
      forall i, j | 0 <= i < j < |u.pool|
        ensures u.pool[i] != u.pool[j]
      {
        assert u.pool[i] == t.pool[i + 1] && u.pool[j] == t.pool[j + 1];
      }
      forall i | 0 <= i < |u.pool|
        ensures u.pool[i] !in u.cells && u.pool[i] < u.nextCell
      {
        assert u.pool[i] == t.pool[i + 1];
        assert t.pool[i + 1] != t.pool[0];
      }
    }
  }

  /** `put_linker` of a live cell: the cell stops being live, goes on top
      of the pool, and the free list stays clean. */
  lemma PutLinkerFresh(t: Tree, c: Option<CellId>)
    requires CellsFresh(t) && PutLinker(t, c).Success?
    ensures var u := PutLinker(t, c).value;
      && CellsFresh(u) && u.cells.Keys == t.cells.Keys - {c.value}
      && u.pool[0] == c.value
  {
    var u := PutLinker(t, c).value;
    forall i | 0 <= i < |u.pool|
      ensures u.pool[i] !in u.cells && u.pool[i] < u.nextCell
    {
      if i > 0 {
        assert u.pool[i] == t.pool[i - 1];
      }
    }
    forall i, j | 0 <= i < j < |u.pool|
      ensures u.pool[i] != u.pool[j]
    {
      if i > 0 {
        assert u.pool[i] == t.pool[i - 1] && u.pool[j] == t.pool[j - 1];
      } else {
        assert u.pool[j] == t.pool[j - 1];
      }
    }
  }

  /** The free list is a stack: a cell put back is the next one handed out,
      and handing it out restores the pool and the allocator as they were,
      with the cell live again holding the new value. */
  lemma PutThenGet(t: Tree, c: CellId, value: NodeId)
    requires PutLinker(t, Some(c)).Success?
    ensures var (u, c') := GetLinker(PutLinker(t, Some(c)).value, value);
      && c' == c && u.pool == t.pool && u.nextCell == t.nextCell
      && u.cells == t.cells[c := value]
  {
    var u := PutLinker(t, Some(c)).value;
    assert u.pool[1..] == t.pool;
  }
}
