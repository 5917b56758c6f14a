/** The encoder never fails: every invariant the tree starts with survives
    each `update`, and on a tree that keeps them `encode` finds a path for
    every node and `update` finds its way through every swap. So every
    input has an encoding, and the decoder reads every input short enough
    for the count back from it. */
module Totality {
  import opened Wrappers
  import opened Symbols
  import opened HuffmanTree
  import opened BitStream
  import opened TreeShape
  import opened TreeWeights
  import opened ListOrder
  import opened Blocks
  import opened NytOrder
  import opened PromoteOrder
  import opened RankedIncrement
  import opened NewSymbolOrder
  import opened HuffmanEncoder
  import opened HuffmanDecoder
  import Codec

  /** Every invariant of the tree between two `update`s. */
  ghost predicate Good(t: Tree) {
    && Shaped(t) && Weighted(t) && Full(t) && Ranked(t)
    && NytFront(t) && ParentsAfter(t) && !Reversed(t) && Positive(t)
  }

  /** The constructor's tree, the NYT leaf alone, keeps them. */
  lemma NewTreeGood()
    ensures Good(NewTree())
  {
    NewTreeShaped();
    NewTreeWeighted();
    NewTreeRanked();
  }

  /** A seen symbol's leaf is ready for its increment. */
  lemma LeafPoised(t: Tree, symbol: int)
    requires Good(t) && IsRealSymbol(symbol) && t.location[symbol].Some?
    ensures Poised(t, t.location[symbol].value)
  {
    var x := t.location[symbol].value;
    SummedPending(t, x);
  }

  /** Steps 1-6 of `increse_weight`, from a leaf ready for them up to the
      root, never fail on a tree with its front in order, and leave the
      invariants in place. */
  lemma IncrementGood(t: Tree, x: NodeId)
    requires Poised(t, x) && Weighted(t) && !Reversed(t)
    ensures Increment(t, x, |t.order|).Success? && Good(Increment(t, x, |t.order|).value)
  {
    IncrementRanked(t, x, |t.order|);
    var r := Increment(t, x, |t.order|).value;
    IncrementShape(t, x, |t.order|, r);
    IncrementWeights(t, x, |t.order|, r);
    assert Good(r);
  }

  /** `update` of a symbol seen before increments its leaf. */
  lemma UpdateSeen(t: Tree, symbol: int)
    requires Good(t) && IsRealSymbol(symbol) && t.location[symbol].Some?
    ensures Update(t, symbol).Success? && Good(Update(t, symbol).value)
  {
    var x := t.location[symbol].value;
    LeafPoised(t, symbol);
    IncrementGood(t, x);
    var r := Increment(t, x, |t.order|).value;
    assert Update(t, symbol) == Success(r);
  }

  /** `update` of a new symbol splits the NYT leaf and increments the
      symbol's fresh leaf. */
  lemma UpdateUnseen(t: Tree, symbol: int)
    requires Good(t) && IsRealSymbol(symbol) && t.location[symbol].None?
    ensures Update(t, symbol).Success? && Good(Update(t, symbol).value)
  {
    NewSymbolPoised(t, symbol);
    var t1 := NewSymbol(t, symbol).value;
    NewSymbolWeights(t, symbol, t1);
    assert t1.location[symbol] == Some(t.nextNode);
    IncrementGood(t1, t.nextNode);
    var r := Increment(t1, t.nextNode, |t1.order|).value;
    assert Update(t, symbol) == Success(r);
  }

  /** `update` of a real symbol never fails on a tree that keeps the
      invariants, and the tree it leaves keeps them too. */
  lemma UpdateGood(t: Tree, symbol: int)
    requires Good(t) && IsRealSymbol(symbol)
    ensures Update(t, symbol).Success? && Good(Update(t, symbol).value)
  {
    if t.location[symbol].None? {
      UpdateUnseen(t, symbol);
    } else {
      UpdateSeen(t, symbol);
    }
  }

  /** `encode(n)` finds the path of every node: each parent link leads
      further along the list, so the walk reaches the root well within the
      list's length. */
  lemma {:induction false} PathCodeSucceeds(t: Tree, n: NodeId, fuel: nat)
    requires Linked(t) && Listed(t) && ParentsAfter(t) && n in t.nodes
    requires fuel + Pos(t, n) >= |t.order|
    ensures PathCode(t, n, fuel).Success?
    decreases fuel
  {
    PosBounded(t, n);
    if t.nodes[n].parent.Some? {
      assert LinkedAt(t, n);
      PathCodeSucceeds(t, t.nodes[n].parent.value, fuel - 1);
    }
  }

  /** `put_symbol` finds bits for every real symbol. */
  lemma SymbolCodeSucceeds(t: Tree, symbol: int)
    requires Good(t) && IsRealSymbol(symbol)
    ensures SymbolCode(t, symbol).Success?
  {
    if t.location[symbol].Some? {
      PathCodeSucceeds(t, t.location[symbol].value, |t.order|);
    } else {
      PathCodeSucceeds(t, t.location[NYT_SYMBOL].value, |t.order|);
    }
  }

  /** `encode_to`'s loop never fails from a tree that keeps the invariants. */
  lemma {:induction false} EncodeAllSucceeds(e: Encoder, input: seq<SChar>)
    requires WriterShape(e.writer) && Good(e.tree)
    ensures EncodeAll(e, input).Success?
    decreases |input|
  {
    if |input| > 0 {
      var symbol := EncodeChar(input[0]);
      SymbolCodeSucceeds(e.tree, symbol);
      UpdateGood(e.tree, symbol);
      var e1 := Put(e, symbol).value;
      PutStep(e, symbol, e1);
      EncodeAllSucceeds(e1, input[1..]);
    }
  }

  /** `encode_to` encodes every input. */
  lemma EncodeToSucceeds(input: seq<SChar>)
    ensures EncodeTo(input).Success?
  {
    NewTreeGood();
    EncodeAllSucceeds(NewEncoder(), input);
  }

  /** Every input with fewer symbols than the count can hold comes back
      from `decode_from` exactly as it went into `encode_to`. */
  lemma RoundTripTotal(input: seq<SChar>)
    requires |input| < COUNTER_MODULUS
    ensures EncodeTo(input).Success? && DecodeFrom(EncodeTo(input).value) == Success(input)
  {
    EncodeToSucceeds(input);
    Codec.RoundTrip(input, EncodeTo(input).value);
  }
}
