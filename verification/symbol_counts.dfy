/** What the adaptive tree counts: after the encoder has put a sequence of
    characters, each symbol's leaf weighs as many as the times its character
    occurs, and exactly the symbols that occurred (plus those already there)
    have a leaf. The decoder makes the same updates on the same symbols, so
    the same holds for its tree. */
module SymbolCounts {
  import opened Wrappers
  import opened Symbols
  import opened HuffmanTree
  import opened BitStream
  import opened TreeShape
  import opened TreeWeights
  import opened HuffmanEncoder

  /** How many characters of `input` map to symbol `s`. */
  function Occurrences(input: seq<SChar>, s: int): (n: nat)
    ensures n <= |input|
    decreases |input|
  {
    if |input| == 0 then 0
    else (if EncodeChar(input[0]) == s then 1 else 0) + Occurrences(input[1..], s)
  }

  /** A symbol is counted exactly when one of the characters maps to it. */
  lemma {:induction false} OccursIff(input: seq<SChar>, s: int)
    ensures Occurrences(input, s) > 0 <==> exists i | 0 <= i < |input| :: EncodeChar(input[i]) == s
    decreases |input|
  {
    if |input| > 0 {
      OccursIff(input[1..], s);
      if Occurrences(input[1..], s) > 0 {
        var i :| 0 <= i < |input[1..]| && EncodeChar(input[1..][i]) == s;
        assert EncodeChar(input[i + 1]) == s;
      }
      if EncodeChar(input[0]) != s && exists i | 0 <= i < |input| :: EncodeChar(input[i]) == s {
        var i :| 0 <= i < |input| && EncodeChar(input[i]) == s;
        assert i > 0 && EncodeChar(input[1..][i - 1]) == s;
      }
    }
  }

  /** `encode_to`'s loop from any weighted tree: each real symbol's leaf
      gains the number of its occurrences, a symbol has a leaf afterwards
      exactly when it had one or occurred, and the tree stays weighted. */
  lemma {:induction false} EncodeAllCounts(e: Encoder, input: seq<SChar>, e': Encoder)
    requires WriterShape(e.writer) && Shaped(e.tree) && Weighted(e.tree)
    requires EncodeAll(e, input) == Success(e')
    ensures Shaped(e'.tree) && Weighted(e'.tree)
    ensures forall s | 0 <= s < SYMBOL_NUM ::
      LeafWeight(e'.tree, s) == LeafWeight(e.tree, s) + Occurrences(input, s)
    ensures forall s | 0 <= s < SYMBOL_NUM ::
      e'.tree.location[s].Some? <==> (e.tree.location[s].Some? || Occurrences(input, s) > 0)
    decreases |input|
  {
    if |input| > 0 {
      var symbol := EncodeChar(input[0]);
      var e1 := Put(e, symbol).value;
      PutStep(e, symbol, e1);
      UpdateLeafWeights(e.tree, symbol, e1.tree);
      EncodeAllCounts(e1, input[1..], e');
    }
  }

  /** From the fresh tree of `encode_to`, every real symbol's leaf weight is
      its number of occurrences in the input, and the symbols with a leaf
      are exactly those that occur. */
  lemma EncodedCounts(input: seq<SChar>, e: Encoder)
    requires EncodeAll(NewEncoder(), input) == Success(e)
    ensures Shaped(e.tree) && Weighted(e.tree)
    ensures forall s | 0 <= s < SYMBOL_NUM :: LeafWeight(e.tree, s) == Occurrences(input, s)
    ensures forall s | 0 <= s < SYMBOL_NUM ::
      e.tree.location[s].Some? <==> exists i | 0 <= i < |input| :: EncodeChar(input[i]) == s
  {
    var e0 := NewEncoder();
    NewTreeShaped();
    NewTreeWeighted();
    assert forall s | 0 <= s < SYMBOL_NUM :: e0.tree.location[s] == None;
    EncodeAllCounts(e0, input, e);
    forall s | 0 <= s < SYMBOL_NUM
      ensures LeafWeight(e.tree, s) == Occurrences(input, s)
      ensures e.tree.location[s].Some? <==> exists i | 0 <= i < |input| :: EncodeChar(input[i]) == s
    {
      assert LeafWeight(e0.tree, s) == 0;
      OccursIff(input, s);
    }
  }
}
