/** The encoder of the old revision: it counts the symbols, sends each one as
    the path from the root to its leaf (or the NYT leaf's path and eight raw
    bits for a first occurrence), updates the tree, and ends the stream with
    the 64-bit count. */
module HuffmanEncoder {
  import opened Wrappers
  import opened Symbols
  import opened HuffmanTree
  import opened BitStream

  /** `tree`, `symbol_count` and the bit writer (`write_buffer`, `bit_count`
      and what has gone to `ostream`). */
  datatype Encoder = Encoder(tree: Tree, count: Counter, writer: Writer)

  /** The constructor: a fresh tree, a zero count, an empty cleared buffer. */
  function NewEncoder(): (e: Encoder)
    ensures WriterShape(e.writer) && e.count == 0
    ensures e.writer.out == [] && e.writer.bitCount == 0
  {
    Encoder(NewTree(), 0, NewWriter())
  }

  /** `encode(cursor)`: the path from the root down to `n`, one bit per edge,
      0 for a left child and 1 for a right child; the recursion to the
      parent comes first, so the bits run from the root downwards. A node
      that is neither child of its parent fails the source's `assert`. The
      recursion depth is bounded by `fuel`. */
  function PathCode(t: Tree, n: NodeId, fuel: nat): (r: Result<seq<bool>>)
    ensures r.Success? ==> n in t.nodes && |r.value| < fuel
    ensures r.Success? && t.nodes[n].parent.None? ==> r.value == []
    decreases fuel
  {
    if fuel == 0 then Failure(OutOfFuel)
    else
      var node :- Get(t, n);
      if node.parent.None? then Success([])
      else
        var above :- PathCode(t, node.parent.value, fuel - 1);
        var parent :- Get(t, node.parent.value);
        if parent.left == Some(n) then Success(above + [false])
        else if parent.right == Some(n) then Success(above + [true])
        else Failure(AssertionFailed)
  }

  /** `put_symbol(symbol)`: the bits sent for one symbol. A symbol with a leaf
      is sent as its path; one without a leaf as NYT's path followed by its
      eight bits, most significant first. Without a NYT leaf the source
      recurses on `put_symbol(NYT)` forever. */
  function SymbolCode(t: Tree, symbol: int): (r: Result<seq<bool>>)
    ensures r.Success? ==> 0 <= symbol < |t.location|
    ensures r.Success? && t.location[symbol].None? ==>
      && |r.value| >= SYMBOL_BIT && r.value[|r.value| - SYMBOL_BIT..] == MsbBits(symbol, SYMBOL_BIT)
  {
    if !(0 <= symbol < |t.location|) then Failure(NullDereference)
    else if t.location[symbol].Some? then PathCode(t, t.location[symbol].value, |t.order|)
    else if symbol == NYT_SYMBOL || !(NYT_SYMBOL < |t.location|) || t.location[NYT_SYMBOL].None? then Failure(OutOfFuel)
    else
      var path :- PathCode(t, t.location[NYT_SYMBOL].value, |t.order|);
      assert (path + MsbBits(symbol, SYMBOL_BIT))[|path|..] == MsbBits(symbol, SYMBOL_BIT);
      Success(path + MsbBits(symbol, SYMBOL_BIT))
  }

  /** `put(symbol)`: count the symbol (modulo 2^64), send it, then update the
      tree. */
  function Put(e: Encoder, symbol: int): (r: Result<Encoder>)
    requires WriterShape(e.writer)
    ensures r.Success? <==> SymbolCode(e.tree, symbol).Success? && Update(e.tree, symbol).Success?
    ensures r.Success? ==> WriterShape(r.value.writer)
    ensures r.Success? ==> r.value.count == NextCount(e.count)
  {
    var count := NextCount(e.count);
    var code :- SymbolCode(e.tree, symbol);
    var tree :- Update(e.tree, symbol);
    Success(Encoder(tree, count, PutBits(e.writer, code)))
  }

  /** `put_tail()`: flush, write the count's 64 bits most significant first,
      flush again. */
  function PutTail(e: Encoder): (w: Writer)
    requires WriterShape(e.writer)
    ensures WriterShape(w) && w.bitCount == 0
  {
    Flush(PutBits(Flush(e.writer), MsbBits(e.count, COUNTER_BITS)))
  }

  /** `encode_to`'s loop: `put` each character's symbol in turn. */
  function EncodeAll(e: Encoder, input: seq<SChar>): (r: Result<Encoder>)
    requires WriterShape(e.writer)
    ensures r.Success? ==> WriterShape(r.value.writer)
    ensures r.Success? ==> r.value.count == AddCount(e.count, |input|)
    decreases |input|
  {
    if |input| == 0 then Success(e)
    else
      match Put(e, EncodeChar(input[0]))
      case Failure(f) => Failure(f)
      case Success(e') => EncodeAll(e', input[1..])
  }

  /** `encode_to`: the bytes written for the whole input and its trailer. */
  function EncodeTo(input: seq<SChar>): (r: Result<seq<Byte>>)
  {
    var e :- EncodeAll(NewEncoder(), input);
    Success(PutTail(e).out)
  }

  /** The bits the encoder sends for `input` when it starts from tree `t`. */
  function Emitted(t: Tree, input: seq<SChar>): Result<seq<bool>>
    decreases |input|
  {
    if |input| == 0 then Success([])
    else
      var symbol := EncodeChar(input[0]);
      var code :- SymbolCode(t, symbol);
      var t' :- Update(t, symbol);
      var rest :- Emitted(t', input[1..]);
      Success(code + rest)
  }

  /** The bits for a non-empty input are the first symbol's code followed by
      the bits for the rest from the updated tree. */
  lemma EmittedStep(t: Tree, input: seq<SChar>, bits: seq<bool>)
    requires |input| > 0 && Emitted(t, input) == Success(bits)
    ensures var s := EncodeChar(input[0]);
      && SymbolCode(t, s).Success? && Update(t, s).Success?
      && Emitted(Update(t, s).value, input[1..]).Success?
      && bits == SymbolCode(t, s).value + Emitted(Update(t, s).value, input[1..]).value
  {
  }

  /** One `put`: the symbol's code goes to the writer and the tree is updated. */
  lemma PutStep(e: Encoder, symbol: int, e1: Encoder)
    requires WriterShape(e.writer) && Put(e, symbol) == Success(e1)
    ensures SymbolCode(e.tree, symbol).Success? && Update(e.tree, symbol) == Success(e1.tree)
    ensures e1.writer == PutBits(e.writer, SymbolCode(e.tree, symbol).value)
    ensures e1.count == NextCount(e.count)
  {
  }

  /** After one `put` the writer holds what it held before followed by the
      symbol's code, whatever it had written already. */
  lemma PutHolds(e: Encoder, symbol: int, base: seq<Byte>, bits: seq<bool>)
    requires WriterShape(e.writer) && Holds(e.writer, base, bits) && Put(e, symbol).Success?
    ensures SymbolCode(e.tree, symbol).Success?
    ensures Holds(Put(e, symbol).value.writer, base, bits + SymbolCode(e.tree, symbol).value)
  {
    PutStep(e, symbol, Put(e, symbol).value);
    HoldsPutBits(e.writer, base, bits, SymbolCode(e.tree, symbol).value);
  }

  /** Encoding a sequence puts exactly the concatenated codes of its symbols. */
  lemma {:induction false} EncodeAllEmits(e: Encoder, input: seq<SChar>, e': Encoder)
    requires WriterShape(e.writer) && EncodeAll(e, input) == Success(e')
    ensures Emitted(e.tree, input).Success?
    ensures e'.writer == PutBits(e.writer, Emitted(e.tree, input).value)
    decreases |input|
  {
    if |input| > 0 {
      var symbol := EncodeChar(input[0]);
      var e1 := Put(e, symbol).value;
      PutStep(e, symbol, e1);
      var code := SymbolCode(e.tree, symbol).value;
      EncodeAllEmits(e1, input[1..], e');
      var rest := Emitted(e1.tree, input[1..]).value;
      assert Emitted(e.tree, input) == Success(code + rest);
      PutBitsAppend(e.writer, code, rest);
    }
  }

  /** The trailer: after `put_tail` the stream is the held bits packed and
      zero-padded to whole bytes, followed by eight bytes that the decoder's
      constructor reads back as the count. */
  lemma PutTailFrames(e: Encoder, bits: seq<bool>)
    requires WriterShape(e.writer) && Holds(e.writer, [], bits)
    ensures Framed(PutTail(e).out, bits, e.count)
  {
    FlushCountFlush(e.writer, bits, e.count);
  }

  /** From the constructor, the writer holds exactly the emitted bits. */
  lemma EncodeAllHolds(input: seq<SChar>, e: Encoder)
    requires EncodeAll(NewEncoder(), input) == Success(e)
    ensures Emitted(NewTree(), input).Success?
    ensures WriterShape(e.writer) && Holds(e.writer, [], Emitted(NewTree(), input).value)
  {
    EncodeAllEmits(NewEncoder(), input, e);
    var bits := Emitted(NewTree(), input).value;
    HoldsEmpty([]);
    HoldsPutBits(NewWriter(), [], [], bits);
    assert [] + bits == bits;
  }

  /** The layout of a stream written by `encode_to`: `bits` packed into
      bytes, then eight bytes holding `count` big-endian. */
  ghost predicate Framed(out: seq<Byte>, bits: seq<bool>, count: nat) {
    && |out| >= COUNTER_BYTES
    && Packs(out[..|out| - COUNTER_BYTES], bits)
    && BigEndian(out[|out| - COUNTER_BYTES..]) == count
  }

  /** The whole stream of `encode_to` is framed: the bits of every symbol,
      then the symbol count. */
  lemma EncodeToFrames(input: seq<SChar>, out: seq<Byte>)
    requires |input| < COUNTER_MODULUS && EncodeTo(input) == Success(out)
    ensures Emitted(NewTree(), input).Success?
    ensures Framed(out, Emitted(NewTree(), input).value, |input|)
  {
    var e := EncodeAll(NewEncoder(), input).value;
    EncoderFrames(input, e);
  }

  lemma EncoderFrames(input: seq<SChar>, e: Encoder)
    requires |input| < COUNTER_MODULUS && EncodeAll(NewEncoder(), input) == Success(e)
    ensures Emitted(NewTree(), input).Success?
    ensures Framed(PutTail(e).out, Emitted(NewTree(), input).value, |input|)
  {
    EncodeAllHolds(input, e);
    PutTailFrames(e, Emitted(NewTree(), input).value);
    AddCountFromZero(|input|);
  }
}
