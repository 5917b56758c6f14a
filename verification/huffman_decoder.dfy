/** The decoder of the old revision: it takes the symbol count from the last
    eight bytes of the stream, then walks the tree from the root one bit at a
    time to a leaf, reads eight raw bits after the NYT leaf, and updates the
    tree exactly as the encoder did. */
module HuffmanDecoder {
  import opened Wrappers
  import opened Symbols
  import opened HuffmanTree
  import opened BitStream

  /** `tree`, `symbol_count` and the bit reader (`read_buffer`, `bit_count`
      and the position in `istream`). */
  datatype Decoder = Decoder(tree: Tree, count: Counter, reader: Reader)

  /** The constructor: the count is the big-endian value of the stream's last
      eight bytes; reading then starts from the front with an exhausted
      buffer. The source does not check that the stream holds eight bytes. */
  function NewDecoder(input: seq<Byte>): (r: Result<Decoder>)
    ensures r.Success? <==> |input| >= COUNTER_BYTES
    ensures r.Success? ==>
      && r.value.count == BigEndian(input[|input| - COUNTER_BYTES..])
      && r.value.reader == NewReader(input) && r.value.tree == NewTree()
  {
    if |input| < COUNTER_BYTES then Failure(Truncated)
    else
      var tail := input[|input| - COUNTER_BYTES..];
      TailCountIsBigEndian([], tail);
      assert [] + tail == tail;
      BigEndianBound(tail);
      CounterModulus();
      Success(Decoder(NewTree(), TailCount(tail, 0), NewReader(input)))
  }

  /** `get_symbol()`: from `cursor`, follow left on 0 and right on 1 while
      the node is internal; the leaf reached gives the symbol. Reading the
      symbol of a null cursor is a null dereference. The walk is bounded by
      `fuel`. */
  function GetSymbol(t: Tree, cursor: Option<NodeId>, r: Reader, fuel: nat): (res: Result<(int, Reader)>)
    requires ReaderShape(r)
    ensures res.Success? ==> res.value.0 != INTERNAL_SYMBOL
    ensures res.Success? ==> ReaderShape(res.value.1) && res.value.1.input == r.input
    decreases fuel
  {
    if cursor.None? || cursor.value !in t.nodes then Failure(NullDereference)
    else
      var node := t.nodes[cursor.value];
      if node.symbol != INTERNAL_SYMBOL then Success((node.symbol, r))
      else if fuel == 0 then Failure(OutOfFuel)
      else
        var (b, r') := GetBit(r);
        GetSymbol(t, if b then node.right else node.left, r', fuel - 1)
  }

  /** The symbol part of `get()`: walk from the root to a leaf, and after
      the NYT leaf read the symbol as eight raw bits, most significant first. */
  function Receive(t: Tree, r: Reader): (res: Result<(int, Reader)>)
    requires ReaderShape(r)
    ensures res.Success? ==> res.value.0 != NYT_SYMBOL && res.value.0 != INTERNAL_SYMBOL
    ensures res.Success? ==> ReaderShape(res.value.1) && res.value.1.input == r.input
  {
    var found :- GetSymbol(t, Some(t.root), r, |t.order|);
    if found.0 == NYT_SYMBOL then
      ReadRawBound(found.1, SYMBOL_BIT, 0);
      assert Pow2(SYMBOL_BIT) == 256;
      Success(ReadRaw(found.1, SYMBOL_BIT, 0))
    else Success(found)
  }

  /** `get()`: the next symbol; the tree is updated with it and the count
      drops by one, wrapping below zero as the unsigned counter does. */
  function GetNext(d: Decoder): (res: Result<(int, Decoder)>)
    requires ReaderShape(d.reader)
    ensures res.Success? ==> 0 <= res.value.0 < |d.tree.location| && res.value.0 != NYT_SYMBOL
    ensures res.Success? ==> ReaderShape(res.value.1.reader) && res.value.1.reader.input == d.reader.input
    ensures res.Success? && d.count > 0 ==> res.value.1.count == d.count - 1
    ensures res.Success? && d.count == 0 ==> res.value.1.count == COUNTER_MODULUS - 1
  {
    var found :- Receive(d.tree, d.reader);
    var t :- Update(d.tree, found.0);
    Success((found.0, Decoder(t, if d.count == 0 then COUNTER_MODULUS - 1 else d.count - 1, found.1)))
  }

  /** `decode_from`'s loop: `get` while the count is positive, mapping each
      symbol back to a character. */
  function DecodeAll(d: Decoder): (res: Result<seq<SChar>>)
    requires ReaderShape(d.reader)
    ensures res.Success? ==> |res.value| == d.count
    decreases d.count
  {
    if d.count == 0 then Success([])
    else
      var step :- GetNext(d);
      var rest :- DecodeAll(step.1);
      Success([DecodeChar(step.0)] + rest)
  }

  /** While the count is positive, `decode_from`'s loop emits the character
      of the next symbol and carries on from the decoder `get()` leaves. */
  lemma DecodeAllStep(d: Decoder)
    requires ReaderShape(d.reader) && d.count > 0 && GetNext(d).Success?
    ensures var (s, d') := GetNext(d).value;
      DecodeAll(d').Success? ==> DecodeAll(d) == Success([DecodeChar(s)] + DecodeAll(d').value)
  {
  }

  /** `decode_from`: the characters decoded from a whole stream. */
  function DecodeFrom(input: seq<Byte>): (res: Result<seq<SChar>>)
    ensures res.Success? ==> |input| >= COUNTER_BYTES && |res.value| == BigEndian(input[|input| - COUNTER_BYTES..])
  {
    var d :- NewDecoder(input);
    DecodeAll(d)
  }
}
