/** `encode_to` and `decode_from` are inverse: the decoder walks each code
    the encoder wrote from the root back to the leaf it came from, reads the
    same raw bits after NYT, and so makes the same tree updates in the same
    order. */
module Codec {
  import opened Wrappers
  import opened Symbols
  import opened HuffmanTree
  import opened BitStream
  import opened TreeShape
  import opened HuffmanEncoder
  import opened HuffmanDecoder

  /** Following the bits of `encode(n)` from the root leads the decoder's
      walk to `n`, which it reaches with `|p|` bits read and `|p|` steps
      taken. */
  lemma {:induction false} WalkDown(t: Tree, n: NodeId, fuel: nat, p: seq<bool>, r: Reader, f: nat)
    requires Shaped(t) && PathCode(t, n, fuel) == Success(p)
    requires Delivers(r, p) && f >= |p|
    ensures GetSymbol(t, Some(t.root), r, f) == GetSymbol(t, Some(n), Skip(r, |p|), f - |p|)
    decreases fuel
  {
    var node := t.nodes[n];
    if node.parent.None? {
      assert n == t.root && p == [];
    } else {
      var q := node.parent.value;
      var above := PathCode(t, q, fuel - 1).value;
      var d := p[|p| - 1];
      assert p == above + [d];
      DeliversSplit(r, above, [d]);
      SkipSnoc(r, |above|);
      WalkDown(t, q, fuel - 1, above, r, f);
      assert HasChild(t.nodes[q]);
      assert t.nodes[q].symbol == INTERNAL_SYMBOL;
      assert (if d then t.nodes[q].right else t.nodes[q].left) == Some(n);
    }
  }

  /** The walk stops at once on a leaf. */
  lemma LeafStops(t: Tree, n: NodeId, r: Reader, f: nat)
    requires ReaderShape(r) && n in t.nodes && t.nodes[n].symbol != INTERNAL_SYMBOL
    ensures GetSymbol(t, Some(n), r, f) == Success((t.nodes[n].symbol, r))
  {
  }

  /** The decoder's walk from the root over the code of a leaf returns that
      leaf's symbol and stops right after the code. */
  lemma WalkArrives(t: Tree, n: NodeId, p: seq<bool>, r: Reader)
    requires Shaped(t) && PathCode(t, n, |t.order|) == Success(p) && Delivers(r, p)
    requires t.nodes[n].symbol != INTERNAL_SYMBOL
    ensures GetSymbol(t, Some(t.root), r, |t.order|) == Success((t.nodes[n].symbol, Skip(r, |p|)))
  {
    WalkDown(t, n, |t.order|, p, r, |t.order|);
    LeafStops(t, n, Skip(r, |p|), |t.order| - |p|);
  }

  /** The symbol part of `get()` reads back what `put_symbol` wrote for a
      real symbol: its path, or NYT's path and the eight raw bits; the reader
      is left at the bits that follow. */
  lemma ReceiveDecodes(t: Tree, s: int, code: seq<bool>, rest: seq<bool>, r: Reader)
    requires Shaped(t) && IsRealSymbol(s) && SymbolCode(t, s) == Success(code) && Delivers(r, code + rest)
    ensures Receive(t, r).Success? && Receive(t, r).value.0 == s
    ensures Delivers(Receive(t, r).value.1, rest)
  {
    if t.location[s].Some? {
      DeliversSplit(r, code, rest);
      WalkArrives(t, t.location[s].value, code, r);
    } else {
      ReceiveNew(t, s, code, rest, r);
    }
  }

  /** The NYT case of `ReceiveDecodes`. */
  lemma ReceiveNew(t: Tree, s: int, code: seq<bool>, rest: seq<bool>, r: Reader)
    requires Shaped(t) && IsRealSymbol(s) && SymbolCode(t, s) == Success(code) && Delivers(r, code + rest)
    requires t.location[s].None?
    ensures Receive(t, r).Success? && Receive(t, r).value.0 == s
    ensures Delivers(Receive(t, r).value.1, rest)
  {
    var nyt := t.location[NYT_SYMBOL].value;
    var path := PathCode(t, nyt, |t.order|).value;
    var raw := MsbBits(s, SYMBOL_BIT);
    assert code == path + raw;
    assert code + rest == path + (raw + rest);
    DeliversSplit(r, path, raw + rest);
    WalkArrives(t, nyt, path, r);
    RawSymbolDelivered(Skip(r, |path|), s, rest);
  }

  /** One `get()` after one `put(s)`: the same symbol comes back, the
      decoder's tree takes the same update, and the count drops by one. */
  lemma StepDecodes(t: Tree, s: int, code: seq<bool>, rest: seq<bool>, t': Tree, r: Reader, count: Counter)
    requires Shaped(t) && IsRealSymbol(s) && SymbolCode(t, s) == Success(code) && Update(t, s) == Success(t')
    requires Delivers(r, code + rest) && count > 0
    ensures GetNext(Decoder(t, count, r)).Success?
    ensures var (s', d') := GetNext(Decoder(t, count, r)).value;
      && s' == s && d'.tree == t' && d'.count == count - 1 && Delivers(d'.reader, rest)
  {
    ReceiveDecodes(t, s, code, rest, r);
  }

  /** The first `get()` on the bits emitted for a non-empty `input` returns
      its first character and leaves a decoder whose tree is the encoder's
      next tree and whose reader delivers the bits emitted for the rest. */
  lemma DecodeStep(t: Tree, input: seq<SChar>, bits: seq<bool>, r: Reader)
    requires Shaped(t) && Emitted(t, input) == Success(bits) && Delivers(r, bits)
    requires 0 < |input| < COUNTER_MODULUS
    ensures GetNext(Decoder(t, |input|, r)).Success?
    ensures var (s', d') := GetNext(Decoder(t, |input|, r)).value;
      && DecodeChar(s') == input[0] && d'.count == |input| - 1 && Shaped(d'.tree)
      && Emitted(d'.tree, input[1..]).Success? && Delivers(d'.reader, Emitted(d'.tree, input[1..]).value)
  {
    var s := EncodeChar(input[0]);
    var code := SymbolCode(t, s).value;
    var t' := Update(t, s).value;
    EmittedStep(t, input, bits);
    var rest := Emitted(t', input[1..]).value;
    StepDecodes(t, s, code, rest, t', r, |input|);
    UpdateShape(t, s);
    CharMappingRoundTrip(input[0], s);
  }

  /** Decoding the bits the encoder emits for `input` from tree `t` gives
      `input` back, as long as the count says how many symbols there are. */
  lemma {:induction false} DecodesEmitted(t: Tree, input: seq<SChar>, bits: seq<bool>, r: Reader)
    requires Shaped(t) && Emitted(t, input) == Success(bits) && Delivers(r, bits)
    requires |input| < COUNTER_MODULUS
    ensures DecodeAll(Decoder(t, |input|, r)) == Success(input)
    decreases |input|
  {
    if |input| > 0 {
      DecodeStep(t, input, bits, r);
      var d' := GetNext(Decoder(t, |input|, r)).value.1;
      DecodesEmitted(d'.tree, input[1..], Emitted(d'.tree, input[1..]).value, d'.reader);
      DecodeAllStep(Decoder(t, |input|, r));
      assert d' == Decoder(d'.tree, |input[1..]|, d'.reader);
      assert [input[0]] + input[1..] == input;
    }
  }

  /** On a framed stream the decoder starts with the framed count, and its
      reader at the front of the stream delivers the framed bits. */
  lemma FrameStarts(out: seq<Byte>, bits: seq<bool>, count: Counter)
    requires Framed(out, bits, count)
    ensures NewDecoder(out) == Success(Decoder(NewTree(), count, NewReader(out)))
    ensures Delivers(NewReader(out), bits)
  {
    var body := out[..|out| - COUNTER_BYTES];
    var tail := out[|out| - COUNTER_BYTES..];
    PacksPrefix(body, bits, tail);
    assert body + tail == out;
    ReadsAtStart(out);
    forall i | 0 <= i < |bits|
      ensures bits[i] == StreamBit(out, i)
    {
      assert bits[i] == Bits(out)[i];
    }
    StreamDelivers(NewReader(out), 0, bits);
  }

  /** `decode_from` on a stream whose body packs the bits emitted for
      `input` and whose trailer counts `input`'s symbols gives `input`. */
  lemma DecodeFromFrame(input: seq<SChar>, out: seq<Byte>, bits: seq<bool>)
    requires |input| < COUNTER_MODULUS && Emitted(NewTree(), input) == Success(bits)
    requires Framed(out, bits, |input|)
    ensures DecodeFrom(out) == Success(input)
  {
    FrameStarts(out, bits, |input|);
    NewTreeShaped();
    DecodesEmitted(NewTree(), input, bits, NewReader(out));
  }

  /** The round trip of the old revision's format: for every input shorter
      than 2^64 characters that `encode_to` can encode, `decode_from` gives
      the input back. */
  lemma RoundTrip(input: seq<SChar>, out: seq<Byte>)
    requires |input| < COUNTER_MODULUS && EncodeTo(input) == Success(out)
    ensures DecodeFrom(out) == Success(input)
  {
    EncodeToFrames(input, out);
    DecodeFromFrame(input, out, Emitted(NewTree(), input).value);
  }
}
