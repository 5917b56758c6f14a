/** Configuration constants of the codec and the mapping between the
    (signed) characters of the input and the tree's internal symbols. */
module Symbols {

  /** Bits per `char` on the target platform (`BitwidthOf<char>::value`). */
  const BIT_PER_CHAR: nat := 8
  /** Width of a raw symbol on the wire. */
  const SYMBOL_BIT: nat := BIT_PER_CHAR
  /** Size of the real alphabet, `1 << SYMBOL_BIT`. */
  const SYMBOL_NUM: nat := 256
  /** Reserved symbol of the not-yet-transmitted leaf. */
  const NYT_SYMBOL: int := SYMBOL_NUM
  /** Reserved symbol carried by every internal node. */
  const INTERNAL_SYMBOL: int := SYMBOL_NUM + 1
  /** Number of `char` values, `1 << BIT_PER_CHAR`. */
  const CHAR_NUM: nat := 256
  const CHAR_NUM_HALF: nat := 128
  /** Bytes in the encoder's and decoder's bit buffers. */
  const BUFFER_SIZE: nat := 256
  /** Bits in a full buffer, `BUFFER_SIZE * BIT_PER_CHAR`. */
  const BUFFER_BITS: nat := 2048
  /** Width of the trailing symbol counter (`UInt64`). */
  const COUNTER_BITS: nat := 64
  const COUNTER_BYTES: nat := 8
  /** Modulus of the unsigned 64-bit counter, `2^COUNTER_BITS`. */
  const COUNTER_MODULUS: nat := 0x1_0000_0000_0000_0000

  /** A value of the unsigned 64-bit symbol counter. */
  type Counter = c: nat | c < COUNTER_MODULUS

  /** `++count` on the unsigned 64-bit counter. */
  function NextCount(c: Counter): (r: Counter)
    ensures r == (c + 1) % COUNTER_MODULUS
  {
    if c + 1 == COUNTER_MODULUS then 0 else c + 1
  }

  /** `n` increments of the counter. */
  function AddCount(c: Counter, n: nat): Counter
    decreases n
  {
    if n == 0 then c else AddCount(NextCount(c), n - 1)
  }

  /** `n` increments add `n` modulo 2^64. */
  lemma {:induction false} AddCountMod(c: Counter, n: nat)
    ensures AddCount(c, n) == (c + n) % COUNTER_MODULUS
    decreases n
  {
    if n > 0 {
      AddCountMod(NextCount(c), n - 1);
      ModAddOne(c, n - 1);
    }
  }

  /** Counting fewer than 2^64 symbols from zero does not wrap. */
  lemma AddCountFromZero(n: nat)
    requires n < COUNTER_MODULUS
    ensures AddCount(0, n) == n
  {
    AddCountMod(0, n);
  }

  lemma ModAddOne(c: Counter, k: nat)
    ensures ((c + 1) % COUNTER_MODULUS + k) % COUNTER_MODULUS == (c + 1 + k) % COUNTER_MODULUS
  {
  }

  /** A signed `char`. */
  type SChar = c: int | -128 <= c < 128

  /** A real (transmittable) symbol. */
  predicate IsRealSymbol(s: int) {
    0 <= s < SYMBOL_NUM
  }

  /** Both reserved markers are distinct and outside the real alphabet; the
      location table has one slot per real symbol plus one for NYT. */
  lemma ReservedMarkers()
    ensures NYT_SYMBOL != INTERNAL_SYMBOL
    ensures !IsRealSymbol(NYT_SYMBOL) && !IsRealSymbol(INTERNAL_SYMBOL)
    ensures CHAR_NUM == Pow2(BIT_PER_CHAR) && SYMBOL_NUM == Pow2(SYMBOL_BIT)
    ensures BUFFER_BITS == BUFFER_SIZE * BIT_PER_CHAR && COUNTER_BYTES * BIT_PER_CHAR == COUNTER_BITS
    ensures CHAR_NUM_HALF * 2 == CHAR_NUM
  {
  }

  function Pow2(n: nat): (r: nat)
    ensures r >= 1
  {
    if n == 0 then 1 else 2 * Pow2(n - 1)
  }

  lemma {:induction false} Pow2Add(a: nat, b: nat)
    ensures Pow2(a + b) == Pow2(a) * Pow2(b)
    decreases b
  {
    if b > 0 {
      Pow2Add(a, b - 1);
    }
  }

  /** The counter's modulus is two to its width. */
  lemma CounterModulus()
    ensures Pow2(COUNTER_BITS) == COUNTER_MODULUS
    ensures Pow2(56) * 256 == COUNTER_MODULUS
  {
    assert Pow2(8) == 256;
    Pow2Add(8, 8);
    Pow2Add(16, 16);
    Pow2Add(32, 32);
    Pow2Add(32, 24);
    Pow2Add(16, 8);
    Pow2Add(56, 8);
  }

  /** `to_internal`: reinterpret the character as unsigned and widen it. */
  function ToInternal(c: SChar): (s: int)
    ensures IsRealSymbol(s)
    ensures (s - c) % CHAR_NUM == 0
  {
    if c >= 0 then c else c + CHAR_NUM
  }

  /** `to_external`: truncate to a byte and reinterpret it as signed. */
  function ToExternal(s: int): (c: SChar)
    ensures (s - c) % CHAR_NUM == 0
  {
    var u := s % CHAR_NUM;
    if u < CHAR_NUM_HALF then u else u - CHAR_NUM
  }

  /** Every character survives the trip into the tree's symbol space and back. */
  lemma ExternalOfInternal(c: SChar)
    ensures ToExternal(ToInternal(c)) == c
  {
  }

  /** Every real symbol survives the trip out to a character and back. */
  lemma InternalOfExternal(s: int)
    requires IsRealSymbol(s)
    ensures ToInternal(ToExternal(s)) == s
  {
  }

  /** `Char(x)`: the signed `char` holding the low byte of `x`. */
  function CharOf(x: int): (c: SChar)
    ensures (x - c) % CHAR_NUM == 0
  {
    (x + CHAR_NUM_HALF) % CHAR_NUM - CHAR_NUM_HALF
  }

  /** The symbol `encode_to` passes to the encoder for an input character. */
  function EncodeChar(ch: SChar): (s: int)
    ensures IsRealSymbol(s)
    ensures s == ToInternal(ch)
  {
    if ch >= 0 then ch else CHAR_NUM + ch
  }

  /** The character `decode_from` writes for a decoded symbol. */
  function DecodeChar(symbol: int): (ch: SChar)
    ensures IsRealSymbol(symbol) ==> ch == ToExternal(symbol)
  {
    if symbol < CHAR_NUM_HALF then CharOf(symbol) else CharOf(symbol - CHAR_NUM)
  }

  /** `encode_to` and `decode_from`'s character mappings are mutual inverses. */
  lemma CharMappingRoundTrip(ch: SChar, s: int)
    requires IsRealSymbol(s)
    ensures DecodeChar(EncodeChar(ch)) == ch
    ensures EncodeChar(DecodeChar(s)) == s
  {
    ExternalOfInternal(ch);
    InternalOfExternal(s);
  }
}
