/** The buffered MSB-first bit writer and reader of the encoder and decoder,
    and the conversions between numbers and their big-endian bit strings used
    for raw symbols and for the trailing symbol count. */
module BitStream {
  import opened Symbols

  // ---------------------------------------------------------------------------
  // Bytes and bit strings

  /** A byte as its eight bits, most significant first. The coder only ever
      sets or tests single bits of its buffer bytes, and reads the value of a
      byte only for the trailing count (see `TailByte`). */
  type Byte = b: seq<bool> | |b| == 8 witness [false, false, false, false, false, false, false, false]

  const ZERO_BYTE: Byte := [false, false, false, false, false, false, false, false]

  function Zeros(n: nat): (z: seq<Byte>)
    ensures |z| == n && forall i :: 0 <= i < n ==> z[i] == ZERO_BYTE
  {
    seq(n, _ => ZERO_BYTE)
  }

  /** Bit `k` of a byte stream: bit `k % 8` (from the top) of byte `k / 8`. */
  function StreamBit(bytes: seq<Byte>, k: nat): bool
    requires k < 8 * |bytes|
  {
    bytes[k / 8][k % 8]
  }

  /** All bits of a byte stream, in reading order. */
  ghost function Bits(bytes: seq<Byte>): (bits: seq<bool>)
    ensures |bits| == 8 * |bytes|
  {
    seq(8 * |bytes|, k requires 0 <= k < 8 * |bytes| => StreamBit(bytes, k))
  }

  /** `bytes` is `bits` packed MSB-first, the last byte padded with zeros. */
  ghost predicate Packs(bytes: seq<Byte>, bits: seq<bool>) {
    && |bytes| == (|bits| + 7) / 8
    && forall i, j :: 0 <= i < |bytes| && 0 <= j < 8 ==> bytes[i][j] == (8 * i + j < |bits| && bits[8 * i + j])
  }

  /** The `n`-bit big-endian representation of `v` (its low `n` bits). */
  function ToBits(v: nat, n: nat): (bits: seq<bool>)
    ensures |bits| == n
  {
    if n == 0 then [] else ToBits(v / 2, n - 1) + [v % 2 == 1]
  }

  function Digit(b: bool): nat {
    if b then 1 else 0
  }

  /** The number a big-endian bit string denotes. */
  function FromBits(bits: seq<bool>): nat {
    if |bits| == 0 then 0 else 2 * FromBits(bits[..|bits| - 1]) + Digit(bits[|bits| - 1])
  }

  // ---------------------------------------------------------------------------
  // Writer

  /** The encoder's output so far, its 256-byte buffer and the number of bits
      in the buffer. */
  datatype Writer = Writer(out: seq<Byte>, buffer: seq<Byte>, bitCount: nat)

  predicate WriterShape(w: Writer) {
    |w.buffer| == BUFFER_SIZE && w.bitCount <= BUFFER_BITS
  }

  /** The constructor's `clear_buffer()`. */
  function NewWriter(): (w: Writer)
    ensures WriterShape(w)
  {
    Writer([], Zeros(BUFFER_SIZE), 0)
  }

  /** `put_bit`: a full buffer is written out and cleared first; then
      `bit << (7 - bit_count % 8)` is ORed into byte `bit_count / 8`, which
      sets bit `bit_count % 8` (from the top) when the bit is one. */
  function PutBit(w: Writer, b: bool): (r: Writer)
    requires WriterShape(w)
    ensures WriterShape(r) && r.bitCount > 0
  {
    var w1 := if w.bitCount == BUFFER_BITS then Writer(w.out + w.buffer, Zeros(BUFFER_SIZE), 0) else w;
    var i := w1.bitCount / BIT_PER_CHAR;
    var j := w1.bitCount % BIT_PER_CHAR;
    Writer(w1.out, w1.buffer[i := w1.buffer[i][j := w1.buffer[i][j] || b]], w1.bitCount + 1)
  }

  /** `put_bit` for each bit in turn. */
  function PutBits(w: Writer, bits: seq<bool>): (r: Writer)
    requires WriterShape(w)
    ensures WriterShape(r)
    decreases |bits|
  {
    if |bits| == 0 then w else PutBits(PutBit(w, bits[0]), bits[1..])
  }

  /** Putting two bit strings in turn is putting their concatenation. */
  lemma {:induction false} PutBitsAppend(w: Writer, a: seq<bool>, b: seq<bool>)
    requires WriterShape(w)
    ensures PutBits(PutBits(w, a), b) == PutBits(w, a + b)
    decreases |a|
  {
    if |a| == 0 {
      assert a + b == b;
    } else {
      assert (a + b)[1..] == a[1..] + b;
      PutBitsAppend(PutBit(w, a[0]), a[1..], b);
    }
  }

  /** `flush`: write the `ceil(bit_count / 8)` buffered bytes and clear. */
  function Flush(w: Writer): (r: Writer)
    requires WriterShape(w)
    ensures WriterShape(r) && r.bitCount == 0
  {
    Writer(w.out + w.buffer[..(w.bitCount + BIT_PER_CHAR - 1) / BIT_PER_CHAR], Zeros(BUFFER_SIZE), 0)
  }

  /** `out` is `base` followed by whole buffers packing the start of `bits`. */
  ghost predicate OutHolds(out: seq<Byte>, base: seq<Byte>, bits: seq<bool>) {
    && |base| <= |out| && out[..|base|] == base
    && (|out| - |base|) % BUFFER_SIZE == 0
    && Spells(out[|base|..], bits)
  }

  /** Every bit of `bytes` is the corresponding bit of `bits`. */
  ghost predicate Spells(bytes: seq<Byte>, bits: seq<bool>) {
    && 8 * |bytes| <= |bits|
    && forall i, j :: 0 <= i < |bytes| && 0 <= j < 8 ==> bytes[i][j] == bits[8 * i + j]
  }

  /** The first `|tail|` bits of `buffer` are `tail`, the rest zero. */
  ghost predicate BufferHolds(buffer: seq<Byte>, tail: seq<bool>) {
    && |buffer| == BUFFER_SIZE && |tail| <= BUFFER_BITS
    && forall i, j :: 0 <= i < BUFFER_SIZE && 0 <= j < 8 ==> buffer[i][j] == (8 * i + j < |tail| && tail[8 * i + j])
  }

  /** `w` has written `base` followed by whole buffers of `bits`, and holds the
      rest of `bits` in its buffer, with every later buffer bit still zero. */
  ghost predicate Holds(w: Writer, base: seq<Byte>, bits: seq<bool>) {
    && OutHolds(w.out, base, bits)
    && |bits| == 8 * (|w.out| - |base|) + w.bitCount
    && BufferHolds(w.buffer, bits[8 * (|w.out| - |base|)..])
  }

  lemma EmptyBuffer()
    ensures BufferHolds(Zeros(BUFFER_SIZE), [])
  {
  }

  /** A fresh or just-flushed writer holds nothing beyond what it has written. */
  lemma HoldsEmpty(out: seq<Byte>)
    ensures Holds(Writer(out, Zeros(BUFFER_SIZE), 0), out, [])
  {
    EmptyBuffer();
    assert out[..|out|] == out;
  }

  /** Writing out a full buffer keeps the invariant. */
  lemma HoldsAfterSpill(w: Writer, base: seq<Byte>, bits: seq<bool>)
    requires Holds(w, base, bits) && w.bitCount == BUFFER_BITS
    ensures Holds(Writer(w.out + w.buffer, Zeros(BUFFER_SIZE), 0), base, bits)
  {
    var out := w.out + w.buffer;
    var f := |w.out| - |base|;
    var tail := bits[8 * f..];
    assert out[..|base|] == base;
    var body := out[|base|..];
    assert body == w.out[|base|..] + w.buffer;
    forall i, j | 0 <= i < |body| && 0 <= j < 8
      ensures body[i][j] == bits[8 * i + j]
    {
      if i >= f {
        assert body[i] == w.buffer[i - f];
        assert w.buffer[i - f][j] == tail[8 * (i - f) + j];
      } else {
        assert body[i] == w.out[|base|..][i];
      }
    }
    EmptyBuffer();
  }

  /** `put_bit` appends its bit to what the writer holds. */
  lemma HoldsPutBit(w: Writer, base: seq<Byte>, bits: seq<bool>, b: bool)
    requires Holds(w, base, bits)
    ensures Holds(PutBit(w, b), base, bits + [b])
  {
    if w.bitCount == BUFFER_BITS {
      HoldsAfterSpill(w, base, bits);
      var w1 := Writer(w.out + w.buffer, Zeros(BUFFER_SIZE), 0);
      HoldsSetBit(w1, base, bits, b);
      assert PutBit(w, b) == PutBit(w1, b);
    } else {
      HoldsSetBit(w, base, bits, b);
    }
  }

  /** `put_bit` into a buffer with room left. */
  lemma HoldsSetBit(w: Writer, base: seq<Byte>, bits: seq<bool>, b: bool)
    requires Holds(w, base, bits) && w.bitCount < BUFFER_BITS
    ensures Holds(PutBit(w, b), base, bits + [b])
  {
    var c := w.bitCount;
    var f := |w.out| - |base|;
    var bits' := bits + [b];
    var body := w.out[|base|..];
    forall i, j | 0 <= i < |body| && 0 <= j < 8
      ensures body[i][j] == bits'[8 * i + j]
    {
      assert bits'[8 * i + j] == bits[8 * i + j];
    }
    assert OutHolds(w.out, base, bits');
    BufferSet(w.buffer, bits[8 * f..], b);
    assert bits'[8 * f..] == bits[8 * f..] + [b];
  }

  /** Setting the next buffer bit appends it to the buffered bits. */
  lemma BufferSet(buffer: seq<Byte>, tail: seq<bool>, b: bool)
    requires BufferHolds(buffer, tail) && |tail| < BUFFER_BITS
    ensures var c := |tail|;
            BufferHolds(buffer[c / 8 := buffer[c / 8][c % 8 := buffer[c / 8][c % 8] || b]], tail + [b])
  {
    var c := |tail|;
    var buffer' := buffer[c / 8 := buffer[c / 8][c % 8 := buffer[c / 8][c % 8] || b]];
    var tail' := tail + [b];
    forall i, j | 0 <= i < BUFFER_SIZE && 0 <= j < 8
      ensures buffer'[i][j] == (8 * i + j < |tail'| && tail'[8 * i + j])
    {
      assert buffer[i][j] == (8 * i + j < |tail| && tail[8 * i + j]);
      if i == c / 8 && j == c % 8 {
        assert 8 * i + j == c;
      } else {
        assert 8 * i + j != c;
        assert buffer'[i][j] == buffer[i][j];
      }
    }
  }

  /** `put_bit` for a whole string appends it. */
  lemma {:induction false} HoldsPutBits(w: Writer, base: seq<Byte>, bits: seq<bool>, more: seq<bool>)
    requires Holds(w, base, bits)
    ensures Holds(PutBits(w, more), base, bits + more)
    decreases |more|
  {
    if |more| > 0 {
      HoldsPutBit(w, base, bits, more[0]);
      HoldsPutBits(PutBit(w, more[0]), base, bits + [more[0]], more[1..]);
      assert bits + [more[0]] + more[1..] == bits + more;
    }
  }

  /** `flush` writes exactly the held bits, packed and zero-padded. */
  lemma FlushPacks(w: Writer, base: seq<Byte>, bits: seq<bool>)
    requires Holds(w, base, bits)
    ensures |base| <= |Flush(w).out| && Flush(w).out[..|base|] == base
    ensures Packs(Flush(w).out[|base|..], bits)
  {
    var f := |w.out| - |base|;
    var nb := (w.bitCount + 7) / 8;
    var packed := Flush(w).out[|base|..];
    var tail := bits[8 * f..];
    assert packed == w.out[|base|..] + w.buffer[..nb];
    forall i, j | 0 <= i < |packed| && 0 <= j < 8
      ensures packed[i][j] == (8 * i + j < |bits| && bits[8 * i + j])
    {
      if i < f {
        assert packed[i] == w.out[|base|..][i];
      } else {
        assert packed[i] == w.buffer[i - f];
        assert w.buffer[i - f][j] == (8 * (i - f) + j < |tail| && tail[8 * (i - f) + j]);
      }
    }
  }

  // ---------------------------------------------------------------------------
  // Reader

  /** The decoder's input, the read position, its 256-byte buffer and the
      number of buffer bits consumed. */
  datatype Reader = Reader(input: seq<Byte>, cursor: nat, buffer: seq<Byte>, bitCount: nat)

  predicate ReaderShape(r: Reader) {
    |r.buffer| == BUFFER_SIZE && r.bitCount <= BUFFER_BITS && r.cursor <= |r.input|
  }

  function Min(a: int, b: int): int {
    if a < b then a else b
  }

  /** The decoder constructor's state: a zeroed buffer marked as consumed, so
      that the first `get_bit` fills it. */
  function NewReader(input: seq<Byte>): (r: Reader)
    ensures ReaderShape(r)
  {
    Reader(input, 0, Zeros(BUFFER_SIZE), BUFFER_BITS)
  }

  /** `istream.read(read_buffer, BUFFER_SIZE)`: reads what is left, at most a
      buffer; a short read leaves the rest of the buffer as it was. */
  function Fill(r: Reader): (r': Reader)
    requires ReaderShape(r)
    ensures ReaderShape(r') && r'.bitCount == 0 && r'.input == r.input
  {
    var n := Min(BUFFER_SIZE, |r.input| - r.cursor);
    Reader(r.input, r.cursor + n, r.input[r.cursor..r.cursor + n] + r.buffer[n..], 0)
  }

  /** `get_bit`: refill a consumed buffer, then take bit `bit_count % 8` (from
      the top) of byte `bit_count / 8`; the source's arithmetic shift of the
      signed `char` followed by `& 1` extracts exactly that bit. */
  function GetBit(r: Reader): (res: (bool, Reader))
    requires ReaderShape(r)
    ensures ReaderShape(res.1) && res.1.input == r.input
  {
    var r1 := if r.bitCount == BUFFER_BITS then Fill(r) else r;
    (r1.buffer[r1.bitCount / BIT_PER_CHAR][r1.bitCount % BIT_PER_CHAR], r1.(bitCount := r1.bitCount + 1))
  }

  /** `r` delivers bit `k` of its input next. */
  ghost predicate ReadsAt(r: Reader, k: nat) {
    && ReaderShape(r)
    && k % BUFFER_BITS == r.bitCount % BUFFER_BITS
    && (r.bitCount == BUFFER_BITS ==> r.cursor == Min(|r.input|, k / 8))
    && (r.bitCount < BUFFER_BITS ==>
          && k >= r.bitCount
          && var start := (k - r.bitCount) / 8;
             && r.cursor == Min(|r.input|, start + BUFFER_SIZE)
             && forall j :: 0 <= j < BUFFER_SIZE && start + j < |r.input| ==> r.buffer[j] == r.input[start + j])
  }

  lemma ReadsAtStart(input: seq<Byte>)
    ensures ReadsAt(NewReader(input), 0)
  {
  }

  /** `get_bit` delivers the stream's bits in order. */
  lemma GetBitReads(r: Reader, k: nat)
    requires ReadsAt(r, k) && k < 8 * |r.input|
    ensures GetBit(r).0 == StreamBit(r.input, k)
    ensures ReadsAt(GetBit(r).1, k + 1)
  {
    if r.bitCount == BUFFER_BITS {
      GetBitFills(r, k);
    } else {
      GetBitBuffered(r, k);
    }
  }

  lemma GetBitFills(r: Reader, k: nat)
    requires ReadsAt(r, k) && k < 8 * |r.input| && r.bitCount == BUFFER_BITS
    ensures GetBit(r).0 == StreamBit(r.input, k)
    ensures ReadsAt(GetBit(r).1, k + 1)
  {
    FillArith(k);
    var r1 := Fill(r);
    var n := Min(BUFFER_SIZE, |r.input| - r.cursor);
    assert r.cursor == k / 8;
    forall j | 0 <= j < BUFFER_SIZE && k / 8 + j < |r.input|
      ensures r1.buffer[j] == r.input[k / 8 + j]
    {
    }
    assert GetBit(r) == (r1.buffer[0][0], r1.(bitCount := 1));
  }

  /** A buffer load starts on a byte boundary at the top of a block. */
  lemma FillArith(k: nat)
    requires k % BUFFER_BITS == 0
    ensures k % 8 == 0 && (k + 1) % BUFFER_BITS == 1 && (k + 1 - 1) / 8 == k / 8
  {
    var m := k / BUFFER_BITS;
    assert k == BUFFER_SIZE * m * 8;
  }

  lemma GetBitBuffered(r: Reader, k: nat)
    requires ReadsAt(r, k) && k < 8 * |r.input| && r.bitCount < BUFFER_BITS
    ensures GetBit(r).0 == StreamBit(r.input, k)
    ensures ReadsAt(GetBit(r).1, k + 1)
  {
    var c := r.bitCount;
    BlockArith(k, c);
    assert r.buffer[c / 8] == r.input[k / 8];
  }

  /** Stream bit `k` sits at buffer bit `c` of a buffer loaded from byte
      `(k - c) / 8`; when the buffer runs out, the next load starts one
      buffer further on. */
  lemma BlockArith(k: nat, c: nat)
    requires c < BUFFER_BITS && k >= c && k % BUFFER_BITS == c % BUFFER_BITS
    ensures (k - c) % 8 == 0 && (k - c) / 8 + c / 8 == k / 8 && c % 8 == k % 8
    ensures (k + 1) % BUFFER_BITS == (c + 1) % BUFFER_BITS
    ensures c + 1 == BUFFER_BITS ==> (k + 1) / 8 == (k - c) / 8 + BUFFER_SIZE
  {
    var m := (k - c) / BUFFER_BITS;
    assert k == BUFFER_BITS * m + c;
    assert (k - c) / 8 == BUFFER_SIZE * m;
  }

  /** `symbol = symbol << 1 | get_bit()`, `n` times. */
  function ReadRaw(r: Reader, n: nat, acc: nat): (res: (nat, Reader))
    requires ReaderShape(r)
    ensures ReaderShape(res.1) && res.1.input == r.input
    decreases n
  {
    if n == 0 then (acc, r)
    else
      var (b, r') := GetBit(r);
      ReadRaw(r', n - 1, 2 * acc + Digit(b))
  }

  // ---------------------------------------------------------------------------
  // Trailer: the 64-bit symbol count

  /** A byte as the machine's `char`, sign-extended to a 32-bit `int`. */
  function SignExtend(b: Byte): bv32 {
    var low: bv32 := (if b[0] then 0x80 else 0) | (if b[1] then 0x40 else 0) | (if b[2] then 0x20 else 0)
      | (if b[3] then 0x10 else 0) | (if b[4] then 0x08 else 0) | (if b[5] then 0x04 else 0)
      | (if b[6] then 0x02 else 0) | (if b[7] then 0x01 else 0);
    if b[0] then low | 0xFFFF_FF00 else low
  }

  /** `(CHAR_NUM ^ c) & (CHAR_NUM - 1)` on the sign-extended byte: the
      byte's unsigned value. */
  function TailByte(b: Byte): (v: nat)
    ensures v == FromBits(b)
  {
    FromBits8(b);
    ((0x100 ^ SignExtend(b)) & 0xFF) as int
  }

  /** The decoder constructor's loop over the last eight bytes:
      `symbol_count = symbol_count << 8 | byte` on an unsigned 64-bit counter.
      The OR lands in the low byte the shift cleared, so it is an addition. */
  function TailCount(bytes: seq<Byte>, acc: nat): nat
    decreases |bytes|
  {
    if |bytes| == 0 then acc
    else TailCount(bytes[1..], (acc * 256) % COUNTER_MODULUS + TailByte(bytes[0]))
  }

  /** The low `n` bits of `v`, most significant first: `(v >> i) & 1` for `i`
      from `n - 1` down to 0. Raw symbols (`n = 8`) and the trailing count
      (`n = 64`) are written this way. */
  function MsbBits(v: nat, n: nat): (bits: seq<bool>)
    ensures |bits| == n
  {
    seq(n, i requires 0 <= i < n => (v / Pow2(n - 1 - i)) % 2 == 1)
  }

  // ---------------------------------------------------------------------------
  // Arithmetic of bit strings

  lemma FromBitsSnoc(s: seq<bool>, i: nat)
    requires i < |s|
    ensures FromBits(s[..i + 1]) == 2 * FromBits(s[..i]) + Digit(s[i])
  {
    assert s[..i + 1][..i] == s[..i];
  }

  /** Eight bits read as a number, spelled out. */
  lemma FromBits8(s: seq<bool>)
    requires |s| == 8
    ensures FromBits(s) == 128 * Digit(s[0]) + 64 * Digit(s[1]) + 32 * Digit(s[2]) + 16 * Digit(s[3])
      + 8 * Digit(s[4]) + 4 * Digit(s[5]) + 2 * Digit(s[6]) + Digit(s[7])
  {
    assert s[..0] == [];
    assert s[..8] == s;
    FromBitsSnoc(s, 0);
    FromBitsSnoc(s, 1);
    FromBitsSnoc(s, 2);
    FromBitsSnoc(s, 3);
    FromBitsSnoc(s, 4);
    FromBitsSnoc(s, 5);
    FromBitsSnoc(s, 6);
    FromBitsSnoc(s, 7);
    Horner8(FromBits(s[..1]), FromBits(s[..2]), FromBits(s[..3]), FromBits(s[..4]),
      FromBits(s[..5]), FromBits(s[..6]), FromBits(s[..7]), FromBits(s[..8]),
      Digit(s[0]), Digit(s[1]), Digit(s[2]), Digit(s[3]), Digit(s[4]), Digit(s[5]), Digit(s[6]), Digit(s[7]));
  }

  /** Eight doubling steps, each shifting in one digit. */
  lemma Horner8(v1: int, v2: int, v3: int, v4: int, v5: int, v6: int, v7: int, v8: int,
                d0: int, d1: int, d2: int, d3: int, d4: int, d5: int, d6: int, d7: int)
    requires v1 == d0 && v2 == 2 * v1 + d1 && v3 == 2 * v2 + d2 && v4 == 2 * v3 + d3
    requires v5 == 2 * v4 + d4 && v6 == 2 * v5 + d5 && v7 == 2 * v6 + d6 && v8 == 2 * v7 + d7
    ensures v8 == 128 * d0 + 64 * d1 + 32 * d2 + 16 * d3 + 8 * d4 + 4 * d5 + 2 * d6 + d7
  {
  }

  lemma {:induction false} FromBitsAppend(a: seq<bool>, b: seq<bool>)
    ensures FromBits(a + b) == FromBits(a) * Pow2(|b|) + FromBits(b)
    decreases |b|
  {
    if |b| == 0 {
      assert a + b == a;
    } else {
      var b' := b[..|b| - 1];
      assert (a + b)[..|a + b| - 1] == a + b';
      assert (a + b)[|a + b| - 1] == b[|b| - 1];
      FromBitsAppend(a, b');
      AppendStep(FromBits(a), FromBits(b'), Digit(b[|b| - 1]), Pow2(|b'|));
    }
  }

  /** Reading back `n` big-endian bits yields the value modulo `2^n`. */
  lemma {:induction false} FromToBits(v: nat, n: nat)
    ensures FromBits(ToBits(v, n)) == v % Pow2(n)
  {
    if n > 0 {
      var bits := ToBits(v, n);
      assert bits[..n - 1] == ToBits(v / 2, n - 1);
      FromToBits(v / 2, n - 1);
      DivMod2(v, n);
    }
  }

  lemma DivMod2(v: nat, n: nat)
    requires n > 0
    ensures 2 * ((v / 2) % Pow2(n - 1)) + v % 2 == v % Pow2(n)
  {
    var q := v / 2;
    var p := Pow2(n - 1);
    assert Pow2(n) == 2 * p;
    var a := q / p;
    var b := q % p;
    assert v == 2 * q + v % 2;
    assert v == (2 * p) * a + (2 * b + v % 2);
    LemmaModUnique(v, 2 * p, a, 2 * b + v % 2);
  }

  lemma LemmaModUnique(v: int, m: int, a: int, r: int)
    requires m > 0 && 0 <= r < m && v == m * a + r
    ensures v % m == r && v / m == a
  {
    var d := a - v / m;
    assert m * d == v % m - r;
    MulMono(m, d);
  }

  lemma MulMono(m: int, d: int)
    requires m > 0
    ensures d >= 1 ==> m * d >= m
    ensures d <= -1 ==> m * d <= -m
  {
  }

  lemma MulLe(a: nat, x: int, y: int)
    requires x <= y
    ensures a * x <= a * y
  {
  }

  /** A bit string denotes less than two to its length. */
  lemma {:induction false} FromBitsBound(bits: seq<bool>)
    ensures FromBits(bits) < Pow2(|bits|)
  {
    if |bits| > 0 {
      FromBitsBound(bits[..|bits| - 1]);
    }
  }

  /** The `i`-th bit of `ToBits(v, n)` is bit `n - 1 - i` of `v`. */
  lemma {:induction false} ToBitsIndex(v: nat, n: nat, i: nat)
    requires i < n
    ensures ToBits(v, n)[i] == ((v / Pow2(n - 1 - i)) % 2 == 1)
  {
    if i < n - 1 {
      ToBitsIndex(v / 2, n - 1, i);
      DivDiv(v, 2, Pow2(n - 2 - i));
    }
  }

  lemma DivDiv(v: nat, a: nat, b: nat)
    requires a > 0 && b > 0
    ensures v / a / b == v / (a * b)
  {
    var q := v / a;
    var r := v % a;
    var q2 := q / b;
    var r2 := q % b;
    assert v == a * q + r;
    assert q == b * q2 + r2;
    assert a * q == a * (b * q2) + a * r2;
    assert a * (b * q2) == (a * b) * q2;
    assert v == (a * b) * q2 + (a * r2 + r);
    MulLe(a, r2, b - 1);
    assert a * (b - 1) == a * b - a;
    LemmaModUnique(v, a * b, q2, a * r2 + r);
  }

  lemma {:induction false} Pow2Monotone(a: nat, b: nat)
    requires a <= b
    ensures Pow2(a) <= Pow2(b)
    decreases b
  {
    if a < b {
      Pow2Monotone(a, b - 1);
    }
  }

  // ---------------------------------------------------------------------------
  // Streams written, streams read

  /** Bits appended after a flush start at a fresh byte. */
  lemma FlushThenPut(w: Writer, more: seq<bool>)
    requires WriterShape(w)
    ensures Holds(PutBits(Flush(w), more), Flush(w).out, more)
  {
    HoldsEmpty(Flush(w).out);
    HoldsPutBits(Flush(w), Flush(w).out, [], more);
    assert [] + more == more;
  }

  /** The bits of a packed stream, followed by anything, begin with the
      packed bits. */
  lemma PacksPrefix(bytes: seq<Byte>, bits: seq<bool>, rest: seq<Byte>)
    requires Packs(bytes, bits)
    ensures |bits| <= 8 * |bytes + rest|
    ensures Bits(bytes + rest)[..|bits|] == bits
  {
    forall k | 0 <= k < |bits|
      ensures Bits(bytes + rest)[k] == bits[k]
    {
      assert (bytes + rest)[k / 8] == bytes[k / 8];
      assert bytes[k / 8][k % 8] == (8 * (k / 8) + k % 8 < |bits| && bits[8 * (k / 8) + k % 8]);
    }
  }

  /** A stream packing whole bytes reads back bit for bit. */
  lemma PacksExact(bytes: seq<Byte>, bits: seq<bool>)
    requires Packs(bytes, bits) && |bits| % 8 == 0
    ensures Bits(bytes) == bits
  {
    PacksPrefix(bytes, bits, []);
    assert bytes + [] == bytes;
  }

  lemma BitsAppend(bytes: seq<Byte>, b: Byte)
    ensures Bits(bytes + [b]) == Bits(bytes) + b
  {
    var l := Bits(bytes + [b]);
    var r := Bits(bytes) + b;
    forall k | 0 <= k < |l|
      ensures l[k] == r[k]
    {
      if k < 8 * |bytes| {
        assert (bytes + [b])[k / 8] == bytes[k / 8];
      } else {
        assert (bytes + [b])[k / 8] == b;
      }
    }
  }

  /** `n` raw bits read into `acc` give less than `(acc + 1) * 2^n`. */
  lemma {:induction false} ReadRawBound(r: Reader, n: nat, acc: nat)
    requires ReaderShape(r)
    ensures ReadRaw(r, n, acc).0 < (acc + 1) * Pow2(n)
    decreases n
  {
    if n > 0 {
      var (b, r') := GetBit(r);
      var acc' := 2 * acc + Digit(b);
      ReadRawBound(r', n - 1, acc');
      BoundStep(ReadRaw(r, n, acc).0, acc', acc, Pow2(n - 1));
    }
  }

  lemma BoundStep(v: int, a1: nat, acc: nat, q: nat)
    requires v < (a1 + 1) * q && a1 <= 2 * acc + 1
    ensures v < (acc + 1) * (2 * q)
  {
    MulLe(q, a1 + 1, 2 * acc + 2);
    assert q * (2 * acc + 2) == (acc + 1) * (2 * q);
  }

  /** The reader after `n` more bits. */
  function Skip(r: Reader, n: nat): (r': Reader)
    requires ReaderShape(r)
    ensures ReaderShape(r') && r'.input == r.input
    decreases n
  {
    if n == 0 then r else Skip(GetBit(r).1, n - 1)
  }

  /** `r`'s next bits are `bits`. */
  ghost predicate Delivers(r: Reader, bits: seq<bool>)
    decreases |bits|
  {
    && ReaderShape(r)
    && (|bits| > 0 ==> GetBit(r).0 == bits[0] && Delivers(GetBit(r).1, bits[1..]))
  }

  /** A reader at stream bit `k` delivers the stream's bits from `k` on. */
  lemma {:induction false} StreamDelivers(r: Reader, k: nat, bits: seq<bool>)
    requires ReadsAt(r, k) && k + |bits| <= 8 * |r.input|
    requires forall i :: 0 <= i < |bits| ==> bits[i] == StreamBit(r.input, k + i)
    ensures Delivers(r, bits)
    decreases |bits|
  {
    if |bits| > 0 {
      GetBitReads(r, k);
      var rest := bits[1..];
      forall i | 0 <= i < |rest|
        ensures rest[i] == StreamBit(r.input, k + 1 + i)
      {
        assert rest[i] == bits[i + 1];
      }
      StreamDelivers(GetBit(r).1, k + 1, rest);
    }
  }

  /** Delivering `a + b` is delivering `a`, then `b` from where `a` ends. */
  lemma {:induction false} DeliversSplit(r: Reader, a: seq<bool>, b: seq<bool>)
    requires Delivers(r, a + b)
    ensures Delivers(r, a) && Delivers(Skip(r, |a|), b)
    decreases |a|
  {
    if |a| > 0 {
      assert (a + b)[1..] == a[1..] + b;
      DeliversSplit(GetBit(r).1, a[1..], b);
    } else {
      assert a + b == b;
    }
  }

  /** Skipping one more bit is reading one bit after the others. */
  lemma {:induction false} SkipSnoc(r: Reader, n: nat)
    requires ReaderShape(r)
    ensures Skip(r, n + 1) == GetBit(Skip(r, n)).1
    decreases n
  {
    if n > 0 {
      SkipSnoc(GetBit(r).1, n - 1);
    }
  }

  /** Reading raw bits a reader delivers accumulates the number they denote,
      and leaves the reader past them. */
  lemma {:induction false} DeliversRaw(r: Reader, bits: seq<bool>, acc: nat)
    requires Delivers(r, bits)
    ensures ReadRaw(r, |bits|, acc) == (acc * Pow2(|bits|) + FromBits(bits), Skip(r, |bits|))
    decreases |bits|
  {
    var n := |bits|;
    if n > 0 {
      var b := GetBit(r).0;
      var r' := GetBit(r).1;
      var acc' := 2 * acc + Digit(b);
      var rest := bits[1..];
      DeliversRaw(r', rest, acc');
      FromBitsCons(bits);
      var q := Pow2(n - 1);
      ShiftIn(acc, Digit(b), Pow2(n), q, acc');
      assert ReadRaw(r, n, acc).0 == acc' * q + FromBits(rest);
    }
  }

  /** A leading bit weighs two to the number of bits after it. */
  lemma FromBitsCons(s: seq<bool>)
    requires |s| > 0
    ensures FromBits(s) == Digit(s[0]) * Pow2(|s| - 1) + FromBits(s[1..])
  {
    var head := [s[0]];
    var rest := s[1..];
    assert s == head + rest;
    FromBitsAppend(head, rest);
    assert head[..0] == [];
    assert FromBits(head) == Digit(s[0]);
    var p := Pow2(|rest|);
    assert FromBits(s) == FromBits(head) * p + FromBits(rest);
  }

  lemma AppendStep(x: nat, y: nat, d: nat, p: nat)
    ensures 2 * (x * p + y) + d == x * (2 * p) + (2 * y + d)
  {
  }

  lemma ShiftIn(acc: nat, d: nat, p: nat, q: nat, acc': nat)
    requires p == 2 * q && acc' == 2 * acc + d
    ensures acc * p + d * q == acc' * q
  {
  }

  /** The number big-endian bytes denote. */
  function BigEndian(bytes: seq<Byte>): nat {
    if |bytes| == 0 then 0 else BigEndian(bytes[..|bytes| - 1]) * 256 + FromBits(bytes[|bytes| - 1])
  }

  lemma {:induction false} BigEndianBits(bytes: seq<Byte>)
    ensures BigEndian(bytes) == FromBits(Bits(bytes))
  {
    if |bytes| > 0 {
      var init := bytes[..|bytes| - 1];
      var last := bytes[|bytes| - 1];
      assert bytes == init + [last];
      BigEndianBits(init);
      BitsAppend(init, last);
      FromBitsAppend(Bits(init), last);
      assert Pow2(8) == 256;
    }
  }

  lemma BigEndianBound(bytes: seq<Byte>)
    ensures BigEndian(bytes) < Pow2(8 * |bytes|)
  {
    BigEndianBits(bytes);
    FromBitsBound(Bits(bytes));
  }

  /** Fewer than eight bytes shift left by a byte without leaving the
      counter's range. */
  lemma ShiftFits(pre: seq<Byte>)
    requires |pre| < COUNTER_BYTES
    ensures (BigEndian(pre) * 256) % COUNTER_MODULUS == BigEndian(pre) * 256
  {
    BigEndianBound(pre);
    Pow2Monotone(8 * |pre|, 56);
    CounterModulus();
    assert BigEndian(pre) * 256 < COUNTER_MODULUS;
  }

  /** The fold reads big-endian bytes; with at most eight of them nothing is
      shifted out of the counter. */
  lemma {:induction false} TailCountIsBigEndian(pre: seq<Byte>, bytes: seq<Byte>)
    requires |pre| + |bytes| <= COUNTER_BYTES
    ensures TailCount(bytes, BigEndian(pre)) == BigEndian(pre + bytes)
    decreases |bytes|
  {
    if |bytes| == 0 {
      assert pre + bytes == pre;
    } else {
      var pre' := pre + [bytes[0]];
      assert pre'[..|pre'| - 1] == pre;
      assert BigEndian(pre') == BigEndian(pre) * 256 + FromBits(bytes[0]);
      ShiftFits(pre);
      TailCountIsBigEndian(pre', bytes[1..]);
      assert pre' + bytes[1..] == pre + bytes;
    }
  }

  /** The shift-and-mask loop produces the big-endian representation. */
  lemma MsbBitsAreBits(v: nat, n: nat)
    ensures MsbBits(v, n) == ToBits(v, n)
  {
    forall i | 0 <= i < n
      ensures MsbBits(v, n)[i] == ToBits(v, n)[i]
    {
      ToBitsIndex(v, n, i);
    }
  }

  /** The decoder's constructor and the big-endian reading agree. */
  lemma TailIsBigEndian(bytes: seq<Byte>)
    requires |bytes| <= COUNTER_BYTES
    ensures TailCount(bytes, 0) == BigEndian(bytes)
  {
    TailCountIsBigEndian([], bytes);
    assert [] + bytes == bytes;
  }

  /** The trailer round trip: the eight bytes that pack the counter's 64 bits
      are read back by the decoder constructor as the counter. */
  lemma TrailerRoundTrip(bytes: seq<Byte>, count: nat)
    requires count < COUNTER_MODULUS
    requires Packs(bytes, MsbBits(count, COUNTER_BITS))
    ensures |bytes| == COUNTER_BYTES
    ensures BigEndian(bytes) == count && TailCount(bytes, 0) == count
  {
    PacksExact(bytes, MsbBits(count, COUNTER_BITS));
    MsbBitsAreBits(count, COUNTER_BITS);
    FromToBits(count, COUNTER_BITS);
    CounterModulus();
    assert FromBits(Bits(bytes)) == count % COUNTER_MODULUS;
    LemmaModUnique(count, COUNTER_MODULUS, 0, count);
    BigEndianBits(bytes);
    assert BigEndian([]) == 0;
    TailCountIsBigEndian([], bytes);
    assert [] + bytes == bytes;
  }

  /** Flushing, putting `more` and flushing again leaves the held bits
      packed, followed by `more` packed. */
  lemma FlushPutFlush(w: Writer, bits: seq<bool>, more: seq<bool>)
    requires WriterShape(w) && Holds(w, [], bits)
    ensures var f1 := Flush(w).out;
      var out := Flush(PutBits(Flush(w), more)).out;
      && |f1| <= |out| && out[..|f1|] == f1
      && Packs(f1, bits) && Packs(out[|f1|..], more)
  {
    var f1 := Flush(w);
    FlushPacks(w, [], bits);
    assert f1.out[0..] == f1.out;
    FlushThenPut(w, more);
    FlushPacks(PutBits(f1, more), f1.out, more);
  }

  /** The trailer after `put_tail` is exactly the count's eight bytes. */
  lemma FlushCountTail(w: Writer, bits: seq<bool>, count: nat)
    requires WriterShape(w) && Holds(w, [], bits) && count < COUNTER_MODULUS
    ensures var f1 := Flush(w).out;
      var out := Flush(PutBits(Flush(w), MsbBits(count, COUNTER_BITS))).out;
      && |out| == |f1| + COUNTER_BYTES && out[..|f1|] == f1 && Packs(f1, bits)
      && BigEndian(out[|f1|..]) == count
  {
    var f1 := Flush(w).out;
    var out := Flush(PutBits(Flush(w), MsbBits(count, COUNTER_BITS))).out;
    FlushPutFlush(w, bits, MsbBits(count, COUNTER_BITS));
    TrailerRoundTrip(out[|f1|..], count);
  }

  /** Flushing, writing a 64-bit count and flushing again leaves the held
      bits packed and zero-padded, followed by the count's eight bytes. */
  lemma FlushCountFlush(w: Writer, bits: seq<bool>, count: nat)
    requires WriterShape(w) && Holds(w, [], bits) && count < COUNTER_MODULUS
    ensures var out := Flush(PutBits(Flush(w), MsbBits(count, COUNTER_BITS))).out;
      && |out| >= COUNTER_BYTES
      && Packs(out[..|out| - COUNTER_BYTES], bits)
      && BigEndian(out[|out| - COUNTER_BYTES..]) == count
  {
    FlushCountTail(w, bits, count);
  }

  /** `get()` reads a raw symbol's eight bits back as the symbol and stops
      right after them. */
  lemma RawSymbolDelivered(r: Reader, symbol: nat, rest: seq<bool>)
    requires symbol < SYMBOL_NUM && Delivers(r, MsbBits(symbol, SYMBOL_BIT) + rest)
    ensures ReadRaw(r, SYMBOL_BIT, 0).0 == symbol
    ensures Delivers(ReadRaw(r, SYMBOL_BIT, 0).1, rest)
  {
    var raw := MsbBits(symbol, SYMBOL_BIT);
    DeliversSplit(r, raw, rest);
    DeliversRaw(r, raw, 0);
    RawSymbolRoundTrip(symbol);
  }

  /** The raw-symbol round trip: `(symbol >> i) & 1` for `i` from 7 down to 0,
      read back by `symbol = symbol << 1 | get_bit()`, gives the symbol. */
  lemma RawSymbolRoundTrip(symbol: nat)
    requires symbol < SYMBOL_NUM
    ensures FromBits(MsbBits(symbol, SYMBOL_BIT)) == symbol
  {
    ReservedMarkers();
    MsbRoundTrip(symbol, SYMBOL_BIT);
  }

  /** Any value below `2^n` survives being written as `n` bits, most
      significant first, and read back. */
  lemma MsbRoundTrip(v: nat, n: nat)
    requires v < Pow2(n)
    ensures FromBits(MsbBits(v, n)) == v
  {
    MsbBitsAreBits(v, n);
    FromToBits(v, n);
    LemmaModUnique(v, Pow2(n), 0, v);
  }
}
