/** Small bit helpers of the code base (generic in the C++ source),
    instantiated at the 8-bit type of the codec's symbols and buffer bytes. */
module BitMath {

  /** The two-valued bit enumeration. */
  datatype Bit = Zero | One

  /** The integer value of a bit. */
  function BitValue(b: Bit): bv8 {
    if b == Zero then 0 else 1
  }

  /** `low_bit`: the value with only the lowest set bit of `v` kept. */
  function LowBit(v: bv8): (r: bv8)
    ensures v == 0 ==> r == 0
    ensures v != 0 ==> r != 0 && r & (r - 1) == 0
    ensures v & r == r
    ensures v & (r - 1) == 0
  {
    v & (!v + 1)
  }

  /** `bit_at`: bit `i` of `v` as a `Bit`. */
  function BitAt(v: bv8, i: nat): (r: Bit)
    requires i < 8
    ensures r == One <==> v & (1 << i) != 0
  {
    if (v >> i) & 1 == 1 then One else Zero
  }

  /** `value << bit`: shift left by one and append `bit` as the new lowest bit. */
  function AppendBit(v: bv8, b: Bit): (r: bv8)
    ensures r == v + v + BitValue(b)
    ensures BitAt(r, 0) == b
    ensures forall i :: 1 <= i < 8 ==> BitAt(r, i) == BitAt(v, i - 1)
  {
    (v << 1) | BitValue(b)
  }

  /** `value <<= bit`: stores the appended value and returns the stored value. */
  method AppendBitAssign(v: bv8, b: Bit) returns (stored: bv8, result: bv8)
    ensures stored == result
    ensures stored == v + v + BitValue(b)
  {
    stored := (v << 1) | BitValue(b);
    result := stored;
  }

  /** `set_bit`: ORs `b` into position `i`; it never clears a bit. */
  function SetBit(v: bv8, i: nat, b: Bit): (r: bv8)
    requires i < 8
    ensures b == Zero ==> r == v
    ensures b == One ==> BitAt(r, i) == One
    ensures forall j :: 0 <= j < 8 && j != i ==> BitAt(r, j) == BitAt(v, j)
    ensures r & v == v
  {
    assert forall j :: 0 <= j < 8 && j != i ==> BitAt(v | (BitValue(b) << i), j) == BitAt(v, j) by {
      forall j | 0 <= j < 8 && j != i
        ensures BitAt(v | (BitValue(b) << i), j) == BitAt(v, j)
      {
        OrOtherBit(v, i, b, j);
      }
    }
    v | (BitValue(b) << i)
  }

  /** ORing a value into bit `i` leaves bit `j` alone. */
  lemma OrOtherBit(v: bv8, i: nat, b: Bit, j: nat)
    requires i < 8 && j < 8 && j != i
    ensures BitAt(v | (BitValue(b) << i), j) == BitAt(v, j)
  {
  }

  /** Setting the same bit twice is the same as setting it once. */
  lemma SetBitIdempotent(v: bv8, i: nat, b: Bit)
    requires i < 8
    ensures SetBit(SetBit(v, i, b), i, b) == SetBit(v, i, b)
  {
  }

  /** After setting bit `i` to one, reading it gives one and nothing else moved. */
  lemma SetThenRead(v: bv8, i: nat, j: nat)
    requires i < 8 && j < 8
    ensures BitAt(SetBit(v, i, One), j) == (if j == i then One else BitAt(v, j))
  {
  }
}
