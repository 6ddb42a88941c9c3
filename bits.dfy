/**
 * Facts about 32-bit words used by the packer: single bits and the byte found
 * at a given shift.  A bit position of a 32-bit word is a `BitIndex`, a 5-bit
 * value, so that every position is in range by construction.
 */
module Bits {
  type BitIndex = bv5

  /** Bit `b` of `w` is set. */
  predicate BitSet(w: bv32, b: BitIndex) {
    w & (1 << b) != 0
  }

  lemma OrBit(x: bv32, y: bv32, b: BitIndex)
    ensures BitSet(x | y, b) <==> BitSet(x, b) || BitSet(y, b)
  {
    var mask: bv32 := 1 << b;
    assert (x | y) & mask == (x & mask) | (y & mask);
  }

  lemma SingleBit(o: BitIndex, b: BitIndex)
    ensures BitSet(1 << o, b) <==> o == b
  {
  }

  /**
   * The bit position held in an `int` (the C source keeps wiring entries as
   * `int`), narrowed to a `BitIndex` by counting up from 0.  A direct
   * `o as BitIndex` would put an int-to-bit-vector conversion into every proof
   * about the packed word, which the solver handles very slowly; this
   * recursion keeps the conversion out, and `PositionValue` gives its value.
   */
  function Position(o: int): BitIndex
    requires 0 <= o < 32
  {
    if o == 0 then 0 else Position(o - 1) + 1
  }

  /** Narrowing keeps the value of every position in range. */
  lemma {:induction false} PositionValue(o: int)
    requires 0 <= o < 32
    ensures Position(o) as int == o
  {
    if o > 0 {
      PositionValue(o - 1);
      var p := Position(o - 1);
      assert (p + 1) as int == p as int + 1;
    }
  }

  /** Two in-range positions narrow to the same `BitIndex` iff they are equal. */
  lemma PositionInjective(o: int, q: int)
    requires 0 <= o < 32 && 0 <= q < 32
    ensures Position(o) == Position(q) <==> o == q
  {
    PositionValue(o);
    PositionValue(q);
  }

  /** Every `BitIndex` is the narrowing of its own value. */
  lemma PositionOfIndex(b: BitIndex)
    ensures Position(b as int) == b
  {
    PositionValue(b as int);
  }

  /** `1 << o` with an `int` shift amount sets the bit at the narrowed position. */
  lemma ShiftAtPosition(o: int)
    requires 0 <= o < 32
    ensures (1 as bv32) << o == (1 as bv32) << Position(o)
  {
    PositionValue(o);
    assert (o as BitIndex) as int == o;
  }

  /** ORing in `1 << o` when `lit` holds sets bit `b` iff `lit` and `o` is `b`, and keeps every bit already set. */
  lemma OrLedBit(x: bv32, lit: bool, o: BitIndex, b: BitIndex)
    ensures BitSet(x | (if lit then 1 << o else 0), b) <==> BitSet(x, b) || (lit && o == b)
  {
    var add: bv32 := if lit then 1 << o else 0;
    OrBit(x, add, b);
    if lit {
      SingleBit(o, b);
    }
  }

  /**
   * Two words that agree on each of the 32 bits are equal.  The bits are listed
   * one by one so that the solver sees 32 ground facts it can decide directly;
   * `WordsEqualByBits` instantiates its quantifier at each of them.
   */
  lemma AgreeOnEveryBit(x: bv32, y: bv32)
    requires BitSet(x, 0) == BitSet(y, 0) && BitSet(x, 1) == BitSet(y, 1)
    requires BitSet(x, 2) == BitSet(y, 2) && BitSet(x, 3) == BitSet(y, 3)
    requires BitSet(x, 4) == BitSet(y, 4) && BitSet(x, 5) == BitSet(y, 5)
    requires BitSet(x, 6) == BitSet(y, 6) && BitSet(x, 7) == BitSet(y, 7)
    requires BitSet(x, 8) == BitSet(y, 8) && BitSet(x, 9) == BitSet(y, 9)
    requires BitSet(x, 10) == BitSet(y, 10) && BitSet(x, 11) == BitSet(y, 11)
    requires BitSet(x, 12) == BitSet(y, 12) && BitSet(x, 13) == BitSet(y, 13)
    requires BitSet(x, 14) == BitSet(y, 14) && BitSet(x, 15) == BitSet(y, 15)
    requires BitSet(x, 16) == BitSet(y, 16) && BitSet(x, 17) == BitSet(y, 17)
    requires BitSet(x, 18) == BitSet(y, 18) && BitSet(x, 19) == BitSet(y, 19)
    requires BitSet(x, 20) == BitSet(y, 20) && BitSet(x, 21) == BitSet(y, 21)
    requires BitSet(x, 22) == BitSet(y, 22) && BitSet(x, 23) == BitSet(y, 23)
    requires BitSet(x, 24) == BitSet(y, 24) && BitSet(x, 25) == BitSet(y, 25)
    requires BitSet(x, 26) == BitSet(y, 26) && BitSet(x, 27) == BitSet(y, 27)
    requires BitSet(x, 28) == BitSet(y, 28) && BitSet(x, 29) == BitSet(y, 29)
    requires BitSet(x, 30) == BitSet(y, 30) && BitSet(x, 31) == BitSet(y, 31)
    ensures x == y
  {
  }

  /** Two words with the same 32 bits are equal. */
  lemma WordsEqualByBits(x: bv32, y: bv32)
    requires forall b: BitIndex :: BitSet(x, b) <==> BitSet(y, b)
    ensures x == y
  {
    AgreeOnEveryBit(x, y);
  }

  /** The byte `(uint8_t)(w >> shift)`: the conversion keeps the low eight bits. */
  function ByteAt(w: bv32, shift: nat): bv8
    requires shift < 32
  {
    ((w >> Position(shift)) & 0xFF) as bv8
  }

  lemma ByteAtLiteral(w: bv32)
    ensures ByteAt(w, 24) == ((w >> 24) & 0xFF) as bv8
    ensures ByteAt(w, 16) == ((w >> 16) & 0xFF) as bv8
    ensures ByteAt(w, 8) == ((w >> 8) & 0xFF) as bv8
    ensures ByteAt(w, 0) == (w & 0xFF) as bv8
  {
    PositionValue(24);
    PositionValue(16);
    PositionValue(8);
    PositionValue(0);
  }

  /** Recombination of the four bytes of `w`, most significant first, is `w`. */
  lemma ScalarBytesRoundTrip(w: bv32)
    ensures ((ByteAt(w, 24) as bv32) << 24) | ((ByteAt(w, 16) as bv32) << 16)
          | ((ByteAt(w, 8) as bv32) << 8) | (ByteAt(w, 0) as bv32) == w
  {
    ByteAtLiteral(w);
  }

  /** The bytes of a big-endian recombination are the bytes recombined. */
  lemma ScalarWordRoundTrip(b0: bv8, b1: bv8, b2: bv8, b3: bv8, w: bv32)
    requires w == ((b0 as bv32) << 24) | ((b1 as bv32) << 16) | ((b2 as bv32) << 8) | (b3 as bv32)
    ensures ByteAt(w, 24) == b0 && ByteAt(w, 16) == b1 && ByteAt(w, 8) == b2 && ByteAt(w, 0) == b3
  {
    ByteAtLiteral(w);
  }
}
