/**
 * Bit packing of one angular slice into a 32-bit word, and the split of that
 * word into four bytes, most significant first.
 *
 * The packer ORs `1 << ledOrder[i]` into an accumulator for every lit LED i.
 * The accumulator is modelled on `bv32`, with `1 << 31` meaning "set bit 31".
 */
module Packing {
  import opened Wiring
  import opened Bits

  /** A wiring table the packer can use: one in-range bit position per LED. */
  predicate WellFormedOrder(order: seq<int>) {
    |order| == NumLEDs && forall i :: 0 <= i < NumLEDs ==> 0 <= order[i] < 32
  }

  /**
   * The accumulator after the first `n` LEDs of a slice have been visited:
   * every lit LED i among them has ORed in the bit at position `order[i]`.
   */
  function Pack(lits: seq<bool>, order: seq<int>, n: nat): bv32
    requires WellFormedOrder(order) && n <= NumLEDs && n <= |lits|
  {
    if n == 0 then 0
    else Pack(lits, order, n - 1) | (if lits[n - 1] then 1 << Position(order[n - 1]) else 0)
  }

  /** The bit `1 << o` the packer ORs in for an LED wired to position `o`, with an `int` shift amount. */
  function LedBit(o: int): (bit: bv32)
    requires 0 <= o < 32
    ensures bit == 1 << Position(o)
  {
    ShiftAtPosition(o);
    1 << o
  }

  /** Visiting LED `n` ORs in its bit if it is lit and leaves the accumulator alone otherwise. */
  lemma PackNext(lits: seq<bool>, order: seq<int>, n: nat)
    requires WellFormedOrder(order) && n < NumLEDs && n < |lits|
    ensures Pack(lits, order, n + 1) == if lits[n] then Pack(lits, order, n) | LedBit(order[n]) else Pack(lits, order, n)
  {
  }

  /** Visiting LED n - 1 sets bit `b` iff that LED is lit and wired to `b`, and keeps every bit already set. */
  lemma PackStepBit(lits: seq<bool>, order: seq<int>, n: nat, b: BitIndex)
    requires WellFormedOrder(order) && 0 < n <= NumLEDs && n <= |lits|
    ensures BitSet(Pack(lits, order, n), b)
        <==> BitSet(Pack(lits, order, n - 1), b) || (lits[n - 1] && Position(order[n - 1]) == b)
  {
    OrLedBit(Pack(lits, order, n - 1), lits[n - 1], Position(order[n - 1]), b);
  }

  /** Some lit LED among the first `n` is wired to bit `b`. */
  predicate Drives(lits: seq<bool>, order: seq<int>, n: nat, b: BitIndex)
    requires WellFormedOrder(order) && n <= NumLEDs && n <= |lits|
  {
    exists i :: 0 <= i < n && Position(order[i]) == b && lits[i]
  }

  /** Bit `b` of a packed slice is set iff some visited LED wired to bit `b` is lit. */
  lemma {:induction false} PackBit(lits: seq<bool>, order: seq<int>, n: nat, b: BitIndex)
    requires WellFormedOrder(order) && n <= NumLEDs && n <= |lits|
    ensures BitSet(Pack(lits, order, n), b) <==> Drives(lits, order, n, b)
  {
    if n > 0 {
      PackBit(lits, order, n - 1, b);
      PackStepBit(lits, order, n, b);
      if lits[n - 1] && Position(order[n - 1]) == b {
        assert Drives(lits, order, n, b);
      }
    }
  }

  /** With a permuted wiring table, LED `k` is the only LED wired to bit `order[k]`. */
  lemma OnlyLedAtPosition(order: seq<int>, k: nat)
    requires IsPermutation(order, NumLEDs) && k < NumLEDs
    ensures forall i :: 0 <= i < NumLEDs && Position(order[i]) == Position(order[k]) ==> i == k
  {
    forall i | 0 <= i < NumLEDs && Position(order[i]) == Position(order[k])
      ensures i == k
    {
      PositionInjective(order[i], order[k]);
    }
  }

  /** With a permuted wiring table, bit `order[k]` is driven iff LED `k` is lit. */
  lemma DrivesOwnBit(lits: seq<bool>, order: seq<int>, k: nat)
    requires IsPermutation(order, NumLEDs) && |lits| == NumLEDs && k < NumLEDs
    ensures Drives(lits, order, NumLEDs, Position(order[k])) <==> lits[k]
  {
    OnlyLedAtPosition(order, k);
  }

  /** With a permuted wiring table, bit `order[k]` of the packed slice is set iff LED `k` is lit. */
  lemma PackBitOfLed(lits: seq<bool>, order: seq<int>, k: nat)
    requires IsPermutation(order, NumLEDs) && |lits| == NumLEDs && k < NumLEDs
    ensures BitSet(Pack(lits, order, NumLEDs), Position(order[k])) <==> lits[k]
  {
    PackBit(lits, order, NumLEDs, Position(order[k]));
    DrivesOwnBit(lits, order, k);
  }

  /** With a permuted wiring table, every bit position is driven by some LED. */
  lemma SomeLedAtPosition(order: seq<int>, b: BitIndex) returns (k: nat)
    requires IsPermutation(order, NumLEDs)
    ensures k < NumLEDs && Position(order[k]) == b
  {
    assert b as int in order;
    k :| 0 <= k < |order| && order[k] == b as int;
    PositionOfIndex(b);
  }

  /** A slice with no lit LED packs to 0x00000000. */
  lemma {:induction false} PackNoneLit(lits: seq<bool>, order: seq<int>, n: nat)
    requires WellFormedOrder(order) && n <= NumLEDs && n <= |lits|
    requires forall i :: 0 <= i < n ==> !lits[i]
    ensures Pack(lits, order, n) == 0
  {
    if n > 0 {
      PackNoneLit(lits, order, n - 1);
    }
  }

  /** With a permuted wiring table, a slice whose 32 LEDs are all lit packs to 0xFFFFFFFF. */
  lemma PackAllLit(lits: seq<bool>, order: seq<int>)
    requires IsPermutation(order, NumLEDs) && |lits| == NumLEDs
    requires forall i :: 0 <= i < NumLEDs ==> lits[i]
    ensures Pack(lits, order, NumLEDs) == 0xFFFF_FFFF
  {
    var w := Pack(lits, order, NumLEDs);
    forall b: BitIndex
      ensures BitSet(w, b) <==> BitSet(0xFFFF_FFFF, b)
    {
      PackBit(lits, order, NumLEDs, b);
      var k := SomeLedAtPosition(order, b);
      assert lits[k];
    }
    WordsEqualByBits(w, 0xFFFF_FFFF);
  }

  /** The identity wiring table: LED i drives bit i. */
  function IdentityOrder(): (order: seq<int>)
    ensures |order| == NumLEDs && forall i :: 0 <= i < NumLEDs ==> order[i] == i
  {
    seq(NumLEDs, i => i)
  }

  /** Under the identity wiring, bit `b` is driven iff `b` is the position of the only lit LED `r`. */
  lemma DrivesSingle(lits: seq<bool>, r: nat, b: BitIndex)
    requires |lits| == NumLEDs && r < NumLEDs
    requires forall i :: 0 <= i < NumLEDs ==> (lits[i] <==> i == r)
    ensures Drives(lits, IdentityOrder(), NumLEDs, b) <==> Position(r) == b
  {
    var order := IdentityOrder();
    if Position(r) == b {
      assert Position(order[r]) == b && lits[r];
    }
  }

  /** Under the identity wiring, a slice whose only lit LED is `r` packs to `1 << r`. */
  lemma PackSingleLit(lits: seq<bool>, r: nat)
    requires |lits| == NumLEDs && r < NumLEDs
    requires forall i :: 0 <= i < NumLEDs ==> (lits[i] <==> i == r)
    ensures Pack(lits, IdentityOrder(), NumLEDs) == (1 as bv32) << r
  {
    var w := Pack(lits, IdentityOrder(), NumLEDs);
    var bit: bv32 := 1 << Position(r);
    forall b: BitIndex
      ensures BitSet(w, b) <==> BitSet(bit, b)
    {
      PackBit(lits, IdentityOrder(), NumLEDs, b);
      DrivesSingle(lits, r, b);
      SingleBit(Position(r), b);
    }
    WordsEqualByBits(w, bit);
    ShiftAtPosition(r);
  }

  /** The table `order` with the entries of LEDs `p` and `q` exchanged. */
  function SwapEntries(order: seq<int>, p: nat, q: nat): (swapped: seq<int>)
    requires p < |order| && q < |order|
    ensures |swapped| == |order|
  {
    order[p := order[q]][q := order[p]]
  }

  /** Swapping two entries of a permuted table exchanges which of the two bits each lit LED drives. */
  lemma DrivesSwap(lits: seq<bool>, order: seq<int>, p: nat, q: nat, b: BitIndex)
    requires IsPermutation(order, NumLEDs) && |lits| == NumLEDs && p < NumLEDs && q < NumLEDs
    ensures WellFormedOrder(SwapEntries(order, p, q))
    ensures b == Position(order[p]) ==>
      (Drives(lits, SwapEntries(order, p, q), NumLEDs, b) <==> Drives(lits, order, NumLEDs, Position(order[q])))
    ensures b == Position(order[q]) ==>
      (Drives(lits, SwapEntries(order, p, q), NumLEDs, b) <==> Drives(lits, order, NumLEDs, Position(order[p])))
    ensures b != Position(order[p]) && b != Position(order[q]) ==>
      (Drives(lits, SwapEntries(order, p, q), NumLEDs, b) <==> Drives(lits, order, NumLEDs, b))
  {
    var swapped := SwapEntries(order, p, q);
    OnlyLedAtPosition(order, p);
    OnlyLedAtPosition(order, q);
    if b == Position(order[p]) {
      DrivesOwnBit(lits, order, q);
      if lits[q] {
        assert Position(swapped[q]) == b;
      }
    }
    if b == Position(order[q]) {
      DrivesOwnBit(lits, order, p);
      if lits[p] {
        assert Position(swapped[p]) == b;
      }
    }
    if b != Position(order[p]) && b != Position(order[q]) {
      if Drives(lits, order, NumLEDs, b) {
        var i :| 0 <= i < NumLEDs && Position(order[i]) == b && lits[i];
        assert Position(swapped[i]) == b;
      }
    }
  }

  /**
   * Swapping the entries of two LEDs in a permuted wiring table exchanges the
   * two corresponding bits of the packed slice and changes no other bit.
   */
  lemma PackSwapEntries(lits: seq<bool>, order: seq<int>, p: nat, q: nat, b: BitIndex)
    requires IsPermutation(order, NumLEDs) && |lits| == NumLEDs && p < NumLEDs && q < NumLEDs
    ensures WellFormedOrder(SwapEntries(order, p, q))
    ensures b == Position(order[p]) ==>
      (BitSet(Pack(lits, SwapEntries(order, p, q), NumLEDs), b) <==> BitSet(Pack(lits, order, NumLEDs), Position(order[q])))
    ensures b == Position(order[q]) ==>
      (BitSet(Pack(lits, SwapEntries(order, p, q), NumLEDs), b) <==> BitSet(Pack(lits, order, NumLEDs), Position(order[p])))
    ensures b != Position(order[p]) && b != Position(order[q]) ==>
      (BitSet(Pack(lits, SwapEntries(order, p, q), NumLEDs), b) <==> BitSet(Pack(lits, order, NumLEDs), b))
  {
    DrivesSwap(lits, order, p, q, b);
    PackBit(lits, SwapEntries(order, p, q), NumLEDs, b);
    PackBit(lits, order, NumLEDs, b);
    PackBit(lits, order, NumLEDs, Position(order[p]));
    PackBit(lits, order, NumLEDs, Position(order[q]));
  }

  /** The four bytes of a word in emission order, most significant first. */
  function WordBytes(w: bv32): (bytes: seq<bv8>)
    ensures |bytes| == 4
  {
    [ByteAt(w, 24), ByteAt(w, 16), ByteAt(w, 8), ByteAt(w, 0)]
  }

  /** Big-endian recombination of four bytes. */
  function WordFromBytes(bytes: seq<bv8>): bv32
    requires |bytes| == 4
  {
    ((bytes[0] as bv32) << 24) | ((bytes[1] as bv32) << 16) | ((bytes[2] as bv32) << 8) | (bytes[3] as bv32)
  }

  /** Recombining the emitted bytes big-endian gives back the word. */
  lemma WordBytesRoundTrip(w: bv32)
    ensures WordFromBytes(WordBytes(w)) == w
  {
    ScalarBytesRoundTrip(w);
  }

  /** Every four bytes are the emission of exactly one word. */
  lemma WordFromBytesRoundTrip(bytes: seq<bv8>)
    requires |bytes| == 4
    ensures WordBytes(WordFromBytes(bytes)) == bytes
  {
    ScalarWordRoundTrip(bytes[0], bytes[1], bytes[2], bytes[3], WordFromBytes(bytes));
  }
}
