/**
 * The LED wiring of the two HeliPOV blades.
 *
 * Entry i of a wiring table is the bit position, within the packed 32-bit slice
 * word, that drives LED i of the blade (LED 0 is the innermost).  The entry
 * `ledOrder[0] == 16` of the top blade, for instance, means that lighting the
 * first LED sets bit 16 of the word.
 */
module Wiring {
  /** Number of LEDs on a blade, which is also the width of the packed word. */
  const NumLEDs: nat := 32

  /** The blade a conversion targets: `-t` selects the top blade, `-b` the bottom one. */
  datatype Blade = Top | Bottom

  /** Wiring table of the top blade. */
  const TopBladeOrder: seq<int> :=
    [16, 18, 20, 22, 24, 26, 28, 30, 17, 19, 21, 23, 25, 27, 29, 31,
     15, 13, 11, 9, 7, 5, 3, 1, 14, 12, 10, 8, 6, 4, 2, 0]

  /** Wiring table of the bottom blade. */
  const BottomBladeOrder: seq<int> :=
    [30, 28, 26, 24, 22, 20, 18, 16, 31, 29, 27, 25, 23, 21, 19, 17,
     1, 3, 5, 7, 9, 11, 13, 15, 0, 2, 4, 6, 8, 10, 12, 14]

  /** `s` maps [0, n) one-to-one onto [0, n). */
  predicate IsPermutation(s: seq<int>, n: nat) {
    && |s| == n
    && (forall i :: 0 <= i < n ==> 0 <= s[i] < n)
    && (forall i, k :: 0 <= i < k < n ==> s[i] != s[k])
    && (forall b :: 0 <= b < n ==> b in s)
  }

  /** The wiring table selected for a blade. */
  function LedOrder(blade: Blade): (order: seq<int>)
    ensures IsPermutation(order, NumLEDs)
  {
    TopBladeIsPermutation();
    BottomBladeIsPermutation();
    match blade
    case Top => TopBladeOrder
    case Bottom => BottomBladeOrder
  }

  /** The bottom blade sees the image from its underside, so its angular sweep is reflected. */
  function Mirrored(blade: Blade): bool {
    blade == Bottom
  }

  /** Both blades are sampled without an extra rotation. */
  function Rotation(blade: Blade): int {
    0
  }

  /**
   * The LED that drives each bit of the top blade's word: the inverse of
   * `TopBladeOrder`, used only to prove that table one-to-one.
   */
  const TopBladeLedOfBit: seq<int> :=
    [31, 23, 30, 22, 29, 21, 28, 20, 27, 19, 26, 18, 25, 17, 24, 16,
     0, 8, 1, 9, 2, 10, 3, 11, 4, 12, 5, 13, 6, 14, 7, 15]

  /** The LED that drives each bit of the bottom blade's word: the inverse of `BottomBladeOrder`. */
  const BottomBladeLedOfBit: seq<int> :=
    [24, 16, 25, 17, 26, 18, 27, 19, 28, 20, 29, 21, 30, 22, 31, 23,
     7, 15, 6, 14, 5, 13, 4, 12, 3, 11, 2, 10, 1, 9, 0, 8]

  /** A table into [0, n) that has a left inverse and reaches every position is a permutation. */
  lemma LeftInverseGivesPermutation(s: seq<int>, inverse: seq<int>, n: nat)
    requires |s| == n && |inverse| == n
    requires forall i :: 0 <= i < n ==> 0 <= s[i] < n && inverse[s[i]] == i
    requires forall b :: 0 <= b < n ==> b in s
    ensures IsPermutation(s, n)
  {
    forall i, k | 0 <= i < k < n
      ensures s[i] != s[k]
    {
      assert inverse[s[i]] == i && inverse[s[k]] == k;
    }
  }

  lemma TopBladeIsPermutation()
    ensures IsPermutation(TopBladeOrder, NumLEDs)
  {
    assert forall i :: 0 <= i < 32 ==> 0 <= TopBladeOrder[i] < 32 && TopBladeLedOfBit[TopBladeOrder[i]] == i;
    assert forall b :: 0 <= b < 32 ==> b in TopBladeOrder;
    LeftInverseGivesPermutation(TopBladeOrder, TopBladeLedOfBit, NumLEDs);
  }

  lemma BottomBladeIsPermutation()
    ensures IsPermutation(BottomBladeOrder, NumLEDs)
  {
    assert forall i :: 0 <= i < 32 ==> 0 <= BottomBladeOrder[i] < 32 && BottomBladeLedOfBit[BottomBladeOrder[i]] == i;
    assert forall b :: 0 <= b < 32 ==> b in BottomBladeOrder;
    LeftInverseGivesPermutation(BottomBladeOrder, BottomBladeLedOfBit, NumLEDs);
  }
}
