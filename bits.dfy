/**
 * Cell-mask encoding of the Sudoku solver and generator.
 *
 * A cell is a 32-bit mask: bit v-1 (for v in 1..9) says that value v is still a
 * candidate for the cell, and bit 31 (VALUE_SET) says that the cell has been assigned.
 * The helpers below are the bit-level operations the solver applies to such masks:
 * count_ones and 32 - leading_zeros are written out bit by bit.
 */
module Bits {

  const WIDTH: nat := 9
  const HEIGHT: nat := 9
  const MAX_VALUE: nat := 9
  const NUM_CELLS: nat := 81
  /** the nine candidate bits, (1 << MAX_VALUE) - 1 */
  const ALL_VALUES: bv32 := 0x1FF
  /** the "assigned" flag */
  const VALUE_SET: bv32 := 0x8000_0000
  /** the bits a cell mask never uses (9..30) */
  const UNUSED_BITS: bv32 := 0x7FFF_FE00

  /** Bit i of x is set. */
  predicate Bit(x: bv32, i: nat)
    requires i < 32
  {
    x & (1 << i) != 0
  }

  /** The number of set bits among bits 0..n-1 of x (count_ones when n == 32). */
  function CountOnes(x: bv32, n: nat): nat
    requires n <= 32
  {
    if n == 0 then 0 else CountOnes(x, n - 1) + (if Bit(x, n - 1) then 1 else 0)
  }

  /** One more than the index of the highest set bit below n, or 0 when there is none
      (32 - leading_zeros when n == 32). */
  function BitLength(x: bv32, n: nat): nat
    requires n <= 32
  {
    if n == 0 then 0 else if Bit(x, n - 1) then n else BitLength(x, n - 1)
  }

  predicate IsValueSet(mask: bv32) {
    mask & VALUE_SET != 0
  }

  /** The highest candidate value of a mask, ignoring the assigned flag (0 when it has none). */
  function GetValue(mask: bv32): nat {
    BitLength(Candidates(mask), 32)
  }

  function ValueMask(value: nat): bv32
    requires 1 <= value <= MAX_VALUE
  {
    1 << (value - 1)
  }

  /** The candidate bits of a mask: the mask without its assigned flag. */
  function Candidates(mask: bv32): bv32 {
    mask & !VALUE_SET
  }

  /** The mask with the bits of valueMask cleared (`mask & inv_value_mask` in set_value). */
  function Without(mask: bv32, valueMask: bv32): bv32 {
    mask & !valueMask
  }

  /** Every candidate bit of small is also set in big. */
  predicate CandidatesIn(small: bv32, big: bv32) {
    Candidates(small) & !big == 0
  }

  /** The candidate part of a mask adds no bit to the mask. */
  lemma CandidatesWithin(mask: bv32)
    ensures CandidatesIn(mask, mask)
  {
  }

  /** Clearing bits adds none. */
  lemma WithoutWithin(mask: bv32, valueMask: bv32)
    ensures Without(mask, valueMask) & !mask == 0
  {
  }

  lemma WithoutTwice(mask: bv32, valueMask: bv32)
    ensures Without(Without(mask, valueMask), valueMask) == Without(mask, valueMask)
  {
  }

  /** The number of candidates of a mask, ignoring the assigned flag. */
  function ValueCount(mask: bv32): nat {
    CountOnes(Candidates(mask), 32)
  }

  /** Value v is a candidate of the mask. */
  predicate Has(mask: bv32, v: nat)
    requires 1 <= v <= MAX_VALUE
  {
    ValueMask(v) & mask != 0
  }

  /** The mask uses only the nine candidate bits and the assigned flag. */
  predicate Clean(mask: bv32) {
    mask & UNUSED_BITS == 0
  }

  // ---------------------------------------------------------------------------
  // Counting and highest-bit facts, by induction on the number of bits looked at
  // ---------------------------------------------------------------------------

  lemma {:induction false} CountOnesRange(x: bv32, n: nat)
    requires n <= 32
    ensures CountOnes(x, n) <= n
    ensures CountOnes(x, n) == 0 <==> forall i :: 0 <= i < n ==> !Bit(x, i)
    ensures CountOnes(x, n) == n <==> forall i :: 0 <= i < n ==> Bit(x, i)
  {
    if n > 0 {
      CountOnesRange(x, n - 1);
    }
  }

  /** Bits lo..n-1 being clear, counting and highest-bit search may stop at lo. */
  lemma {:induction false} ClearAbove(x: bv32, lo: nat, n: nat)
    requires lo <= n <= 32
    requires forall i :: lo <= i < n ==> !Bit(x, i)
    ensures CountOnes(x, n) == CountOnes(x, lo)
    ensures BitLength(x, n) == BitLength(x, lo)
  {
    if n > lo {
      ClearAbove(x, lo, n - 1);
    }
  }

  lemma {:induction false} BitLengthIsHighest(x: bv32, n: nat)
    requires n <= 32
    ensures BitLength(x, n) <= n
    ensures BitLength(x, n) == 0 <==> forall i :: 0 <= i < n ==> !Bit(x, i)
    ensures BitLength(x, n) > 0 ==> Bit(x, BitLength(x, n) - 1)
    ensures forall i :: BitLength(x, n) <= i < n ==> !Bit(x, i)
  {
    if n > 0 {
      BitLengthIsHighest(x, n - 1);
    }
  }

  /** With a single bit set below n, that bit is the highest one. */
  lemma {:induction false} SingleBitIsHighest(x: bv32, n: nat)
    requires n <= 32 && CountOnes(x, n) == 1
    ensures 0 < BitLength(x, n) <= n
    ensures forall i :: 0 <= i < n ==> (Bit(x, i) <==> i == BitLength(x, n) - 1)
  {
    CountOnesRange(x, n - 1);
    if Bit(x, n - 1) {
      assert CountOnes(x, n - 1) == 0;
    } else {
      SingleBitIsHighest(x, n - 1);
    }
  }

  /** Two different set bits make a count of at least two. */
  lemma {:induction false} TwoBits(x: bv32, n: nat, i: nat, j: nat)
    requires n <= 32 && i < j < n && Bit(x, i) && Bit(x, j)
    ensures CountOnes(x, n) >= 2
  {
    if j == n - 1 {
      CountOnesRange(x, n - 1);
    } else {
      TwoBits(x, n - 1, i, j);
    }
  }

  /** Removing bits never raises the count, and removing a set bit lowers it. */
  lemma {:induction false} CountOnesSubset(x: bv32, y: bv32, n: nat)
    requires n <= 32 && x & !y == 0
    ensures CountOnes(x, n) <= CountOnes(y, n)
    ensures (exists i :: 0 <= i < n && Bit(y, i) && !Bit(x, i)) ==> CountOnes(x, n) < CountOnes(y, n)
  {
    if n > 0 {
      CountOnesSubset(x, y, n - 1);
      assert Bit(x, n - 1) ==> Bit(y, n - 1);
    }
  }

  // ---------------------------------------------------------------------------
  // The helpers on values 1..9
  // ---------------------------------------------------------------------------

  /** value_mask(v) has exactly the bit v-1 set, so it counts one candidate and its value is
      v, with or without the assigned flag. */
  lemma ValueMaskIsOneValue(v: nat)
    requires 1 <= v <= MAX_VALUE
    ensures forall i :: 0 <= i < 32 ==> (Bit(ValueMask(v), i) <==> i == v - 1)
    ensures ValueMask(v) & VALUE_SET == 0 && Clean(ValueMask(v)) && Clean(ValueMask(v) | VALUE_SET)
    ensures forall w :: 1 <= w <= MAX_VALUE ==> (Has(ValueMask(v), w) <==> w == v)
    ensures ValueCount(ValueMask(v)) == 1 && GetValue(ValueMask(v)) == v
    ensures ValueCount(ValueMask(v) | VALUE_SET) == 1 && GetValue(ValueMask(v) | VALUE_SET) == v
  {
    ValueMaskShape(v);
    AssignedMaskShape(v);
    ValueMaskBits(v);
    ValueMaskCounts(v);
    forall w | 1 <= w <= MAX_VALUE ensures Has(ValueMask(v), w) <==> w == v {
      HasIsBit(ValueMask(v), w);
    }
  }

  lemma ValueMaskBits(v: nat)
    requires 1 <= v <= MAX_VALUE
    ensures forall i :: 0 <= i < 32 ==> (Bit(ValueMask(v), i) <==> i == v - 1)
  {
  }

  /** Setting the assigned flag on a value mask leaves its candidate part and keeps it clean. */
  lemma AssignedMaskShape(v: nat)
    requires 1 <= v <= MAX_VALUE
    ensures Candidates(ValueMask(v) | VALUE_SET) == ValueMask(v) == Candidates(ValueMask(v))
    ensures Clean(ValueMask(v) | VALUE_SET)
  {
  }

  lemma ValueMaskCounts(v: nat)
    requires 1 <= v <= MAX_VALUE
    ensures CountOnes(ValueMask(v), 32) == 1 && BitLength(ValueMask(v), 32) == v
  {
    ValueMaskBits(v);
    ClearAbove(ValueMask(v), v, 32);
    CountOnesRange(ValueMask(v), v - 1);
  }

  /** A value mask is one candidate bit: it misses the assigned flag and the unused bits. */
  lemma ValueMaskShape(v: nat)
    requires 1 <= v <= MAX_VALUE
    ensures ValueMask(v) != 0 && ValueMask(v) & VALUE_SET == 0 && Clean(ValueMask(v))
  {
  }

  /** Clearing value v from a mask removes exactly v: the assigned flag and every other candidate
      stay, no bit is added and a clean mask stays clean. */
  lemma WithoutValue(mask: bv32, v: nat)
    requires 1 <= v <= MAX_VALUE
    ensures var m := Without(mask, ValueMask(v));
      IsValueSet(m) == IsValueSet(mask) && !Has(m, v) &&
      (forall w :: 1 <= w <= MAX_VALUE && w != v ==> (Has(m, w) <==> Has(mask, w))) &&
      CandidatesIn(m, mask) && (Clean(mask) ==> Clean(m))
  {
    WithoutKeepsFlag(mask, v);
    WithoutRemovesValue(mask, v);
    WithoutAddsNothing(mask, v);
    WithoutKeepsClean(mask, v);
    forall w | 1 <= w <= MAX_VALUE && w != v
      ensures Has(Without(mask, ValueMask(v)), w) <==> Has(mask, w)
    {
      WithoutOtherValue(mask, v, w);
    }
  }

  // One fact per lemma: the solver handles each of these bit-vector goals quickly on its own
  // but not several of them at once.

  lemma WithoutKeepsFlag(mask: bv32, v: nat)
    requires 1 <= v <= MAX_VALUE
    ensures IsValueSet(Without(mask, ValueMask(v))) == IsValueSet(mask)
  {
  }

  lemma WithoutRemovesValue(mask: bv32, v: nat)
    requires 1 <= v <= MAX_VALUE
    ensures !Has(Without(mask, ValueMask(v)), v)
  {
  }

  lemma WithoutAddsNothing(mask: bv32, v: nat)
    requires 1 <= v <= MAX_VALUE
    ensures CandidatesIn(Without(mask, ValueMask(v)), mask)
  {
  }

  lemma WithoutKeepsClean(mask: bv32, v: nat)
    requires 1 <= v <= MAX_VALUE
    ensures Clean(mask) ==> Clean(Without(mask, ValueMask(v)))
  {
  }

  lemma WithoutOtherValue(mask: bv32, v: nat, w: nat)
    requires 1 <= v <= MAX_VALUE && 1 <= w <= MAX_VALUE && w != v
    ensures Has(Without(mask, ValueMask(v)), w) <==> Has(mask, w)
  {
    assert ValueMask(w) & ValueMask(v) == 0;
  }

  /** The candidate bit of value v is bit v-1 of the candidate part. */
  lemma HasIsBit(mask: bv32, v: nat)
    requires 1 <= v <= MAX_VALUE
    ensures Has(mask, v) <==> Bit(Candidates(mask), v - 1)
  {
  }

  /** On a clean mask only bits 0..8 of the candidate part can be set. */
  lemma CleanCandidates(mask: bv32)
    requires Clean(mask)
    ensures forall i :: MAX_VALUE <= i < 32 ==> !Bit(Candidates(mask), i)
    ensures ValueCount(mask) == CountOnes(Candidates(mask), MAX_VALUE)
    ensures GetValue(mask) == BitLength(Candidates(mask), MAX_VALUE)
  {
    ClearAbove(Candidates(mask), MAX_VALUE, 32);
  }

  /** A clean mask counts at most nine candidates, and none exactly when it has no candidate bit. */
  lemma ValueCountRange(mask: bv32)
    requires Clean(mask)
    ensures ValueCount(mask) <= MAX_VALUE
    ensures ValueCount(mask) == 0 <==> Candidates(mask) == 0
    ensures ValueCount(mask) == 0 <==> forall v :: 1 <= v <= MAX_VALUE ==> !Has(mask, v)
  {
    var x := Candidates(mask);
    CleanCandidates(mask);
    CountOnesRange(x, MAX_VALUE);
    forall i | 0 <= i < MAX_VALUE ensures Bit(x, i) <==> Has(mask, i + 1) {
      HasIsBit(mask, i + 1);
    }
    NoLowBitIsEmpty(mask);
  }

  /** A clean mask has no candidate bit exactly when none of bits 0..8 of its candidate part is set. */
  lemma NoLowBitIsEmpty(mask: bv32)
    requires Clean(mask)
    ensures Candidates(mask) == 0 <==> forall i :: 0 <= i < MAX_VALUE ==> !Bit(Candidates(mask), i)
  {
    var x := Candidates(mask);
    CandidatesAreLow(mask);
    if x != 0 {
      NonzeroHasLowBit(x);
    } else {
      forall i | 0 <= i < MAX_VALUE ensures !Bit(x, i) {
        ZeroHasNoBit(i);
      }
    }
  }

  lemma CandidatesAreLow(mask: bv32)
    requires Clean(mask)
    ensures Candidates(mask) & !ALL_VALUES == 0
  {
  }

  lemma ZeroHasNoBit(i: nat)
    requires i < 32
    ensures !Bit(0, i)
  {
  }

  /** A nonzero mask without bits 9..31 has one of the bits 0..8. */
  lemma NonzeroHasLowBit(x: bv32)
    requires x != 0 && x & !ALL_VALUES == 0
    ensures Bit(x, 0) || Bit(x, 1) || Bit(x, 2) || Bit(x, 3) || Bit(x, 4)
         || Bit(x, 5) || Bit(x, 6) || Bit(x, 7) || Bit(x, 8)
  {
  }

  /** All nine candidate bits are set exactly when bits 0..8 are. */
  lemma AllLowBits(x: bv32)
    ensures x & ALL_VALUES == ALL_VALUES <==>
      Bit(x, 0) && Bit(x, 1) && Bit(x, 2) && Bit(x, 3) && Bit(x, 4)
      && Bit(x, 5) && Bit(x, 6) && Bit(x, 7) && Bit(x, 8)
  {
  }

  /** The value count of a clean mask is 9 exactly when every value is a candidate, that is when
      all nine candidate bits are set. */
  lemma FullValueCount(mask: bv32)
    requires Clean(mask)
    ensures ValueCount(mask) == MAX_VALUE <==> forall v :: 1 <= v <= MAX_VALUE ==> Has(mask, v)
    ensures ValueCount(mask) == MAX_VALUE <==> mask & ALL_VALUES == ALL_VALUES
  {
    var x := Candidates(mask);
    CleanCandidates(mask);
    CountOnesRange(x, MAX_VALUE);
    forall i | 0 <= i < MAX_VALUE ensures Bit(x, i) <==> Has(mask, i + 1) {
      HasIsBit(mask, i + 1);
    }
    AllLowBits(x);
    assert x & ALL_VALUES == mask & ALL_VALUES;
  }

  /** get_value of a clean mask with a candidate is its highest candidate. */
  lemma GetValueIsHighest(mask: bv32)
    requires Clean(mask) && Candidates(mask) != 0
    ensures 1 <= GetValue(mask) <= MAX_VALUE
    ensures Has(mask, GetValue(mask))
    ensures forall w :: GetValue(mask) < w <= MAX_VALUE ==> !Has(mask, w)
  {
    var x := Candidates(mask);
    CleanCandidates(mask);
    BitLengthIsHighest(x, MAX_VALUE);
    if GetValue(mask) == 0 {
      ValueCountRange(mask);
      CountOnesRange(x, MAX_VALUE);
    }
    HasIsBit(mask, GetValue(mask));
    forall w | GetValue(mask) < w <= MAX_VALUE ensures !Has(mask, w) {
      HasIsBit(mask, w);
    }
  }

  /** A clean mask with exactly one candidate has get_value as that candidate and no other. */
  lemma SingleValue(mask: bv32)
    requires Clean(mask) && ValueCount(mask) == 1
    ensures 1 <= GetValue(mask) <= MAX_VALUE
    ensures forall w :: 1 <= w <= MAX_VALUE ==> (Has(mask, w) <==> w == GetValue(mask))
  {
    var x := Candidates(mask);
    CleanCandidates(mask);
    SingleBitIsHighest(x, MAX_VALUE);
    forall w | 1 <= w <= MAX_VALUE ensures Has(mask, w) <==> w == GetValue(mask) {
      HasIsBit(mask, w);
    }
  }

  /** Two distinct candidates make a value count above one. */
  lemma TwoValues(mask: bv32, v: nat, w: nat)
    requires 1 <= v < w <= MAX_VALUE && Has(mask, v) && Has(mask, w)
    ensures ValueCount(mask) >= 2
  {
    HasIsBit(mask, v);
    HasIsBit(mask, w);
    TwoBits(Candidates(mask), 32, v - 1, w - 1);
  }

  /** Clearing candidate bits never raises the value count... */
  lemma ValueCountShrinks(small: bv32, big: bv32)
    requires CandidatesIn(small, big)
    ensures ValueCount(small) <= ValueCount(big)
  {
    assert Candidates(small) & !Candidates(big) == 0;
    CountOnesSubset(Candidates(small), Candidates(big), 32);
  }

  /** ... and clearing a candidate that was present lowers it. */
  lemma ValueCountDrops(small: bv32, big: bv32, v: nat)
    requires CandidatesIn(small, big)
    requires 1 <= v <= MAX_VALUE && Has(big, v) && !Has(small, v)
    ensures ValueCount(small) < ValueCount(big)
  {
    var x, y := Candidates(small), Candidates(big);
    assert x & !y == 0;
    HasIsBit(big, v);
    HasIsBit(small, v);
    CountOnesSubset(x, y, 32);
  }

  // ---------------------------------------------------------------------------
  // Masks made only of candidate bits, and values in unions and intersections
  // ---------------------------------------------------------------------------

  /** The mask uses only the nine candidate bits (no assigned flag, no unused bit). */
  predicate ValuesOnly(x: bv32) {
    x & !ALL_VALUES == 0
  }

  /** The masks share a bit. */
  predicate Overlaps(x: bv32, y: bv32) {
    x & y != 0
  }

  lemma UnassignedValuesOnly(mask: bv32)
    requires Clean(mask) && !IsValueSet(mask)
    ensures ValuesOnly(mask)
  {
  }

  lemma CandidatesValuesOnly(mask: bv32)
    requires Clean(mask)
    ensures ValuesOnly(Candidates(mask))
  {
  }

  lemma UnionValuesOnly(x: bv32, y: bv32)
    requires ValuesOnly(x) && ValuesOnly(y)
    ensures ValuesOnly(x | y)
  {
  }

  lemma MeetValuesOnly(x: bv32, y: bv32)
    requires ValuesOnly(y)
    ensures ValuesOnly(x & y)
  {
  }

  lemma WithoutValuesOnly(x: bv32, y: bv32)
    requires ValuesOnly(x)
    ensures ValuesOnly(Without(x, y))
  {
  }

  lemma ValuesOnlyClean(x: bv32)
    requires ValuesOnly(x)
    ensures Clean(x)
  {
  }

  lemma ValuesOnlyCandidates(x: bv32)
    requires ValuesOnly(x)
    ensures Candidates(x) == x
  {
  }

  /** Clean masks stay clean under union. */
  lemma UnionClean(x: bv32, y: bv32)
    requires Clean(x) && Clean(y)
    ensures Clean(x | y)
  {
  }

  lemma ZeroClean()
    ensures Clean(0) && ValuesOnly(0)
  {
  }

  lemma HasUnion(x: bv32, y: bv32, v: nat)
    requires 1 <= v <= MAX_VALUE
    ensures Has(x | y, v) <==> Has(x, v) || Has(y, v)
  {
    if Has(x, v) { UnionKeeps(x, y, v); }
    if Has(y, v) { UnionKeeps(y, x, v); assert y | x == x | y; }
    if Has(x | y, v) && !Has(x, v) { UnionFrom(x, y, v); }
  }

  lemma HasMeet(x: bv32, y: bv32, v: nat)
    requires 1 <= v <= MAX_VALUE
    ensures Has(x & y, v) <==> Has(x, v) && Has(y, v)
  {
    if Has(x & y, v) { MeetWithin(x, y, v); MeetWithin(y, x, v); assert y & x == x & y; }
    if Has(x, v) && Has(y, v) { MeetBoth(x, y, v); }
  }

  lemma HasWithout(x: bv32, y: bv32, v: nat)
    requires 1 <= v <= MAX_VALUE
    ensures Has(Without(x, y), v) <==> Has(x, v) && !Has(y, v)
  {
    if Has(Without(x, y), v) { WithoutWithinValue(x, y, v); WithoutMisses(x, y, v); }
    if Has(x, v) && !Has(y, v) { WithoutKeeps(x, y, v); }
  }

  // One implication per lemma: with unsat cores enabled the solver handles each alone quickly,
  // while the whole equivalence at once runs out of resource.

  lemma UnionKeeps(x: bv32, y: bv32, v: nat)
    requires 1 <= v <= MAX_VALUE && Has(x, v)
    ensures Has(x | y, v)
  {
  }

  lemma UnionFrom(x: bv32, y: bv32, v: nat)
    requires 1 <= v <= MAX_VALUE && Has(x | y, v) && !Has(x, v)
    ensures Has(y, v)
  {
  }

  lemma MeetWithin(x: bv32, y: bv32, v: nat)
    requires 1 <= v <= MAX_VALUE && Has(x & y, v)
    ensures Has(x, v)
  {
  }

  lemma MeetBoth(x: bv32, y: bv32, v: nat)
    requires 1 <= v <= MAX_VALUE && Has(x, v) && Has(y, v)
    ensures Has(x & y, v)
  {
  }

  lemma WithoutWithinValue(x: bv32, y: bv32, v: nat)
    requires 1 <= v <= MAX_VALUE && Has(Without(x, y), v)
    ensures Has(x, v)
  {
  }

  lemma WithoutMisses(x: bv32, y: bv32, v: nat)
    requires 1 <= v <= MAX_VALUE && Has(Without(x, y), v)
    ensures !Has(y, v)
  {
  }

  lemma WithoutKeeps(x: bv32, y: bv32, v: nat)
    requires 1 <= v <= MAX_VALUE && Has(x, v) && !Has(y, v)
    ensures Has(Without(x, y), v)
  {
  }

  lemma HasCandidates(x: bv32, v: nat)
    requires 1 <= v <= MAX_VALUE
    ensures Has(Candidates(x), v) <==> Has(x, v)
  {
  }

  lemma HasNone(v: nat)
    requires 1 <= v <= MAX_VALUE
    ensures !Has(0, v)
  {
  }

  /** A mask made of candidate bits and not zero holds some value, and its highest value is in
      range. */
  lemma NonzeroHasValue(x: bv32)
    requires ValuesOnly(x) && x != 0
    ensures 1 <= GetValue(x) <= MAX_VALUE && Has(x, GetValue(x))
    ensures ValueCount(x) >= 1
  {
    ValuesOnlyClean(x);
    ValuesOnlyCandidates(x);
    GetValueIsHighest(x);
    ValueCountRange(x);
  }

  /** Two masks holding the same value overlap. */
  lemma ShareValue(x: bv32, y: bv32, v: nat)
    requires 1 <= v <= MAX_VALUE && Has(x, v) && Has(y, v)
    ensures Overlaps(x, y)
  {
    MeetBoth(x, y, v);
  }

  /** A mask holding a value is not zero. */
  lemma HasNonzero(x: bv32, v: nat)
    requires 1 <= v <= MAX_VALUE && Has(x, v)
    ensures x != 0
  {
  }

  /** A mask of candidate bits holding no value is zero. */
  lemma NoValueIsZero(x: bv32)
    requires ValuesOnly(x) && forall v :: 1 <= v <= MAX_VALUE ==> !Has(x, v)
    ensures x == 0
  {
    if x != 0 {
      NonzeroHasValue(x);
    }
  }

  /** A mask of candidate bits with one value holds get_value and nothing else. */
  lemma OnlyValue(x: bv32)
    requires ValuesOnly(x) && ValueCount(x) == 1
    ensures 1 <= GetValue(x) <= MAX_VALUE
    ensures forall w :: 1 <= w <= MAX_VALUE ==> (Has(x, w) <==> w == GetValue(x))
  {
    ValuesOnlyClean(x);
    SingleValue(x);
  }

  /** Two masks sharing two values meet in a mask with at least two values. */
  lemma MeetHoldsTwo(x: bv32, y: bv32, v: nat, w: nat)
    requires 1 <= v < w <= MAX_VALUE && Has(x, v) && Has(x, w) && Has(y, v) && Has(y, w)
    ensures x & y != 0 && ValueCount(x & y) >= 2
  {
    MeetBoth(x, y, v);
    MeetBoth(x, y, w);
    HasNonzero(x & y, v);
    TwoValues(x & y, v, w);
  }

  /** Candidate containment is transitive. */
  lemma CandidatesInTrans(x: bv32, y: bv32, z: bv32)
    requires CandidatesIn(x, y) && CandidatesIn(y, z)
    ensures CandidatesIn(x, z)
  {
  }

  /** An unassigned mask is its own candidate part. */
  lemma UnassignedCandidates(mask: bv32)
    requires !IsValueSet(mask)
    ensures Candidates(mask) == mask
  {
  }
}
