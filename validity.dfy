/**
 * check_valid: no cell has lost every candidate, and every house still has each of the nine
 * values somewhere, assigned or as a candidate. Both sweeps stop at the first failure.
 */
module Validity {
  import opened Bits
  import opened Houses
  import opened Boards
  import opened Deduction

  /** The OR of the first n masks of the house (the at_least_once accumulator). */
  function HouseUnion(b: Board, house: seq<nat>, n: nat): bv32
    requires |b| == NUM_CELLS && IsHouse(house) && n <= 9
  {
    if n == 0 then 0 else HouseUnion(b, house, n - 1) | b[house[n - 1]]
  }

  /** The first sweep, from `cell` on: false at the first zero mask. */
  function CellsFrom(b: Board, cell: nat): bool
    requires |b| == NUM_CELLS && cell <= NUM_CELLS
    decreases NUM_CELLS - cell
  {
    if cell == NUM_CELLS then true
    else if b[cell] == 0 then false
    else CellsFrom(b, cell + 1)
  }

  /** The OR of the masks of house h without the assigned flag has all nine values. */
  predicate HouseFull(b: Board, h: nat)
    requires |b| == NUM_CELLS && h < 27
  {
    HouseAt(h);
    ValueCount(Candidates(HouseUnion(b, HOUSES[h], 9))) == MAX_VALUE
  }

  /** The second sweep, from house h on: false at the first house missing a value. */
  function HousesFrom(b: Board, h: nat): bool
    requires |b| == NUM_CELLS && h <= 27
    decreases 27 - h
  {
    if h == 27 then true
    else if !HouseFull(b, h) then false
    else HousesFrom(b, h + 1)
  }

  function CheckValid(b: Board): bool
    requires |b| == NUM_CELLS
  {
    CellsFrom(b, 0) && HousesFrom(b, 0)
  }

  // ---------------------------------------------------------------------------

  /** check_valid holds exactly when no mask is zero and every house covers all nine values. */
  lemma CheckValidMeaning(b: Board)
    requires AllClean(b)
    ensures CheckValid(b) <==>
      (forall c :: 0 <= c < NUM_CELLS ==> b[c] != 0) &&
      (forall h :: 0 <= h < 27 ==> HouseCovered(b, h))
  {
    CellsMeaning(b, 0);
    HousesMeaning(b, 0);
  }

  lemma {:induction false} CellsMeaning(b: Board, cell: nat)
    requires |b| == NUM_CELLS && cell <= NUM_CELLS
    ensures CellsFrom(b, cell) <==> forall c :: cell <= c < NUM_CELLS ==> b[c] != 0
    decreases NUM_CELLS - cell
  {
    if cell < NUM_CELLS && b[cell] != 0 {
      CellsMeaning(b, cell + 1);
    }
  }

  lemma {:induction false} HousesMeaning(b: Board, h: nat)
    requires AllClean(b) && h <= 27
    ensures HousesFrom(b, h) <==> forall g :: h <= g < 27 ==> HouseCovered(b, g)
    decreases 27 - h
  {
    if h < 27 {
      FullMeaning(b, h);
      HousesMeaning(b, h + 1);
      assert (forall g :: h <= g < 27 ==> HouseCovered(b, g)) <==>
        HouseCovered(b, h) && forall g :: h + 1 <= g < 27 ==> HouseCovered(b, g);
    }
  }

  /** A house passes the coverage test exactly when it covers all nine values. */
  lemma FullMeaning(b: Board, h: nat)
    requires AllClean(b) && h < 27
    ensures HouseFull(b, h) <==> HouseCovered(b, h)
  {
    HouseAt(h);
    var house := HOUSES[h];
    UnionCovers(b, house, HouseUnion(b, house, 9));
  }

  lemma UnionCovers(b: Board, house: seq<nat>, u: bv32)
    requires AllClean(b) && IsHouse(house) && u == HouseUnion(b, house, 9)
    ensures ValueCount(Candidates(u)) == MAX_VALUE <==> Covers(b, house)
  {
    HouseUnionClean(b, house, 9);
    CandidatesValuesOnly(u);
    ValuesOnlyClean(Candidates(u));
    FullValueCount(Candidates(u));
    forall v | 1 <= v <= MAX_VALUE ensures Has(Candidates(u), v) <==> InHouse(b, house, v, 9) {
      HasCandidates(u, v);
      UnionHas(b, house, 9, v);
    }
  }

  /** The union holds a value exactly when some cell among the first n does. */
  lemma {:induction false} UnionHas(b: Board, house: seq<nat>, n: nat, v: nat)
    requires |b| == NUM_CELLS && IsHouse(house) && n <= 9 && 1 <= v <= MAX_VALUE
    ensures Has(HouseUnion(b, house, n), v) <==> InHouse(b, house, v, n)
  {
    if n == 0 {
      HasNone(v);
    } else {
      UnionHas(b, house, n - 1, v);
      UnionNext(HouseUnion(b, house, n - 1), b[house[n - 1]], v, HouseUnion(b, house, n));
      if InHouse(b, house, v, n) {
        var k :| 0 <= k < n && Has(b[house[k]], v);
        assert k < n - 1 ==> InHouse(b, house, v, n - 1);
      }
    }
  }

  lemma UnionNext(u: bv32, mask: bv32, v: nat, a: bv32)
    requires 1 <= v <= MAX_VALUE && a == u | mask
    ensures Has(a, v) <==> Has(u, v) || Has(mask, v)
  {
    HasUnion(u, mask, v);
  }

  lemma {:induction false} HouseUnionClean(b: Board, house: seq<nat>, n: nat)
    requires AllClean(b) && IsHouse(house) && n <= 9
    ensures Clean(HouseUnion(b, house, n))
  {
    if n == 0 {
      ZeroClean();
    } else {
      HouseUnionClean(b, house, n - 1);
      Bits.UnionClean(HouseUnion(b, house, n - 1), b[house[n - 1]]);
    }
  }
}
