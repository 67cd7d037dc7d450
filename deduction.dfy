/**
 * The deduction rules: naked single (a cell with one candidate left), hidden single (a value
 * with one possible cell left in a house), set_single (naked first, then hidden), and the
 * house-coverage predicates that check_valid (in the Validity module) is stated with.
 *
 * Each rule is a pure function returning its LogicResult and the board afterwards, and an
 * in-place method on an array proved equal to it.
 */
module Deduction {
  import opened Bits
  import opened Houses
  import opened Boards
  import opened Assignment

  /** NONE: the rule found nothing to do; CHANGED: it assigned one cell; INVALID: the board
      has no solution. */
  datatype LogicResult = None | Changed | Invalid

  // ---------------------------------------------------------------------------
  // Naked single
  // ---------------------------------------------------------------------------

  /** The cell is unassigned and has exactly one candidate. */
  predicate NakedSingleAt(b: Board, cell: nat)
    requires cell < |b|
  {
    !IsValueSet(b[cell]) && ValueCount(b[cell]) == 1
  }

  /** The only candidate of a mask with one candidate (get_value). */
  function SoleCandidate(mask: bv32): (v: nat)
    requires Clean(mask) && ValueCount(mask) == 1
    ensures 1 <= v <= MAX_VALUE && Has(mask, v)
    ensures forall w :: 1 <= w <= MAX_VALUE && w != v ==> !Has(mask, w)
  {
    SingleValue(mask);
    GetValue(mask)
  }

  /** Assign a naked single its only candidate. */
  function AssignSole(b: Board, cell: nat): (bool, Board)
    requires AllClean(b) && cell < NUM_CELLS && NakedSingleAt(b, cell)
  {
    Assign(b, cell, SoleCandidate(b[cell]))
  }

  /** set_naked_single from `cell` on: INVALID at the first empty cell, otherwise the outcome of
      assigning the first naked single's value, otherwise NONE. */
  function NakedFrom(b: Board, cell: nat): (LogicResult, Board)
    requires AllClean(b) && cell <= NUM_CELLS
    decreases NUM_CELLS - cell
  {
    if cell == NUM_CELLS then (None, b)
    else if b[cell] == 0 then (Invalid, b)
    else if NakedSingleAt(b, cell) then
      var r := AssignSole(b, cell);
      (if r.0 then Changed else Invalid, r.1)
    else NakedFrom(b, cell + 1)
  }

  method SetNakedSingle(board: array<bv32>) returns (result: LogicResult)
    requires AllClean(board[..])
    modifies board
    ensures (result, board[..]) == NakedFrom(old(board[..]), 0)
  {
    ghost var b := board[..];
    for cell := 0 to NUM_CELLS
      invariant board[..] == b
      invariant NakedFrom(b, 0) == NakedFrom(b, cell)
    {
      var mask := board[cell];
      if mask == 0 {
        return Invalid;
      }
      if !IsValueSet(mask) && ValueCount(mask) == 1 {
        SingleValue(mask);
        var value := GetValue(mask);
        var ok := SetValue(board, cell, value);
        if !ok {
          return Invalid;
        }
        return Changed;
      }
    }
    return None;
  }

  /** What set_naked_single returns: NONE exactly when no cell is empty and no unassigned cell
      has a single candidate, and then the board is unchanged; otherwise the board is unchanged
      or is the result of assigning some naked single its candidate, and CHANGED only when that
      assignment succeeded. */
  lemma {:induction false} NakedOutcome(b: Board, cell: nat)
    requires AllClean(b) && cell <= NUM_CELLS
    ensures var r := NakedFrom(b, cell);
      (r.0 == None <==> forall c :: cell <= c < NUM_CELLS ==> b[c] != 0 && !NakedSingleAt(b, c))
    ensures var r := NakedFrom(b, cell);
      r.0 == None ==> r.1 == b
    ensures var r := NakedFrom(b, cell);
      r.1 == b || (exists c :: cell <= c < NUM_CELLS && NakedSingleAt(b, c) &&
                      r.1 == AssignSole(b, c).1)
    ensures var r := NakedFrom(b, cell);
      r.0 == Changed ==> (exists c :: cell <= c < NUM_CELLS && NakedSingleAt(b, c) &&
                            AssignSole(b, c) == (true, r.1))
    decreases NUM_CELLS - cell
  {
    if cell < NUM_CELLS && b[cell] != 0 && !NakedSingleAt(b, cell) {
      NakedOutcome(b, cell + 1);
    }
  }

  /** Whatever set_naked_single returns, it adds no candidate and changes no assigned flag
      except perhaps one. */
  lemma NakedOnlyClears(b: Board)
    requires AllClean(b)
    ensures var r := NakedFrom(b, 0);
      |r.1| == NUM_CELLS && NoCandidateAdded(b, r.1)
  {
    var r := NakedFrom(b, 0);
    NakedOutcome(b, 0);
    if r.1 == b {
      forall c | 0 <= c < NUM_CELLS ensures CandidatesIn(r.1[c], b[c]) { CandidatesWithin(b[c]); }
    } else {
      var c :| 0 <= c < NUM_CELLS && NakedSingleAt(b, c) && r.1 == AssignSole(b, c).1;
      AssignOnlyClears(b, c, SoleCandidate(b[c]));
    }
  }

  /** CHANGED from set_naked_single means exactly one new assignment, and a well-formed board
      stays well formed. */
  lemma NakedChanged(b: Board)
    requires WellFormed(b) && NakedFrom(b, 0).0 == Changed
    ensures var b' := NakedFrom(b, 0).1;
      |b'| == NUM_CELLS && OneNewAssignment(b, b') && Givens(b') == Givens(b) + 1 && WellFormed(b')
  {
    var r := NakedFrom(b, 0);
    NakedOutcome(b, 0);
    var c :| 0 <= c < NUM_CELLS && NakedSingleAt(b, c) && AssignSole(b, c) == (true, r.1);
    AssignAddsOneGiven(b, c, SoleCandidate(b[c]));
    AssignKeepsWellFormed(b, c, SoleCandidate(b[c]));
  }

  // ---------------------------------------------------------------------------
  // Hidden single
  // ---------------------------------------------------------------------------

  /** The three masks set_hidden_single accumulates over a house: the OR of its assigned
      masks, the values some unassigned cell holds, and the values two or more unassigned
      cells hold. */
  datatype Tally = Tally(valueSetMask: bv32, atLeastOnce: bv32, moreThanOnce: bv32)

  /** One cell of the house added to the tally. */
  function TallyStep(t: Tally, mask: bv32): Tally {
    if IsValueSet(mask) then t.(valueSetMask := t.valueSetMask | mask)
    else t.(moreThanOnce := t.moreThanOnce | (mask & t.atLeastOnce),
            atLeastOnce := t.atLeastOnce | mask)
  }

  /** The tally of the first n cells of the house. */
  function TallyUpTo(b: Board, house: seq<nat>, n: nat): Tally
    requires |b| == NUM_CELLS && IsHouse(house) && n <= 9
  {
    if n == 0 then Tally(0, 0, 0) else TallyStep(TallyUpTo(b, house, n - 1), b[house[n - 1]])
  }

  /** values_present: the values some cell of the house holds, assigned or not. */
  function ValuesPresent(t: Tally): bv32 {
    t.atLeastOnce | Candidates(t.valueSetMask)
  }

  /** exactly_once: the values held by exactly one unassigned cell of the house. */
  function ExactlyOnce(t: Tally): bv32 {
    Without(t.atLeastOnce, t.moreThanOnce)
  }

  /** The number of unassigned cells among the first n of the house holding value v. */
  function Holders(b: Board, house: seq<nat>, v: nat, n: nat): nat
    requires |b| == NUM_CELLS && IsHouse(house) && n <= 9 && 1 <= v <= MAX_VALUE
  {
    if n == 0 then 0
    else
      var mask := b[house[n - 1]];
      Holders(b, house, v, n - 1) + (if !IsValueSet(mask) && Has(mask, v) then 1 else 0)
  }

  /** Some assigned cell among the first n of the house holds value v. */
  predicate AssignedHolder(b: Board, house: seq<nat>, v: nat, n: nat)
    requires |b| == NUM_CELLS && IsHouse(house) && n <= 9 && 1 <= v <= MAX_VALUE
  {
    exists k :: 0 <= k < n && IsValueSet(b[house[k]]) && Has(b[house[k]], v)
  }

  /** Some cell among the first n of the house holds value v. */
  predicate InHouse(b: Board, house: seq<nat>, v: nat, n: nat)
    requires |b| == NUM_CELLS && IsHouse(house) && n <= 9 && 1 <= v <= MAX_VALUE
  {
    exists k :: 0 <= k < n && Has(b[house[k]], v)
  }

  /** Every value 1..9 is held by some cell of the house. */
  predicate Covers(b: Board, house: seq<nat>)
    requires |b| == NUM_CELLS && IsHouse(house)
  {
    forall v :: 1 <= v <= MAX_VALUE ==> InHouse(b, house, v, 9)
  }

  /** What a tally of a whole house records, value by value: at_least_once holds v exactly
      when some unassigned cell does, more_than_once exactly when two or more do, and the
      assigned OR exactly when some assigned cell does. */
  predicate TallyOf(b: Board, house: seq<nat>, t: Tally)
    requires |b| == NUM_CELLS && IsHouse(house)
  {
    forall v :: 1 <= v <= MAX_VALUE ==>
      (Has(t.atLeastOnce, v) <==> Holders(b, house, v, 9) >= 1) &&
      (Has(t.moreThanOnce, v) <==> Holders(b, house, v, 9) >= 2) &&
      (Has(t.valueSetMask, v) <==> AssignedHolder(b, house, v, 9))
  }

  /** On a clean board the unassigned parts of a tally are candidate bits only. */
  predicate TallyBits(t: Tally) {
    ValuesOnly(t.atLeastOnce) && ValuesOnly(t.moreThanOnce) && Clean(t.valueSetMask)
  }

  /** The tally set_hidden_single accumulates over a house means what TallyOf says. */
  lemma HouseTally(b: Board, house: seq<nat>)
    requires |b| == NUM_CELLS && IsHouse(house)
    ensures TallyOf(b, house, TallyUpTo(b, house, 9))
  {
    forall v | 1 <= v <= MAX_VALUE
      ensures Has(TallyUpTo(b, house, 9).atLeastOnce, v) <==> Holders(b, house, v, 9) >= 1
      ensures Has(TallyUpTo(b, house, 9).moreThanOnce, v) <==> Holders(b, house, v, 9) >= 2
      ensures Has(TallyUpTo(b, house, 9).valueSetMask, v) <==> AssignedHolder(b, house, v, 9)
    {
      AtLeastOnceMeaning(b, house, 9, v);
      MoreThanOnceMeaning(b, house, 9, v);
      ValueSetMeaning(b, house, 9, v);
    }
  }

  lemma {:induction false} AtLeastOnceMeaning(b: Board, house: seq<nat>, n: nat, v: nat)
    requires |b| == NUM_CELLS && IsHouse(house) && n <= 9 && 1 <= v <= MAX_VALUE
    ensures Has(TallyUpTo(b, house, n).atLeastOnce, v) <==> Holders(b, house, v, n) >= 1
  {
    if n == 0 {
      HasNone(v);
    } else {
      AtLeastOnceMeaning(b, house, n - 1, v);
      StepAtLeastOnce(TallyUpTo(b, house, n - 1), b[house[n - 1]], v);
    }
  }

  lemma {:induction false} MoreThanOnceMeaning(b: Board, house: seq<nat>, n: nat, v: nat)
    requires |b| == NUM_CELLS && IsHouse(house) && n <= 9 && 1 <= v <= MAX_VALUE
    ensures Has(TallyUpTo(b, house, n).moreThanOnce, v) <==> Holders(b, house, v, n) >= 2
  {
    if n == 0 {
      HasNone(v);
    } else {
      AtLeastOnceMeaning(b, house, n - 1, v);
      MoreThanOnceMeaning(b, house, n - 1, v);
      StepMoreThanOnce(TallyUpTo(b, house, n - 1), b[house[n - 1]], v);
    }
  }

  lemma {:induction false} ValueSetMeaning(b: Board, house: seq<nat>, n: nat, v: nat)
    requires |b| == NUM_CELLS && IsHouse(house) && n <= 9 && 1 <= v <= MAX_VALUE
    ensures Has(TallyUpTo(b, house, n).valueSetMask, v) <==> AssignedHolder(b, house, v, n)
  {
    if n == 0 {
      HasNone(v);
    } else {
      ValueSetMeaning(b, house, n - 1, v);
      StepValueSet(TallyUpTo(b, house, n - 1), b[house[n - 1]], v);
      if AssignedHolder(b, house, v, n) {
        var k :| 0 <= k < n && IsValueSet(b[house[k]]) && Has(b[house[k]], v);
        assert k < n - 1 ==> AssignedHolder(b, house, v, n - 1);
      }
    }
  }

  lemma StepAtLeastOnce(t: Tally, mask: bv32, v: nat)
    requires 1 <= v <= MAX_VALUE
    ensures Has(TallyStep(t, mask).atLeastOnce, v) <==>
      Has(t.atLeastOnce, v) || (!IsValueSet(mask) && Has(mask, v))
  {
    if IsValueSet(mask) {
      AssignedKeepsAtLeastOnce(t, mask, v);
    } else {
      UnassignedAtLeastOnce(t, mask, v);
    }
  }

  // The bit facts behind one step, one per lemma. Each takes the tally and names the new mask
  // by an equation, which keeps every proof obligation small for the solver.

  lemma AssignedKeepsAtLeastOnce(t: Tally, mask: bv32, v: nat)
    requires 1 <= v <= MAX_VALUE && IsValueSet(mask)
    ensures Has(TallyStep(t, mask).atLeastOnce, v) <==> Has(t.atLeastOnce, v)
  {
    TallyAssigned(t, mask);
  }

  lemma UnassignedAtLeastOnce(t: Tally, mask: bv32, v: nat)
    requires 1 <= v <= MAX_VALUE && !IsValueSet(mask)
    ensures Has(TallyStep(t, mask).atLeastOnce, v) <==> Has(t.atLeastOnce, v) || Has(mask, v)
  {
    UnassignedAtLeastOnceIs(t, mask);
    AtLeastOnceUnion(t, mask, v, TallyStep(t, mask).atLeastOnce);
  }

  lemma AtLeastOnceUnion(t: Tally, mask: bv32, v: nat, a: bv32)
    requires 1 <= v <= MAX_VALUE && a == t.atLeastOnce | mask
    ensures Has(a, v) <==> Has(t.atLeastOnce, v) || Has(mask, v)
  {
    HasUnion(t.atLeastOnce, mask, v);
  }

  lemma StepMoreThanOnce(t: Tally, mask: bv32, v: nat)
    requires 1 <= v <= MAX_VALUE
    ensures Has(TallyStep(t, mask).moreThanOnce, v) <==>
      Has(t.moreThanOnce, v) || (!IsValueSet(mask) && Has(mask, v) && Has(t.atLeastOnce, v))
  {
    if IsValueSet(mask) {
      AssignedKeepsMoreThanOnce(t, mask, v);
    } else {
      UnassignedMoreThanOnce(t, mask, v);
    }
  }

  lemma AssignedKeepsMoreThanOnce(t: Tally, mask: bv32, v: nat)
    requires 1 <= v <= MAX_VALUE && IsValueSet(mask)
    ensures Has(TallyStep(t, mask).moreThanOnce, v) <==> Has(t.moreThanOnce, v)
  {
    TallyAssigned(t, mask);
  }

  lemma UnassignedMoreThanOnce(t: Tally, mask: bv32, v: nat)
    requires 1 <= v <= MAX_VALUE && !IsValueSet(mask)
    ensures Has(TallyStep(t, mask).moreThanOnce, v) <==>
      Has(t.moreThanOnce, v) || (Has(mask, v) && Has(t.atLeastOnce, v))
  {
    UnassignedMoreThanOnceIs(t, mask);
    MoreThanOnceUnion(t, mask, v, TallyStep(t, mask).moreThanOnce);
  }

  lemma MoreThanOnceUnion(t: Tally, mask: bv32, v: nat, a: bv32)
    requires 1 <= v <= MAX_VALUE && a == t.moreThanOnce | (mask & t.atLeastOnce)
    ensures Has(a, v) <==> Has(t.moreThanOnce, v) || (Has(mask, v) && Has(t.atLeastOnce, v))
  {
    MoreThanOnceJoin(t, v, a, mask & t.atLeastOnce);
    RepeatedMeet(t, mask, v, mask & t.atLeastOnce);
  }

  lemma MoreThanOnceJoin(t: Tally, v: nat, a: bv32, m: bv32)
    requires 1 <= v <= MAX_VALUE && a == t.moreThanOnce | m
    ensures Has(a, v) <==> Has(t.moreThanOnce, v) || Has(m, v)
  {
    HasUnion(t.moreThanOnce, m, v);
  }

  lemma RepeatedMeet(t: Tally, mask: bv32, v: nat, m: bv32)
    requires 1 <= v <= MAX_VALUE && m == mask & t.atLeastOnce
    ensures Has(m, v) <==> Has(mask, v) && Has(t.atLeastOnce, v)
  {
    HasMeet(mask, t.atLeastOnce, v);
  }

  lemma StepValueSet(t: Tally, mask: bv32, v: nat)
    requires 1 <= v <= MAX_VALUE
    ensures Has(TallyStep(t, mask).valueSetMask, v) <==>
      Has(t.valueSetMask, v) || (IsValueSet(mask) && Has(mask, v))
  {
    if IsValueSet(mask) {
      AssignedValueSet(t, mask, v);
    } else {
      UnassignedKeepsValueSet(t, mask, v);
    }
  }

  lemma AssignedValueSet(t: Tally, mask: bv32, v: nat)
    requires 1 <= v <= MAX_VALUE && IsValueSet(mask)
    ensures Has(TallyStep(t, mask).valueSetMask, v) <==> Has(t.valueSetMask, v) || Has(mask, v)
  {
    AssignedValueSetIs(t, mask);
    ValueSetUnion(t, mask, v, TallyStep(t, mask).valueSetMask);
  }

  lemma ValueSetUnion(t: Tally, mask: bv32, v: nat, a: bv32)
    requires 1 <= v <= MAX_VALUE && a == t.valueSetMask | mask
    ensures Has(a, v) <==> Has(t.valueSetMask, v) || Has(mask, v)
  {
    HasUnion(t.valueSetMask, mask, v);
  }

  lemma UnassignedKeepsValueSet(t: Tally, mask: bv32, v: nat)
    requires 1 <= v <= MAX_VALUE && !IsValueSet(mask)
    ensures Has(TallyStep(t, mask).valueSetMask, v) <==> Has(t.valueSetMask, v)
  {
    TallyUnassigned(t, mask);
  }

  lemma UnassignedAtLeastOnceIs(t: Tally, mask: bv32)
    requires !IsValueSet(mask)
    ensures TallyStep(t, mask).atLeastOnce == t.atLeastOnce | mask
  {
  }

  lemma UnassignedMoreThanOnceIs(t: Tally, mask: bv32)
    requires !IsValueSet(mask)
    ensures TallyStep(t, mask).moreThanOnce == t.moreThanOnce | (mask & t.atLeastOnce)
  {
  }

  lemma AssignedValueSetIs(t: Tally, mask: bv32)
    requires IsValueSet(mask)
    ensures TallyStep(t, mask).valueSetMask == t.valueSetMask | mask
  {
  }

  /** An assigned cell only adds to the assigned OR ... */
  lemma TallyAssigned(t: Tally, mask: bv32)
    requires IsValueSet(mask)
    ensures TallyStep(t, mask) == t.(valueSetMask := t.valueSetMask | mask)
  {
  }

  /** ... and an unassigned cell only to the other two. */
  lemma TallyUnassigned(t: Tally, mask: bv32)
    requires !IsValueSet(mask)
    ensures TallyStep(t, mask) ==
      t.(moreThanOnce := t.moreThanOnce | (mask & t.atLeastOnce), atLeastOnce := t.atLeastOnce | mask)
  {
  }

  /** The tally of a clean board uses only candidate bits in its unassigned parts and stays
      clean in its assigned part. */
  lemma {:induction false} TallyClean(b: Board, house: seq<nat>, n: nat)
    requires AllClean(b) && IsHouse(house) && n <= 9
    ensures TallyBits(TallyUpTo(b, house, n))
  {
    if n == 0 {
      ZeroClean();
    } else {
      TallyClean(b, house, n - 1);
      StepBits(TallyUpTo(b, house, n - 1), b[house[n - 1]]);
    }
  }

  lemma StepBits(t: Tally, mask: bv32)
    requires TallyBits(t) && Clean(mask)
    ensures TallyBits(TallyStep(t, mask))
  {
    if IsValueSet(mask) {
      TallyAssigned(t, mask);
      UnionClean(t.valueSetMask, mask);
    } else {
      TallyUnassigned(t, mask);
      UnassignedValuesOnly(mask);
      UnionValuesOnly(t.atLeastOnce, mask);
      MeetValuesOnly(mask, t.atLeastOnce);
      UnionValuesOnly(t.moreThanOnce, mask & t.atLeastOnce);
    }
  }

  /** exactly_once = at_least_once & !more_than_once holds a value exactly when one unassigned
      cell of the house holds it. */
  lemma ExactlyOnceMeaning(b: Board, house: seq<nat>, t: Tally, v: nat)
    requires |b| == NUM_CELLS && IsHouse(house) && TallyOf(b, house, t) && 1 <= v <= MAX_VALUE
    ensures Has(ExactlyOnce(t), v) <==> Holders(b, house, v, 9) == 1
  {
    HasWithout(t.atLeastOnce, t.moreThanOnce, v);
  }

  /** values_present = at_least_once | (value_set_mask without the flag) has all nine values
      exactly when every value is held by some cell of the house. */
  lemma PresentMeaning(b: Board, house: seq<nat>, t: Tally)
    requires |b| == NUM_CELLS && IsHouse(house) && TallyOf(b, house, t) && TallyBits(t)
    ensures ValueCount(ValuesPresent(t)) == MAX_VALUE <==> Covers(b, house)
  {
    var present := t.atLeastOnce | Candidates(t.valueSetMask);
    PresentClean(t, present);
    FullValueCount(present);
    forall v | 1 <= v <= MAX_VALUE
      ensures Has(present, v) <==> InHouse(b, house, v, 9)
    {
      PresentBits(t, v, present);
      HoldersInHouse(b, house, v, 9);
    }
  }

  lemma PresentClean(t: Tally, p: bv32)
    requires TallyBits(t) && p == t.atLeastOnce | Candidates(t.valueSetMask)
    ensures Clean(p)
  {
    CandidatesValuesOnly(t.valueSetMask);
    UnionValuesOnly(t.atLeastOnce, Candidates(t.valueSetMask));
    ValuesOnlyClean(p);
  }

  lemma PresentBits(t: Tally, v: nat, p: bv32)
    requires 1 <= v <= MAX_VALUE && p == t.atLeastOnce | Candidates(t.valueSetMask)
    ensures Has(p, v) <==> Has(t.atLeastOnce, v) || Has(t.valueSetMask, v)
  {
    PresentJoin(t, v, p, Candidates(t.valueSetMask));
    AssignedCandidates(t, v, Candidates(t.valueSetMask));
  }

  lemma PresentJoin(t: Tally, v: nat, p: bv32, c: bv32)
    requires 1 <= v <= MAX_VALUE && p == t.atLeastOnce | c
    ensures Has(p, v) <==> Has(t.atLeastOnce, v) || Has(c, v)
  {
    HasUnion(t.atLeastOnce, c, v);
  }

  lemma AssignedCandidates(t: Tally, v: nat, c: bv32)
    requires 1 <= v <= MAX_VALUE && c == Candidates(t.valueSetMask)
    ensures Has(c, v) <==> Has(t.valueSetMask, v)
  {
    HasCandidates(t.valueSetMask, v);
  }

  /** A value is in the house exactly when an unassigned cell or an assigned cell holds it. */
  lemma {:induction false} HoldersInHouse(b: Board, house: seq<nat>, v: nat, n: nat)
    requires |b| == NUM_CELLS && IsHouse(house) && n <= 9 && 1 <= v <= MAX_VALUE
    ensures InHouse(b, house, v, n) <==> Holders(b, house, v, n) >= 1 || AssignedHolder(b, house, v, n)
  {
    if n > 0 {
      HoldersInHouse(b, house, v, n - 1);
      if InHouse(b, house, v, n) {
        var k :| 0 <= k < n && Has(b[house[k]], v);
        assert k < n - 1 ==> InHouse(b, house, v, n - 1);
      }
      if AssignedHolder(b, house, v, n) {
        var k :| 0 <= k < n && IsValueSet(b[house[k]]) && Has(b[house[k]], v);
        assert k < n - 1 ==> AssignedHolder(b, house, v, n - 1);
      }
    }
  }

  /** Holders counts real cells: a positive count has an unassigned witness. */
  lemma {:induction false} HolderWitness(b: Board, house: seq<nat>, v: nat, n: nat)
    requires |b| == NUM_CELLS && IsHouse(house) && n <= 9 && 1 <= v <= MAX_VALUE
    requires Holders(b, house, v, n) >= 1
    ensures exists k :: 0 <= k < n && !IsValueSet(b[house[k]]) && Has(b[house[k]], v)
  {
    if Holders(b, house, v, n - 1) >= 1 {
      HolderWitness(b, house, v, n - 1);
    }
  }

  // The placing scan: the first cell of the house that holds a value of exactly_once decides.

  /** once_mask: the values of exactly_once the cell holds. */
  function OnceMask(b: Board, cell: nat, exactlyOnce: bv32): bv32
    requires cell < |b|
  {
    b[cell] & exactlyOnce
  }

  /** get_value of a nonzero once_mask: a value it holds, and its only one when it has one. */
  function OnceValue(once: bv32): (v: nat)
    requires ValuesOnly(once) && once != 0
    ensures 1 <= v <= MAX_VALUE && Has(once, v)
    ensures ValueCount(once) == 1 ==> forall w :: 1 <= w <= MAX_VALUE && w != v ==> !Has(once, w)
  {
    NonzeroHasValue(once);
    if ValueCount(once) == 1 then OnlyValue(once); GetValue(once) else GetValue(once)
  }

  /** Assign the cell the value its once_mask names. */
  function AssignOnce(b: Board, cell: nat, exactlyOnce: bv32): (bool, Board)
    requires |b| == NUM_CELLS && cell < NUM_CELLS && ValuesOnly(exactlyOnce)
    requires OnceMask(b, cell, exactlyOnce) != 0
  {
    MeetValuesOnly(b[cell], exactlyOnce);
    Assign(b, cell, OnceValue(OnceMask(b, cell, exactlyOnce)))
  }

  /** The inner loop of set_hidden_single from the k-th cell of the house on. */
  function PlaceFrom(b: Board, house: seq<nat>, exactlyOnce: bv32, k: nat): (LogicResult, Board)
    requires |b| == NUM_CELLS && IsHouse(house) && ValuesOnly(exactlyOnce) && k <= 9
    decreases 9 - k
  {
    if k == 9 then (None, b)
    else if OnceMask(b, house[k], exactlyOnce) == 0 then PlaceFrom(b, house, exactlyOnce, k + 1)
    else PlaceAt(b, house, exactlyOnce, k)
  }

  /** The decision at the first cell that holds a value of exactly_once: INVALID when it holds
      two of them, otherwise the outcome of assigning it the one. */
  function PlaceAt(b: Board, house: seq<nat>, exactlyOnce: bv32, j: nat): (LogicResult, Board)
    requires |b| == NUM_CELLS && IsHouse(house) && ValuesOnly(exactlyOnce) && j < 9
    requires OnceMask(b, house[j], exactlyOnce) != 0
  {
    if ValueCount(OnceMask(b, house[j], exactlyOnce)) > 1 then (Invalid, b)
    else
      var r := AssignOnce(b, house[j], exactlyOnce);
      (if r.0 then Changed else Invalid, r.1)
  }

  /** Cell j is the first from k on that holds a value of exactly_once. */
  predicate FirstOnce(b: Board, house: seq<nat>, exactlyOnce: bv32, k: nat, j: nat)
    requires |b| == NUM_CELLS && IsHouse(house) && k <= j < 9
  {
    OnceMask(b, house[j], exactlyOnce) != 0 &&
    forall i :: k <= i < j ==> OnceMask(b, house[i], exactlyOnce) == 0
  }

  /** set_hidden_single on one house, given the tally of the house: INVALID when some value is
      missing from the house, otherwise the placing scan when exactly_once is not empty. */
  function HouseRule(b: Board, house: seq<nat>, t: Tally): (LogicResult, Board)
    requires |b| == NUM_CELLS && IsHouse(house) && TallyBits(t)
  {
    if ValueCount(ValuesPresent(t)) != MAX_VALUE then (Invalid, b)
    else
      WithoutValuesOnly(t.atLeastOnce, t.moreThanOnce);
      if ExactlyOnce(t) != 0 then PlaceFrom(b, house, ExactlyOnce(t), 0) else (None, b)
  }

  /** House g of HOUSES, tallied and ruled on. */
  function HouseResult(b: Board, g: nat): (LogicResult, Board)
    requires AllClean(b) && g < 27
  {
    HouseAt(g);
    TallyClean(b, HOUSES[g], 9);
    HouseRule(b, HOUSES[g], TallyUpTo(b, HOUSES[g], 9))
  }

  /** set_hidden_single from house h on: the first house whose rule does something decides. */
  function HiddenFrom(b: Board, h: nat): (LogicResult, Board)
    requires AllClean(b) && h <= 27
    decreases 27 - h
  {
    if h == 27 then (None, b)
    else
      var r := HouseResult(b, h);
      if r.0 == None then HiddenFrom(b, h + 1) else r
  }

  /** Nothing to do in the house: every value has a cell and no value has exactly one
      unassigned cell. */
  predicate Settled(b: Board, house: seq<nat>)
    requires |b| == NUM_CELLS && IsHouse(house)
  {
    Covers(b, house) && forall v :: 1 <= v <= MAX_VALUE ==> Holders(b, house, v, 9) != 1
  }

  predicate HouseSettled(b: Board, g: nat)
    requires |b| == NUM_CELLS && g < 27
  {
    HouseAt(g);
    Settled(b, HOUSES[g])
  }

  predicate HouseCovered(b: Board, g: nat)
    requires |b| == NUM_CELLS && g < 27
  {
    HouseAt(g);
    Covers(b, HOUSES[g])
  }

  /** The placing scan returns NONE exactly when no cell of the house holds a value of
      exactly_once, and then leaves the board alone; otherwise the first cell that does
      decides. */
  lemma {:induction false} PlaceOutcome(b: Board, house: seq<nat>, eo: bv32, k: nat)
    requires |b| == NUM_CELLS && IsHouse(house) && ValuesOnly(eo) && k <= 9
    ensures var r := PlaceFrom(b, house, eo, k);
      (r.0 == None <==> forall j :: k <= j < 9 ==> OnceMask(b, house[j], eo) == 0) &&
      (r.0 == None ==> r.1 == b)
    ensures var r := PlaceFrom(b, house, eo, k);
      r.0 != None ==> (exists j :: k <= j < 9 && FirstOnce(b, house, eo, k, j) && r == PlaceAt(b, house, eo, j))
    decreases 9 - k
  {
    if k < 9 {
      if OnceMask(b, house[k], eo) == 0 {
        PlaceOutcome(b, house, eo, k + 1);
        var r := PlaceFrom(b, house, eo, k);
        if r.0 != None {
          var j :| k + 1 <= j < 9 && FirstOnce(b, house, eo, k + 1, j) && r == PlaceAt(b, house, eo, j);
          assert FirstOnce(b, house, eo, k, j);
        }
      } else {
        assert FirstOnce(b, house, eo, k, k);
      }
    }
  }

  /** The decision at a cell either leaves the board alone or is an assignment. */
  lemma PlaceAtEffect(b: Board, house: seq<nat>, eo: bv32, j: nat)
    requires |b| == NUM_CELLS && IsHouse(house) && ValuesOnly(eo) && j < 9
    requires OnceMask(b, house[j], eo) != 0
    ensures var r := PlaceAt(b, house, eo, j);
      r.1 == b || (exists v :: 1 <= v <= MAX_VALUE && r.1 == Assign(b, house[j], v).1)
    ensures var r := PlaceAt(b, house, eo, j);
      r.0 == Changed ==> ValueCount(OnceMask(b, house[j], eo)) == 1 && AssignOnce(b, house[j], eo) == (true, r.1)
  {
    MeetValuesOnly(b[house[j]], eo);
    var v := OnceValue(OnceMask(b, house[j], eo));
    NonzeroHasValue(OnceMask(b, house[j], eo));
    assert AssignOnce(b, house[j], eo) == Assign(b, house[j], v);
  }

  /** On a well-formed board a cell holding a value that an unassigned cell of the same house
      also holds is itself unassigned. */
  lemma HolderIsUnassigned(b: Board, house: seq<nat>, j: nat, k: nat, v: nat)
    requires WellFormed(b) && IsHouse(house) && AllPeers(house) && j < 9 && k < 9 && 1 <= v <= MAX_VALUE
    requires !IsValueSet(b[house[k]]) && Has(b[house[k]], v) && Has(b[house[j]], v)
    ensures !IsValueSet(b[house[j]])
  {
    if IsValueSet(b[house[j]]) {
      assert false;
    }
  }

  /** A house whose values are not all present makes set_hidden_single return INVALID with the
      board unchanged. */
  lemma RuleUncovered(b: Board, house: seq<nat>, t: Tally)
    requires |b| == NUM_CELLS && IsHouse(house) && TallyOf(b, house, t) && TallyBits(t)
    requires !Covers(b, house)
    ensures HouseRule(b, house, t) == (Invalid, b)
  {
    PresentMeaning(b, house, t);
  }

  /** The rule does nothing on a house exactly when the house is settled. */
  lemma RuleNone(b: Board, house: seq<nat>, t: Tally)
    requires |b| == NUM_CELLS && IsHouse(house) && TallyOf(b, house, t) && TallyBits(t)
    ensures var r := HouseRule(b, house, t);
      (r.0 == None <==> Settled(b, house)) && (r.0 == None ==> r.1 == b)
  {
    PresentMeaning(b, house, t);
    WithoutValuesOnly(t.atLeastOnce, t.moreThanOnce);
    var eo := ExactlyOnce(t);
    if Covers(b, house) {
      if forall v :: 1 <= v <= MAX_VALUE ==> Holders(b, house, v, 9) != 1 {
        forall v | 1 <= v <= MAX_VALUE ensures !Has(eo, v) {
          ExactlyOnceMeaning(b, house, t, v);
        }
        NoValueIsZero(eo);
      } else {
        var v :| 1 <= v <= MAX_VALUE && Holders(b, house, v, 9) == 1;
        ExactlyOnceMeaning(b, house, t, v);
        HasNonzero(eo, v);
        HolderWitness(b, house, v, 9);
        var k :| 0 <= k < 9 && !IsValueSet(b[house[k]]) && Has(b[house[k]], v);
        ShareValue(b[house[k]], eo, v);
        PlaceOutcome(b, house, eo, 0);
      }
    }
  }

  /** The rule leaves the board alone or makes one assignment. */
  lemma RuleEffect(b: Board, house: seq<nat>, t: Tally)
    requires |b| == NUM_CELLS && IsHouse(house) && TallyBits(t)
    ensures var r := HouseRule(b, house, t);
      r.1 == b || (exists c, v :: 0 <= c < NUM_CELLS && 1 <= v <= MAX_VALUE && r.1 == Assign(b, c, v).1)
  {
    WithoutValuesOnly(t.atLeastOnce, t.moreThanOnce);
    var eo := ExactlyOnce(t);
    var r := HouseRule(b, house, t);
    if ValueCount(ValuesPresent(t)) == MAX_VALUE && eo != 0 {
      PlaceOutcome(b, house, eo, 0);
      if r.0 != None {
        var j :| 0 <= j < 9 && FirstOnce(b, house, eo, 0, j) && r == PlaceAt(b, house, eo, j);
        PlaceAtEffect(b, house, eo, j);
      }
    }
  }

  /** The value a cell takes from exactly_once is also held by an unassigned cell of the
      house. */
  lemma OnceHolder(b: Board, house: seq<nat>, t: Tally, j: nat)
    requires |b| == NUM_CELLS && IsHouse(house) && TallyOf(b, house, t) && TallyBits(t) && j < 9
    requires ValuesOnly(ExactlyOnce(t)) && OnceMask(b, house[j], ExactlyOnce(t)) != 0
    ensures var once := OnceMask(b, house[j], ExactlyOnce(t));
      ValuesOnly(once) && Has(b[house[j]], OnceValue(once)) &&
      (exists k :: 0 <= k < 9 && !IsValueSet(b[house[k]]) && Has(b[house[k]], OnceValue(once)))
  {
    var eo := ExactlyOnce(t);
    var once := OnceMask(b, house[j], eo);
    MeetValuesOnly(b[house[j]], eo);
    var v := OnceValue(once);
    HasMeet(b[house[j]], eo, v);
    ExactlyOnceMeaning(b, house, t, v);
    HolderWitness(b, house, v, 9);
  }

  /** CHANGED from the rule on a well-formed board: a previously unassigned cell was assigned. */
  lemma RuleChanged(b: Board, house: seq<nat>, t: Tally)
    requires WellFormed(b) && IsHouse(house) && AllPeers(house) && TallyOf(b, house, t) && TallyBits(t)
    requires HouseRule(b, house, t).0 == Changed
    ensures (exists c, v :: 0 <= c < NUM_CELLS && 1 <= v <= MAX_VALUE && !IsValueSet(b[c]) &&
               Assign(b, c, v) == (true, HouseRule(b, house, t).1))
  {
    WithoutValuesOnly(t.atLeastOnce, t.moreThanOnce);
    var eo := ExactlyOnce(t);
    var r := HouseRule(b, house, t);
    PlaceOutcome(b, house, eo, 0);
    var j :| 0 <= j < 9 && FirstOnce(b, house, eo, 0, j) && r == PlaceAt(b, house, eo, j);
    PlaceAtEffect(b, house, eo, j);
    OnceHolder(b, house, t, j);
    var once := OnceMask(b, house[j], eo);
    var v := OnceValue(once);
    var k :| 0 <= k < 9 && !IsValueSet(b[house[k]]) && Has(b[house[k]], v);
    HolderIsUnassigned(b, house, j, k, v);
    assert Assign(b, house[j], v) == (true, r.1);
  }

  /** A cell holding no value that only one unassigned cell holds meets exactly_once nowhere. */
  lemma OnceMissing(b: Board, house: seq<nat>, t: Tally, i: nat)
    requires |b| == NUM_CELLS && IsHouse(house) && TallyOf(b, house, t) && i < 9
    requires ValuesOnly(ExactlyOnce(t))
    requires forall u :: 1 <= u <= MAX_VALUE && Has(b[house[i]], u) ==> Holders(b, house, u, 9) != 1
    ensures OnceMask(b, house[i], ExactlyOnce(t)) == 0
  {
    var eo := ExactlyOnce(t);
    forall u | 1 <= u <= MAX_VALUE ensures !Has(OnceMask(b, house[i], eo), u) {
      HasMeet(b[house[i]], eo, u);
      ExactlyOnceMeaning(b, house, t, u);
    }
    MeetValuesOnly(b[house[i]], eo);
    NoValueIsZero(OnceMask(b, house[i], eo));
  }

  /** No cell of the house before cell k holds a value that only one unassigned cell holds. */
  predicate NoneBefore(b: Board, house: seq<nat>, k: nat)
    requires |b| == NUM_CELLS && IsHouse(house) && k < 9
  {
    forall i, u :: 0 <= i < k && 1 <= u <= MAX_VALUE && Has(b[house[i]], u) ==> Holders(b, house, u, 9) != 1
  }

  /** Cell k holds two values each of which only one unassigned cell holds. */
  predicate HoldsTwo(b: Board, house: seq<nat>, k: nat)
    requires |b| == NUM_CELLS && IsHouse(house) && k < 9
  {
    exists v, w :: 1 <= v < w <= MAX_VALUE && Has(b[house[k]], v) && Has(b[house[k]], w) &&
      Holders(b, house, v, 9) == 1 && Holders(b, house, w, 9) == 1
  }

  /** When that first cell holds two values each held by no other unassigned cell, the rule
      returns INVALID and leaves the board alone. */
  lemma RuleTwoValues(b: Board, house: seq<nat>, t: Tally, k: nat)
    requires |b| == NUM_CELLS && IsHouse(house) && TallyOf(b, house, t) && TallyBits(t) && k < 9
    requires Covers(b, house) && NoneBefore(b, house, k) && HoldsTwo(b, house, k)
    ensures HouseRule(b, house, t) == (Invalid, b)
  {
    PresentMeaning(b, house, t);
    WithoutValuesOnly(t.atLeastOnce, t.moreThanOnce);
    var eo := ExactlyOnce(t);
    OnceHoldsTwo(b, house, t, k);
    forall i | 0 <= i < k ensures OnceMask(b, house[i], eo) == 0 {
      OnceMissing(b, house, t, i);
    }
    assert FirstOnce(b, house, eo, 0, k);
    PlaceOutcome(b, house, eo, 0);
  }

  lemma OnceHoldsTwo(b: Board, house: seq<nat>, t: Tally, k: nat)
    requires |b| == NUM_CELLS && IsHouse(house) && TallyOf(b, house, t) && k < 9
    requires HoldsTwo(b, house, k)
    ensures ExactlyOnce(t) != 0
    ensures OnceMask(b, house[k], ExactlyOnce(t)) != 0 && ValueCount(OnceMask(b, house[k], ExactlyOnce(t))) > 1
  {
    var v, w :| 1 <= v < w <= MAX_VALUE && Has(b[house[k]], v) && Has(b[house[k]], w) &&
      Holders(b, house, v, 9) == 1 && Holders(b, house, w, 9) == 1;
    OncePair(b, house, t, k, v, w);
  }

  lemma OncePair(b: Board, house: seq<nat>, t: Tally, k: nat, v: nat, w: nat)
    requires |b| == NUM_CELLS && IsHouse(house) && TallyOf(b, house, t) && k < 9
    requires 1 <= v < w <= MAX_VALUE && Has(b[house[k]], v) && Has(b[house[k]], w)
    requires Holders(b, house, v, 9) == 1 && Holders(b, house, w, 9) == 1
    ensures ExactlyOnce(t) != 0
    ensures OnceMask(b, house[k], ExactlyOnce(t)) != 0 && ValueCount(OnceMask(b, house[k], ExactlyOnce(t))) > 1
  {
    ExactlyOnceMeaning(b, house, t, v);
    ExactlyOnceMeaning(b, house, t, w);
    MaskHoldsTwo(b[house[k]], ExactlyOnce(t), v, w);
  }

  lemma MaskHoldsTwo(mask: bv32, eo: bv32, v: nat, w: nat)
    requires 1 <= v < w <= MAX_VALUE && Has(mask, v) && Has(mask, w) && Has(eo, v) && Has(eo, w)
    ensures eo != 0 && mask & eo != 0 && ValueCount(mask & eo) > 1
  {
    HasNonzero(eo, v);
    MeetHoldsTwo(mask, eo, v, w);
  }

  /** The tallying loop of set_hidden_single over one house. */
  method TallyHouse(board: array<bv32>, house: seq<nat>)
      returns (valueSetMask: bv32, atLeastOnce: bv32, moreThanOnce: bv32)
    requires board.Length == NUM_CELLS && IsHouse(house)
    ensures Tally(valueSetMask, atLeastOnce, moreThanOnce) == TallyUpTo(board[..], house, 9)
  {
    ghost var b := board[..];
    valueSetMask, atLeastOnce, moreThanOnce := 0, 0, 0;
    for k := 0 to 9
      invariant Tally(valueSetMask, atLeastOnce, moreThanOnce) == TallyUpTo(b, house, k)
    {
      var mask := board[house[k]];
      if IsValueSet(mask) {
        NextAssigned(b, house, k, valueSetMask, atLeastOnce, moreThanOnce, mask);
        valueSetMask := valueSetMask | mask;
      } else {
        NextUnassigned(b, house, k, valueSetMask, atLeastOnce, moreThanOnce, mask);
        moreThanOnce := moreThanOnce | (mask & atLeastOnce);
        atLeastOnce := atLeastOnce | mask;
      }
    }
  }

  /** One pass of the tallying loop over an assigned cell ... */
  lemma NextAssigned(b: Board, house: seq<nat>, k: nat, vsm: bv32, alo: bv32, mto: bv32, mask: bv32)
    requires |b| == NUM_CELLS && IsHouse(house) && k < 9
    requires Tally(vsm, alo, mto) == TallyUpTo(b, house, k) && mask == b[house[k]] && IsValueSet(mask)
    ensures Tally(vsm | mask, alo, mto) == TallyUpTo(b, house, k + 1)
  {
    TallyNext(b, house, k, Tally(vsm, alo, mto), mask);
    StepAssigned(vsm, alo, mto, mask);
  }

  /** ... and over an unassigned one. */
  lemma NextUnassigned(b: Board, house: seq<nat>, k: nat, vsm: bv32, alo: bv32, mto: bv32, mask: bv32)
    requires |b| == NUM_CELLS && IsHouse(house) && k < 9
    requires Tally(vsm, alo, mto) == TallyUpTo(b, house, k) && mask == b[house[k]] && !IsValueSet(mask)
    ensures Tally(vsm, alo | mask, mto | (mask & alo)) == TallyUpTo(b, house, k + 1)
  {
    TallyNext(b, house, k, Tally(vsm, alo, mto), mask);
    StepUnassigned(vsm, alo, mto, mask);
  }

  lemma TallyNext(b: Board, house: seq<nat>, k: nat, t: Tally, mask: bv32)
    requires |b| == NUM_CELLS && IsHouse(house) && k < 9
    requires t == TallyUpTo(b, house, k) && mask == b[house[k]]
    ensures TallyUpTo(b, house, k + 1) == TallyStep(t, mask)
  {
  }

  lemma StepAssigned(vsm: bv32, alo: bv32, mto: bv32, mask: bv32)
    requires IsValueSet(mask)
    ensures TallyStep(Tally(vsm, alo, mto), mask) == Tally(vsm | mask, alo, mto)
  {
  }

  lemma StepUnassigned(vsm: bv32, alo: bv32, mto: bv32, mask: bv32)
    requires !IsValueSet(mask)
    ensures TallyStep(Tally(vsm, alo, mto), mask) == Tally(vsm, alo | mask, mto | (mask & alo))
  {
  }

  /** The placing loop of set_hidden_single over one house. */
  method PlaceOnce(board: array<bv32>, house: seq<nat>, exactlyOnce: bv32) returns (result: LogicResult)
    requires board.Length == NUM_CELLS && IsHouse(house) && ValuesOnly(exactlyOnce)
    modifies board
    ensures (result, board[..]) == PlaceFrom(old(board[..]), house, exactlyOnce, 0)
  {
    ghost var b := board[..];
    for k := 0 to 9
      invariant board[..] == b
      invariant PlaceFrom(b, house, exactlyOnce, 0) == PlaceFrom(b, house, exactlyOnce, k)
    {
      var onceMask := board[house[k]] & exactlyOnce;
      if onceMask != 0 {
        result := PlaceCell(board, house, exactlyOnce, k);
        return;
      }
    }
    return None;
  }

  /** The body of the placing loop at the first cell that holds a value of exactly_once. */
  method PlaceCell(board: array<bv32>, house: seq<nat>, exactlyOnce: bv32, k: nat) returns (result: LogicResult)
    requires board.Length == NUM_CELLS && IsHouse(house) && ValuesOnly(exactlyOnce) && k < 9
    requires OnceMask(board[..], house[k], exactlyOnce) != 0
    modifies board
    ensures (result, board[..]) == PlaceAt(old(board[..]), house, exactlyOnce, k)
  {
    ghost var b := board[..];
    var cell := house[k];
    var onceMask := board[cell] & exactlyOnce;
    assert onceMask == OnceMask(b, cell, exactlyOnce);
    if ValueCount(onceMask) > 1 {
      return Invalid;
    }
    MeetValuesOnly(board[cell], exactlyOnce);
    var onceValue := OnceValue(onceMask);
    PlaceAtOne(b, house, exactlyOnce, k);
    assert AssignOnce(b, cell, exactlyOnce) == Assign(b, cell, onceValue);
    var ok := SetValue(board, cell, onceValue);
    if !ok {
      return Invalid;
    }
    return Changed;
  }

  /** At a cell with one value of exactly_once the decision is the assignment of that value. */
  lemma PlaceAtOne(b: Board, house: seq<nat>, eo: bv32, k: nat)
    requires |b| == NUM_CELLS && IsHouse(house) && ValuesOnly(eo) && k < 9
    requires OnceMask(b, house[k], eo) != 0 && ValueCount(OnceMask(b, house[k], eo)) <= 1
    ensures var r := AssignOnce(b, house[k], eo);
      PlaceAt(b, house, eo, k) == (if r.0 then Changed else Invalid, r.1)
  {
  }

  // ---------------------------------------------------------------------------
  // Hidden single over the 27 houses
  // ---------------------------------------------------------------------------

  /** The rule on house g does nothing exactly when the house is settled. */
  lemma HouseResultNone(b: Board, g: nat)
    requires AllClean(b) && g < 27
    ensures var r := HouseResult(b, g);
      (r.0 == None <==> HouseSettled(b, g)) && (r.0 == None ==> r.1 == b)
  {
    HouseAt(g);
    var house := HOUSES[g];
    HouseTally(b, house);
    TallyClean(b, house, 9);
    RuleNone(b, house, TallyUpTo(b, house, 9));
  }

  /** What set_hidden_single returns from house h on: NONE exactly when every house is settled,
      and then the board is unchanged; otherwise the first house that is not settled decides. */
  lemma HiddenOutcome(b: Board, h: nat)
    requires AllClean(b) && h <= 27
    ensures var r := HiddenFrom(b, h);
      (r.0 == None <==> forall g :: h <= g < 27 ==> HouseSettled(b, g)) && (r.0 == None ==> r.1 == b)
    ensures var r := HiddenFrom(b, h);
      r.0 != None ==> (exists g :: h <= g < 27 && (forall f :: h <= f < g ==> HouseSettled(b, f)) &&
                                  r == HouseResult(b, g))
  {
    HiddenNone(b, h);
    HiddenFirst(b, h);
  }

  lemma {:induction false} HiddenNone(b: Board, h: nat)
    requires AllClean(b) && h <= 27
    ensures var r := HiddenFrom(b, h);
      (r.0 == None <==> forall g :: h <= g < 27 ==> HouseSettled(b, g)) && (r.0 == None ==> r.1 == b)
    decreases 27 - h
  {
    if h < 27 {
      HouseResultNone(b, h);
      HiddenNone(b, h + 1);
      assert (forall g :: h <= g < 27 ==> HouseSettled(b, g)) <==>
        HouseSettled(b, h) && forall g :: h + 1 <= g < 27 ==> HouseSettled(b, g);
    }
  }

  lemma {:induction false} HiddenFirst(b: Board, h: nat)
    requires AllClean(b) && h <= 27
    ensures var r := HiddenFrom(b, h);
      r.0 != None ==> (exists g :: h <= g < 27 && (forall f :: h <= f < g ==> HouseSettled(b, f)) &&
                                  r == HouseResult(b, g))
    decreases 27 - h
  {
    if h < 27 {
      HouseResultNone(b, h);
      HiddenFirst(b, h + 1);
      var r := HiddenFrom(b, h);
      if HouseResult(b, h).0 == None && r.0 != None {
        var g :| h + 1 <= g < 27 && (forall f :: h + 1 <= f < g ==> HouseSettled(b, f)) &&
          r == HouseResult(b, g);
        assert forall f :: h <= f < g ==> HouseSettled(b, f);
      }
    }
  }

  /** Past settled houses set_hidden_single goes on to the next. */
  lemma {:induction false} HiddenSkips(b: Board, h: nat, g: nat)
    requires AllClean(b) && h <= g < 27
    requires forall f :: h <= f < g ==> HouseSettled(b, f)
    ensures HiddenFrom(b, h) == HouseResult(b, g) || (HouseResult(b, g).0 == None && HiddenFrom(b, h) == HiddenFrom(b, g + 1))
    decreases g - h
  {
    if h < g {
      HouseResultNone(b, h);
      HiddenSkips(b, h + 1, g);
    }
  }

  lemma HouseEffect(b: Board, g: nat)
    requires AllClean(b) && g < 27
    ensures var r := HouseResult(b, g);
      r.1 == b || (exists c, v :: 0 <= c < NUM_CELLS && 1 <= v <= MAX_VALUE && r.1 == Assign(b, c, v).1)
  {
    HouseAt(g);
    TallyClean(b, HOUSES[g], 9);
    RuleEffect(b, HOUSES[g], TallyUpTo(b, HOUSES[g], 9));
  }

  lemma HouseChanged(b: Board, g: nat)
    requires WellFormed(b) && g < 27 && HouseResult(b, g).0 == Changed
    ensures (exists c, v :: 0 <= c < NUM_CELLS && 1 <= v <= MAX_VALUE && !IsValueSet(b[c]) &&
               Assign(b, c, v) == (true, HouseResult(b, g).1))
  {
    HouseAt(g);
    var house := HOUSES[g];
    HouseTally(b, house);
    TallyClean(b, house, 9);
    RuleChanged(b, house, TallyUpTo(b, house, 9));
  }

  /** Whatever set_hidden_single returns, it adds no candidate. */
  lemma HiddenOnlyClears(b: Board)
    requires AllClean(b)
    ensures var r := HiddenFrom(b, 0);
      |r.1| == NUM_CELLS && NoCandidateAdded(b, r.1)
  {
    var r := HiddenFrom(b, 0);
    HiddenOutcome(b, 0);
    if r.0 != None {
      var g :| 0 <= g < 27 && r == HouseResult(b, g);
      HouseEffect(b, g);
    }
    if r.1 == b {
      forall c | 0 <= c < NUM_CELLS ensures CandidatesIn(r.1[c], b[c]) { CandidatesWithin(b[c]); }
    } else {
      var c, v :| 0 <= c < NUM_CELLS && 1 <= v <= MAX_VALUE && r.1 == Assign(b, c, v).1;
      AssignOnlyClears(b, c, v);
    }
  }

  /** CHANGED from set_hidden_single means exactly one new assignment, and a well-formed board
      stays well formed. */
  lemma HiddenChanged(b: Board)
    requires WellFormed(b) && HiddenFrom(b, 0).0 == Changed
    ensures var b' := HiddenFrom(b, 0).1;
      |b'| == NUM_CELLS && OneNewAssignment(b, b') && Givens(b') == Givens(b) + 1 && WellFormed(b')
  {
    var r := HiddenFrom(b, 0);
    HiddenOutcome(b, 0);
    var g :| 0 <= g < 27 && r == HouseResult(b, g);
    HouseChanged(b, g);
    var c, v :| 0 <= c < NUM_CELLS && 1 <= v <= MAX_VALUE && !IsValueSet(b[c]) &&
      Assign(b, c, v) == (true, r.1);
    AssignAddsOneGiven(b, c, v);
    AssignKeepsWellFormed(b, c, v);
  }

  /** When every earlier house is settled and house g misses a value, set_hidden_single returns
      INVALID with the board unchanged. */
  lemma HiddenUncovered(b: Board, g: nat)
    requires AllClean(b) && g < 27
    requires forall f :: 0 <= f < g ==> HouseSettled(b, f)
    requires !HouseCovered(b, g)
    ensures HiddenFrom(b, 0) == (Invalid, b)
  {
    HouseAt(g);
    var house := HOUSES[g];
    HouseTally(b, house);
    TallyClean(b, house, 9);
    RuleUncovered(b, house, TallyUpTo(b, house, 9));
    HiddenSkips(b, 0, g);
  }

  /** Cell k of house g is the first to hold a value of exactly_once and holds two of them. */
  predicate HouseHoldsTwo(b: Board, g: nat, k: nat)
    requires |b| == NUM_CELLS && g < 27 && k < 9
  {
    HouseAt(g);
    Covers(b, HOUSES[g]) && NoneBefore(b, HOUSES[g], k) && HoldsTwo(b, HOUSES[g], k)
  }

  /** When every earlier house is settled and, in house g, the first cell holding a value that
      only one unassigned cell holds holds two such values, set_hidden_single returns INVALID
      with the board unchanged. */
  lemma HiddenTwoValues(b: Board, g: nat, k: nat)
    requires AllClean(b) && g < 27 && k < 9
    requires forall f :: 0 <= f < g ==> HouseSettled(b, f)
    requires HouseHoldsTwo(b, g, k)
    ensures HiddenFrom(b, 0) == (Invalid, b)
  {
    HouseAt(g);
    var house := HOUSES[g];
    HouseTally(b, house);
    TallyClean(b, house, 9);
    RuleTwoValues(b, house, TallyUpTo(b, house, 9), k);
    HiddenSkips(b, 0, g);
  }

  method SetHiddenSingle(board: array<bv32>) returns (result: LogicResult)
    requires AllClean(board[..])
    modifies board
    ensures (result, board[..]) == HiddenFrom(old(board[..]), 0)
  {
    ghost var b := board[..];
    for h := 0 to 27
      invariant board[..] == b
      invariant HiddenFrom(b, 0) == HiddenFrom(b, h)
    {
      result := HiddenHouse(board, h);
      if result != None {
        return;
      }
      HouseResultNone(b, h);
    }
    return None;
  }

  /** The body of set_hidden_single's loop over the houses, for house h. */
  method HiddenHouse(board: array<bv32>, h: nat) returns (result: LogicResult)
    requires AllClean(board[..]) && h < 27
    modifies board
    ensures (result, board[..]) == HouseResult(old(board[..]), h)
  {
    HouseAt(h);
    var house := HOUSES[h];
    TallyClean(board[..], house, 9);
    var valueSetMask, atLeastOnce, moreThanOnce := TallyHouse(board, house);
    result := RuleHouse(board, house, valueSetMask, atLeastOnce, moreThanOnce);
  }

  /** The rest of the house loop once the house is tallied: the coverage test, then the placing
      scan when some value is held by exactly one unassigned cell. */
  method RuleHouse(board: array<bv32>, house: seq<nat>, valueSetMask: bv32, atLeastOnce: bv32,
                   moreThanOnce: bv32)
    returns (result: LogicResult)
    requires board.Length == NUM_CELLS && IsHouse(house)
    requires TallyBits(Tally(valueSetMask, atLeastOnce, moreThanOnce))
    modifies board
    ensures (result, board[..]) == HouseRule(old(board[..]), house, Tally(valueSetMask, atLeastOnce, moreThanOnce))
  {
    ghost var t := Tally(valueSetMask, atLeastOnce, moreThanOnce);
    var valuesPresent := atLeastOnce | (valueSetMask & !VALUE_SET);
    assert valuesPresent == ValuesPresent(t);
    if ValueCount(valuesPresent) != MAX_VALUE {
      return Invalid;
    }
    var exactlyOnce := atLeastOnce & !moreThanOnce;
    assert exactlyOnce == ExactlyOnce(t);
    WithoutValuesOnly(atLeastOnce, moreThanOnce);
    if exactlyOnce != 0 {
      result := PlaceOnce(board, house, exactlyOnce);
    } else {
      result := None;
    }
  }

  // ---------------------------------------------------------------------------
  // set_single: the naked rule first, the hidden rule only when it finds nothing
  // ---------------------------------------------------------------------------

  function Single(b: Board): (LogicResult, Board)
    requires AllClean(b)
  {
    var naked := NakedFrom(b, 0);
    if naked.0 != None then naked
    else
      NakedOutcome(b, 0);
      HiddenFrom(naked.1, 0)
  }

  method SetSingle(board: array<bv32>) returns (result: LogicResult)
    requires AllClean(board[..])
    modifies board
    ensures (result, board[..]) == Single(old(board[..]))
  {
    ghost var b := board[..];
    var nakedResult := SetNakedSingle(board);
    if nakedResult != None {
      return nakedResult;
    }
    NakedOutcome(b, 0);
    result := SetHiddenSingle(board);
  }

  /** The hidden rule runs only when the naked rule returns NONE, and then on the board the
      naked rule left alone. */
  lemma SingleOrder(b: Board)
    requires AllClean(b)
    ensures NakedFrom(b, 0).0 != None ==> Single(b) == NakedFrom(b, 0)
    ensures NakedFrom(b, 0).0 == None ==> Single(b) == HiddenFrom(b, 0)
  {
    NakedOutcome(b, 0);
  }

  /** set_single returns NONE exactly when no cell is empty, no unassigned cell has a single
      candidate and every house is settled; the board is then unchanged. */
  lemma SingleNone(b: Board)
    requires AllClean(b)
    ensures Single(b).0 == None <==>
      (forall c :: 0 <= c < NUM_CELLS ==> b[c] != 0 && !NakedSingleAt(b, c)) &&
      (forall g :: 0 <= g < 27 ==> HouseSettled(b, g))
    ensures Single(b).0 == None ==> Single(b).1 == b
  {
    NakedOutcome(b, 0);
    HiddenOutcome(b, 0);
  }

  /** Whatever set_single returns, it adds no candidate; CHANGED on a well-formed board means
      exactly one new assignment and a well-formed result. */
  lemma SingleEffect(b: Board)
    requires AllClean(b)
    ensures |Single(b).1| == NUM_CELLS && NoCandidateAdded(b, Single(b).1)
    ensures WellFormed(b) && Single(b).0 == Changed ==>
      OneNewAssignment(b, Single(b).1) && Givens(Single(b).1) == Givens(b) + 1 && WellFormed(Single(b).1)
  {
    SingleOrder(b);
    NakedOnlyClears(b);
    HiddenOnlyClears(b);
    if WellFormed(b) && Single(b).0 == Changed {
      if NakedFrom(b, 0).0 != None {
        NakedChanged(b);
      } else {
        HiddenChanged(b);
      }
    }
  }
}
