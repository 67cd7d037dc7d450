/**
 * Boards: 81 cell masks, row-major. Boards are values (the solver copies them whenever the
 * search branches); the in-place operations work on an array holding one of them.
 */
module Boards {
  import opened Bits
  import opened Houses

  type Board = seq<bv32>

  /** Every cell has all nine candidates and no cell is assigned. */
  function NewBoard(): (b: Board)
  {
    seq(NUM_CELLS, _ => ALL_VALUES)
  }

  /** Every mask of the board uses only the candidate bits and the assigned flag. */
  predicate AllClean(b: Board) {
    |b| == NUM_CELLS && forall c :: 0 <= c < NUM_CELLS ==> Clean(b[c])
  }

  /** An assigned cell shares no candidate with any of its peers. Assignment establishes this
      for the cell it commits, by clearing the value from every peer. */
  predicate Consistent(b: Board)
    requires |b| == NUM_CELLS
  {
    forall c, p :: 0 <= c < NUM_CELLS && 0 <= p < NUM_CELLS && IsValueSet(b[c]) && Peer(c, p) ==>
      Candidates(b[c]) & b[p] == 0
  }

  /** The invariant of every board the solver keeps: clean masks and consistent assignments. */
  predicate WellFormed(b: Board) {
    AllClean(b) && Consistent(b)
  }

  /** The number of assigned cells among the first n cells. */
  function GivensBelow(b: Board, n: nat): nat
    requires n <= |b|
  {
    if n == 0 then 0 else GivensBelow(b, n - 1) + (if IsValueSet(b[n - 1]) then 1 else 0)
  }

  /** The number of assigned cells (the cells carrying VALUE_SET). */
  function Givens(b: Board): nat {
    GivensBelow(b, |b|)
  }

  /** The total number of candidates left on the board, summed over its first n cells. */
  function CandidatesBelow(b: Board, n: nat): nat
    requires n <= |b|
  {
    if n == 0 then 0 else CandidatesBelow(b, n - 1) + ValueCount(b[n - 1])
  }

  function TotalCandidates(b: Board): nat {
    CandidatesBelow(b, |b|)
  }

  /** No cell of b' has a candidate bit that the same cell of b lacked. */
  predicate NoCandidateAdded(b: Board, b': Board)
    requires |b| == |b'|
  {
    forall c :: 0 <= c < |b| ==> CandidatesIn(b'[c], b[c])
  }

  /** Exactly one cell, previously unassigned, carries the assigned flag in b' and every other
      cell keeps its flag. */
  predicate OneNewAssignment(b: Board, b': Board)
    requires |b| == |b'|
  {
    exists c :: 0 <= c < |b| && !IsValueSet(b[c]) && IsValueSet(b'[c]) &&
      forall p :: 0 <= p < |b| && p != c ==> IsValueSet(b'[p]) == IsValueSet(b[p])
  }

  /** Every cell of the board is assigned. */
  predicate FullyAssigned(b: Board) {
    forall c :: 0 <= c < |b| ==> IsValueSet(b[c])
  }

  // ---------------------------------------------------------------------------

  /** A blank board is well formed, has no givens, and gives every cell all nine candidates. */
  lemma NewBoardIsBlank()
    ensures |NewBoard()| == NUM_CELLS && WellFormed(NewBoard()) && Givens(NewBoard()) == 0
    ensures forall c :: 0 <= c < NUM_CELLS ==>
      !IsValueSet(NewBoard()[c]) && ValueCount(NewBoard()[c]) == MAX_VALUE
  {
    var b := NewBoard();
    FullValueCount(ALL_VALUES);
    GivensNone(b, |b|);
  }

  lemma {:induction false} GivensNone(b: Board, n: nat)
    requires n <= |b| && forall c :: 0 <= c < n ==> !IsValueSet(b[c])
    ensures GivensBelow(b, n) == 0
  {
    if n > 0 { GivensNone(b, n - 1); }
  }

  /** The given count is at most the number of cells, and reaches it exactly when every cell is
      assigned. */
  lemma {:induction false} GivensRange(b: Board, n: nat)
    requires n <= |b|
    ensures GivensBelow(b, n) <= n
    ensures GivensBelow(b, n) == n <==> forall c :: 0 <= c < n ==> IsValueSet(b[c])
  {
    if n > 0 { GivensRange(b, n - 1); }
  }

  /** Boards that agree on every assigned flag have the same given count. */
  lemma {:induction false} GivensSameFlags(b: Board, b': Board, n: nat)
    requires n <= |b| == |b'|
    requires forall c :: 0 <= c < n ==> IsValueSet(b'[c]) == IsValueSet(b[c])
    ensures GivensBelow(b', n) == GivensBelow(b, n)
  {
    if n > 0 { GivensSameFlags(b, b', n - 1); }
  }

  /** One new assigned flag raises the given count by exactly one. */
  lemma {:induction false} GivensOneMore(b: Board, b': Board, cell: nat, n: nat)
    requires n <= |b| == |b'| && cell < |b|
    requires !IsValueSet(b[cell]) && IsValueSet(b'[cell])
    requires forall p :: 0 <= p < |b| && p != cell ==> IsValueSet(b'[p]) == IsValueSet(b[p])
    ensures GivensBelow(b', n) == GivensBelow(b, n) + (if cell < n then 1 else 0)
  {
    if n > 0 { GivensOneMore(b, b', cell, n - 1); }
  }

  lemma OneNewAssignmentCounts(b: Board, b': Board)
    requires |b| == |b'| && OneNewAssignment(b, b')
    ensures Givens(b') == Givens(b) + 1
  {
    var c :| 0 <= c < |b| && !IsValueSet(b[c]) && IsValueSet(b'[c]) &&
      forall p :: 0 <= p < |b| && p != c ==> IsValueSet(b'[p]) == IsValueSet(b[p]);
    GivensOneMore(b, b', c, |b|);
  }

  /** When no candidate bit is added the candidate total does not grow. */
  lemma {:induction false} CandidatesShrink(b: Board, b': Board, n: nat)
    requires n <= |b| == |b'| && NoCandidateAdded(b, b')
    ensures CandidatesBelow(b', n) <= CandidatesBelow(b, n)
  {
    if n > 0 {
      CandidatesShrink(b, b', n - 1);
      ValueCountShrinks(b'[n - 1], b[n - 1]);
    }
  }

  /** ... and when some cell loses candidates the total drops. */
  lemma {:induction false} CandidatesDrop(b: Board, b': Board, n: nat, c: nat)
    requires n <= |b| == |b'| && NoCandidateAdded(b, b')
    requires c < n && ValueCount(b'[c]) < ValueCount(b[c])
    ensures CandidatesBelow(b', n) < CandidatesBelow(b, n)
  {
    if c < n - 1 {
      CandidatesDrop(b, b', n - 1, c);
      ValueCountShrinks(b'[n - 1], b[n - 1]);
    } else {
      CandidatesShrink(b, b', n - 1);
    }
  }

  /** Removing one candidate from an unassigned cell keeps a board well formed, keeps its given
      count and lowers its candidate total. */
  lemma RemoveCandidate(b: Board, cell: nat, v: nat)
    requires WellFormed(b) && cell < NUM_CELLS && 1 <= v <= MAX_VALUE
    requires !IsValueSet(b[cell]) && Has(b[cell], v)
    ensures var b' := b[cell := Without(b[cell], ValueMask(v))];
      WellFormed(b') && Givens(b') == Givens(b) && NoCandidateAdded(b, b') &&
      TotalCandidates(b') < TotalCandidates(b)
  {
    var b' := b[cell := Without(b[cell], ValueMask(v))];
    WithoutValue(b[cell], v);
    WithoutWithin(b[cell], ValueMask(v));
    NoCandidateAddedByUpdate(b, cell, b'[cell]);
    ShrinkUnassigned(b, b', cell);
    RemoveCandidateCounts(b, b', cell, v);
  }

  /** Replacing one mask by one whose candidates the old mask already had adds no candidate. */
  lemma NoCandidateAddedByUpdate(b: Board, cell: nat, m: bv32)
    requires cell < |b| && CandidatesIn(m, b[cell])
    ensures NoCandidateAdded(b, b[cell := m])
  {
    forall c | 0 <= c < |b| ensures CandidatesIn(b[cell := m][c], b[c]) {
      if c != cell {
        CandidatesWithin(b[c]);
      }
    }
  }

  lemma RemoveCandidateCounts(b: Board, b': Board, cell: nat, v: nat)
    requires |b| == |b'| && cell < |b| && 1 <= v <= MAX_VALUE && Has(b[cell], v)
    requires b' == b[cell := Without(b[cell], ValueMask(v))]
    ensures Givens(b') == Givens(b) && TotalCandidates(b') < TotalCandidates(b)
  {
    WithoutValue(b[cell], v);
    GivensSameFlags(b, b', |b|);
    ValueCountDrops(b'[cell], b[cell], v);
    CandidatesDrop(b, b', |b|, cell);
  }

  /** Shrinking the mask of one unassigned cell, without touching its flag, keeps a board well
      formed. */
  lemma ShrinkUnassigned(b: Board, b': Board, cell: nat)
    requires WellFormed(b) && |b'| == NUM_CELLS && cell < NUM_CELLS && !IsValueSet(b[cell])
    requires forall c :: 0 <= c < NUM_CELLS && c != cell ==> b'[c] == b[c]
    requires b'[cell] & !b[cell] == 0
    ensures WellFormed(b')
  {
    forall c, p | 0 <= c < NUM_CELLS && 0 <= p < NUM_CELLS && IsValueSet(b'[c]) && Peer(c, p)
      ensures Candidates(b'[c]) & b'[p] == 0
    {
      assert Candidates(b[c]) & b[p] == 0;
    }
  }

  /** On a well-formed board a peer of an assigned cell never holds that cell's value (neither
      as its own assigned value nor as a candidate). */
  lemma AssignedPeersDisjoint(b: Board, c: nat, p: nat, v: nat)
    requires WellFormed(b) && c < NUM_CELLS && p < NUM_CELLS && Peer(c, p) && 1 <= v <= MAX_VALUE
    requires IsValueSet(b[c]) && Has(b[c], v)
    ensures !Has(b[p], v)
  {
    assert Candidates(b[c]) & b[p] == 0;
  }

  /** Adding no candidate is transitive. */
  lemma NoCandidateAddedTrans(b: Board, b': Board, b'': Board)
    requires |b| == |b'| == |b''| && NoCandidateAdded(b, b') && NoCandidateAdded(b', b'')
    ensures NoCandidateAdded(b, b'')
  {
    forall c | 0 <= c < |b| ensures CandidatesIn(b''[c], b[c]) {
      CandidatesInTrans(b''[c], b'[c], b[c]);
    }
  }
}
