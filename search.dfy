/**
 * The search: unset_cells and best_cell, which choose where to branch, and count_solutions,
 * a depth-first search over an explicit stack of board snapshots that applies the single
 * rules until they stop, then branches on a cell's highest candidate.
 */
module Search {
  import opened Bits
  import opened Houses
  import opened Boards
  import opened Assignment
  import opened Deduction
  import opened Validity

  // ---------------------------------------------------------------------------
  // unset_cells
  // ---------------------------------------------------------------------------

  /** A cell that unset_cells lists: unassigned and still holding some bit. */
  predicate Unset(b: Board, cell: nat)
    requires cell < |b|
  {
    b[cell] & VALUE_SET == 0 && b[cell] != 0
  }

  /** The unset cells from `cell` on, in increasing order. */
  function UnsetFrom(b: Board, cell: nat): seq<nat>
    requires |b| == NUM_CELLS && cell <= NUM_CELLS
    decreases NUM_CELLS - cell
  {
    if cell == NUM_CELLS then []
    else (if Unset(b, cell) then [cell] else []) + UnsetFrom(b, cell + 1)
  }

  function UnsetCells(b: Board): seq<nat>
    requires |b| == NUM_CELLS
  {
    UnsetFrom(b, 0)
  }

  /** The list holds exactly the unset cells from `cell` on. */
  lemma {:induction false} UnsetFromMembers(b: Board, cell: nat)
    requires |b| == NUM_CELLS && cell <= NUM_CELLS
    ensures forall c: nat :: c in UnsetFrom(b, cell) <==> cell <= c < NUM_CELLS && Unset(b, c)
    decreases NUM_CELLS - cell
  {
    if cell < NUM_CELLS {
      UnsetFromMembers(b, cell + 1);
      assert UnsetFrom(b, cell) == (if Unset(b, cell) then [cell] else []) + UnsetFrom(b, cell + 1);
    }
  }

  /** ... in increasing order. */
  lemma {:induction false} UnsetFromSorted(b: Board, cell: nat)
    requires |b| == NUM_CELLS && cell <= NUM_CELLS
    ensures forall i, j :: 0 <= i < j < |UnsetFrom(b, cell)| ==> UnsetFrom(b, cell)[i] < UnsetFrom(b, cell)[j]
    decreases NUM_CELLS - cell
  {
    if cell < NUM_CELLS {
      UnsetFromSorted(b, cell + 1);
      UnsetFromMembers(b, cell + 1);
      var tail := UnsetFrom(b, cell + 1);
      assert forall k :: 0 <= k < |tail| ==> tail[k] in tail;
    }
  }

  /** unset_cells lists exactly the unassigned cells that still hold a bit, in increasing
      order (so each once). */
  lemma UnsetCellsMeaning(b: Board)
    requires |b| == NUM_CELLS
    ensures forall c: nat :: c in UnsetCells(b) <==> c < NUM_CELLS && !IsValueSet(b[c]) && b[c] != 0
    ensures forall i, j :: 0 <= i < j < |UnsetCells(b)| ==> UnsetCells(b)[i] < UnsetCells(b)[j]
  {
    UnsetFromMembers(b, 0);
    UnsetFromSorted(b, 0);
  }

  // ---------------------------------------------------------------------------
  // best_cell
  // ---------------------------------------------------------------------------

  /** The per-cell facts best_cell reads: whether the cell is assigned and how many candidates
      its mask has. */
  function AssignedFlags(b: Board): (r: seq<bool>)
    requires |b| == NUM_CELLS
    ensures |r| == NUM_CELLS
  {
    seq(NUM_CELLS, c requires 0 <= c < NUM_CELLS => IsValueSet(b[c]))
  }

  function CellCounts(b: Board): (r: seq<nat>)
    requires |b| == NUM_CELLS
    ensures |r| == NUM_CELLS
  {
    seq(NUM_CELLS, c requires 0 <= c < NUM_CELLS => ValueCount(b[c]))
  }

  /** The scan of best_cell from `cell` on, with the best cell and count found so far: an
      unassigned cell with two candidates is returned at once, otherwise a cell with fewer
      candidates than the best so far replaces it. */
  function BestFrom(flags: seq<bool>, counts: seq<nat>, cell: nat, best: nat, bestCount: nat): nat
    requires |flags| == |counts| == NUM_CELLS && cell <= NUM_CELLS
    decreases NUM_CELLS - cell
  {
    if cell == NUM_CELLS then best
    else if flags[cell] then BestFrom(flags, counts, cell + 1, best, bestCount)
    else
      var count := counts[cell];
      if count == 2 then cell
      else if count < bestCount then BestFrom(flags, counts, cell + 1, cell, count)
      else BestFrom(flags, counts, cell + 1, best, bestCount)
  }

  /** best_cell: NUM_CELLS when every cell is assigned. */
  function BestCell(b: Board): nat
    requires |b| == NUM_CELLS
  {
    BestFrom(AssignedFlags(b), CellCounts(b), 0, NUM_CELLS, MAX_VALUE + 1)
  }

  /** The unassigned cell c has exactly two candidates. */
  predicate PairAt(b: Board, c: nat)
    requires c < |b|
  {
    !IsValueSet(b[c]) && ValueCount(b[c]) == 2
  }

  /** Every unassigned cell counts at most nine candidates. */
  predicate CountsInRange(flags: seq<bool>, counts: seq<nat>)
    requires |flags| == |counts| == NUM_CELLS
  {
    forall c :: 0 <= c < NUM_CELLS && !flags[c] ==> counts[c] <= MAX_VALUE
  }

  /** What the scan knows after the cells below `cell`: either none of them is unassigned (best
      is NUM_CELLS with the starting count), or best is the first unassigned cell among them
      with the fewest candidates. */
  predicate BestBelow(flags: seq<bool>, counts: seq<nat>, cell: nat, best: nat, bestCount: nat)
    requires |flags| == |counts| == NUM_CELLS && cell <= NUM_CELLS
  {
    if best == NUM_CELLS then
      bestCount == MAX_VALUE + 1 && forall c :: 0 <= c < cell ==> flags[c]
    else
      best < cell && !flags[best] && counts[best] == bestCount &&
      (forall c :: 0 <= c < cell && !flags[c] ==> bestCount <= counts[c]) &&
      (forall c :: 0 <= c < best && !flags[c] ==> bestCount < counts[c])
  }

  /** The scan returns NUM_CELLS exactly when no cell is unassigned, and otherwise an
      unassigned cell. */
  lemma {:induction false} BestFromAssigned(flags: seq<bool>, counts: seq<nat>, cell: nat, best: nat, bestCount: nat)
    requires |flags| == |counts| == NUM_CELLS && cell <= NUM_CELLS
    requires CountsInRange(flags, counts) && BestBelow(flags, counts, cell, best, bestCount)
    ensures BestFrom(flags, counts, cell, best, bestCount) <= NUM_CELLS
    ensures BestFrom(flags, counts, cell, best, bestCount) == NUM_CELLS <==>
      forall c :: 0 <= c < NUM_CELLS ==> flags[c]
    ensures BestFrom(flags, counts, cell, best, bestCount) < NUM_CELLS ==>
      !flags[BestFrom(flags, counts, cell, best, bestCount)]
    decreases NUM_CELLS - cell
  {
    if cell < NUM_CELLS {
      if flags[cell] {
        BestFromAssigned(flags, counts, cell + 1, best, bestCount);
      } else if counts[cell] != 2 {
        if counts[cell] < bestCount {
          BestFromAssigned(flags, counts, cell + 1, cell, counts[cell]);
        } else {
          BestFromAssigned(flags, counts, cell + 1, best, bestCount);
        }
      }
    }
  }

  /** A two-candidate cell at or after `cell` stops the scan there or at an earlier one. */
  lemma {:induction false} BestFromPair(flags: seq<bool>, counts: seq<nat>, cell: nat, best: nat, bestCount: nat, c: nat)
    requires |flags| == |counts| == NUM_CELLS && cell <= c < NUM_CELLS
    requires !flags[c] && counts[c] == 2
    ensures var r := BestFrom(flags, counts, cell, best, bestCount);
      r <= c && !flags[r] && counts[r] == 2
    decreases NUM_CELLS - cell
  {
    if cell < c {
      if flags[cell] {
        BestFromPair(flags, counts, cell + 1, best, bestCount, c);
      } else if counts[cell] != 2 {
        if counts[cell] < bestCount {
          BestFromPair(flags, counts, cell + 1, cell, counts[cell], c);
        } else {
          BestFromPair(flags, counts, cell + 1, best, bestCount, c);
        }
      }
    }
  }

  /** Without two-candidate cells the scan ends on the first unassigned cell with the fewest
      candidates. */
  lemma {:induction false} BestFromFewest(flags: seq<bool>, counts: seq<nat>, cell: nat, best: nat, bestCount: nat)
    requires |flags| == |counts| == NUM_CELLS && cell <= NUM_CELLS
    requires CountsInRange(flags, counts) && BestBelow(flags, counts, cell, best, bestCount)
    requires forall c :: 0 <= c < NUM_CELLS && !flags[c] ==> counts[c] != 2
    ensures var r := BestFrom(flags, counts, cell, best, bestCount);
      r < NUM_CELLS ==>
        (forall c :: 0 <= c < NUM_CELLS && !flags[c] ==> counts[r] <= counts[c]) &&
        (forall c :: 0 <= c < r && !flags[c] ==> counts[r] < counts[c])
    decreases NUM_CELLS - cell
  {
    if cell < NUM_CELLS {
      if flags[cell] {
        BestFromFewest(flags, counts, cell + 1, best, bestCount);
      } else if counts[cell] < bestCount {
        BestFromFewest(flags, counts, cell + 1, cell, counts[cell]);
      } else {
        BestFromFewest(flags, counts, cell + 1, best, bestCount);
      }
    }
  }

  /** On a clean board no count exceeds nine. */
  lemma CellCountsInRange(b: Board)
    requires AllClean(b)
    ensures CountsInRange(AssignedFlags(b), CellCounts(b))
    ensures BestBelow(AssignedFlags(b), CellCounts(b), 0, NUM_CELLS, MAX_VALUE + 1)
  {
    forall c | 0 <= c < NUM_CELLS ensures CellCounts(b)[c] <= MAX_VALUE {
      ValueCountRange(b[c]);
    }
  }

  /** The flags and counts are those of the board's masks. */
  lemma FlagsAndCounts(b: Board)
    requires |b| == NUM_CELLS
    ensures forall c :: 0 <= c < NUM_CELLS ==>
      AssignedFlags(b)[c] == IsValueSet(b[c]) && CellCounts(b)[c] == ValueCount(b[c])
    ensures (forall c :: 0 <= c < NUM_CELLS ==> AssignedFlags(b)[c]) <==> FullyAssigned(b)
  {
  }

  /** best_cell returns NUM_CELLS exactly when every cell is assigned, and otherwise an
      unassigned cell. */
  lemma BestCellAssigned(b: Board)
    requires AllClean(b)
    ensures BestCell(b) <= NUM_CELLS
    ensures BestCell(b) == NUM_CELLS <==> FullyAssigned(b)
    ensures BestCell(b) < NUM_CELLS ==> !IsValueSet(b[BestCell(b)])
  {
    CellCountsInRange(b);
    FlagsAndCounts(b);
    BestFromAssigned(AssignedFlags(b), CellCounts(b), 0, NUM_CELLS, MAX_VALUE + 1);
  }

  /** When some unassigned cell has two candidates, best_cell returns the first such cell. */
  lemma BestCellPair(b: Board, c: nat)
    requires AllClean(b) && c < NUM_CELLS && PairAt(b, c)
    ensures BestCell(b) <= c && PairAt(b, BestCell(b))
  {
    FlagsAndCounts(b);
    BestFromPair(AssignedFlags(b), CellCounts(b), 0, NUM_CELLS, MAX_VALUE + 1, c);
  }

  /** When no unassigned cell has two candidates, best_cell returns the first unassigned cell
      with the fewest candidates. */
  lemma BestCellFewest(b: Board)
    requires AllClean(b) && !FullyAssigned(b)
    requires forall c :: 0 <= c < NUM_CELLS ==> !PairAt(b, c)
    ensures BestCell(b) < NUM_CELLS
    ensures forall c :: 0 <= c < NUM_CELLS && !IsValueSet(b[c]) ==> ValueCount(b[BestCell(b)]) <= ValueCount(b[c])
    ensures forall c :: 0 <= c < BestCell(b) && !IsValueSet(b[c]) ==> ValueCount(b[BestCell(b)]) < ValueCount(b[c])
  {
    var flags, counts := AssignedFlags(b), CellCounts(b);
    CellCountsInRange(b);
    FlagsAndCounts(b);
    assert forall c :: 0 <= c < NUM_CELLS && !flags[c] ==> counts[c] != 2 by {
      forall c | 0 <= c < NUM_CELLS && !flags[c] ensures counts[c] != 2 {
        assert !PairAt(b, c);
      }
    }
    BestCellAssigned(b);
    BestFromFewest(flags, counts, 0, NUM_CELLS, MAX_VALUE + 1);
  }

  /** When every unassigned cell has at least two candidates (as after set_single returns NONE),
      best_cell returns an unassigned cell with the fewest candidates. */
  lemma BestCellMinimal(b: Board)
    requires AllClean(b) && !FullyAssigned(b)
    requires forall c :: 0 <= c < NUM_CELLS && !IsValueSet(b[c]) ==> ValueCount(b[c]) >= 2
    ensures BestCell(b) < NUM_CELLS && !IsValueSet(b[BestCell(b)])
    ensures forall c :: 0 <= c < NUM_CELLS && !IsValueSet(b[c]) ==> ValueCount(b[BestCell(b)]) <= ValueCount(b[c])
  {
    BestCellAssigned(b);
    if exists c :: 0 <= c < NUM_CELLS && PairAt(b, c) {
      var c :| 0 <= c < NUM_CELLS && PairAt(b, c);
      BestCellPair(b, c);
    } else {
      BestCellFewest(b);
    }
  }

  // ---------------------------------------------------------------------------
  // count_solutions
  // ---------------------------------------------------------------------------

  /** A solved grid: well formed, every cell assigned, and every house covering all nine
      values. */
  predicate Solved(b: Board) {
    WellFormed(b) && FullyAssigned(b) && forall g :: 0 <= g < 27 ==> HouseCovered(b, g)
  }

  /** With every cell of the house assigned, no unassigned cell holds any value. */
  lemma {:induction false} NoHolders(b: Board, house: seq<nat>, v: nat, n: nat)
    requires |b| == NUM_CELLS && IsHouse(house) && n <= 9 && 1 <= v <= MAX_VALUE
    requires FullyAssigned(b)
    ensures Holders(b, house, v, n) == 0
  {
    if n > 0 {
      NoHolders(b, house, v, n - 1);
      assert IsValueSet(b[house[n - 1]]);
    }
  }

  /** On a solved grid set_single has nothing to do. */
  lemma SolvedIsSettled(b: Board)
    requires Solved(b)
    ensures Single(b) == (None, b)
  {
    forall c | 0 <= c < NUM_CELLS ensures b[c] != 0 && !NakedSingleAt(b, c) {
      assert IsValueSet(b[c]);
    }
    forall g | 0 <= g < 27 ensures HouseSettled(b, g) {
      HouseAt(g);
      assert HouseCovered(b, g);
      forall v | 1 <= v <= MAX_VALUE ensures Holders(b, HOUSES[g], v, 9) != 1 {
        NoHolders(b, HOUSES[g], v, 9);
      }
    }
    SingleNone(b);
  }

  /** A board on which set_single returns NONE and some cell is unassigned is settled enough to
      branch: every unassigned cell has at least two candidates, and every house is covered. */
  lemma SettledCells(b: Board)
    requires AllClean(b) && Single(b).0 == None
    ensures forall c :: 0 <= c < NUM_CELLS && !IsValueSet(b[c]) ==> ValueCount(b[c]) >= 2
    ensures forall g :: 0 <= g < 27 ==> HouseCovered(b, g)
  {
    SingleNone(b);
    forall c | 0 <= c < NUM_CELLS && !IsValueSet(b[c]) ensures ValueCount(b[c]) >= 2 {
      assert b[c] != 0 && !NakedSingleAt(b, c);
      UnassignedCandidates(b[c]);
      ValueCountRange(b[c]);
    }
    forall g | 0 <= g < 27 ensures HouseCovered(b, g) {
      assert HouseSettled(b, g);
    }
  }

  /** A successful set_value on an unassigned cell with two or more candidates lowers the total
      number of candidates. */
  lemma AssignShrinks(b: Board, cell: nat, value: nat)
    requires AllClean(b) && cell < NUM_CELLS && 1 <= value <= MAX_VALUE
    requires !IsValueSet(b[cell]) && Has(b[cell], value) && ValueCount(b[cell]) >= 2
    requires Assign(b, cell, value).0
    ensures TotalCandidates(Assign(b, cell, value).1) < TotalCandidates(b)
  {
    var b' := Assign(b, cell, value).1;
    AssignOnlyClears(b, cell, value);
    AssignCommits(b, cell, value);
    ValueMaskIsOneValue(value);
    CandidatesDrop(b, b', |b|, cell);
  }

  function Pow3(n: nat): nat {
    if n == 0 then 1 else 3 * Pow3(n - 1)
  }

  lemma {:induction false} Pow3Grows(m: nat, n: nat)
    requires m <= n
    ensures 1 <= Pow3(m) <= Pow3(n)
    decreases n
  {
    if n > m {
      Pow3Grows(m, n - 1);
    } else if n > 0 {
      Pow3Grows(0, n - 1);
    }
  }

  /** The termination measure of the search: each board on the stack weighs three to the power
      of its candidate total. */
  function Weight(stack: seq<Board>): nat {
    if |stack| == 0 then 0 else Pow3(TotalCandidates(stack[0])) + Weight(stack[1..])
  }

  lemma {:induction false} WeightAppend(s: seq<Board>, t: seq<Board>)
    ensures Weight(s + t) == Weight(s) + Weight(t)
  {
    if |s| == 0 {
      assert s + t == t;
    } else {
      assert (s + t)[0] == s[0];
      assert (s + t)[1..] == s[1..] + t;
      WeightAppend(s[1..], t);
    }
  }

  /** Two powers of three below 3^t sum to less than 3^t. */
  lemma Pow3Pair(m: nat, n: nat, t: nat)
    requires m < t && n < t
    ensures Pow3(m) + Pow3(n) < Pow3(t)
  {
    Pow3Grows(m, t - 1);
    Pow3Grows(n, t - 1);
  }

  lemma WeightShort(next: seq<Board>)
    requires |next| <= 2
    ensures |next| == 0 ==> Weight(next) == 0
    ensures |next| == 1 ==> Weight(next) == Pow3(TotalCandidates(next[0]))
    ensures |next| == 2 ==> Weight(next) == Pow3(TotalCandidates(next[0])) + Pow3(TotalCandidates(next[1]))
  {
    if |next| == 1 {
      assert next[1..] == [];
    } else if |next| == 2 {
      assert next[1..] == [next[1]];
      assert next[1..][1..] == [];
    }
  }

  /** Replacing a board by at most two boards with fewer candidates lowers the weight. */
  lemma Lighter(next: seq<Board>, x: Board)
    requires |next| <= 2 && forall y :: y in next ==> TotalCandidates(y) < TotalCandidates(x)
    ensures Weight(next) < Weight([x])
  {
    WeightShort(next);
    WeightShort([x]);
    assert Weight([x]) == Pow3(TotalCandidates(x));
    if |next| == 0 {
      Pow3Grows(0, TotalCandidates(x));
    } else if |next| == 1 {
      assert next[0] in next;
      Pow3Pair(TotalCandidates(next[0]), TotalCandidates(next[0]), TotalCandidates(x));
    } else if |next| == 2 {
      assert next[0] in next && next[1] in next;
      Pow3Pair(TotalCandidates(next[0]), TotalCandidates(next[1]), TotalCandidates(x));
    }
  }

  /** A board pushed for a popped board x: well formed, with no candidate x lacks, and with
      fewer candidates in total. */
  predicate Child(x: Board, y: Board)
    requires |x| == NUM_CELLS
  {
    WellFormed(y) && NoCandidateAdded(x, y) && TotalCandidates(y) < TotalCandidates(x)
  }

  /** The inner loop of count_solutions: apply set_single until it stops returning CHANGED.
      Each CHANGED assigns one more cell, so the loop ends. */
  function SettleOf(b: Board): (LogicResult, Board)
    requires WellFormed(b)
    decreases NUM_CELLS - Givens(b)
  {
    SingleEffect(b);
    GivensRange(b, NUM_CELLS);
    var r := Single(b);
    if r.0 == Changed then
      GivensRange(r.1, NUM_CELLS);
      SettleOf(r.1)
    else r
  }

  /** The loop ends with INVALID or NONE, never CHANGED; after NONE the board is well formed and
      set_single leaves it alone; no candidate is ever added and the candidate total never grows;
      when the first set_single does not return CHANGED, its result is the loop's. */
  lemma {:induction false} SettleMeaning(b: Board)
    requires WellFormed(b)
    ensures var r := SettleOf(b);
      r.0 != Changed && |r.1| == NUM_CELLS &&
      (r.0 == None ==> WellFormed(r.1) && Single(r.1) == (None, r.1)) &&
      NoCandidateAdded(b, r.1) && TotalCandidates(r.1) <= TotalCandidates(b)
    ensures Single(b).0 != Changed ==> SettleOf(b) == Single(b)
    decreases NUM_CELLS - Givens(b)
  {
    SingleEffect(b);
    GivensRange(b, NUM_CELLS);
    var b' := Single(b).1;
    CandidatesShrink(b, b', NUM_CELLS);
    if Single(b).0 == Changed {
      GivensRange(b', NUM_CELLS);
      SettleMeaning(b');
      CandidatesShrink(b', SettleOf(b').1, NUM_CELLS);
      NoCandidateAddedTrans(b, b', SettleOf(b').1);
    } else if Single(b).0 == None {
      SingleNone(b);
    }
  }

  /** The inner loop of count_solutions, in place on the popped board. */
  method Settle(board: array<bv32>) returns (result: LogicResult)
    requires board.Length == NUM_CELLS && WellFormed(board[..])
    modifies board
    ensures (result, board[..]) == SettleOf(old(board[..]))
  {
    ghost var start := board[..];
    ghost var prev := board[..];
    result := SetSingle(board);
    while result == Changed
      invariant WellFormed(prev) && (result, board[..]) == Single(prev)
      invariant SettleOf(prev) == SettleOf(start)
      decreases NUM_CELLS - Givens(prev)
    {
      SingleEffect(prev);
      GivensRange(prev, NUM_CELLS);
      GivensRange(board[..], NUM_CELLS);
      prev := board[..];
      result := SetSingle(board);
    }
  }

  /** One pass of the outer loop of count_solutions on a popped board x: settle it; drop it on
      INVALID; count it when every cell is assigned; otherwise branch at best_cell. The result
      is whether a solution was counted and the boards pushed, in push order. */
  function PassOf(x: Board): (bool, seq<Board>)
    requires WellFormed(x)
  {
    SettleMeaning(x);
    var (result, b) := SettleOf(x);
    if result == Invalid then (false, [])
    else
      BestCellAssigned(b);
      SettledCells(b);
      var cell := BestCell(b);
      if cell == NUM_CELLS then (true, [])
      else (false, Pushes(b, cell))
  }

  /** A pass counts a solution exactly when the settled board is fully assigned, and then pushes
      nothing; an INVALID settle pushes nothing; the pushes are at most two children of x. A
      solved board is counted, and a board on which set_single returns INVALID is dropped. */
  lemma PassMeaning(x: Board)
    requires WellFormed(x)
    ensures SettleOf(x).0 != Changed
    ensures PassOf(x).0 <==> SettleOf(x).0 == None && FullyAssigned(SettleOf(x).1)
    ensures PassOf(x).0 ==> PassOf(x).1 == [] && Solved(SettleOf(x).1) && NoCandidateAdded(x, SettleOf(x).1)
    ensures SettleOf(x).0 == Invalid ==> PassOf(x).1 == []
    ensures |PassOf(x).1| <= 2 && forall y :: y in PassOf(x).1 ==> Child(x, y)
    ensures Solved(x) ==> PassOf(x).0
    ensures Single(x).0 == Invalid ==> !PassOf(x).0 && PassOf(x).1 == []
  {
    SettleMeaning(x);
    var (result, b) := SettleOf(x);
    if Solved(x) {
      SolvedIsSettled(x);
    }
    if result == None {
      BestCellAssigned(b);
      SettledCells(b);
      var cell := BestCell(b);
      if cell < NUM_CELLS {
        PushesChildren(x, b, cell);
      }
    }
  }

  /** Every board on the stack is well formed and has only candidates of the starting board. */
  predicate Trusted(start: Board, stack: seq<Board>) {
    |start| == NUM_CELLS && forall y :: y in stack ==> WellFormed(y) && NoCandidateAdded(start, y)
  }

  /** Every counted grid is solved and has only candidates of the starting board. */
  predicate Counted(start: Board, solved: seq<Board>) {
    |start| == NUM_CELLS && forall s :: s in solved ==> Solved(s) && NoCandidateAdded(start, s)
  }

  /** What the stack loop of count_solutions keeps across one pass on the top board x: the new
      stack is trusted and lighter, a counted grid is solved with only candidates of the
      starting board, a solved x is counted and an x on which set_single returns INVALID is
      dropped. */
  lemma PassKeeps(start: Board, rest: seq<Board>, x: Board)
    requires Trusted(start, rest + [x])
    ensures WellFormed(x)
    ensures var (found, next) := PassOf(x);
      Trusted(start, rest + next) && Weight(rest + next) < Weight(rest + [x]) &&
      (found ==> next == [] && Solved(SettleOf(x).1) && NoCandidateAdded(start, SettleOf(x).1)) &&
      (Solved(x) ==> found && next == []) &&
      (Single(x).0 == Invalid ==> !found && next == [])
  {
    assert x in rest + [x];
    PassMeaning(x);
    var (found, next) := PassOf(x);
    forall y | y in rest + next ensures WellFormed(y) && NoCandidateAdded(start, y) {
      if y in next {
        NoCandidateAddedTrans(start, x, y);
      } else {
        assert y in rest + [x];
      }
    }
    if found {
      NoCandidateAddedTrans(start, x, SettleOf(x).1);
    }
    Lighter(next, x);
    WeightAppend(rest, [x]);
    WeightAppend(rest, next);
  }

  /** One pass of the outer loop, in place on a copy of the popped board. */
  method Explore(x: Board) returns (found: bool, next: seq<Board>, ghost solution: Board)
    requires WellFormed(x)
    ensures (found, next) == PassOf(x)
    ensures found ==> solution == SettleOf(x).1
  {
    var board := new bv32[NUM_CELLS](i requires 0 <= i < NUM_CELLS => x[i]);
    assert board[..] == x;
    var result := Settle(board);
    SettleMeaning(x);
    solution := board[..];
    if result == Invalid {
      return false, [], solution;
    }
    var b := board[..];
    BestCellAssigned(b);
    SettledCells(b);
    var cellIndex := BestCell(b);
    if cellIndex == NUM_CELLS {
      return true, [], solution;
    }
    next := Branch(board, cellIndex);
    found := false;
  }

  /** The value count_solutions branches on: the highest candidate of the cell. */
  function BranchValue(mask: bv32): (v: nat)
    requires Clean(mask) && ValueCount(mask) >= 1
    ensures 1 <= v <= MAX_VALUE && Has(mask, v)
    ensures forall w :: v < w <= MAX_VALUE ==> !Has(mask, w)
  {
    ValueCountRange(mask);
    GetValueIsHighest(mask);
    GetValue(mask)
  }

  /** The first push of a branch: the board without the branching value, when the cell keeps a
      candidate. */
  function BacktrackPush(b: Board, cell: nat): seq<Board>
    requires AllClean(b) && cell < NUM_CELLS && ValueCount(b[cell]) >= 1
  {
    var backtrack := b[cell := Without(b[cell], ValueMask(BranchValue(b[cell])))];
    if backtrack[cell] != 0 then [backtrack] else []
  }

  /** The second push of a branch: the board with the branching value assigned, when set_value
      succeeds and check_valid passes. */
  function AssignPush(b: Board, cell: nat): seq<Board>
    requires AllClean(b) && cell < NUM_CELLS && ValueCount(b[cell]) >= 1
  {
    var (ok, b') := Assign(b, cell, BranchValue(b[cell]));
    if ok && CheckValid(b') then [b'] else []
  }

  /** The boards a pass of count_solutions pushes when it branches at `cell`, in push order. */
  function Pushes(b: Board, cell: nat): seq<Board>
    requires AllClean(b) && cell < NUM_CELLS && ValueCount(b[cell]) >= 1
  {
    BacktrackPush(b, cell) + AssignPush(b, cell)
  }

  lemma BacktrackChild(x: Board, b: Board, cell: nat)
    requires WellFormed(b) && |x| == NUM_CELLS && cell < NUM_CELLS
    requires NoCandidateAdded(x, b) && TotalCandidates(b) <= TotalCandidates(x)
    requires !IsValueSet(b[cell]) && ValueCount(b[cell]) >= 1
    ensures |BacktrackPush(b, cell)| <= 1
    ensures forall y :: y in BacktrackPush(b, cell) ==> Child(x, y)
  {
    var value := BranchValue(b[cell]);
    var backtrack := b[cell := Without(b[cell], ValueMask(value))];
    RemoveCandidate(b, cell, value);
    NoCandidateAddedTrans(x, b, backtrack);
    assert Child(x, backtrack);
  }

  lemma AssignChild(x: Board, b: Board, cell: nat)
    requires WellFormed(b) && |x| == NUM_CELLS && cell < NUM_CELLS
    requires NoCandidateAdded(x, b) && TotalCandidates(b) <= TotalCandidates(x)
    requires !IsValueSet(b[cell]) && ValueCount(b[cell]) >= 2
    ensures |AssignPush(b, cell)| <= 1
    ensures forall y :: y in AssignPush(b, cell) ==> Child(x, y)
  {
    var value := BranchValue(b[cell]);
    var r := Assign(b, cell, value);
    if r.0 && CheckValid(r.1) {
      AssignKeepsWellFormed(b, cell, value);
      AssignOnlyClears(b, cell, value);
      AssignShrinks(b, cell, value);
      NoCandidateAddedTrans(x, b, r.1);
      assert Child(x, r.1);
    }
  }

  /** On a well-formed board that keeps only candidates of x, branching at an unassigned cell
      with two or more candidates pushes at most two boards, each a child of x. */
  lemma PushesChildren(x: Board, b: Board, cell: nat)
    requires WellFormed(b) && |x| == NUM_CELLS && cell < NUM_CELLS
    requires NoCandidateAdded(x, b) && TotalCandidates(b) <= TotalCandidates(x)
    requires !IsValueSet(b[cell]) && ValueCount(b[cell]) >= 2
    ensures |Pushes(b, cell)| <= 2
    ensures forall y :: y in Pushes(b, cell) ==> Child(x, y)
  {
    BacktrackChild(x, b, cell);
    AssignChild(x, b, cell);
  }

  /** The branching half of a pass, in place on the popped board. */
  method Branch(board: array<bv32>, cellIndex: nat) returns (next: seq<Board>)
    requires board.Length == NUM_CELLS && AllClean(board[..]) && cellIndex < NUM_CELLS
    requires ValueCount(board[cellIndex]) >= 1
    modifies board
    ensures next == Pushes(old(board[..]), cellIndex)
  {
    ghost var b := board[..];
    var mask := board[cellIndex];
    var candidateValue := BranchValue(mask);
    var candidateMask := ValueMask(candidateValue);
    var backtrack := board[..][cellIndex := Without(mask, candidateMask)];
    next := [];
    if backtrack[cellIndex] != 0 {
      next := next + [backtrack];
    }
    assert next == BacktrackPush(b, cellIndex);
    var pushed := Advance(board, cellIndex, candidateValue);
    next := next + pushed;
  }

  /** set_value of the branching value, then check_valid: the board is pushed when both pass. */
  method Advance(board: array<bv32>, cellIndex: nat, candidateValue: nat) returns (pushed: seq<Board>)
    requires board.Length == NUM_CELLS && AllClean(board[..]) && cellIndex < NUM_CELLS
    requires ValueCount(board[cellIndex]) >= 1 && candidateValue == BranchValue(board[cellIndex])
    modifies board
    ensures pushed == AssignPush(old(board[..]), cellIndex)
  {
    pushed := [];
    var ok := SetValue(board, cellIndex, candidateValue);
    if ok && CheckValid(board[..]) {
      pushed := [board[..]];
    }
  }

  /** count_solutions: a depth-first search over a stack of board snapshots, stopping once
      maxSolutions solved grids are counted. Each counted grid is solved and keeps only
      candidates of the starting board. */
  method CountSolutions(board: Board, maxSolutions: nat) returns (solutions: nat, ghost solved: seq<Board>)
    requires WellFormed(board)
    ensures solutions <= maxSolutions && |solved| == solutions
    ensures forall s :: s in solved ==> Solved(s) && NoCandidateAdded(board, s)
    ensures Solved(board) && maxSolutions >= 1 ==> solutions == 1
    ensures Single(board).0 == Invalid ==> solutions == 0
  {
    var stack := [board];
    solutions := 0;
    solved := [];
    forall c | 0 <= c < NUM_CELLS ensures CandidatesIn(board[c], board[c]) {
      CandidatesWithin(board[c]);
    }
    while solutions < maxSolutions && |stack| > 0
      invariant Trusted(board, stack) && Counted(board, solved)
      invariant solutions <= maxSolutions && |solved| == solutions
      invariant Solved(board) ==> (solutions == 0 && stack == [board]) || (solutions == 1 && stack == [])
      invariant Single(board).0 == Invalid ==> solutions == 0 && (stack == [board] || stack == [])
      decreases Weight(stack)
    {
      var x := stack[|stack| - 1];
      var rest := stack[..|stack| - 1];
      assert stack == rest + [x];
      PassKeeps(board, rest, x);
      var found, next, s := Explore(x);
      if found {
        solutions := solutions + 1;
        solved := solved + [s];
      }
      stack := rest + next;
    }
  }
}
