/**
 * Puzzle construction: one pass of the loop that grows a board towards a target number of
 * givens. A stack of frames (a board snapshot and its given count) is popped; set_single is
 * applied once; on NONE a random unset cell and a random candidate of it are tried, keeping
 * the board without that candidate as a fallback frame. The two random draws are parameters.
 */
module Construction {
  import opened Bits
  import opened Houses
  import opened Boards
  import opened Assignment
  import opened Deduction
  import opened Validity
  import opened Search

  /** A board snapshot with the number of givens the loop believes it has (BoardInfo). */
  datatype Frame = Frame(board: Board, givenCount: nat)

  /** The starting frame: a blank board with no givens. */
  function BlankFrame(): (f: Frame)
  {
    Frame(NewBoard(), 0)
  }

  /** A frame the loop can trust: a well-formed board whose given count is its real number of
      assigned cells. */
  predicate FrameOk(f: Frame) {
    WellFormed(f.board) && f.givenCount == Givens(f.board)
  }

  predicate StackOk(stack: seq<Frame>) {
    forall i :: 0 <= i < |stack| ==> FrameOk(stack[i])
  }

  lemma BlankFrameOk()
    ensures FrameOk(BlankFrame()) && StackOk([BlankFrame()])
  {
    NewBoardIsBlank();
  }

  // ---------------------------------------------------------------------------
  // Picking the candidate with a given index
  // ---------------------------------------------------------------------------

  /** The number of candidates of the mask below v. */
  function HeldBelow(mask: bv32, v: nat): nat
    requires 1 <= v <= MAX_VALUE + 1
  {
    if v == 1 then 0 else HeldBelow(mask, v - 1) + (if Has(mask, v - 1) then 1 else 0)
  }

  /** Skipping `index` candidates from `candidate` on, the next candidate (0 when the mask runs
      out first). */
  function NthFrom(mask: bv32, candidate: nat, index: nat): nat
    requires 1 <= candidate <= MAX_VALUE + 1
    decreases MAX_VALUE + 1 - candidate
  {
    if candidate == MAX_VALUE + 1 then 0
    else if Has(mask, candidate) then
      if index == 0 then candidate else NthFrom(mask, candidate + 1, index - 1)
    else NthFrom(mask, candidate + 1, index)
  }

  /** The candidate of the mask with exactly `index` candidates below it. */
  function NthCandidateOf(mask: bv32, index: nat): nat {
    NthFrom(mask, 1, index)
  }

  lemma {:induction false} HeldBelowBits(mask: bv32, v: nat)
    requires 1 <= v <= MAX_VALUE + 1
    ensures HeldBelow(mask, v) == CountOnes(Candidates(mask), v - 1)
  {
    if v > 1 {
      HeldBelowBits(mask, v - 1);
      HasIsBit(mask, v - 1);
    }
  }

  /** Counting below 10 counts every candidate of a clean mask. */
  lemma HeldBelowAll(mask: bv32)
    requires Clean(mask)
    ensures HeldBelow(mask, MAX_VALUE + 1) == ValueCount(mask)
  {
    HeldBelowBits(mask, MAX_VALUE + 1);
    CleanCandidates(mask);
  }

  lemma {:induction false} NthFromMeaning(mask: bv32, candidate: nat, index: nat)
    requires 1 <= candidate <= MAX_VALUE + 1
    ensures var v := NthFrom(mask, candidate, index);
      (v != 0 <==> HeldBelow(mask, candidate) + index < HeldBelow(mask, MAX_VALUE + 1)) &&
      (v != 0 ==> candidate <= v <= MAX_VALUE && Has(mask, v) &&
                  HeldBelow(mask, v) == HeldBelow(mask, candidate) + index)
    decreases MAX_VALUE + 1 - candidate
  {
    if candidate <= MAX_VALUE {
      NthFromMeaning(mask, candidate + 1, if Has(mask, candidate) && index > 0 then index - 1 else index);
      HeldBelowGrows(mask, candidate + 1, MAX_VALUE + 1);
    }
  }

  lemma {:induction false} HeldBelowGrows(mask: bv32, v: nat, w: nat)
    requires 1 <= v <= w <= MAX_VALUE + 1
    ensures HeldBelow(mask, v) <= HeldBelow(mask, w)
    decreases w
  {
    if v < w {
      HeldBelowGrows(mask, v, w - 1);
    }
  }

  /** On a clean mask the pick finds a value exactly when the index is below the number of
      candidates, and the value found is a candidate with exactly `index` candidates below it. */
  lemma NthCandidateMeaning(mask: bv32, index: nat)
    requires Clean(mask)
    ensures var v := NthCandidateOf(mask, index);
      (v != 0 <==> index < ValueCount(mask)) &&
      (v != 0 ==> 1 <= v <= MAX_VALUE && Has(mask, v) && HeldBelow(mask, v) == index)
  {
    NthFromMeaning(mask, 1, index);
    HeldBelowAll(mask);
  }

  /** A candidate with `index` candidates below it is the one the pick finds. */
  lemma NthCandidateFound(mask: bv32, v: nat)
    requires 1 <= v <= MAX_VALUE && Has(mask, v)
    ensures NthCandidateOf(mask, HeldBelow(mask, v)) == v
  {
    var index := HeldBelow(mask, v);
    NthFromMeaning(mask, 1, index);
    HeldBelowGrows(mask, v + 1, MAX_VALUE + 1);
    var found := NthCandidateOf(mask, index);
    if found < v {
      HeldBelowGrows(mask, found + 1, v);
    } else if found > v {
      HeldBelowGrows(mask, v + 1, found);
    }
  }

  /** With no more than `index` candidates, the pick finds nothing. */
  lemma NthCandidateMissing(mask: bv32, index: nat)
    requires HeldBelow(mask, MAX_VALUE + 1) <= index
    ensures NthCandidateOf(mask, index) == 0
  {
    NthFromMeaning(mask, 1, index);
  }

  /** The candidate loop of the construction: walk the values upwards, skipping `index`
      candidates. */
  method NthCandidate(mask: bv32, index: nat) returns (value: nat)
    ensures value == NthCandidateOf(mask, index)
  {
    value := 0;
    var remaining := index;
    var candidate := 1;
    while candidate <= MAX_VALUE
      invariant 1 <= candidate <= MAX_VALUE + 1
      invariant HeldBelow(mask, candidate) + remaining == index
      decreases MAX_VALUE + 1 - candidate
    {
      if ValueMask(candidate) & mask != 0 {
        if remaining == 0 {
          value := candidate;
          NthCandidateFound(mask, candidate);
          return;
        }
        remaining := remaining - 1;
      }
      candidate := candidate + 1;
    }
    NthCandidateMissing(mask, index);
  }

  // ---------------------------------------------------------------------------
  // The given-count cross-check
  // ---------------------------------------------------------------------------

  /** The loop that recounts the assigned cells of a board after a deduction. */
  method CountGivens(board: array<bv32>) returns (count: nat)
    requires board.Length == NUM_CELLS
    ensures count == Givens(board[..])
  {
    count := 0;
    var cell := 0;
    while cell < NUM_CELLS
      invariant 0 <= cell <= NUM_CELLS
      invariant count == GivensBelow(board[..], cell)
    {
      if board[cell] & VALUE_SET != 0 {
        count := count + 1;
      }
      cell := cell + 1;
    }
  }

  // ---------------------------------------------------------------------------
  // One pass of the construction loop
  // ---------------------------------------------------------------------------

  /** What a pass did with the popped frame. */
  datatype StepOutcome =
    | Halted        // the stack was empty ("Impossible!")
    | Dropped       // set_single returned INVALID, or NONE with no unset cell left
    | Deduced       // set_single returned CHANGED: the board is pushed with one more given
    | Committed     // the drawn candidate was assigned and the board passed check_valid
    | Backtracked   // the drawn candidate failed; the fallback frame (if any) stays
    | Restarted     // ... for the 101st time: the stack is reset to a blank board

  /** The cell the first draw picks: the draw indexes the list of unset cells. */
  function DrawnCell(b: Board, cellDraw: nat): (cell: nat)
    requires |b| == NUM_CELLS && cellDraw < |UnsetCells(b)|
    ensures cell < NUM_CELLS && !IsValueSet(b[cell]) && b[cell] != 0
  {
    UnsetCellsMeaning(b);
    assert UnsetCells(b)[cellDraw] in UnsetCells(b);
    UnsetCells(b)[cellDraw]
  }

  /** The board after set_single when it returns NONE is the popped board itself, so the draws
      are made on it: the cell among its unset cells, the candidate among that cell's values. */
  predicate DrawsFit(b: Board, cellDraw: nat, candidateDraw: nat)
    requires AllClean(b)
  {
    Single(b).0 == None && |UnsetCells(b)| > 0 ==>
      cellDraw < |UnsetCells(b)| && candidateDraw < ValueCount(b[DrawnCell(b, cellDraw)])
  }

  /** The most restarts-free failures tolerated before the stack is reset. */
  const MAX_BACKTRACKS: nat := 100

  /** Every frame of the list holds a board that passes check_valid. */
  predicate AllChecked(frames: seq<Frame>) {
    forall i :: 0 <= i < |frames| ==> |frames[i].board| == NUM_CELLS && CheckValid(frames[i].board)
  }

  /** Pushing trusted frames keeps the stack trusted and leaves its old frames in place. */
  lemma Push(rest: seq<Frame>, pushed: seq<Frame>)
    requires StackOk(rest) && StackOk(pushed)
    ensures StackOk(rest + pushed) && rest <= rest + pushed
  {
    assert forall i :: 0 <= i < |rest| ==> (rest + pushed)[i] == rest[i];
    assert forall i :: |rest| <= i < |rest + pushed| ==> (rest + pushed)[i] == pushed[i - |rest|];
  }

  /** Popping a trusted stack leaves a trusted stack and a trusted frame. */
  lemma Pop(stack: seq<Frame>)
    requires StackOk(stack) && |stack| > 0
    ensures StackOk(stack[..|stack| - 1]) && FrameOk(stack[|stack| - 1])
  {
    assert forall i :: 0 <= i < |stack| - 1 ==> stack[..|stack| - 1][i] == stack[i];
  }

  /** The frame the NONE branch keeps as a fallback before trying `value` at `cell`: the popped
      board without that candidate, with the popped count, kept only when the cell still has a
      candidate and the board passes check_valid. */
  function Fallback(top: Frame, cell: nat, value: nat): seq<Frame>
    requires |top.board| == NUM_CELLS && cell < NUM_CELLS && 1 <= value <= MAX_VALUE
  {
    var backtrack := top.board[cell := Without(top.board[cell], ValueMask(value))];
    if backtrack[cell] != 0 && CheckValid(backtrack) then [Frame(backtrack, top.givenCount)] else []
  }

  /** The fallback frame is trusted: removing an unassigned cell's candidate keeps the board well
      formed and its given count, and the frame is only kept when it passes check_valid. */
  lemma FallbackOk(top: Frame, cell: nat, value: nat)
    requires FrameOk(top) && cell < NUM_CELLS && 1 <= value <= MAX_VALUE
    requires !IsValueSet(top.board[cell]) && Has(top.board[cell], value)
    ensures var f := Fallback(top, cell, value);
      |f| <= 1 && StackOk(f) && AllChecked(f) &&
      (|f| == 1 ==> NoCandidateAdded(top.board, f[0].board) &&
                    TotalCandidates(f[0].board) < TotalCandidates(top.board))
  {
    RemoveCandidate(top.board, cell, value);
  }

  /** The bookkeeping after the drawn candidate was tried on the stack `base` (the fallback frame
      already pushed), where `accepted` says set_value succeeded and the result `b'` passes
      check_valid: push `b'` with one more given, or count one more failure, and at the 101st
      failure reset the stack to a blank board, the loop's given count staying at the popped
      frame's. */
  predicate Recorded(base: seq<Frame>, top: Frame, accepted: bool, b': Board, backtracks: nat,
                     stack': seq<Frame>, backtracks': nat, givenCount: nat, outcome: StepOutcome)
  {
    (outcome == Committed <==> accepted) &&
    (outcome == Committed ==>
       givenCount == top.givenCount + 1 && givenCount == Givens(b') && backtracks' == backtracks &&
       stack' == base + [Frame(b', givenCount)]) &&
    (outcome == Backtracked ==>
       givenCount == top.givenCount && backtracks' == backtracks + 1 && stack' == base) &&
    (outcome == Restarted <==> !accepted && backtracks == MAX_BACKTRACKS) &&
    (outcome == Restarted ==>
       givenCount == top.givenCount && stack' == [BlankFrame()] && backtracks' == 0) &&
    (outcome == Committed || outcome == Backtracked || outcome == Restarted)
  }

  /** What the NONE branch does once `value` at `cell` is drawn and the fallback frame is pushed,
      leaving the stack `base`: the guess is accepted exactly when set_value succeeds and the
      result passes check_valid. */
  predicate GuessOutcome(base: seq<Frame>, top: Frame, cell: nat, value: nat, backtracks: nat,
                         stack': seq<Frame>, backtracks': nat, givenCount: nat, outcome: StepOutcome)
    requires |top.board| == NUM_CELLS && cell < NUM_CELLS && 1 <= value <= MAX_VALUE
  {
    var (ok, b') := Assign(top.board, cell, value);
    Recorded(base, top, ok && CheckValid(b'), b', backtracks, stack', backtracks', givenCount, outcome)
  }

  /** The NONE branch after the draws: try `value` at `cell` of the popped board, after pushing
      the fallback frame. */
  method Guess(rest: seq<Frame>, top: Frame, board: array<bv32>, backtracks: nat, cell: nat, value: nat)
    returns (stack': seq<Frame>, backtracks': nat, givenCount: nat, outcome: StepOutcome)
    requires StackOk(rest) && FrameOk(top) && board.Length == NUM_CELLS && board[..] == top.board
    requires cell < NUM_CELLS && !IsValueSet(top.board[cell]) && 1 <= value <= MAX_VALUE && Has(top.board[cell], value)
    requires backtracks <= MAX_BACKTRACKS
    modifies board
    ensures StackOk(stack') && backtracks' <= MAX_BACKTRACKS
    ensures GuessOutcome(rest + Fallback(top, cell, value), top, cell, value, backtracks,
                         stack', backtracks', givenCount, outcome)
  {
    var mask := board[cell];
    var candidateMask := ValueMask(value);
    var backtrack := top.board[cell := Without(mask, candidateMask)];
    FallbackOk(top, cell, value);
    Push(rest, Fallback(top, cell, value));
    var base := rest;
    if backtrack[cell] != 0 && CheckValid(backtrack) {
      base := base + [Frame(backtrack, top.givenCount)];
    }
    assert base == rest + Fallback(top, cell, value);
    stack', backtracks', givenCount, outcome := Attempt(base, top, board, backtracks, cell, value);
  }

  /** set_value of the drawn candidate, then check_valid: push the result with one more given, or
      count the failure and reset the stack at the 101st. */
  method Attempt(base: seq<Frame>, top: Frame, board: array<bv32>, backtracks: nat, cell: nat, value: nat)
    returns (stack': seq<Frame>, backtracks': nat, givenCount: nat, outcome: StepOutcome)
    requires StackOk(base) && FrameOk(top) && board.Length == NUM_CELLS && board[..] == top.board
    requires cell < NUM_CELLS && !IsValueSet(top.board[cell]) && 1 <= value <= MAX_VALUE
    requires backtracks <= MAX_BACKTRACKS
    modifies board
    ensures StackOk(stack') && backtracks' <= MAX_BACKTRACKS
    ensures GuessOutcome(base, top, cell, value, backtracks, stack', backtracks', givenCount, outcome)
  {
    var ok := SetValue(board, cell, value);
    var accepted := ok && CheckValid(board[..]);
    if accepted {
      AssignKeepsWellFormed(top.board, cell, value);
      AssignAddsOneGiven(top.board, cell, value);
    }
    stack', backtracks', givenCount, outcome := Record(base, top, accepted, board[..], backtracks);
  }

  /** The branch on the outcome of the guess. */
  method Record(base: seq<Frame>, top: Frame, accepted: bool, b': Board, backtracks: nat)
    returns (stack': seq<Frame>, backtracks': nat, givenCount: nat, outcome: StepOutcome)
    requires StackOk(base) && backtracks <= MAX_BACKTRACKS
    requires accepted ==> WellFormed(b') && Givens(b') == top.givenCount + 1
    ensures StackOk(stack') && backtracks' <= MAX_BACKTRACKS
    ensures Recorded(base, top, accepted, b', backtracks, stack', backtracks', givenCount, outcome)
  {
    if accepted {
      givenCount := top.givenCount + 1;
      Push(base, [Frame(b', givenCount)]);
      stack' := base + [Frame(b', givenCount)];
      backtracks' := backtracks;
      outcome := Committed;
    } else {
      givenCount := top.givenCount;
      backtracks' := backtracks + 1;
      outcome := Backtracked;
      stack' := base;
      if backtracks' > MAX_BACKTRACKS {
        BlankFrameOk();
        stack' := [BlankFrame()];
        backtracks' := 0;
        outcome := Restarted;
      }
    }
  }

  /** What a pass does with the popped frame `top` once set_single has returned `result` and
      left the board `b'`: a deduction pushes `b'` with one more given; INVALID, or NONE on a board
      with every cell assigned, drops the frame; otherwise the draws pick a cell and a candidate
      of the popped board and the guess proceeds as GuessOutcome says. */
  predicate PassOutcome(rest: seq<Frame>, top: Frame, result: LogicResult, b': Board,
                        backtracks: nat, cellDraw: nat, candidateDraw: nat,
                        stack': seq<Frame>, backtracks': nat, givenCount: nat, outcome: StepOutcome)
    requires |top.board| == NUM_CELLS
  {
    (result == Changed ==>
       outcome == Deduced && givenCount == top.givenCount + 1 && givenCount == Givens(b') &&
       stack' == rest + [Frame(b', givenCount)] && backtracks' == backtracks) &&
    (result == Invalid || (result == None && FullyAssigned(top.board)) ==>
       outcome == Dropped && givenCount == top.givenCount && stack' == rest && backtracks' == backtracks) &&
    (result == None && !FullyAssigned(top.board) ==>
       cellDraw < |UnsetCells(top.board)| &&
       var cell := DrawnCell(top.board, cellDraw);
       candidateDraw < ValueCount(top.board[cell]) &&
       var value := NthCandidateOf(top.board[cell], candidateDraw);
       1 <= value <= MAX_VALUE &&
       GuessOutcome(rest + Fallback(top, cell, value), top, cell, value, backtracks,
                    stack', backtracks', givenCount, outcome))
  }

  /** The CHANGED branch: push the deduced board with one more given, then recount its givens. */
  method Deduce(rest: seq<Frame>, top: Frame, board: array<bv32>, backtracks: nat)
    returns (stack': seq<Frame>, backtracks': nat, givenCount: nat, outcome: StepOutcome, mismatch: bool)
    requires StackOk(rest) && |top.board| == NUM_CELLS && board.Length == NUM_CELLS
    requires WellFormed(board[..]) && Givens(board[..]) == top.givenCount + 1
    ensures StackOk(stack') && backtracks' <= backtracks && !mismatch
    ensures PassOutcome(rest, top, Changed, board[..], backtracks, 0, 0, stack', backtracks', givenCount, outcome)
  {
    givenCount := top.givenCount + 1;
    Push(rest, [Frame(board[..], givenCount)]);
    stack' := rest + [Frame(board[..], givenCount)];
    var realGivenCount := CountGivens(board);
    mismatch := realGivenCount != givenCount;
    backtracks' := backtracks;
    outcome := Deduced;
  }

  /** The NONE branch: drop the frame when no cell is unset, otherwise draw a cell and one of its
      candidates and guess. */
  method Draw(rest: seq<Frame>, top: Frame, board: array<bv32>, backtracks: nat, cellDraw: nat, candidateDraw: nat)
    returns (stack': seq<Frame>, backtracks': nat, givenCount: nat, outcome: StepOutcome)
    requires StackOk(rest) && FrameOk(top) && board.Length == NUM_CELLS && board[..] == top.board
    requires backtracks <= MAX_BACKTRACKS
    requires forall c :: 0 <= c < NUM_CELLS ==> top.board[c] != 0
    requires |UnsetCells(top.board)| > 0 ==>
      cellDraw < |UnsetCells(top.board)| && candidateDraw < ValueCount(top.board[DrawnCell(top.board, cellDraw)])
    modifies board
    ensures StackOk(stack') && backtracks' <= MAX_BACKTRACKS
    ensures PassOutcome(rest, top, None, top.board, backtracks, cellDraw, candidateDraw,
                        stack', backtracks', givenCount, outcome)
  {
    UnsetCellsMeaning(top.board);
    var unset := UnsetCells(board[..]);
    if |unset| == 0 {
      forall c | 0 <= c < NUM_CELLS ensures IsValueSet(top.board[c]) {
        assert c !in unset;
      }
      stack', backtracks', givenCount, outcome := rest, backtracks, top.givenCount, Dropped;
    } else {
      var cell := unset[cellDraw];
      assert cell == DrawnCell(top.board, cellDraw);
      assert !FullyAssigned(top.board);
      var mask := board[cell];
      UnassignedValuesOnly(mask);
      NthCandidateMeaning(mask, candidateDraw);
      var value := NthCandidate(mask, candidateDraw);
      stack', backtracks', givenCount, outcome := Guess(rest, top, board, backtracks, cell, value);
    }
  }

  /** One pass of the construction loop on the stack, with the two random draws of the NONE
      branch as parameters. Every frame left on the stack has its true given count: a
      deduction or a committed guess adds exactly one given, a failed guess keeps the count,
      and the recount after a deduction never disagrees. */
  method Step(stack: seq<Frame>, backtracks: nat, cellDraw: nat, candidateDraw: nat)
    returns (stack': seq<Frame>, backtracks': nat, givenCount: nat, outcome: StepOutcome, mismatch: bool)
    requires StackOk(stack) && backtracks <= MAX_BACKTRACKS
    requires |stack| > 0 ==> DrawsFit(stack[|stack| - 1].board, cellDraw, candidateDraw)
    ensures StackOk(stack') && backtracks' <= MAX_BACKTRACKS && !mismatch
    ensures outcome == Halted <==> |stack| == 0
    ensures |stack| == 0 ==> stack' == [] && backtracks' == backtracks
    ensures |stack| > 0 ==>
      var top := stack[|stack| - 1];
      PassOutcome(stack[..|stack| - 1], top, Single(top.board).0, Single(top.board).1,
                  backtracks, cellDraw, candidateDraw, stack', backtracks', givenCount, outcome)
  {
    if |stack| == 0 {
      return [], backtracks, 0, Halted, false;
    }
    var top := stack[|stack| - 1];
    var rest := stack[..|stack| - 1];
    Pop(stack);
    var board := new bv32[NUM_CELLS](i requires 0 <= i < NUM_CELLS => top.board[i]);
    assert board[..] == top.board;
    var result := SetSingle(board);
    SingleEffect(top.board);
    mismatch := false;
    match result {
      case Changed =>
        stack', backtracks', givenCount, outcome, mismatch := Deduce(rest, top, board, backtracks);
      case Invalid =>
        stack', backtracks', givenCount, outcome := rest, backtracks, top.givenCount, Dropped;
      case None =>
        SingleNone(top.board);
        stack', backtracks', givenCount, outcome := Draw(rest, top, board, backtracks, cellDraw, candidateDraw);
    }
  }
}
