/**
 * Assignment with peer elimination (set_value).
 *
 * Assign is the specification: it returns the success flag and the whole board afterwards,
 * including the partly updated board left behind when an elimination empties a peer. SetValue
 * is the in-place version on an array, with set_value's three elimination loops (row, column,
 * box).
 */
module Assignment {
  import opened Bits
  import opened Houses
  import opened Boards

  /** The cells set_value visits, in its order: the cell's row, then its column, then its box
      (the cell itself appears once in each and is skipped). */
  function PeerOrder(cell: nat): (r: seq<nat>)
    requires cell < NUM_CELLS
    ensures |r| == 27 && forall k :: 0 <= k < 27 ==> r[k] < NUM_CELLS
  {
    CellPosition(cell);
    LinesInGrid(RowOf(cell));
    LinesInGrid(ColOf(cell));
    LinesInGrid(BoxOf(cell));
    GetRow(RowOf(cell)) + GetCol(ColOf(cell)) + GetBox(BoxOf(cell))
  }

  /** Clear the bits of valueMask from each of cells[k..] other than `cell`, in order, stopping
      with false as soon as a cleared cell has no candidate left. */
  function EliminateFrom(b: Board, cell: nat, valueMask: bv32, cells: seq<nat>, k: nat): (r: (bool, Board))
    requires |b| == NUM_CELLS && k <= |cells|
    requires forall i :: 0 <= i < |cells| ==> cells[i] < NUM_CELLS
    ensures |r.1| == NUM_CELLS
    decreases |cells| - k
  {
    if k == |cells| then (true, b)
    else if cells[k] == cell then EliminateFrom(b, cell, valueMask, cells, k + 1)
    else
      var b' := b[cells[k] := Without(b[cells[k]], valueMask)];
      if Candidates(b'[cells[k]]) == 0 then (false, b')
      else EliminateFrom(b', cell, valueMask, cells, k + 1)
  }

  /** set_value: commit `value` to `cell` and clear it from every peer. */
  function Assign(b: Board, cell: nat, value: nat): (r: (bool, Board))
    requires |b| == NUM_CELLS && cell < NUM_CELLS && 1 <= value <= MAX_VALUE
  {
    var existingMask := b[cell];
    var valueMask := ValueMask(value);
    if existingMask & valueMask == 0 then (false, b)
    else if existingMask & VALUE_SET != 0 then (true, b)
    else
      EliminateFrom(b[cell := valueMask | VALUE_SET], cell, valueMask, PeerOrder(cell), 0)
  }

  // ---------------------------------------------------------------------------
  // The peer order
  // ---------------------------------------------------------------------------

  /** The visited cells are the cell itself and exactly its peers. */
  lemma PeerOrderCells(cell: nat)
    requires cell < NUM_CELLS
    ensures |PeerOrder(cell)| == 27
    ensures forall k :: 0 <= k < 27 ==> PeerOrder(cell)[k] < NUM_CELLS
    ensures forall p: nat :: p in PeerOrder(cell) <==> p == cell || (p < NUM_CELLS && Peer(cell, p))
  {
    CellPosition(cell);
    var row, col, box := RowOf(cell), ColOf(cell), BoxOf(cell);
    LinesInGrid(row);
    LinesInGrid(col);
    LinesInGrid(box);
    var order := PeerOrder(cell);
    assert forall k :: 0 <= k < 27 ==> order[k] < NUM_CELLS by {
      forall k | 0 <= k < 27 ensures order[k] < NUM_CELLS {
        if k < 9 {
          assert order[k] == GetRow(row)[k];
        } else if k < 18 {
          assert order[k] == GetCol(col)[k - 9];
        } else {
          assert order[k] == GetBox(box)[k - 18];
        }
      }
    }
    forall p: nat | p in order ensures p == cell || (p < NUM_CELLS && Peer(cell, p)) {
      var k :| 0 <= k < 27 && order[k] == p;
      assert p < NUM_CELLS;
      if k < 9 {
        RowMembers(row, p);
      } else if k < 18 {
        ColMembers(col, p);
      } else {
        BoxMembers(box, p);
      }
    }
    RowMembers(row, cell);
    assert cell in order;
    forall p: nat | p < NUM_CELLS && Peer(cell, p) ensures p in order {
      if RowOf(p) == row {
        RowMembers(row, p);
      } else if ColOf(p) == col {
        ColMembers(col, p);
      } else {
        BoxMembers(box, p);
      }
    }
  }

  /** Step col of set_value's first loop visits the cell's row at column col. */
  lemma PeerOrderRowAt(cell: nat, col: nat)
    requires cell < NUM_CELLS && col < 9
    ensures PeerOrder(cell)[col] == (cell / WIDTH) * WIDTH + col
  {
    CellPosition(cell);
  }

  /** Step row of set_value's second loop visits the cell's column at row row. */
  lemma PeerOrderColAt(cell: nat, row: nat)
    requires cell < NUM_CELLS && row < 9
    ensures PeerOrder(cell)[9 + row] == row * WIDTH + cell % WIDTH
  {
    CellPosition(cell);
  }

  /** Step (boxi, boxj) of set_value's nested box loops visits the cell's box at that offset
      from its top-left cell boxBase. */
  lemma PeerOrderBoxAt(cell: nat, boxBase: int, boxi: nat, boxj: nat)
    requires cell < NUM_CELLS && boxi < 3 && boxj < 3
    requires boxBase == ((cell / WIDTH) / 3) * 3 * WIDTH + ((cell % WIDTH) / 3) * 3
    ensures PeerOrder(cell)[18 + boxi * 3 + boxj] == boxBase + (boxi * WIDTH + boxj) < NUM_CELLS
    ensures 0 <= boxBase
  {
    CellPosition(cell);
    var k := boxi * 3 + boxj;
    assert k / 3 == boxi && k % 3 == boxj;
    assert PeerOrder(cell)[18 + k] == GetBox(BoxOf(cell))[k];
  }

  // ---------------------------------------------------------------------------
  // What the elimination does
  // ---------------------------------------------------------------------------

  /** Only listed cells other than `cell` change, and each of them only by losing valueMask. */
  lemma {:induction false} EliminateFrame(b: Board, cell: nat, valueMask: bv32, cells: seq<nat>, k: nat)
    requires |b| == NUM_CELLS && k <= |cells|
    requires forall i :: 0 <= i < |cells| ==> cells[i] < NUM_CELLS
    ensures var r := EliminateFrom(b, cell, valueMask, cells, k);
      forall p :: 0 <= p < NUM_CELLS ==>
        r.1[p] == b[p] || (p != cell && p in cells[k..] && r.1[p] == Without(b[p], valueMask))
    decreases |cells| - k
  {
    if k < |cells| {
      assert cells[k..] == [cells[k]] + cells[k + 1..];
      if cells[k] == cell {
        EliminateFrame(b, cell, valueMask, cells, k + 1);
      } else {
        var q := cells[k];
        var b' := b[q := Without(b[q], valueMask)];
        if Candidates(b'[q]) != 0 {
          EliminateFrame(b', cell, valueMask, cells, k + 1);
          WithoutTwice(b[q], valueMask);
        }
      }
    }
  }

  /** The elimination succeeds exactly when every listed cell other than `cell` keeps a
      candidate once valueMask is cleared from it. */
  lemma {:induction false} EliminateSucceeds(b: Board, cell: nat, valueMask: bv32, cells: seq<nat>, k: nat)
    requires |b| == NUM_CELLS && k <= |cells|
    requires forall i :: 0 <= i < |cells| ==> cells[i] < NUM_CELLS
    ensures EliminateFrom(b, cell, valueMask, cells, k).0 <==>
      forall p :: p in cells[k..] && p != cell ==> Candidates(Without(b[p], valueMask)) != 0
    decreases |cells| - k
  {
    if k < |cells| {
      assert cells[k..] == [cells[k]] + cells[k + 1..];
      if cells[k] == cell {
        EliminateSucceeds(b, cell, valueMask, cells, k + 1);
      } else {
        var q := cells[k];
        var b' := b[q := Without(b[q], valueMask)];
        if Candidates(b'[q]) != 0 {
          EliminateSucceeds(b', cell, valueMask, cells, k + 1);
          WithoutTwice(b[q], valueMask);
          assert forall p :: 0 <= p < NUM_CELLS ==> Without(b'[p], valueMask) == Without(b[p], valueMask);
        }
      }
    }
  }

  /** A successful elimination has cleared valueMask from every listed cell other than `cell`
      and left every other cell as it was. */
  lemma {:induction false} EliminateResult(b: Board, cell: nat, valueMask: bv32, cells: seq<nat>, k: nat)
    requires |b| == NUM_CELLS && k <= |cells|
    requires forall i :: 0 <= i < |cells| ==> cells[i] < NUM_CELLS
    requires EliminateFrom(b, cell, valueMask, cells, k).0
    ensures var r := EliminateFrom(b, cell, valueMask, cells, k);
      forall p :: 0 <= p < NUM_CELLS ==>
        r.1[p] == if p != cell && p in cells[k..] then Without(b[p], valueMask) else b[p]
    decreases |cells| - k
  {
    if k < |cells| {
      assert cells[k..] == [cells[k]] + cells[k + 1..];
      if cells[k] == cell {
        EliminateResult(b, cell, valueMask, cells, k + 1);
      } else {
        var q := cells[k];
        var b' := b[q := Without(b[q], valueMask)];
        EliminateResult(b', cell, valueMask, cells, k + 1);
        WithoutTwice(b[q], valueMask);
      }
    }
  }

  // ---------------------------------------------------------------------------
  // The outcomes of set_value
  // ---------------------------------------------------------------------------

  /** The value's bit is absent from the cell: set_value fails and changes nothing. */
  lemma AssignRejectsExcluded(b: Board, cell: nat, value: nat)
    requires |b| == NUM_CELLS && cell < NUM_CELLS && 1 <= value <= MAX_VALUE
    requires !Has(b[cell], value)
    ensures Assign(b, cell, value) == (false, b)
  {
  }

  /** The cell is already assigned and holds the value: set_value succeeds and changes nothing. */
  lemma AssignKeepsAssigned(b: Board, cell: nat, value: nat)
    requires |b| == NUM_CELLS && cell < NUM_CELLS && 1 <= value <= MAX_VALUE
    requires IsValueSet(b[cell]) && Has(b[cell], value)
    ensures Assign(b, cell, value) == (true, b)
  {
  }

  /** Whatever the outcome, set_value leaves every cell other than the cell and its peers as it
      was, a peer either as it was or without the value's bit, and the cell either as it was or,
      when it was unassigned and held the value, as value_mask(value) | VALUE_SET. */
  lemma AssignChanges(b: Board, cell: nat, value: nat)
    requires |b| == NUM_CELLS && cell < NUM_CELLS && 1 <= value <= MAX_VALUE
    ensures var r := Assign(b, cell, value);
      |r.1| == NUM_CELLS &&
      (forall p :: 0 <= p < NUM_CELLS && p != cell ==>
         r.1[p] == b[p] || (Peer(cell, p) && r.1[p] == Without(b[p], ValueMask(value)))) &&
      (r.1[cell] == b[cell] || (!IsValueSet(b[cell]) && Has(b[cell], value) &&
         r.1[cell] == ValueMask(value) | VALUE_SET))
  {
    if Has(b[cell], value) && !IsValueSet(b[cell]) {
      var valueMask := ValueMask(value);
      PeerOrderCells(cell);
      assert PeerOrder(cell)[0..] == PeerOrder(cell);
      EliminateFrame(b[cell := valueMask | VALUE_SET], cell, valueMask, PeerOrder(cell), 0);
    }
  }

  /** Whatever the outcome, set_value never adds a candidate bit and changes no assigned flag
      other than the cell's. */
  lemma AssignOnlyClears(b: Board, cell: nat, value: nat)
    requires |b| == NUM_CELLS && cell < NUM_CELLS && 1 <= value <= MAX_VALUE
    ensures var r := Assign(b, cell, value);
      |r.1| == NUM_CELLS && NoCandidateAdded(b, r.1) &&
      forall p :: 0 <= p < NUM_CELLS && p != cell ==> IsValueSet(r.1[p]) == IsValueSet(b[p])
  {
    var r := Assign(b, cell, value);
    AssignChanges(b, cell, value);
    ValueMaskIsOneValue(value);
    forall p | 0 <= p < NUM_CELLS
      ensures CandidatesIn(r.1[p], b[p])
      ensures p != cell ==> IsValueSet(r.1[p]) == IsValueSet(b[p])
    {
      if r.1[p] != b[p] {
        if p == cell {
          assert Candidates(r.1[p]) == ValueMask(value);
        } else {
          assert r.1[p] == Without(b[p], ValueMask(value));
        }
      }
    }
  }

  /** On an unassigned cell holding the value, set_value succeeds exactly when every peer keeps
      a candidate once the value is cleared from it. When it succeeds the cell becomes
      value_mask(value) | VALUE_SET, every peer loses exactly the value's bit and keeps a
      candidate, and every other cell is unchanged. */
  lemma AssignCommits(b: Board, cell: nat, value: nat)
    requires |b| == NUM_CELLS && cell < NUM_CELLS && 1 <= value <= MAX_VALUE
    requires !IsValueSet(b[cell]) && Has(b[cell], value)
    ensures var r := Assign(b, cell, value);
      r.0 <==> forall p :: 0 <= p < NUM_CELLS && Peer(cell, p) ==>
        Candidates(Without(b[p], ValueMask(value))) != 0
    ensures var r := Assign(b, cell, value);
      r.0 ==> (
        |r.1| == NUM_CELLS && r.1[cell] == ValueMask(value) | VALUE_SET &&
        (forall p :: 0 <= p < NUM_CELLS && Peer(cell, p) ==>
           r.1[p] == Without(b[p], ValueMask(value)) && !Has(r.1[p], value) && Candidates(r.1[p]) != 0) &&
        (forall p :: 0 <= p < NUM_CELLS && p != cell && !Peer(cell, p) ==> r.1[p] == b[p]))
  {
    var valueMask := ValueMask(value);
    var start := b[cell := valueMask | VALUE_SET];
    var order := PeerOrder(cell);
    PeerOrderCells(cell);
    ValueMaskIsOneValue(value);
    assert order[0..] == order;
    EliminateSucceeds(start, cell, valueMask, order, 0);
    var r := Assign(b, cell, value);
    if r.0 {
      EliminateResult(start, cell, valueMask, order, 0);
      forall p | 0 <= p < NUM_CELLS && Peer(cell, p) ensures !Has(r.1[p], value) {
        assert r.1[p] == Without(b[p], valueMask);
      }
    }
  }

  /** A successful set_value repeated with the same cell and value succeeds again and changes
      nothing. */
  lemma AssignIdempotent(b: Board, cell: nat, value: nat)
    requires |b| == NUM_CELLS && cell < NUM_CELLS && 1 <= value <= MAX_VALUE
    requires Assign(b, cell, value).0
    ensures var b' := Assign(b, cell, value).1;
      |b'| == NUM_CELLS && Assign(b', cell, value) == (true, b')
  {
    var b' := Assign(b, cell, value).1;
    ValueMaskIsOneValue(value);
    if !IsValueSet(b[cell]) {
      AssignCommits(b, cell, value);
    }
    AssignKeepsAssigned(b', cell, value);
  }

  /** A successful set_value on an unassigned cell assigns exactly that cell: the given count
      grows by one. */
  lemma AssignAddsOneGiven(b: Board, cell: nat, value: nat)
    requires |b| == NUM_CELLS && cell < NUM_CELLS && 1 <= value <= MAX_VALUE
    requires !IsValueSet(b[cell]) && Assign(b, cell, value).0
    ensures var b' := Assign(b, cell, value).1;
      |b'| == NUM_CELLS && OneNewAssignment(b, b') && Givens(b') == Givens(b) + 1
  {
    var b' := Assign(b, cell, value).1;
    AssignOnlyClears(b, cell, value);
    AssignCommits(b, cell, value);
    ValueMaskIsOneValue(value);
    assert IsValueSet(b'[cell]);
    OneNewAssignmentCounts(b, b');
  }

  /** A successful set_value keeps a well-formed board well formed. */
  lemma AssignKeepsWellFormed(b: Board, cell: nat, value: nat)
    requires WellFormed(b) && cell < NUM_CELLS && 1 <= value <= MAX_VALUE
    requires Assign(b, cell, value).0
    ensures WellFormed(Assign(b, cell, value).1)
  {
    var b' := Assign(b, cell, value).1;
    if !IsValueSet(b[cell]) {
      var valueMask := ValueMask(value);
      AssignCommits(b, cell, value);
      ValueMaskIsOneValue(value);
      forall c | 0 <= c < NUM_CELLS ensures Clean(b'[c]) {
        if c != cell && Peer(cell, c) {
          assert b'[c] == Without(b[c], valueMask);
        }
      }
      forall c, p | 0 <= c < NUM_CELLS && 0 <= p < NUM_CELLS && IsValueSet(b'[c]) && Peer(c, p)
        ensures Candidates(b'[c]) & b'[p] == 0
      {
        if c == cell {
          assert b'[p] == Without(b[p], valueMask);
        } else {
          assert !Peer(cell, c) ==> b'[c] == b[c];
          assert Peer(cell, c) ==> b'[c] == Without(b[c], valueMask);
          assert IsValueSet(b[c]);
          assert Candidates(b[c]) & b[p] == 0;
          if p == cell {
            assert Peer(cell, c);
          } else if Peer(cell, p) {
            assert b'[p] == Without(b[p], valueMask);
          } else {
            assert b'[p] == b[p];
          }
        }
      }
    }
  }

  // ---------------------------------------------------------------------------
  // The in-place operation
  // ---------------------------------------------------------------------------

  /** One step of the elimination at a cell other than `cell`. */
  lemma EliminateStep(b: Board, cell: nat, valueMask: bv32, cells: seq<nat>, k: nat)
    requires |b| == NUM_CELLS && k < |cells| && cells[k] != cell
    requires forall i :: 0 <= i < |cells| ==> cells[i] < NUM_CELLS
    ensures var b' := b[cells[k] := Without(b[cells[k]], valueMask)];
      EliminateFrom(b, cell, valueMask, cells, k) ==
        if Candidates(b'[cells[k]]) == 0 then (false, b')
        else EliminateFrom(b', cell, valueMask, cells, k + 1)
  {
  }

  /** set_value on a board held in an array; the result and the new contents are those of Assign,
      including the partly updated board left behind on failure. */
  method SetValue(board: array<bv32>, cell: nat, value: nat) returns (ok: bool)
    requires board.Length == NUM_CELLS && cell < NUM_CELLS && 1 <= value <= MAX_VALUE
    modifies board
    ensures (ok, board[..]) == Assign(old(board[..]), cell, value)
  {
    AssignEarly(board[..], cell, value);
    var existingMask := board[cell];
    var valueMask := ValueMask(value);
    if existingMask & valueMask == 0 {
      ok := false;
    } else if existingMask & VALUE_SET != 0 {
      ok := true;
    } else {
      ok := Commit(board, cell, value, valueMask);
    }
  }

  /** The two early returns of set_value leave the board as it was. */
  lemma AssignEarly(b: Board, cell: nat, value: nat)
    requires |b| == NUM_CELLS && cell < NUM_CELLS && 1 <= value <= MAX_VALUE
    ensures b[cell] & ValueMask(value) == 0 ==> Assign(b, cell, value) == (false, b)
    ensures b[cell] & ValueMask(value) != 0 && b[cell] & VALUE_SET != 0 ==>
      Assign(b, cell, value) == (true, b)
  {
  }

  /** The last branch of set_value, for a value that is a candidate of an unassigned cell: mark
      the cell assigned to the value, then eliminate. */
  method Commit(board: array<bv32>, cell: nat, value: nat, valueMask: bv32) returns (ok: bool)
    requires board.Length == NUM_CELLS && cell < NUM_CELLS && 1 <= value <= MAX_VALUE
    requires valueMask == ValueMask(value)
    requires board[cell] & valueMask != 0 && board[cell] & VALUE_SET == 0
    modifies board
    ensures (ok, board[..]) == Assign(old(board[..]), cell, value)
  {
    ghost var b := board[..];
    board[cell] := valueMask | VALUE_SET;
    assert board[..] == b[cell := valueMask | VALUE_SET];
    ok := Eliminate(board, cell, valueMask);
  }

  /** The three elimination loops of set_value, one after the other, stopping at the first cell
      left without a candidate. */
  method Eliminate(board: array<bv32>, cell: nat, valueMask: bv32) returns (ok: bool)
    requires board.Length == NUM_CELLS && cell < NUM_CELLS
    modifies board
    ensures (ok, board[..]) == EliminateFrom(old(board[..]), cell, valueMask, PeerOrder(cell), 0)
  {
    ok := ClearRow(board, cell, valueMask);
    if !ok {
      return;
    }
    ok := ClearCol(board, cell, valueMask);
    if !ok {
      return;
    }
    ok := ClearBox(board, cell, valueMask);
  }

  /** The first elimination loop of set_value: clear the value from the other cells of the
      cell's row. Its effect is the first nine steps of the elimination. */
  method ClearRow(board: array<bv32>, cell: nat, valueMask: bv32) returns (ok: bool)
    requires board.Length == NUM_CELLS && cell < NUM_CELLS
    modifies board
    ensures EliminateFrom(old(board[..]), cell, valueMask, PeerOrder(cell), 0) ==
        if ok then EliminateFrom(board[..], cell, valueMask, PeerOrder(cell), 9) else (false, board[..])
  {
    ghost var order := PeerOrder(cell);
    ghost var goal := EliminateFrom(board[..], cell, valueMask, order, 0);
    var i := cell / WIDTH;
    for col := 0 to WIDTH
      invariant goal == EliminateFrom(board[..], cell, valueMask, order, col)
    {
      var curCell := i * WIDTH + col;
      PeerOrderRowAt(cell, col);
      if curCell != cell {
        ok := ClearCell(board, cell, valueMask, curCell, order, col);
        if !ok {
          return false;
        }
      }
    }
    return true;
  }

  /** The second elimination loop of set_value: the other cells of the cell's column, which are
      steps 9 to 17 of the elimination. */
  method ClearCol(board: array<bv32>, cell: nat, valueMask: bv32) returns (ok: bool)
    requires board.Length == NUM_CELLS && cell < NUM_CELLS
    modifies board
    ensures EliminateFrom(old(board[..]), cell, valueMask, PeerOrder(cell), 9) ==
        if ok then EliminateFrom(board[..], cell, valueMask, PeerOrder(cell), 18) else (false, board[..])
  {
    ghost var order := PeerOrder(cell);
    ghost var goal := EliminateFrom(board[..], cell, valueMask, order, 9);
    var j := cell % WIDTH;
    for row := 0 to HEIGHT
      invariant goal == EliminateFrom(board[..], cell, valueMask, order, 9 + row)
    {
      var curCell := row * WIDTH + j;
      PeerOrderColAt(cell, row);
      if curCell != cell {
        ok := ClearCell(board, cell, valueMask, curCell, order, 9 + row);
        if !ok {
          return false;
        }
      }
    }
    return true;
  }

  /** The nested box loops of set_value: the other cells of the cell's box, which are the last
      nine steps of the elimination. */
  method ClearBox(board: array<bv32>, cell: nat, valueMask: bv32) returns (ok: bool)
    requires board.Length == NUM_CELLS && cell < NUM_CELLS
    modifies board
    ensures EliminateFrom(old(board[..]), cell, valueMask, PeerOrder(cell), 18) == (ok, board[..])
  {
    ghost var goal := EliminateFrom(board[..], cell, valueMask, PeerOrder(cell), 18);
    var i := cell / WIDTH;
    var j := cell % WIDTH;
    var boxBase: int := (i / 3) * 3 * WIDTH + (j / 3) * 3;
    for boxi := 0 to 3
      invariant goal == EliminateFrom(board[..], cell, valueMask, PeerOrder(cell), 18 + boxi * 3)
    {
      PeerOrderBoxAt(cell, boxBase, boxi, 0);
      PeerOrderBoxAt(cell, boxBase, boxi, 1);
      PeerOrderBoxAt(cell, boxBase, boxi, 2);
      ok := ClearBoxRow(board, cell, valueMask, boxBase, boxi, PeerOrder(cell));
      if !ok {
        return false;
      }
    }
    return true;
  }

  /** One row of the box loop: the three cells of the box on box row boxi, which are steps
      18 + 3 * boxi to 20 + 3 * boxi of the elimination in the order `order`. */
  method ClearBoxRow(board: array<bv32>, cell: nat, valueMask: bv32, boxBase: nat, boxi: nat,
                     ghost order: seq<nat>)
    returns (ok: bool)
    requires board.Length == NUM_CELLS && boxi < 3
    requires |order| == 27 && forall k :: 0 <= k < 27 ==> order[k] < NUM_CELLS
    requires order[18 + boxi * 3] == boxBase + boxi * WIDTH
    requires order[18 + boxi * 3 + 1] == boxBase + (boxi * WIDTH + 1)
    requires order[18 + boxi * 3 + 2] == boxBase + (boxi * WIDTH + 2)
    modifies board
    ensures EliminateFrom(old(board[..]), cell, valueMask, order, 18 + boxi * 3) ==
      if ok then EliminateFrom(board[..], cell, valueMask, order, 18 + boxi * 3 + 3)
      else (false, board[..])
  {
    ghost var k0 := 18 + boxi * 3;
    ghost var goal := EliminateFrom(board[..], cell, valueMask, order, k0);
    for boxj := 0 to 3
      invariant goal == EliminateFrom(board[..], cell, valueMask, order, k0 + boxj)
    {
      var curCell := boxBase + (boxi * WIDTH + boxj);
      assert order[k0 + boxj] == curCell;
      if curCell != cell {
        ok := ClearCell(board, cell, valueMask, curCell, order, k0 + boxj);
        if !ok {
          return false;
        }
      }
    }
    return true;
  }

  /** The block the three loops share: clear the value from one peer and report whether the peer
      still has a candidate. It is step k of the elimination in the order `cells`. */
  method ClearCell(board: array<bv32>, cell: nat, valueMask: bv32, curCell: nat,
                   ghost cells: seq<nat>, ghost k: nat)
    returns (ok: bool)
    requires board.Length == NUM_CELLS && k < |cells|
    requires forall i :: 0 <= i < |cells| ==> cells[i] < NUM_CELLS
    requires cells[k] == curCell != cell
    modifies board
    ensures EliminateFrom(old(board[..]), cell, valueMask, cells, k) ==
      if ok then EliminateFrom(board[..], cell, valueMask, cells, k + 1)
      else (false, board[..])
  {
    ghost var before := board[..];
    EliminateStep(before, cell, valueMask, cells, k);
    board[curCell] := Without(board[curCell], valueMask);
    assert board[..] == before[curCell := Without(before[curCell], valueMask)];
    ok := Candidates(board[curCell]) != 0;
  }
}
