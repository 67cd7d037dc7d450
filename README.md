# Bitmask Sudoku engine — a verified model

This project models the constraint engine of a random Sudoku board generator written in Rust
(`src/main.rs`). The generator grows puzzles one given at a time, then counts their solutions
(up to two) to sort them into invalid, unique and multi-solution boards.

A board is 81 cell masks (`u32`, modelled as `bv32`):
- bits 0..8 are the candidates 1..9;
- bit 31 (`VALUE_SET`) marks a cell whose value is assigned;
- a cell with an assigned value keeps exactly that value's bit.

The 27 houses (9 rows, 9 columns, 9 boxes) are fixed tables of cell indices.

The modules follow the program's own layers:

| module | file | models |
|---|---|---|
| `Bits` | bits.dfy | `is_value_set`, `get_value`, `value_mask`, `value_count` and their bit-level facts |
| `Houses` | houses.dfy | `get_row`, `get_col`, `get_box`, `HOUSES`, and the peer relation |
| `Boards` | boards.dfy | `new_board`, the board invariant, counts of givens and candidates |
| `Assignment` | assignment.dfy | `set_value`: the in-place method and the pure function that specifies it |
| `Deduction` | deduction.dfy | `set_naked_single`, `set_hidden_single`, `set_single` |
| `Validity` | validity.dfy | `check_valid` |
| `Search` | search.dfy | `unset_cells`, `best_cell`, `count_solutions` |
| `Construction` | construction.dfy | one pass of the construction loop in `main`, with the random draws as parameters |

Each routine that changes a board in place is a `method` on `array<bv32>`. Its `ensures` ties
the new array and the result to a pure function of the old contents. The properties the engine
relies on are then proved about that function as lemmas.

The routines that only read the board are functions on `seq<bv32>`: `check_valid`,
`unset_cells` and `best_cell`. The two stack-driven routines (`count_solutions` and the
construction pass) push and pop `seq`s of board snapshots.

## The board invariant

`Boards.WellFormed` states two things:
- every mask uses only bits 0..8 and bit 31 (`AllClean`);
- no unassigned cell shares a candidate with an assigned peer, and no assigned cell shares one
  with any peer (`Consistent`).

Every board the program builds satisfies it:
- `new_board` does (`Boards.NewBoardIsBlank`);
- a successful `set_value` keeps it (`Assignment.AssignKeepsWellFormed`);
- removing a candidate from an unassigned cell keeps it (`Boards.RemoveCandidate`);
- so does a CHANGED deduction (`Deduction.SingleEffect`).

Several results hold only on such boards, because on an inconsistent board
`set_hidden_single` can pick an already assigned cell. `set_value` then returns true without
changing anything, and the rule reports CHANGED although nothing changed.

## Model

| member | source | states |
|---|---|---|
| Bits.ValueMaskIsOneValue | src/main.rs:16-24 | for v in 1..9, `value_mask(v)` has exactly bit v-1 set, and `value_count` is 1 and `get_value` is v, with or without `VALUE_SET` or-ed in |
| Bits.GetValueIsHighest | src/main.rs:16-18 | on a mask with a candidate, `get_value` returns a candidate in 1..9 and no higher value is a candidate, so it is the highest candidate, not the lowest |
| Bits.SingleValue | src/main.rs:16-24 | when `value_count` is 1, `get_value` is the one and only candidate |
| Bits.ValueCountRange | src/main.rs:22-24 | on a mask using only value bits and `VALUE_SET`, `value_count` is at most 9, and is 0 exactly when no value 1..9 is a candidate |
| Bits.FullValueCount | src/main.rs:22-24 | `value_count(m) == 9` exactly when every value 1..9 is a candidate of m, i.e. when `m` covers `ALL_VALUES` |
| Bits.WithoutValue | src/main.rs:118-127 | `mask & !value_mask(v)` keeps the assigned flag and every other value, drops v, and adds no bit |
| Houses.HousesTable | src/main.rs:72-100 | `HOUSES` has 27 entries: rows 0..8, then columns 0..8, then boxes 0..8 |
| Houses.BoxCell | src/main.rs:55-70 | entry k of `get_box(b)` lies in row (b/3)*3 + k/3, column (b%3)*3 + k%3, and box b |
| Houses.HousesShape | src/main.rs:26-100 | each of the 27 houses holds 9 distinct cell indices below 81 |
| Houses.HouseMembers | src/main.rs:26-100 | a cell is in house h < 9 exactly when it is in row h, in house 9 + c exactly when it is in column c, and in house 18 + b exactly when it is in box b |
| Houses.HousesOfCell | src/main.rs:72-100 | every cell is in its row's, its column's and its box's house |
| Houses.ShareHouseIffPeer | src/main.rs:26-100 | two different cells share a house exactly when they share a row, a column or the box (i/3, j/3) |
| Houses.HouseAt | src/main.rs:72-100 | any two different cells of one house are peers |
| Boards.NewBoardIsBlank | src/main.rs:102-104 | the blank board is well formed, has no givens, and every cell has all nine candidates and no assigned flag |
| Boards.RemoveCandidate | src/main.rs:411-412 | clearing one candidate of an unassigned cell keeps the board well formed and its given count, adds no candidate, and lowers the total candidate count |
| Boards.AssignedPeersDisjoint | src/main.rs:116-157 | on a well-formed board a peer of an assigned cell never holds that cell's value |
| Boards.OneNewAssignmentCounts | src/main.rs:116 | a board that gains exactly one assigned cell has exactly one more given |
| Assignment.SetValue | src/main.rs:106-159 | the in-place routine leaves the array equal to `Assign` of the old contents and returns its flag |
| Assignment.Eliminate | src/main.rs:118-157 | the three clearing loops (row, column, box, in that order) compute `EliminateFrom` over the cell's peer order, stopping at the first emptied peer |
| Assignment.ClearRow | src/main.rs:123-132 | the first loop walks row `cell / 9` (entries 0..8 of the peer order) and then hands over to the column loop, or stops with false at the first emptied cell |
| Assignment.ClearCol | src/main.rs:134-143 | the second loop walks column `cell % 9` (entries 9..17 of the peer order) and then hands over to the box loop, or stops with false at the first emptied cell |
| Assignment.ClearBox | src/main.rs:145-157 | the nested loops walk the box from `box_base`, entries 18..26 of the peer order |
| Assignment.PeerOrderCells | src/main.rs:118-157 | the 27 cells the loops visit are exactly the cell itself and its peers |
| Assignment.AssignRejectsExcluded | src/main.rs:109-111 | when the value is not a candidate, the result is false and the board is untouched |
| Assignment.AssignKeepsAssigned | src/main.rs:112-114 | when the cell is already assigned and holds the value, the result is true and nothing changes |
| Assignment.AssignIdempotent | src/main.rs:106-114 | after a successful call, repeating the same call returns true and changes nothing |
| Assignment.AssignCommits | src/main.rs:116-158 | on an unassigned cell the call succeeds exactly when clearing v leaves every peer a candidate; on success the cell is `value_mask(v) \| VALUE_SET`, every peer is its old mask without v and is non-empty, and every other cell is unchanged |
| Assignment.AssignChanges | src/main.rs:116-157 | in every outcome, failures included, every other cell is unchanged or is a peer holding its old mask without v; the target cell is unchanged or, when it was unassigned and held v, becomes `value_mask(v) \| VALUE_SET` |
| Assignment.AssignOnlyClears | src/main.rs:116-157 | no call adds a candidate bit anywhere, and no other cell's assigned flag changes |
| Assignment.AssignAddsOneGiven | src/main.rs:116-158 | a successful call on an unassigned cell makes exactly one new assignment and adds one given |
| Assignment.AssignKeepsWellFormed | src/main.rs:106-159 | a successful call keeps the board well formed |
| Deduction.SoleCandidate | src/main.rs:195-196 | on a mask with one candidate, `get_value` yields that candidate and no other value is held |
| Deduction.SetNakedSingle | src/main.rs:188-204 | the in-place rule leaves the array and result equal to `NakedFrom(old, 0)` |
| Deduction.NakedOutcome | src/main.rs:188-204 | NONE exactly when no mask is zero and no unassigned cell has a single candidate, and NONE leaves the board unchanged; CHANGED means `set_value` of that sole candidate succeeded at some cell |
| Deduction.NakedOnlyClears | src/main.rs:188-204 | the naked rule never adds a candidate bit |
| Deduction.NakedChanged | src/main.rs:195-200 | on a well-formed board, CHANGED means exactly one new assignment, one more given, and a well-formed board |
| Deduction.TallyHouse | src/main.rs:207-219 | the accumulation loop computes `value_set_mask`, `at_least_once` and `more_than_once` as `TallyUpTo` |
| Deduction.HouseTally | src/main.rs:207-219 | the accumulators mean: a value is in `at_least_once` iff at least one unassigned cell of the house holds it, in `more_than_once` iff at least two do, and in `value_set_mask` iff an assigned cell holds it |
| Deduction.ExactlyOnceMeaning | src/main.rs:227 | a value is in `exactly_once` iff exactly one unassigned cell of the house holds it |
| Deduction.PresentMeaning | src/main.rs:220-223 | `value_count(values_present) == 9` iff every value is held somewhere in the house, assigned or as a candidate |
| Deduction.RuleUncovered | src/main.rs:220-225 | a house that misses a value yields INVALID with the board unchanged |
| Deduction.RuleNone | src/main.rs:207-245 | a house yields NONE (and no change) exactly when it is covered and no cell meets `exactly_once` |
| Deduction.RuleTwoValues | src/main.rs:228-235 | when the first cell that meets `exactly_once` is the sole holder of two values, the house yields INVALID with the board unchanged |
| Deduction.RuleChanged | src/main.rs:236-241 | on a well-formed board, CHANGED is a successful `set_value` at an unassigned cell |
| Deduction.PlaceOnce | src/main.rs:228-243 | the placing loop computes `PlaceFrom` |
| Deduction.PlaceCell | src/main.rs:230-242 | one placing step: INVALID on two once-values, otherwise `set_value` of the once-value decides INVALID or CHANGED |
| Deduction.SetHiddenSingle | src/main.rs:206-248 | the in-place rule leaves the array and result equal to `HiddenFrom(old, 0)` |
| Deduction.HiddenHouse | src/main.rs:207-245 | the body for one house computes `HouseResult` |
| Deduction.RuleHouse | src/main.rs:220-244 | once a house is tallied, the coverage test and the placing scan compute `HouseRule` of the tally |
| Deduction.HiddenOutcome | src/main.rs:206-248 | NONE exactly when every house is settled, and then the board is unchanged; otherwise the result is that of the first unsettled house |
| Deduction.HiddenNone | src/main.rs:206-248 | from any house on, NONE exactly when every remaining house is covered and has no value held by exactly one unassigned cell; NONE leaves the board unchanged |
| Deduction.HiddenFirst | src/main.rs:206-248 | a result other than NONE is the result of the first house that is not settled |
| Deduction.HiddenUncovered | src/main.rs:220-225 | if houses 0..g-1 are settled and house g misses a value, the whole rule returns INVALID with the board unchanged |
| Deduction.HiddenTwoValues | src/main.rs:228-235 | if houses 0..g-1 are settled and in house g the first cell meeting `exactly_once` is the sole holder of two values, the rule returns INVALID with the board unchanged |
| Deduction.HiddenOnlyClears | src/main.rs:206-248 | the hidden rule never adds a candidate bit |
| Deduction.HiddenChanged | src/main.rs:236-241 | on a well-formed board, CHANGED means exactly one new assignment, one more given, and a well-formed board |
| Deduction.SetSingle | src/main.rs:250-256 | the in-place combination leaves the array and result equal to `Single(old)` |
| Deduction.SingleOrder | src/main.rs:250-256 | the result is the naked rule's when that is not NONE, and the hidden rule's only when it is |
| Deduction.SingleNone | src/main.rs:188-256 | NONE exactly when no mask is zero, no cell is a naked single and every house is settled; NONE leaves the board unchanged |
| Deduction.SingleEffect | src/main.rs:188-256 | no candidate is ever added; on a well-formed board CHANGED means exactly one new assignment, one more given and a well-formed board |
| Validity.CheckValidMeaning | src/main.rs:168-186 | `check_valid` holds exactly when no mask is zero and every house holds all nine values, assigned or as candidates |
| Validity.CellsMeaning | src/main.rs:169-174 | the first sweep passes exactly when no mask is zero |
| Validity.HousesMeaning | src/main.rs:175-183 | the second sweep passes exactly when every house is covered |
| Validity.UnionHas | src/main.rs:176-179 | the OR over a house holds a value exactly when one of its cells does |
| Search.UnsetCellsMeaning | src/main.rs:273-282 | the list holds exactly the cells with no assigned flag and a non-zero mask, in increasing order |
| Search.BestCellAssigned | src/main.rs:301-320 | `best_cell` returns at most 81, returns 81 exactly when every cell is assigned, and otherwise returns an unassigned cell |
| Search.BestCellPair | src/main.rs:310-312 | when some unassigned cell has exactly two candidates, the result is such a cell, the first one |
| Search.BestCellFewest | src/main.rs:301-320 | when no unassigned cell has exactly two candidates, the result has the fewest candidates among unassigned cells, and every earlier unassigned cell has strictly more |
| Search.BestCellMinimal | src/main.rs:301-320 | when every unassigned cell has at least two candidates, the result's count is minimal among unassigned cells |
| Search.BranchValue | src/main.rs:343 | the branching value is the cell's highest candidate |
| Search.SolvedIsSettled | src/main.rs:329-334 | on a fully assigned, covered, well-formed board `set_single` returns NONE and changes nothing |
| Search.SettledCells | src/main.rs:329-339 | after NONE every unassigned cell has at least two candidates and every house is covered |
| Search.AssignShrinks | src/main.rs:351 | a successful `set_value` on a cell with two or more candidates lowers the total candidate count |
| Search.PushesChildren | src/main.rs:343-354 | a branch pushes at most two boards, each well formed, adding no candidate of the popped board, and with fewer candidates in total |
| Search.Lighter | src/main.rs:326-356 | the pushed boards weigh less than the popped one (sum of 3^candidates), so the stack loop terminates |
| Search.SettleMeaning | src/main.rs:329-334 | repeating `set_single` while it reports CHANGED (`SettleOf`) ends with INVALID or NONE; after NONE the board is well formed and a further pass changes nothing; no candidate is added and the candidate total does not grow; a board on which the first pass does not report CHANGED is settled by that pass alone |
| Search.Settle | src/main.rs:329-334 | the in-place inner loop leaves exactly the result and board of `SettleOf` of the popped board, i.e. the board after the last CHANGED pass followed by the final INVALID or NONE pass |
| Search.Branch | src/main.rs:343-354 | the pushes equal `Pushes` of the popped board: the board without the highest candidate when a bit is left, then the board with it assigned when `set_value` and `check_valid` pass |
| Search.Advance | src/main.rs:351-354 | the second push equals `AssignPush` |
| Search.PassMeaning | src/main.rs:326-356 | one pass of the stack loop (`PassOf`) counts a solution exactly when the settled board is NONE and fully assigned, and the counted board is solved and adds no candidate; INVALID pushes nothing; otherwise it pushes at most two children of the popped board; a solved board is always counted; a board on which `set_single` returns INVALID is dropped |
| Search.PassKeeps | src/main.rs:322-359 | a pass keeps every stacked board well formed with no candidate beyond the input's, strictly lowers the weight of the stack, and a counted board is a solution with no candidate beyond the input's |
| Search.Explore | src/main.rs:327-355 | the in-place pass returns exactly `PassOf` of the popped board: found iff `SettleOf` ends in NONE on a fully assigned board; no push on INVALID; otherwise exactly the pushes of the settled board at `best_cell` |
| Search.CountSolutions | src/main.rs:322-359 | the count is at most `max_solutions`, every counted grid is solved and keeps only candidates of the input, a solved input with `max_solutions >= 1` counts 1, and an input on which `set_single` returns INVALID counts 0 |
| Construction.BlankFrameOk | src/main.rs:289-294 | the blank frame's board is well formed and its given count, 0, is its real count |
| Construction.NthCandidateMeaning | src/main.rs:400-408 | the picked value is non-zero exactly when the index is below the number of candidates, and it is then a candidate with exactly `index` candidates below it |
| Construction.NthCandidate | src/main.rs:399-408 | the candidate loop computes `NthCandidateOf` |
| Construction.NthCandidateFound | src/main.rs:400-408 | a candidate v is exactly what the loop picks when the draw equals the number of candidates below v |
| Construction.NthCandidateMissing | src/main.rs:399-408 | a draw at or above the number of candidates leaves `candidate_value` at 0 |
| Construction.CountGivens | src/main.rs:434-439 | the recount loop returns the number of assigned cells |
| Construction.DrawnCell | src/main.rs:395 | the drawn cell is below 81, unassigned and non-empty |
| Construction.FallbackOk | src/main.rs:411-415 | the fallback frame, when kept, is trusted (well formed, true given count), passes `check_valid`, adds no candidate and has fewer candidates |
| Construction.Push | src/main.rs:414 | pushing trusted frames keeps the stack trusted and keeps its old frames as a prefix |
| Construction.Pop | src/main.rs:385-387 | popping a trusted stack leaves a trusted stack and a trusted frame |
| Construction.Guess | src/main.rs:409-428 | after pushing the fallback frame, the guess proceeds as `GuessOutcome`, and the stack stays trusted |
| Construction.Attempt | src/main.rs:417-428 | the guess is accepted exactly when `set_value` succeeds and `check_valid` passes on the result |
| Construction.Record | src/main.rs:417-428 | acceptance pushes the new board with one more given; a failure counts one backtrack and keeps the stack and the popped frame's given count; the 101st failure (backtracks already at 100) instead resets the stack to one blank frame and `backtracks` to 0, while the loop's given count stays at the popped frame's |
| Construction.Deduce | src/main.rs:430-446 | CHANGED pushes the deduced board with one more given, which equals its real count, so the recount never disagrees |
| Construction.Draw | src/main.rs:390-429 | NONE with no unset cell drops the frame; otherwise the drawn cell and candidate are guessed |
| Construction.Step | src/main.rs:379-450 | one pass keeps every frame's given count equal to its board's number of assigned cells; CHANGED and an accepted guess add one given; INVALID, a full board and a failed guess keep the count; the mismatch message is never reached; an empty stack halts |

## Left out

- I/O is not modelled: `print_board` (src/main.rs:258-271), the output file, and every `println!` (progress, the count mismatch, "Impossible!"). Step returns the mismatch as a boolean and proves it false.
- Wall-clock timing (`Instant::now`) is not modelled.
- Randomness is left out. The two `gen_range` draws of the construction loop are the parameters `cellDraw` and `candidateDraw` of `Construction.Step`. They are required to be in range (`DrawsFit`), as `gen_range` guarantees.
- The outer loops of `main` are left out: the `num_givens` loop, the 100000 repetitions, the `given_count < num_givens` test, and the invalid/unique/multi tallies. `Construction.Step` models one pass of the construction loop. Termination of that loop is not modelled, because the restart means it need not end.
- Search.CountSolutions requires a well-formed input. Its termination is proved by a measure that needs it, and on an inconsistent board `set_hidden_single` can report CHANGED without changing anything, so the inner loop need not end. Every board the generator passes in is well formed.
- Search.CountSolutions does not prove that the counted grids are distinct, nor that every solution is found before the bound is reached. It proves the bound, that each counted grid is a solution, and the two boundary cases.
- Deduction.NakedChanged, Deduction.HiddenChanged and Deduction.SingleEffect state "exactly one new assignment" on well-formed boards only. On inconsistent boards the hidden rule can report CHANGED with no change (see "The board invariant").
- Deduction.HiddenTwoValues is stated for the first cell of the house that meets `exactly_once`. The rule stops at that cell, so a later cell that holds two once-values is never examined.
- The `ensures` of the deduction and assignment methods are equalities with pure functions. The source's promises are the lemmas about those functions listed above.
- The board invariant does not require an assigned mask to hold exactly one value. `set_value` produces such masks, but the model needs only the disjointness with peers.
- `check_valid` is not claimed to detect two cells assigned the same value: it only checks the union of each house.
