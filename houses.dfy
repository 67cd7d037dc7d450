/**
 * The 27 houses of the grid: nine rows, nine columns and nine 3x3 boxes, each an
 * ordered list of nine cell indices (cells are numbered row-major, row * 9 + col).
 */
module Houses {
  import opened Bits

  function GetRow(row: nat): (r: seq<nat>)
    requires row < HEIGHT
  {
    seq(WIDTH, k requires 0 <= k < WIDTH => row * WIDTH + k)
  }

  function GetCol(col: nat): (r: seq<nat>)
    requires col < WIDTH
  {
    seq(HEIGHT, k requires 0 <= k < HEIGHT => k * WIDTH + col)
  }

  function GetBox(boxIndex: nat): (r: seq<nat>)
    requires boxIndex < 9
  {
    var boxBase := (boxIndex / 3) * 3 * WIDTH + (boxIndex % 3) * 3;
    seq(9, k requires 0 <= k < 9 => boxBase + (k / 3) * WIDTH + k % 3)
  }

  /** House h of the table: rows 0..8, then columns 0..8, then boxes 0..8. */
  function House(h: nat): seq<nat>
    requires h < 27
  {
    if h < 9 then GetRow(h) else if h < 18 then GetCol(h - 9) else GetBox(h - 18)
  }

  const HOUSES: seq<seq<nat>> := [
    GetRow(0), GetRow(1), GetRow(2), GetRow(3), GetRow(4), GetRow(5), GetRow(6), GetRow(7), GetRow(8),
    GetCol(0), GetCol(1), GetCol(2), GetCol(3), GetCol(4), GetCol(5), GetCol(6), GetCol(7), GetCol(8),
    GetBox(0), GetBox(1), GetBox(2), GetBox(3), GetBox(4), GetBox(5), GetBox(6), GetBox(7), GetBox(8)
  ]

  function RowOf(cell: nat): nat { cell / WIDTH }
  function ColOf(cell: nat): nat { cell % WIDTH }
  function BoxOf(cell: nat): nat { (RowOf(cell) / 3) * 3 + ColOf(cell) / 3 }

  /** Two different cells that share a row, a column or a box. */
  predicate Peer(a: nat, b: nat) {
    a != b && (RowOf(a) == RowOf(b) || ColOf(a) == ColOf(b) || BoxOf(a) == BoxOf(b))
  }

  /** Entry h of the table is House(h). */
  lemma HousesTable()
    ensures |HOUSES| == 27
    ensures forall h :: 0 <= h < 27 ==> HOUSES[h] == House(h)
  {
  }

  lemma BoxCell(boxIndex: nat, k: nat)
    requires boxIndex < 9 && k < 9
    ensures GetBox(boxIndex)[k] < NUM_CELLS
    ensures RowOf(GetBox(boxIndex)[k]) == (boxIndex / 3) * 3 + k / 3
    ensures ColOf(GetBox(boxIndex)[k]) == (boxIndex % 3) * 3 + k % 3
    ensures BoxOf(GetBox(boxIndex)[k]) == boxIndex
  {
    var c := GetBox(boxIndex)[k];
    var r, q := (boxIndex / 3) * 3 + k / 3, (boxIndex % 3) * 3 + k % 3;
    assert r < 9 && q < 9;
    assert c == r * WIDTH + q;
    Split9(r, q);
    Split3(boxIndex / 3, k / 3);
    Split3(boxIndex % 3, k % 3);
  }

  /** Division and remainder by the grid width undo x * WIDTH + y for a column y. */
  lemma Split9(x: nat, y: nat)
    requires y < WIDTH
    ensures (x * WIDTH + y) / WIDTH == x && (x * WIDTH + y) % WIDTH == y
  {
  }

  /** ... and by the box width undo x * 3 + y for y below 3. */
  lemma Split3(x: nat, y: nat)
    requires y < 3
    ensures (x * 3 + y) / 3 == x && (x * 3 + y) % 3 == y
  {
  }

  /** Every cell lies in one of the nine rows, nine columns and nine boxes. */
  lemma CellPosition(cell: nat)
    requires cell < NUM_CELLS
    ensures RowOf(cell) < 9 && ColOf(cell) < 9 && BoxOf(cell) < 9
    ensures BoxOf(cell) / 3 == RowOf(cell) / 3 && BoxOf(cell) % 3 == ColOf(cell) / 3
  {
  }

  /** The cells listed by get_row, get_col and get_box lie on the grid. */
  lemma LinesInGrid(i: nat)
    requires i < 9
    ensures forall k :: 0 <= k < 9 ==>
      GetRow(i)[k] < NUM_CELLS && GetCol(i)[k] < NUM_CELLS && GetBox(i)[k] < NUM_CELLS
  {
    forall k | 0 <= k < 9 ensures GetBox(i)[k] < NUM_CELLS { BoxCell(i, k); }
  }

  /** HOUSES has 27 entries, each nine distinct cells of the grid. */
  lemma HousesShape()
    ensures |HOUSES| == 27
    ensures forall h :: 0 <= h < 27 ==> |HOUSES[h]| == 9
    ensures forall h, k :: 0 <= h < 27 && 0 <= k < 9 ==> HOUSES[h][k] < NUM_CELLS
    ensures forall h, k, l :: 0 <= h < 27 && 0 <= k < l < 9 ==> HOUSES[h][k] != HOUSES[h][l]
  {
    HousesTable();
    forall h | 0 <= h < 27
      ensures |HOUSES[h]| == 9
      ensures forall k :: 0 <= k < 9 ==> HOUSES[h][k] < NUM_CELLS
      ensures forall k, l :: 0 <= k < l < 9 ==> HOUSES[h][k] != HOUSES[h][l]
    {
      HouseShape(h);
    }
  }

  /** House h is nine distinct cells of the grid. */
  lemma HouseShape(h: nat)
    requires h < 27
    ensures |House(h)| == 9
    ensures forall k :: 0 <= k < 9 ==> House(h)[k] < NUM_CELLS
    ensures forall k, l :: 0 <= k < l < 9 ==> House(h)[k] != House(h)[l]
  {
    if h < 9 {
      LinesInGrid(h);
    } else if h < 18 {
      LinesInGrid(h - 9);
    } else {
      LinesInGrid(h - 18);
      forall k, l | 0 <= k < l < 9 ensures House(h)[k] != House(h)[l] {
        BoxCell(h - 18, k);
        BoxCell(h - 18, l);
      }
    }
  }

  lemma RowMembers(row: nat, cell: nat)
    requires row < 9 && cell < NUM_CELLS
    ensures cell in GetRow(row) <==> RowOf(cell) == row
  {
    if cell in GetRow(row) {
      var k :| 0 <= k < 9 && GetRow(row)[k] == cell;
      assert cell == row * WIDTH + k;
    }
    if RowOf(cell) == row { assert GetRow(row)[ColOf(cell)] == cell; }
  }

  lemma ColMembers(col: nat, cell: nat)
    requires col < 9 && cell < NUM_CELLS
    ensures cell in GetCol(col) <==> ColOf(cell) == col
  {
    if cell in GetCol(col) {
      var k :| 0 <= k < 9 && GetCol(col)[k] == cell;
      assert cell == k * WIDTH + col;
    }
    if ColOf(cell) == col { assert GetCol(col)[RowOf(cell)] == cell; }
  }

  lemma BoxMembers(b: nat, cell: nat)
    requires b < 9 && cell < NUM_CELLS
    ensures cell in GetBox(b) <==> BoxOf(cell) == b
  {
    if cell in GetBox(b) {
      var k :| 0 <= k < 9 && GetBox(b)[k] == cell;
      BoxCell(b, k);
    }
    if BoxOf(cell) == b {
      var r, c := RowOf(cell), ColOf(cell);
      var k := (r % 3) * 3 + c % 3;
      assert k / 3 == r % 3 && k % 3 == c % 3;
      assert b / 3 == r / 3 && b % 3 == c / 3;
      BoxCell(b, k);
      assert RowOf(GetBox(b)[k]) == r && ColOf(GetBox(b)[k]) == c;
    }
  }

  /** Row house r holds exactly the cells of row r, column house 9 + c the cells of column c
      and box house 18 + b the cells of box b: every cell lies in exactly one house of each kind. */
  lemma HouseMembers(h: nat, cell: nat)
    requires h < 27 && cell < NUM_CELLS
    ensures h < 9 ==> (cell in HOUSES[h] <==> RowOf(cell) == h)
    ensures 9 <= h < 18 ==> (cell in HOUSES[h] <==> ColOf(cell) == h - 9)
    ensures 18 <= h ==> (cell in HOUSES[h] <==> BoxOf(cell) == h - 18)
  {
    HousesTable();
    HouseCells(h, cell);
  }

  lemma HouseCells(h: nat, cell: nat)
    requires h < 27 && cell < NUM_CELLS
    ensures h < 9 ==> (cell in House(h) <==> RowOf(cell) == h)
    ensures 9 <= h < 18 ==> (cell in House(h) <==> ColOf(cell) == h - 9)
    ensures 18 <= h ==> (cell in House(h) <==> BoxOf(cell) == h - 18)
  {
    if h < 9 {
      RowMembers(h, cell);
    } else if h < 18 {
      ColMembers(h - 9, cell);
    } else {
      BoxMembers(h - 18, cell);
    }
  }

  /** The houses holding a cell are its row, its column and its box. */
  lemma HousesOfCell(cell: nat)
    requires cell < NUM_CELLS
    ensures RowOf(cell) < 9 && ColOf(cell) < 9 && BoxOf(cell) < 9
    ensures cell in HOUSES[RowOf(cell)]
    ensures cell in HOUSES[9 + ColOf(cell)]
    ensures cell in HOUSES[18 + BoxOf(cell)]
  {
    CellPosition(cell);
    HousesTable();
    HouseCells(RowOf(cell), cell);
    HouseCells(9 + ColOf(cell), cell);
    HouseCells(18 + BoxOf(cell), cell);
  }

  /** Two different cells share a house exactly when they are peers. */
  lemma ShareHouseIffPeer(a: nat, b: nat)
    requires a < NUM_CELLS && b < NUM_CELLS && a != b
    ensures (exists h :: 0 <= h < 27 && a in HOUSES[h] && b in HOUSES[h]) <==> Peer(a, b)
  {
    HousesTable();
    SharedHouse(a, b);
  }

  lemma SharedHouse(a: nat, b: nat)
    requires a < NUM_CELLS && b < NUM_CELLS && a != b
    ensures (exists h :: 0 <= h < 27 && a in House(h) && b in House(h)) <==> Peer(a, b)
  {
    CellPosition(a);
    CellPosition(b);
    if exists h :: 0 <= h < 27 && a in House(h) && b in House(h) {
      var h :| 0 <= h < 27 && a in House(h) && b in House(h);
      HouseCells(h, a);
      HouseCells(h, b);
    }
    if Peer(a, b) {
      var h := if RowOf(a) == RowOf(b) then RowOf(a)
        else if ColOf(a) == ColOf(b) then 9 + ColOf(a)
        else 18 + BoxOf(a);
      HouseCells(h, a);
      HouseCells(h, b);
    }
  }

  /** Nine cells of the grid. */
  predicate IsHouse(house: seq<nat>) {
    |house| == 9 && forall k :: 0 <= k < 9 ==> house[k] < NUM_CELLS
  }

  /** Any two different cells of the list are peers. */
  predicate AllPeers(house: seq<nat>) {
    forall j, k :: 0 <= j < |house| && 0 <= k < |house| && house[j] != house[k] ==>
      Peer(house[j], house[k])
  }

  /** Entry h of HOUSES is nine cells of the grid, any two of them peers. */
  lemma HouseAt(h: nat)
    requires h < 27
    ensures IsHouse(HOUSES[h]) && AllPeers(HOUSES[h])
  {
    HousesTable();
    HouseShape(h);
    var house := House(h);
    forall j, k | 0 <= j < 9 && 0 <= k < 9 && house[j] != house[k]
      ensures Peer(house[j], house[k])
    {
      HouseCells(h, house[j]);
      HouseCells(h, house[k]);
    }
  }
}
