/**
  Gravity compaction and refill (`updateMarbleArray`): in every column that
  has an empty cell, the surviving marbles fall, in their order, to the
  bottom rows, and the rows left at the top receive new marbles.

  The specification is stated column by column: column `c` of the result is
  `k` fresh marbles followed by the survivors of column `c`, where `k` is the
  number of empty cells the column had.
*/
module Refill {
  import opened GridLayout
  import opened Marbles

  /** Column `c`, top row first. */
  function Column(L: Layout, s: seq<Cell>, c: int): (col: seq<Cell>)
    requires L.Valid()
    ensures |col| == L.rows
  {
    seq(L.rows, r => CellAt(s, OneDimIndex(L, c, r)))
  }

  /** The occupied cells of a column, in their order. */
  function Survivors(col: seq<Cell>): (sv: seq<Cell>)
    ensures |sv| <= |col|
    ensures forall k :: 0 <= k < |sv| ==> sv[k].Full?
  {
    if col == [] then []
    else (if col[0].Full? then [col[0]] else []) + Survivors(col[1..])
  }

  /** Number of empty cells of a column. */
  function EmptyCount(col: seq<Cell>): nat {
    if col == [] then 0
    else (if col[0].Empty? then 1 else 0) + EmptyCount(col[1..])
  }

  /** The lowest empty row of a column, or -1 when the column is full. */
  function LowestEmpty(col: seq<Cell>): (r: int)
    ensures -1 <= r < |col|
    ensures r >= 0 ==> col[r].Empty?
    ensures forall k :: r < k < |col| ==> col[k].Full?
  {
    if col == [] then -1
    else if col[|col| - 1].Empty? then |col| - 1
    else LowestEmpty(col[..|col| - 1])
  }

  /** `k` new marbles for the top `k` rows of column `c`. */
  function FreshColumn(L: Layout, palette: seq<int>, pick: nat -> nat, c: nat, k: nat): (f: seq<Cell>)
    requires L.Valid()
    ensures |f| == k
  {
    seq(k, r requires 0 <= r < k => Full(FreshMarble(L, palette, pick, CellIndex(L, c, r))))
  }

  /** Column `c` after compaction and refill: as many rows as before, none
      of them empty. */
  function RefillColumn(L: Layout, palette: seq<int>, pick: nat -> nat, c: nat, col: seq<Cell>): (rc: seq<Cell>)
    requires L.Valid()
    ensures |rc| == |col|
    ensures forall r :: 0 <= r < |rc| ==> rc[r].Full?
  {
    var sv := Survivors(col);
    FreshColumn(L, palette, pick, c, |col| - |sv|) + sv
  }

  /** Cell `i` of the grid after compaction and refill. */
  function RefilledAt(L: Layout, palette: seq<int>, pick: nat -> nat, s: seq<Cell>, i: nat): (cell: Cell)
    requires L.Valid() && i < L.CellCount()
    ensures cell.Full?
  {
    IndexInGrid(L, i);
    RefillColumn(L, palette, pick, i % L.columns, Column(L, s, i % L.columns))[i / L.columns]
  }

  /** The whole grid after compaction and refill: no cell is empty. */
  function Refilled(L: Layout, palette: seq<int>, pick: nat -> nat, s: seq<Cell>): (t: seq<Cell>)
    requires L.Valid() && |s| == L.CellCount()
    ensures |t| == |s|
    ensures NoEmpty(t)
  {
    seq(|s|, i requires 0 <= i < |s| => RefilledAt(L, palette, pick, s, i))
  }

  // ---------------------------------------------------------------------
  // Columns of a grid

  /** Row `r` of column `c` is the cell at flat index `CellIndex(L, c, r)`. */
  lemma ColumnAt(L: Layout, s: seq<Cell>, c: nat, r: nat)
    requires L.Valid() && |s| == L.CellCount() && c < L.columns && r < L.rows
    ensures CellIndex(L, c, r) < |s| && Column(L, s, c)[r] == s[CellIndex(L, c, r)]
  {
    CellInGrid(L, c, r);
  }

  /** Cell `i` is in column `i % columns`, at row `i / columns`. */
  lemma ColumnOfIndex(L: Layout, s: seq<Cell>, i: nat)
    requires L.Valid() && |s| == L.CellCount() && i < |s|
    ensures i % L.columns < L.columns && i / L.columns < L.rows
    ensures Column(L, s, i % L.columns)[i / L.columns] == s[i]
  {
    IndexInGrid(L, i);
  }

  /** Writing one cell changes one row of one column. */
  lemma ColumnUpdate(L: Layout, s: seq<Cell>, c: nat, r: nat, v: Cell)
    requires L.Valid() && |s| == L.CellCount() && c < L.columns && r < L.rows
    ensures CellIndex(L, c, r) < |s|
    ensures Column(L, s[CellIndex(L, c, r) := v], c) == Column(L, s, c)[r := v]
    ensures forall c' :: 0 <= c' < L.columns && c' != c ==>
              Column(L, s[CellIndex(L, c, r) := v], c') == Column(L, s, c')
  {
    CellInGrid(L, c, r);
    var k := CellIndex(L, c, r);
    var t := s[k := v];
    forall c', r' | 0 <= c' < L.columns && 0 <= r' < L.rows
      ensures Column(L, t, c')[r'] == if c' == c then Column(L, s, c)[r := v][r'] else Column(L, s, c')[r']
    {
      CellInGrid(L, c', r');
    }
  }

  /** Moving the cell of row `j` of column `c` to row `e` and emptying row
      `j` changes those two rows of column `c` and no other column. */
  lemma ColumnMove(L: Layout, s: seq<Cell>, c: nat, j: nat, e: nat)
    requires L.Valid() && |s| == L.CellCount() && c < L.columns && j < e < L.rows
    ensures CellIndex(L, c, j) < |s| && CellIndex(L, c, e) < |s|
    ensures var v := s[CellIndex(L, c, j)];
            var t := s[CellIndex(L, c, e) := v][CellIndex(L, c, j) := Empty];
            Column(L, t, c) == Column(L, s, c)[e := v][j := Empty] &&
            forall c' :: 0 <= c' < L.columns && c' != c ==> Column(L, t, c') == Column(L, s, c')
  {
    ColumnAt(L, s, c, j);
    var v := s[CellIndex(L, c, j)];
    ColumnUpdate(L, s, c, e, v);
    ColumnUpdate(L, s[CellIndex(L, c, e) := v], c, j, Empty);
  }

  /** Two grids with the same columns are the same grid. */
  lemma ColumnsDetermine(L: Layout, s: seq<Cell>, t: seq<Cell>)
    requires L.Valid() && |s| == |t| == L.CellCount()
    requires forall c :: 0 <= c < L.columns ==> Column(L, s, c) == Column(L, t, c)
    ensures s == t
  {
    forall i | 0 <= i < |s| ensures s[i] == t[i] {
      ColumnOfIndex(L, s, i);
      ColumnOfIndex(L, t, i);
    }
  }

  /** Column `c` of the refilled grid is the refilled column `c`. */
  lemma RefilledColumn(L: Layout, palette: seq<int>, pick: nat -> nat, s: seq<Cell>, c: nat)
    requires L.Valid() && |s| == L.CellCount() && c < L.columns
    ensures Column(L, Refilled(L, palette, pick, s), c) == RefillColumn(L, palette, pick, c, Column(L, s, c))
  {
    var t := Refilled(L, palette, pick, s);
    forall r | 0 <= r < L.rows
      ensures Column(L, t, c)[r] == RefillColumn(L, palette, pick, c, Column(L, s, c))[r]
    {
      CellInGrid(L, c, r);
    }
  }

  // ---------------------------------------------------------------------
  // Survivors

  lemma {:induction false} SurvivorsAppend(a: seq<Cell>, b: seq<Cell>)
    ensures Survivors(a + b) == Survivors(a) + Survivors(b)
  {
    if a == [] {
      assert a + b == b;
    } else {
      assert (a + b)[0] == a[0];
      assert (a + b)[1..] == a[1..] + b;
      SurvivorsAppend(a[1..], b);
    }
  }

  lemma {:induction false} SurvivorsOfFull(a: seq<Cell>)
    requires forall k :: 0 <= k < |a| ==> a[k].Full?
    ensures Survivors(a) == a
  {
    if a != [] {
      SurvivorsOfFull(a[1..]);
    }
  }

  /** Survivors of a slice, peeling its first row. */
  lemma SurvivorsSlice(col: seq<Cell>, j: nat, hi: nat)
    requires j < hi <= |col|
    ensures Survivors(col[j..hi]) == (if col[j].Full? then [col[j]] else []) + Survivors(col[j + 1..hi])
  {
    assert col[j..hi][1..] == col[j + 1..hi];
  }

  /** A column holds as many empty cells as it lacks survivors. */
  lemma {:induction false} EmptyCountSurvivors(col: seq<Cell>)
    ensures EmptyCount(col) == |col| - |Survivors(col)|
  {
    if col != [] {
      EmptyCountSurvivors(col[1..]);
    }
  }

  // ---------------------------------------------------------------------
  // What a refill promises

  /** In every column the survivors keep their order and fill the bottom
      rows; the `k` rows above them, `k` the number of empty cells the column
      had, hold new marbles: unmarked, one marble size above the visible
      area, centred on the column, with a palette colour. */
  lemma RefillShape(L: Layout, palette: seq<int>, pick: nat -> nat, s: seq<Cell>, c: nat)
    requires L.Valid() && |s| == L.CellCount() && c < L.columns
    ensures var col := Column(L, s, c);
            var after := Column(L, Refilled(L, palette, pick, s), c);
            var k := EmptyCount(col);
            k <= L.rows &&
            after[k..] == Survivors(col) &&
            forall r :: 0 <= r < k ==>
              after[r].Full? && IsFresh(L, palette, CellIndex(L, c, r), after[r].marble)
  {
    var col := Column(L, s, c);
    RefilledColumn(L, palette, pick, s, c);
    EmptyCountSurvivors(col);
    var k := EmptyCount(col);
    forall r | 0 <= r < k
      ensures IsFresh(L, palette, CellIndex(L, c, r), FreshMarble(L, palette, pick, CellIndex(L, c, r)))
    {
      CellInGrid(L, c, r);
    }
  }

  /** A grid without empty cells is left as it is. */
  lemma RefillOfFullGrid(L: Layout, palette: seq<int>, pick: nat -> nat, s: seq<Cell>)
    requires L.Valid() && |s| == L.CellCount() && NoEmpty(s)
    ensures Refilled(L, palette, pick, s) == s
  {
    var t := Refilled(L, palette, pick, s);
    forall c | 0 <= c < L.columns ensures Column(L, t, c) == Column(L, s, c) {
      RefilledColumn(L, palette, pick, s, c);
      var col := Column(L, s, c);
      forall r | 0 <= r < L.rows ensures col[r].Full? {
        ColumnAt(L, s, c, r);
      }
      SurvivorsOfFull(col);
    }
    ColumnsDetermine(L, t, s);
  }

  /** Every marble of a column is at horizontal position `x`. */
  ghost predicate ColumnAtX(col: seq<Cell>, x: int) {
    forall r :: 0 <= r < |col| && col[r].Full? ==> col[r].marble.x == x
  }

  lemma {:induction false} SurvivorsAtX(col: seq<Cell>, x: int)
    requires ColumnAtX(col, x)
    ensures ColumnAtX(Survivors(col), x)
  {
    if col != [] {
      assert ColumnAtX(col[1..], x) by {
        forall r | 0 <= r < |col| - 1 && col[1..][r].Full? ensures col[1..][r].marble.x == x {
          assert col[1..][r] == col[r + 1];
        }
      }
      SurvivorsAtX(col[1..], x);
    }
  }

  /** A refill moves marbles only within their column and puts new marbles
      on the centre line of their column, so it keeps every marble of the
      grid on the centre line of its column. */
  lemma RefillKeepsXCentred(L: Layout, palette: seq<int>, pick: nat -> nat, s: seq<Cell>)
    requires L.Valid() && |s| == L.CellCount() && XCentred(L, s)
    ensures XCentred(L, Refilled(L, palette, pick, s))
  {
    var t := Refilled(L, palette, pick, s);
    forall c | 0 <= c < L.columns
      ensures ColumnAtX(RefillColumn(L, palette, pick, c, Column(L, s, c)), CentreX(L, c))
    {
      var col := Column(L, s, c);
      forall r | 0 <= r < L.rows ensures col[r].Full? ==> col[r].marble.x == CentreX(L, c) {
        ColumnAt(L, s, c, r);
        CentreXOfCell(L, c, r);
      }
      SurvivorsAtX(col, CentreX(L, c));
      var k := |col| - |Survivors(col)|;
      forall r | 0 <= r < k ensures FreshColumn(L, palette, pick, c, k)[r].marble.x == CentreX(L, c) {
        CentreXOfCell(L, c, r);
      }
    }
    forall i | 0 <= i < |t| ensures t[i].marble.x == CentreX(L, i) {
      IndexInGrid(L, i);
      CentreXOfCell(L, i % L.columns, i / L.columns);
    }
  }

  // ---------------------------------------------------------------------
  // The in-place algorithm

  /** Within a column, lower rows have larger flat indices. */
  lemma RowOrder(L: Layout, c: nat, r1: nat, r2: nat)
    requires L.Valid() && r1 < r2
    ensures CellIndex(L, c, r1) + L.columns <= CellIndex(L, c, r2)
  {
    MulMonotone(r1 + 1, r2, L.columns);
  }

  /** The outer loop, which visits flat indices downward and is now at `i`,
      has already passed the lowest empty cell of column `c` of `O`. */
  ghost predicate Done(L: Layout, O: seq<Cell>, c: nat, i: int)
    requires L.Valid()
  {
    var le := LowestEmpty(Column(L, O, c));
    le >= 0 && CellIndex(L, c, le) > i
  }

  /** Moving the outer loop from `i` to `i - 1` can only complete the column
      of `i`, and does so exactly when `i` is its lowest empty cell. */
  lemma DoneStep(L: Layout, O: seq<Cell>, i: nat)
    requires L.Valid() && |O| == L.CellCount() && i < |O|
    ensures forall c :: 0 <= c < L.columns && c != i % L.columns ==> (Done(L, O, c, i - 1) <==> Done(L, O, c, i))
    ensures Done(L, O, i % L.columns, i - 1) <==>
              Done(L, O, i % L.columns, i) || LowestEmpty(Column(L, O, i % L.columns)) == i / L.columns
  {
    IndexInGrid(L, i);
    forall c | 0 <= c < L.columns
      ensures var le := LowestEmpty(Column(L, O, c));
              le >= 0 && CellIndex(L, c, le) == i ==> c == i % L.columns && le == i / L.columns
    {
      var le := LowestEmpty(Column(L, O, c));
      if le >= 0 {
        CellInGrid(L, c, le);
      }
    }
  }

  /** Column `cur` while the marbles above the lowest empty row `y` of the
      original column `col` fall: rows up to `j` are still original, rows
      `j + 1 .. e` are empty, rows `e + 1 .. y` hold the survivors of rows
      `j + 1 .. y` in their order, rows below `y` are untouched. */
  ghost predicate Falling(cur: seq<Cell>, col: seq<Cell>, j: int, e: int, y: int)
    requires -1 <= j < e <= y < |col|
  {
    var sv := Survivors(col[j + 1..y + 1]);
    |cur| == |col| && |sv| == y - e &&
    forall r :: 0 <= r < |col| ==>
      cur[r] == if r <= j then col[r]
                else if r <= e then Empty
                else if r <= y then sv[r - e - 1]
                else col[r]
  }

  /** One step of the falling loop, for an occupied and for an empty row `j`. */
  lemma FallingStep(cur: seq<Cell>, col: seq<Cell>, j: int, e: int, y: int)
    requires 0 <= j < e <= y < |col| && Falling(cur, col, j, e, y)
    ensures cur[j] == col[j]
    ensures col[j].Full? ==> Falling(cur[e := col[j]][j := Empty], col, j - 1, e - 1, y)
    ensures col[j].Empty? ==> Falling(cur, col, j - 1, e, y)
  {
    SurvivorsSlice(col, j, y + 1);
  }

  /** Column `cur` while the top rows are refilled: rows above `j` hold new
      marbles, rows `j .. e` are empty, rows `e + 1 .. y` hold `sv`. */
  ghost predicate Filling(L: Layout, palette: seq<int>, pick: nat -> nat, c: nat,
                          cur: seq<Cell>, col: seq<Cell>, sv: seq<Cell>, j: nat, e: int, y: int)
    requires L.Valid() && -1 <= e <= y < |col|
  {
    |cur| == |col| && |sv| == y - e &&
    forall r :: 0 <= r < |col| ==>
      cur[r] == if r < j then Full(FreshMarble(L, palette, pick, CellIndex(L, c, r)))
                else if r <= e then Empty
                else if r <= y then sv[r - e - 1]
                else col[r]
  }

  lemma FillingStep(L: Layout, palette: seq<int>, pick: nat -> nat, c: nat,
                    cur: seq<Cell>, col: seq<Cell>, sv: seq<Cell>, j: nat, e: int, y: int)
    requires L.Valid() && -1 <= e <= y < |col| && j <= e
    requires Filling(L, palette, pick, c, cur, col, sv, j, e, y)
    ensures Filling(L, palette, pick, c, cur[j := Full(FreshMarble(L, palette, pick, CellIndex(L, c, j)))],
                    col, sv, j + 1, e, y)
  {
  }

  /** Occupied cells appended to a column all survive. */
  lemma SurvivorsFullSuffix(a: seq<Cell>, b: seq<Cell>)
    requires forall k :: 0 <= k < |b| ==> b[k].Full?
    ensures Survivors(a + b) == Survivors(a) + b
  {
    SurvivorsOfFull(b);
    SurvivorsAppend(a, b);
  }

  /** When every cell below row `y` is occupied, all of them survive. */
  lemma SurvivorsBelowLowestEmpty(col: seq<Cell>, y: int)
    requires 0 <= y < |col|
    requires forall k :: y < k < |col| ==> col[k].Full?
    ensures Survivors(col) == Survivors(col[0..y + 1]) + col[y + 1..]
  {
    var top, below := col[0..y + 1], col[y + 1..];
    forall k | 0 <= k < |below| ensures below[k].Full? {
      assert below[k] == col[y + 1 + k];
    }
    SurvivorsFullSuffix(top, below);
    assert top + below == col;
  }

  /** Row `r` of the refilled column whose lowest empty row is `y`, when `e + 1`
      of its cells are empty: a new marble in the top `e + 1` rows, then the
      survivors of rows `0 .. y`, then the rows below `y` as they were. */
  lemma RefillColumnAt(L: Layout, palette: seq<int>, pick: nat -> nat, c: nat,
                       col: seq<Cell>, e: int, y: int, r: nat)
    requires L.Valid() && -1 <= e <= y < |col| && r < |col|
    requires Survivors(col) == Survivors(col[0..y + 1]) + col[y + 1..]
    requires |Survivors(col[0..y + 1])| == y - e
    ensures RefillColumn(L, palette, pick, c, col)[r] ==
              if r <= e then Full(FreshMarble(L, palette, pick, CellIndex(L, c, r)))
              else if r <= y then Survivors(col[0..y + 1])[r - e - 1]
              else col[r]
  {
  }

  /** When the falling loop is over and the top rows are refilled, the column
      is the refilled column. */
  lemma FillingDone(L: Layout, palette: seq<int>, pick: nat -> nat, c: nat,
                    cur: seq<Cell>, col: seq<Cell>, e: int, y: int)
    requires L.Valid() && -1 <= e <= y < |col| && 0 <= y && LowestEmpty(col) == y
    requires Filling(L, palette, pick, c, cur, col, Survivors(col[0..y + 1]), e + 1, e, y)
    ensures cur == RefillColumn(L, palette, pick, c, col)
  {
    SurvivorsBelowLowestEmpty(col, y);
    forall r | 0 <= r < |col| ensures cur[r] == RefillColumn(L, palette, pick, c, col)[r] {
      RefillColumnAt(L, palette, pick, c, col, e, y, r);
    }
  }

  /** The body of the outer loop for an empty cell `i`, the lowest empty cell
      of its column: the marbles above it fall, then the emptied top rows of
      the column receive new marbles. */
  method SettleColumn(a: array<Cell>, L: Layout, palette: seq<int>, pick: nat -> nat, i: int, ghost O: seq<Cell>)
    requires L.Valid() && a.Length == L.CellCount() && |O| == a.Length && 0 <= i < a.Length
    requires Column(L, a[..], i % L.columns) == Column(L, O, i % L.columns)
    requires LowestEmpty(Column(L, O, i % L.columns)) == i / L.columns
    modifies a
    ensures Column(L, a[..], i % L.columns) ==
              RefillColumn(L, palette, pick, i % L.columns, Column(L, O, i % L.columns))
    ensures forall c :: 0 <= c < L.columns && c != i % L.columns ==>
              Column(L, a[..], c) == Column(L, old(a[..]), c)
  {
    IndexInGrid(L, i);
    var p := TwoDimIndex(L, i);
    var x, y := p.x, p.y;
    ghost var col := Column(L, O, x);
    assert Falling(Column(L, a[..], x), col, y - 1, y, y);
    var numberOfEmptyCells, e := DropSurvivors(a, L, i, x, y, col);
    ghost var sv := Survivors(col[0..y + 1]);
    FillTop(a, L, palette, pick, x, numberOfEmptyCells, col, sv, e, y);
    FillingDone(L, palette, pick, x, Column(L, a[..], x), col, e, y);
  }

  /** The first inner loop of `SettleColumn`: walking up column `x` from just
      above its lowest empty row `y`, every marble moves down to the lowest
      empty row seen so far. Answers the number of empty rows left at the top;
      `e` is the lowest of them. */
  method DropSurvivors(a: array<Cell>, L: Layout, i: nat, x: nat, y: nat, ghost col: seq<Cell>)
    returns (numberOfEmptyCells: int, ghost e: int)
    requires L.Valid() && a.Length == L.CellCount() && x < L.columns && y < L.rows && |col| == L.rows
    requires i == CellIndex(L, x, y)
    requires Falling(Column(L, a[..], x), col, y - 1, y, y)
    modifies a
    ensures 0 <= e <= y && numberOfEmptyCells == e + 1
    ensures Falling(Column(L, a[..], x), col, -1, e, y)
    ensures forall c :: 0 <= c < L.columns && c != x ==> Column(L, a[..], c) == Column(L, old(a[..]), c)
  {
    var emptyIndex := i;
    numberOfEmptyCells := 1;
    e := y;
    var j := y - 1;
    while j >= 0
      invariant -1 <= j < e <= y
      invariant numberOfEmptyCells == e - j
      invariant emptyIndex == CellIndex(L, x, e)
      invariant Falling(Column(L, a[..], x), col, j, e, y)
      invariant forall c :: 0 <= c < L.columns && c != x ==> Column(L, a[..], c) == Column(L, old(a[..]), c)
      decreases j + 1
    {
      ghost var cur := Column(L, a[..], x);
      FallingStep(cur, col, j, e, y);
      ColumnAt(L, a[..], x, j);
      var index := CellIndex(L, x, j);
      var swapMarble := a[index];
      if swapMarble.Full? {
        ghost var before := a[..];
        ColumnMove(L, before, x, j, e);
        a[emptyIndex] := swapMarble;
        a[index] := Empty;
        assert a[..] == before[emptyIndex := swapMarble][index := Empty];
        IndexRoundTrip(L, x, e);
        var q := TwoDimIndex(L, emptyIndex);
        emptyIndex := OneDimIndex(L, q.x, q.y - 1);
        e := e - 1;
      } else {
        numberOfEmptyCells := numberOfEmptyCells + 1;
      }
      j := j - 1;
    }
  }

  /** The last loop of `SettleColumn`: the top `count` rows of column `x`
      receive new marbles. */
  method FillTop(a: array<Cell>, L: Layout, palette: seq<int>, pick: nat -> nat, x: nat, count: nat,
                 ghost col: seq<Cell>, ghost sv: seq<Cell>, ghost e: int, ghost y: int)
    requires L.Valid() && a.Length == L.CellCount() && x < L.columns && |col| == L.rows
    requires -1 <= e <= y < |col| && count == e + 1
    requires Filling(L, palette, pick, x, Column(L, a[..], x), col, sv, 0, e, y)
    modifies a
    ensures Filling(L, palette, pick, x, Column(L, a[..], x), col, sv, count, e, y)
    ensures forall c :: 0 <= c < L.columns && c != x ==> Column(L, a[..], c) == Column(L, old(a[..]), c)
  {
    var j := 0;
    while j < count
      invariant 0 <= j <= count
      invariant Filling(L, palette, pick, x, Column(L, a[..], x), col, sv, j, e, y)
      invariant forall c :: 0 <= c < L.columns && c != x ==> Column(L, a[..], c) == Column(L, old(a[..]), c)
    {
      var index := CellIndex(L, x, j);
      ghost var before := a[..];
      FillingStep(L, palette, pick, x, Column(L, before, x), col, sv, j, e, y);
      ColumnUpdate(L, before, x, j, Full(FreshMarble(L, palette, pick, index)));
      a[index] := Full(FreshMarble(L, palette, pick, index));
      assert a[..] == before[index := Full(FreshMarble(L, palette, pick, index))];
      j := j + 1;
    }
  }

  /** Column `c` once the outer loop has reached flat index `i`: refilled if
      the loop has passed its lowest empty cell, original otherwise. */
  ghost function Progress(L: Layout, palette: seq<int>, pick: nat -> nat, O: seq<Cell>, c: nat, i: int): seq<Cell>
    requires L.Valid()
  {
    if Done(L, O, c, i) then RefillColumn(L, palette, pick, c, Column(L, O, c)) else Column(L, O, c)
  }

  /** The grid `cur` is what the outer loop has made of `O` when it reaches `i`. */
  ghost predicate StateAt(L: Layout, palette: seq<int>, pick: nat -> nat, O: seq<Cell>, cur: seq<Cell>, i: int)
    requires L.Valid()
  {
    forall c :: 0 <= c < L.columns ==> Column(L, cur, c) == Progress(L, palette, pick, O, c, i)
  }

  /** Before the outer loop nothing is done. */
  lemma StateAtStart(L: Layout, palette: seq<int>, pick: nat -> nat, O: seq<Cell>)
    requires L.Valid() && |O| == L.CellCount()
    ensures StateAt(L, palette, pick, O, O, |O| - 1)
  {
    var last := |O| - 1;
    forall c | 0 <= c < L.columns ensures !Done(L, O, c, last) {
      var le := LowestEmpty(Column(L, O, c));
      if le >= 0 {
        CellInGrid(L, c, le);
      }
    }
  }

  /** One iteration of the outer loop at an occupied cell `i`: every column
      stays as it is, and the original grid is full below `i` exactly when it
      is full from `i` on. */
  lemma OuterStepFull(L: Layout, palette: seq<int>, pick: nat -> nat, O: seq<Cell>, cur: seq<Cell>, i: nat)
    requires L.Valid() && |O| == |cur| == L.CellCount() && i < |O|
    requires StateAt(L, palette, pick, O, cur, i) && cur[i].Full?
    ensures StateAt(L, palette, pick, O, cur, i - 1)
    ensures (forall j :: i - 1 < j < |O| ==> O[j].Full?) <==> (forall j :: i < j < |O| ==> O[j].Full?)
  {
    ColumnOfIndex(L, cur, i);
    ColumnOfIndex(L, O, i);
    DoneStep(L, O, i);
    var c := i % L.columns;
    var le := LowestEmpty(Column(L, O, c));
    if Done(L, O, c, i) {
      ColumnAt(L, O, c, le);
      assert O[CellIndex(L, c, le)].Empty?;
    }
  }

  /** One iteration of the outer loop at an empty cell `i`: it is empty in the
      original grid, it is the lowest empty cell of its column, and that
      column is still original. */
  lemma OuterStepEmpty(L: Layout, palette: seq<int>, pick: nat -> nat, O: seq<Cell>, cur: seq<Cell>, i: nat)
    requires L.Valid() && |O| == |cur| == L.CellCount() && i < |O|
    requires StateAt(L, palette, pick, O, cur, i) && cur[i].Empty?
    ensures O[i].Empty?
    ensures Column(L, cur, i % L.columns) == Column(L, O, i % L.columns)
    ensures LowestEmpty(Column(L, O, i % L.columns)) == i / L.columns
  {
    ColumnOfIndex(L, cur, i);
    ColumnOfIndex(L, O, i);
    IndexInGrid(L, i);
    var c, r := i % L.columns, i / L.columns;
    var col := Column(L, O, c);
    assert Column(L, cur, c) == Progress(L, palette, pick, O, c, i);
    if Done(L, O, c, i) {
      assert false;
    }
    var le := LowestEmpty(col);
    if le > r {
      RowOrder(L, c, r, le);
      assert false;
    }
  }

  /** Settling the column of the empty cell `i` completes that column. */
  lemma SettledStep(L: Layout, palette: seq<int>, pick: nat -> nat, O: seq<Cell>, prev: seq<Cell>, cur: seq<Cell>, i: nat)
    requires L.Valid() && |O| == |prev| == |cur| == L.CellCount() && i < |O|
    requires StateAt(L, palette, pick, O, prev, i)
    requires LowestEmpty(Column(L, O, i % L.columns)) == i / L.columns
    requires Column(L, cur, i % L.columns) == RefillColumn(L, palette, pick, i % L.columns, Column(L, O, i % L.columns))
    requires forall c :: 0 <= c < L.columns && c != i % L.columns ==> Column(L, cur, c) == Column(L, prev, c)
    ensures StateAt(L, palette, pick, O, cur, i - 1)
  {
    DoneStep(L, O, i);
    IndexInGrid(L, i);
  }

  /** After the outer loop every column is refilled. */
  lemma AllSettled(L: Layout, palette: seq<int>, pick: nat -> nat, O: seq<Cell>, cur: seq<Cell>)
    requires L.Valid() && |O| == |cur| == L.CellCount()
    requires StateAt(L, palette, pick, O, cur, -1)
    ensures cur == Refilled(L, palette, pick, O)
  {
    forall c | 0 <= c < L.columns
      ensures Column(L, cur, c) == Column(L, Refilled(L, palette, pick, O), c)
    {
      RefilledColumn(L, palette, pick, O, c);
      var col := Column(L, O, c);
      if !Done(L, O, c, -1) {
        SurvivorsOfFull(col);
      }
    }
    ColumnsDetermine(L, cur, Refilled(L, palette, pick, O));
  }

  /** `updateMarbleArray`, in place on the marble array; answers whether no
      cell was empty (the value it stores in `isSync`). */
  method UpdateMarbleArray(a: array<Cell>, L: Layout, palette: seq<int>, pick: nat -> nat) returns (unChanged: bool)
    requires L.Valid() && a.Length == L.CellCount()
    modifies a
    ensures a[..] == Refilled(L, palette, pick, old(a[..]))
    ensures unChanged <==> NoEmpty(old(a[..]))
  {
    ghost var O := a[..];
    StateAtStart(L, palette, pick, O);
    unChanged := true;
    var i := a.Length - 1;
    while i >= 0
      invariant -1 <= i < a.Length
      invariant unChanged <==> forall j :: i < j < a.Length ==> O[j].Full?
      invariant StateAt(L, palette, pick, O, a[..], i)
      decreases i + 1
    {
      var marble := a[i];
      if marble.Full? {
        OuterStepFull(L, palette, pick, O, a[..], i);
        i := i - 1;
        continue;
      }
      OuterStepEmpty(L, palette, pick, O, a[..], i);
      unChanged := false;
      ghost var prev := a[..];
      SettleColumn(a, L, palette, pick, i, O);
      SettledStep(L, palette, pick, O, prev, a[..], i);
      i := i - 1;
    }
    AllSettled(L, palette, pick, O, a[..]);
  }
}
