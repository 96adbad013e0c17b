/**
  One animation pass (`animateMarbles`): the cells are visited from the last
  index down to the first, and each marble's position steps toward the
  centre of its cell.

  - In the initial drop (not yet initialised) the pass stops, reporting
    "not finished", at the first marble that is still above the visible
    threshold after its step; marbles of lower indices wait for a later tick.
  - Once initialised, a marble whose row is checked and which is not lower
    than half a marble, above a neighbour that is not lower than half a
    marble either, is skipped; this makes the marbles of a column start one
    after the other.
  - A checked marble with an empty cell below it, outside a removal, is the
    error "Doesnt find previous marble!".

  Which rows are checked is decided, as written, by comparing the row with
  the number of COLUMNS minus one.
*/
module Animation {
  import opened GridLayout
  import opened Marbles
  import opened Easing

  /** What a pass reports: `Finished(settled)` is the boolean the pass
      returns, `Threw` the error it raises. */
  datatype Outcome = Finished(settled: bool) | Threw

  /** The flags and the drop speed (pixels per tick) a pass reads. */
  datatype Mode = Mode(initialized: bool, deleting: bool, dropSpeed: int)

  /** The cells after a pass, and what the pass reported. */
  datatype PassResult = PassResult(cells: seq<Cell>, outcome: Outcome)

  /** Whether the cell below cell `i` is looked at: its row is compared with
      `GRID_COLUMNS - 1`, as in the code. */
  predicate ChecksBelow(L: Layout, i: nat)
    requires L.Valid()
  {
    TwoDimIndex(L, i).y < L.columns - 1
  }

  /** The cell one row below cell `i` (undefined past the last row). */
  function BelowCell(L: Layout, s: seq<Cell>, i: nat): Cell
    requires L.Valid()
  {
    var p := TwoDimIndex(L, i);
    CellAt(s, OneDimIndex(L, p.x, p.y + 1))
  }

  /** `dropCurent`: the marble, or the one below it, is lower than half a
      marble (in half-pixels, lower than `marbleSize`). */
  predicate Drops(L: Layout, m: Marble, below: Cell) {
    m.y > L.marbleSize || (below.Full? && below.marble.y > L.marbleSize)
  }

  /** The marble in cell `i` is passed over without moving. */
  predicate Skipped(L: Layout, mode: Mode, s: seq<Cell>, i: nat)
    requires L.Valid() && i < |s| && s[i].Full?
  {
    ChecksBelow(L, i) && mode.initialized && !Drops(L, s[i].marble, BelowCell(L, s, i))
  }

  /** The marble of cell `i` after one easing step on both coordinates; the
      drop speed is doubled into half-pixels. */
  function Eased(L: Layout, dropSpeed: int, m: Marble, i: nat): Marble
    requires L.Valid()
  {
    m.(x := Ease(m.x, CentreX(L, i), 2 * dropSpeed),
       y := Ease(m.y, CentreY(L, i), 2 * dropSpeed))
  }

  /** A marble above the visible threshold `size / 2 + gap`. */
  predicate NotVisible(L: Layout, m: Marble) {
    m.y < L.marbleSize + 2 * L.gap
  }

  /** The rest of a pass: indices `i` down to 0 are still to be visited and
      `finished` is the accumulated "every visited marble reached its row". */
  function Pass(L: Layout, mode: Mode, s: seq<Cell>, i: int, finished: bool): (r: PassResult)
    requires L.Valid() && -1 <= i < |s|
    ensures |r.cells| == |s|
    decreases i + 1
  {
    if i < 0 then PassResult(s, Finished(finished))
    else if s[i].Empty? then Pass(L, mode, s, i - 1, finished)
    else if ChecksBelow(L, i) && BelowCell(L, s, i).Empty? && !mode.deleting then PassResult(s, Threw)
    else if Skipped(L, mode, s, i) then Pass(L, mode, s, i - 1, finished)
    else
      var m := Eased(L, mode.dropSpeed, s[i].marble, i);
      var s' := s[i := Full(m)];
      var finished' := finished && m.y == CentreY(L, i);
      if !mode.initialized && NotVisible(L, m) then PassResult(s', Finished(false))
      else Pass(L, mode, s', i - 1, finished')
  }

  /** A whole pass over the grid. */
  function AnimatePass(L: Layout, mode: Mode, s: seq<Cell>): (r: PassResult)
    requires L.Valid()
    ensures |r.cells| == |s|
    ensures forall j :: 0 <= j < |s| ==> (r.cells[j].Full? <==> s[j].Full?)
  {
    PassFrame(L, mode, s, |s| - 1, true);
    Pass(L, mode, s, |s| - 1, true)
  }

  /** `animateMarbles`, in place on the marble array; drawing is left out. */
  method AnimateMarbles(a: array<Cell>, L: Layout, mode: Mode) returns (outcome: Outcome)
    requires L.Valid()
    modifies a
    ensures PassResult(a[..], outcome) == AnimatePass(L, mode, old(a[..]))
  {
    var isFinished := true;
    var i := a.Length - 1;
    while i >= 0
      invariant -1 <= i < a.Length
      invariant Pass(L, mode, a[..], i, isFinished) == AnimatePass(L, mode, old(a[..]))
      decreases i + 1
    {
      var cell := a[i];
      if cell.Empty? {
        i := i - 1;
        continue;
      }
      var marble := cell.marble;
      var p := TwoDimIndex(L, i);
      if p.y < L.columns - 1 {
        var belowIndex := OneDimIndex(L, p.x, p.y + 1);
        var below := if 0 <= belowIndex < a.Length then a[belowIndex] else Empty;
        if below.Empty? && !mode.deleting {
          return Threw;
        }
        var dropCurrent := marble.y > L.marbleSize || (below.Full? && below.marble.y > L.marbleSize);
        if mode.initialized && !dropCurrent {
          i := i - 1;
          continue;
        }
      }
      var endY := CentreY(L, i);
      var endX := CentreX(L, i);
      marble := marble.(y := Ease(marble.y, endY, 2 * mode.dropSpeed));
      marble := marble.(x := Ease(marble.x, endX, 2 * mode.dropSpeed));
      a[i] := Full(marble);
      var marbleNotVisible := marble.y < L.marbleSize + 2 * L.gap;
      isFinished := isFinished && marble.y == endY;
      if !mode.initialized && marbleNotVisible {
        return Finished(false);
      }
      i := i - 1;
    }
    return Finished(isFinished);
  }

  // ---------------------------------------------------------------------
  // Properties of a pass

  /** The cell below cell `i` is `columns` cells further on. */
  lemma BelowIndex(L: Layout, i: nat)
    requires L.Valid()
    ensures OneDimIndex(L, TwoDimIndex(L, i).x, TwoDimIndex(L, i).y + 1) == i + L.columns
  {
    var p := TwoDimIndex(L, i);
    assert (p.y + 1) * L.columns == p.y * L.columns + L.columns;
  }

  /** A pass never touches the cells it has already passed and changes only
      positions: occupancy, colour and marking stay. */
  lemma {:induction false} PassFrame(L: Layout, mode: Mode, s: seq<Cell>, i: int, finished: bool)
    requires L.Valid() && -1 <= i < |s|
    ensures forall j :: i < j < |s| ==> Pass(L, mode, s, i, finished).cells[j] == s[j]
    ensures forall j :: 0 <= j < |s| ==>
              (Pass(L, mode, s, i, finished).cells[j].Full? <==> s[j].Full?)
    ensures forall j :: 0 <= j < |s| && s[j].Full? ==>
              Pass(L, mode, s, i, finished).cells[j].marble.color == s[j].marble.color &&
              Pass(L, mode, s, i, finished).cells[j].marble.marked == s[j].marble.marked
    decreases i + 1
  {
    if i >= 0 && s[i].Full? && !(ChecksBelow(L, i) && BelowCell(L, s, i).Empty? && !mode.deleting) {
      if Skipped(L, mode, s, i) {
        PassFrame(L, mode, s, i - 1, finished);
      } else {
        var m := Eased(L, mode.dropSpeed, s[i].marble, i);
        var s' := s[i := Full(m)];
        if !(!mode.initialized && NotVisible(L, m)) {
          PassFrame(L, mode, s', i - 1, finished && m.y == CentreY(L, i));
        }
      }
    } else if i >= 0 && s[i].Empty? {
      PassFrame(L, mode, s, i - 1, finished);
    }
  }

  /** Whether a marble is skipped depends only on cells the rest of the pass
      no longer touches. */
  lemma SkippedStable(L: Layout, mode: Mode, s: seq<Cell>, t: seq<Cell>, i: nat)
    requires L.Valid() && i < |s| == |t| && s[i].Full?
    requires forall j :: i <= j < |s| ==> t[j] == s[j]
    ensures t[i].Full? && (Skipped(L, mode, t, i) <==> Skipped(L, mode, s, i))
  {
    BelowIndex(L, i);
  }

  /** A pass that reports "finished" left every marble it moved at the
      centre row of its cell: every marble of the visited part that the
      final state does not skip has its target `y`. */
  lemma {:induction false} PassSettled(L: Layout, mode: Mode, s: seq<Cell>, i: int, finished: bool)
    requires L.Valid() && -1 <= i < |s|
    ensures var r := Pass(L, mode, s, i, finished);
            r.outcome == Finished(true) ==>
              finished &&
              forall j :: 0 <= j <= i && j < |r.cells| && r.cells[j].Full? && !Skipped(L, mode, r.cells, j) ==>
                r.cells[j].marble.y == CentreY(L, j)
    decreases i + 1
  {
    var r := Pass(L, mode, s, i, finished);
    if i < 0 || r.outcome != Finished(true) {
      return;
    }
    PassFrame(L, mode, s, i, finished);
    if s[i].Empty? {
      PassSettled(L, mode, s, i - 1, finished);
      PassFrame(L, mode, s, i - 1, finished);
    } else if Skipped(L, mode, s, i) {
      PassSettled(L, mode, s, i - 1, finished);
      PassFrame(L, mode, s, i - 1, finished);
      SkippedStable(L, mode, s, r.cells, i);
    } else {
      var m := Eased(L, mode.dropSpeed, s[i].marble, i);
      var s' := s[i := Full(m)];
      var finished' := finished && m.y == CentreY(L, i);
      PassSettled(L, mode, s', i - 1, finished');
      PassFrame(L, mode, s', i - 1, finished');
    }
  }

  /** A whole pass reporting "finished" leaves every marble it does not skip
      at its row; in the initial drop nothing is skipped, so every marble of
      the grid is then at its row. */
  lemma AnimateSettled(L: Layout, mode: Mode, s: seq<Cell>)
    requires L.Valid()
    ensures var r := AnimatePass(L, mode, s);
            r.outcome == Finished(true) ==>
              |r.cells| == |s| &&
              (forall j :: 0 <= j < |s| && r.cells[j].Full? && !Skipped(L, mode, r.cells, j) ==>
                 r.cells[j].marble.y == CentreY(L, j)) &&
              (!mode.initialized ==>
                 forall j :: 0 <= j < |s| && r.cells[j].Full? ==> r.cells[j].marble.y == CentreY(L, j))
  {
    PassFrame(L, mode, s, |s| - 1, true);
    PassSettled(L, mode, s, |s| - 1, true);
  }

  /** No marble of `s` is further from the centre of its cell in `t`, on
      either axis, and no occupied cell became empty. */
  ghost predicate NoFurther(L: Layout, s: seq<Cell>, t: seq<Cell>)
    requires L.Valid()
  {
    |t| == |s| &&
    forall j :: 0 <= j < |s| && s[j].Full? ==>
      t[j].Full? &&
      Abs(t[j].marble.x - CentreX(L, j)) <= Abs(s[j].marble.x - CentreX(L, j)) &&
      Abs(t[j].marble.y - CentreY(L, j)) <= Abs(s[j].marble.y - CentreY(L, j))
  }

  lemma NoFurtherTransitive(L: Layout, s: seq<Cell>, t: seq<Cell>, u: seq<Cell>)
    requires L.Valid() && NoFurther(L, s, t) && NoFurther(L, t, u)
    ensures NoFurther(L, s, u)
  {
  }

  /** With a positive drop speed no coordinate of any marble gets further
      from its target during a pass; in particular a marble already at its
      target stays there. */
  lemma {:induction false} PassApproaches(L: Layout, mode: Mode, s: seq<Cell>, i: int, finished: bool)
    requires L.Valid() && -1 <= i < |s| && mode.dropSpeed > 0
    ensures NoFurther(L, s, Pass(L, mode, s, i, finished).cells)
    decreases i + 1
  {
    if i < 0 {
      return;
    }
    if s[i].Empty? {
      PassApproaches(L, mode, s, i - 1, finished);
    } else if ChecksBelow(L, i) && BelowCell(L, s, i).Empty? && !mode.deleting {
    } else if Skipped(L, mode, s, i) {
      PassApproaches(L, mode, s, i - 1, finished);
    } else {
      var m := Eased(L, mode.dropSpeed, s[i].marble, i);
      var s' := s[i := Full(m)];
      assert NoFurther(L, s, s');
      if !(!mode.initialized && NotVisible(L, m)) {
        PassApproaches(L, mode, s', i - 1, finished && m.y == CentreY(L, i));
        NoFurtherTransitive(L, s, s', Pass(L, mode, s', i - 1, finished && m.y == CentreY(L, i)).cells);
      }
    }
  }

  /** With a positive drop speed a pass keeps every marble on the centre
      line of its column. */
  lemma PassKeepsXCentred(L: Layout, mode: Mode, s: seq<Cell>)
    requires L.Valid() && mode.dropSpeed > 0 && XCentred(L, s)
    ensures XCentred(L, AnimatePass(L, mode, s).cells)
  {
    PassApproaches(L, mode, s, |s| - 1, true);
  }

  /** When the initial drop reports "finished", with a positive drop speed
      and every marble on the centre line of its column beforehand, every
      marble of the grid is exactly at the centre of its cell. */
  lemma DropSettlesAtCentre(L: Layout, mode: Mode, s: seq<Cell>)
    requires L.Valid() && mode.dropSpeed > 0 && !mode.initialized && XCentred(L, s)
    ensures var r := AnimatePass(L, mode, s);
            r.outcome == Finished(true) ==> AtCentre(L, r.cells)
  {
    PassKeepsXCentred(L, mode, s);
    AnimateSettled(L, mode, s);
  }

  /** While marbles are being removed a pass never raises its error. */
  lemma {:induction false} NoThrowWhileDeleting(L: Layout, mode: Mode, s: seq<Cell>, i: int, finished: bool)
    requires L.Valid() && -1 <= i < |s| && mode.deleting
    ensures Pass(L, mode, s, i, finished).outcome != Threw
    decreases i + 1
  {
    if i >= 0 {
      if s[i].Empty? || Skipped(L, mode, s, i) {
        NoThrowWhileDeleting(L, mode, s, i - 1, finished);
      } else {
        var m := Eased(L, mode.dropSpeed, s[i].marble, i);
        var s' := s[i := Full(m)];
        if !(!mode.initialized && NotVisible(L, m)) {
          NoThrowWhileDeleting(L, mode, s', i - 1, finished && m.y == CentreY(L, i));
        }
      }
    }
  }

  /** On a grid with at least as many rows as columns and no empty cell, a
      pass never raises its error. */
  lemma {:induction false} NoThrowOnFullGrid(L: Layout, mode: Mode, s: seq<Cell>, i: int, finished: bool)
    requires L.Valid() && L.rows >= L.columns && |s| == L.CellCount() && NoEmpty(s)
    requires -1 <= i < |s|
    ensures Pass(L, mode, s, i, finished).outcome != Threw
    decreases i + 1
  {
    if i >= 0 {
      IndexInGrid(L, i);
      BelowIndex(L, i);
      var p := TwoDimIndex(L, i);
      if ChecksBelow(L, i) {
        CellInGrid(L, p.x, p.y + 1);
        assert BelowCell(L, s, i).Full?;
      }
      if Skipped(L, mode, s, i) {
        NoThrowOnFullGrid(L, mode, s, i - 1, finished);
      } else {
        var m := Eased(L, mode.dropSpeed, s[i].marble, i);
        var s' := s[i := Full(m)];
        if !(!mode.initialized && NotVisible(L, m)) {
          NoThrowOnFullGrid(L, mode, s', i - 1, finished && m.y == CentreY(L, i));
        }
      }
    }
  }

  /** The row check as written: on a full grid with fewer rows than columns,
      outside a removal, the very first marble visited (bottom right) looks
      below the last row and the pass raises its error. */
  lemma WideGridThrows(L: Layout, mode: Mode, s: seq<Cell>)
    requires L.Valid() && 0 < L.rows < L.columns && |s| == L.CellCount() && NoEmpty(s)
    requires !mode.deleting
    ensures AnimatePass(L, mode, s).outcome == Threw
  {
    var n := |s|;
    LastCell(L);
    BelowIndex(L, n - 1);
    assert ChecksBelow(L, n - 1);
    assert BelowCell(L, s, n - 1) == CellAt(s, n - 1 + L.columns);
    assert s[n - 1].Full?;
  }

  /** The last cell of a grid with rows is in its last column and last row. */
  lemma LastCell(L: Layout)
    requires L.Valid() && 0 < L.rows
    ensures TwoDimIndex(L, L.CellCount() - 1) == Pos(L.columns - 1, L.rows - 1)
  {
    CellInGrid(L, L.columns - 1, L.rows - 1);
    IndexRoundTrip(L, L.columns - 1, L.rows - 1);
    assert L.columns * L.rows == (L.rows - 1) * L.columns + L.columns;
  }

  /** What a whole pass can report: it keeps the grid's cells occupied as
      they were, never raises its error during a removal, and on a grid
      without empty cells outside a removal raises it exactly when there are
      fewer rows than columns. */
  lemma PassOutcome(L: Layout, mode: Mode, s: seq<Cell>)
    requires L.Valid() && |s| == L.CellCount()
    ensures var r := AnimatePass(L, mode, s);
            |r.cells| == |s| &&
            (NoEmpty(s) ==> NoEmpty(r.cells)) &&
            (mode.deleting ==> !r.outcome.Threw?) &&
            (!mode.deleting && NoEmpty(s) && 0 < L.rows ==> (r.outcome.Threw? <==> L.rows < L.columns))
  {
    PassFrame(L, mode, s, |s| - 1, true);
    if mode.deleting {
      NoThrowWhileDeleting(L, mode, s, |s| - 1, true);
    } else if NoEmpty(s) && 0 < L.rows {
      if L.rows >= L.columns {
        NoThrowOnFullGrid(L, mode, s, |s| - 1, true);
      } else {
        WideGridThrows(L, mode, s);
      }
    }
  }
}
