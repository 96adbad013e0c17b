/**
  Chain selection: what `setCurrentColor` does to the chain and to the
  marks, when a pointer move extends the chain, and how a rejected chain is
  unmarked.

  The chain (`marbleStrick`) and the anchor (`currentColor`) refer to
  marbles by their cell index.
*/
module Selection {
  import opened GridLayout
  import opened Marbles

  /** The anchor of a selection: the cell of the current marble and its
      colour (a marble keeps its colour for life). */
  datatype Anchor = Anchor(index: nat, color: int)

  /** No cell occurs twice in the chain. */
  predicate Distinct(chain: seq<nat>) {
    forall j, k :: 0 <= j < k < |chain| ==> chain[j] != chain[k]
  }

  /** Every cell of the chain holds a marble of colour `color`. */
  predicate ChainColour(cells: seq<Cell>, chain: seq<nat>, color: int) {
    forall k :: 0 <= k < |chain| ==>
      chain[k] < |cells| && cells[chain[k]].Full? && cells[chain[k]].marble.color == color
  }

  /** Every cell of the chain holds a marked marble. */
  predicate ChainMarked(cells: seq<Cell>, chain: seq<nat>) {
    forall k :: 0 <= k < |chain| ==>
      chain[k] < |cells| && cells[chain[k]].Full? && cells[chain[k]].marble.marked
  }

  /** The chain after `setCurrentColor` selects cell `i`: pushed when there
      was an anchor and the cell is not in the chain yet, then pushed when the
      chain is still empty. The old chain is kept as a prefix, at most one
      cell is added, and a selection always leaves a non-empty chain. */
  function Extend(chain: seq<nat>, hasAnchor: bool, i: nat): (t: seq<nat>)
    ensures chain <= t && |t| <= |chain| + 1 && |t| > 0
    ensures hasAnchor || chain == [] ==> i in t
  {
    var pushed := if hasAnchor && i !in chain then chain + [i] else chain;
    if |pushed| == 0 then pushed + [i] else pushed
  }

  /** The marble of cell `i` marked as selected; nothing else changes. */
  function Mark(cells: seq<Cell>, i: nat): (t: seq<Cell>)
    requires i < |cells| && cells[i].Full?
    ensures |t| == |cells|
    ensures t[i].Full? && t[i].marble.marked
    ensures t[i].marble.(marked := cells[i].marble.marked) == cells[i].marble
    ensures forall j :: 0 <= j < |cells| && j != i ==> t[j] == cells[j]
  {
    cells[i := Full(cells[i].marble.(marked := true))]
  }

  /** The marbles of the chain's cells with their marks cleared: only
      marks change, and only those of chain cells. */
  function Unmark(cells: seq<Cell>, chain: seq<nat>): (t: seq<Cell>)
    ensures |t| == |cells|
    ensures forall j :: 0 <= j < |cells| ==>
              (t[j].Full? <==> cells[j].Full?) &&
              (cells[j].Full? ==> t[j].marble.(marked := cells[j].marble.marked) == cells[j].marble)
    ensures forall j :: 0 <= j < |cells| && j !in chain ==> t[j] == cells[j]
    ensures forall j :: 0 <= j < |cells| && j in chain && t[j].Full? ==> !t[j].marble.marked
  {
    seq(|cells|, j requires 0 <= j < |cells| =>
      if j in chain && cells[j].Full? then Full(cells[j].marble.(marked := false)) else cells[j])
  }

  /** `indexOf(currentColor)`: the anchor's cell while it still holds a
      marble, otherwise -1. */
  function AnchorIndex(cells: seq<Cell>, anchor: Anchor): int {
    if anchor.index < |cells| && cells[anchor.index].Full? then anchor.index else -1
  }

  /** A pointer move onto flat index `target` extends the selection: the cell
      holds a marble of the anchor's colour, in the anchor's column or row.
      Once the anchor's marble has left the grid, `indexOf` gives -1, which
      decodes to row -1 (and, with more than one column, column -1), so no
      move is accepted any more. */
  predicate MoveAccepts(L: Layout, cells: seq<Cell>, anchor: Anchor, target: int)
    requires L.Valid()
    ensures MoveAccepts(L, cells, anchor, target) ==>
              0 <= target < |cells| && cells[target].Full? && cells[target].marble.color == anchor.color
    ensures AnchorIndex(cells, anchor) == -1 && L.columns > 1 ==> !MoveAccepts(L, cells, anchor, target)
  {
    var p := TwoDimIndex(L, target);
    var q := TwoDimIndex(L, AnchorIndex(cells, anchor));
    CellAt(cells, target).Full? && CellAt(cells, target).marble.color == anchor.color &&
    (p.x == q.x || p.y == q.y)
  }

  /** The `forEach` that clears the marks of a rejected chain, in place on
      the marble array. */
  method UnmarkChain(a: array<Cell>, chain: seq<nat>)
    requires forall k :: 0 <= k < |chain| ==> chain[k] < a.Length
    modifies a
    ensures a[..] == Unmark(old(a[..]), chain)
  {
    for k := 0 to |chain|
      invariant a[..] == Unmark(old(a[..]), chain[..k])
    {
      UnmarkStep(old(a[..]), chain, k);
      var c := chain[k];
      var cell := a[c];
      if cell.Full? {
        a[c] := Full(cell.marble.(marked := false));
      }
    }
    assert chain[..|chain|] == chain;
  }

  // ---------------------------------------------------------------------
  // Properties

  /** The chain grows by cell `i` exactly when `i` is new and there is an
      anchor or no chain yet; otherwise it stays as it is. Either way no cell
      occurs twice. */
  lemma ExtendSpec(chain: seq<nat>, hasAnchor: bool, i: nat)
    ensures Extend(chain, hasAnchor, i) ==
              if i !in chain && (hasAnchor || chain == []) then chain + [i] else chain
    ensures Distinct(chain) ==> Distinct(Extend(chain, hasAnchor, i))
  {
    if i !in chain && (hasAnchor || chain == []) {
      var t := chain + [i];
      assert forall k :: 0 <= k < |chain| ==> t[k] == chain[k];
    }
  }

  /** Selecting a marble keeps every chain member marked, the selected one
      included. */
  lemma SelectKeepsMarked(cells: seq<Cell>, chain: seq<nat>, hasAnchor: bool, i: nat)
    requires i < |cells| && cells[i].Full?
    ensures ChainMarked(cells, chain) ==> ChainMarked(Mark(cells, i), Extend(chain, hasAnchor, i))
  {
    ExtendSpec(chain, hasAnchor, i);
  }

  /** A pointer inside cell (cx, cy) of the grid, with the anchor's marble
      still on the grid at cell (ax, ay), extends the selection exactly when
      that cell holds a marble of the anchor's colour and shares the column
      or the row with the anchor. */
  lemma {:induction false} MoveAlongAxis(L: Layout, cells: seq<Cell>, anchor: Anchor,
                                         px: int, py: int, cx: int, cy: int, ax: int, ay: int)
    requires L.Valid() && |cells| == L.CellCount()
    requires 0 <= cx < L.columns && 0 <= cy < L.rows
    requires cx * L.Step() < px <= (cx + 1) * L.Step()
    requires cy * L.Step() < py <= (cy + 1) * L.Step()
    requires 0 <= ax < L.columns && 0 <= ay < L.rows && anchor.index == OneDimIndex(L, ax, ay)
    requires anchor.index < |cells| && cells[anchor.index].Full?
    ensures var t := IndexFromPoint(L, px, py);
            0 <= t < |cells| &&
            (MoveAccepts(L, cells, anchor, t) <==>
               cells[t].Full? && cells[t].marble.color == anchor.color && (cx == ax || cy == ay))
  {
    var t := IndexFromPoint(L, px, py);
    PointInCell(L, px, py, cx, cy);
    CellInGrid(L, cx, cy);
    assert t == OneDimIndex(L, cx, cy);
    assert TwoDimIndex(L, t) == Pos(cx, cy);
    IndexRoundTrip(L, ax, ay);
    assert TwoDimIndex(L, anchor.index) == Pos(ax, ay);
  }

  /** An accepted move keeps the chain single-coloured: if every chain cell
      has the anchor's colour before, every cell of the extended chain has it
      after the target is marked. */
  lemma MoveKeepsColour(L: Layout, cells: seq<Cell>, chain: seq<nat>, anchor: Anchor, target: nat)
    requires L.Valid() && target < |cells|
    requires ChainColour(cells, chain, anchor.color)
    requires MoveAccepts(L, cells, anchor, target)
    ensures ChainColour(Mark(cells, target), Extend(chain, true, target), anchor.color)
  {
    ExtendSpec(chain, true, target);
  }

  /** When the marked marbles were all in the chain, no marble is marked
      after unmarking it. */
  lemma UnmarkSpec(cells: seq<Cell>, chain: seq<nat>)
    ensures (forall j :: 0 <= j < |cells| && cells[j].Full? && cells[j].marble.marked ==> j in chain) ==>
              forall j :: 0 <= j < |cells| && Unmark(cells, chain)[j].Full? ==> !Unmark(cells, chain)[j].marble.marked
  {
  }

  /** Marking moves no marble. */
  lemma MarkKeepsXCentred(L: Layout, cells: seq<Cell>, i: nat)
    requires L.Valid() && i < |cells| && cells[i].Full?
    ensures XCentred(L, cells) ==> XCentred(L, Mark(cells, i))
  {
  }

  /** Unmarking moves no marble. */
  lemma UnmarkKeepsXCentred(L: Layout, cells: seq<Cell>, chain: seq<nat>)
    requires L.Valid()
    ensures XCentred(L, cells) ==> XCentred(L, Unmark(cells, chain))
  {
  }

  /** Unmarking the chain one cell after another. */
  lemma UnmarkStep(cells: seq<Cell>, chain: seq<nat>, k: nat)
    requires k < |chain| && chain[k] < |cells|
    ensures var c := chain[k];
            var t := Unmark(cells, chain[..k]);
            Unmark(cells, chain[..k + 1]) ==
              t[c := if t[c].Full? then Full(t[c].marble.(marked := false)) else t[c]]
  {
    assert chain[..k + 1] == chain[..k] + [chain[k]];
  }
}
