/**
  The play grid object: its marble array, its selection state, its flags,
  and the handlers that the pointer events, the removal timer and the frame
  ticker call.

  The static settings of the original class (palette, drop speed, minimum
  chain length) are fields of the one grid. The score hook is represented by
  `reportedScores`, the sequence of scores handed to it.
*/
module Game {
  import opened GridLayout
  import opened Marbles
  import opened Animation
  import opened Refill
  import opened Selection
  import opened Removal

  datatype Option<T> = None | Some(value: T)

  /** A pointer position in pixels, relative to the grid. */
  datatype Point = Point(x: int, y: int)

  /** Every field of a grid that its methods reassign, except the cells. */
  datatype GridState = GridState(
    availableColors: seq<int>, dropSpeed: int, minStrickSize: int,
    marbleStrick: seq<nat>, currentColor: Option<Anchor>, cursorPosition: Option<Point>,
    score: int, reportedScores: seq<int>,
    isSync: bool, isInitialized: bool, deletingMarbles: bool, interactive: bool, timers: nat)

  /** What a frame after the initial drop does to the cells `s`: during a
      removal the pass never raises its error; otherwise the refilled grid
      stays full and the pass raises its error exactly on a grid with fewer
      rows than columns; with a positive drop speed every marble stays on the
      centre line of its column. */
  lemma NextFrameOutcome(L: Layout, palette: seq<int>, pick: nat -> nat, mode: Mode, s: seq<Cell>)
    requires L.Valid() && |s| == L.CellCount()
    ensures var before := if mode.deleting then s else Refilled(L, palette, pick, s);
            var r := AnimatePass(L, mode, before);
            (mode.deleting ==> !r.outcome.Threw?) &&
            (!mode.deleting ==>
               NoEmpty(r.cells) &&
               (L.rows >= L.columns ==> !r.outcome.Threw?) &&
               (0 < L.rows < L.columns ==> r.outcome.Threw?)) &&
            (XCentred(L, s) && mode.dropSpeed > 0 ==> XCentred(L, r.cells))
  {
    var before := if mode.deleting then s else Refilled(L, palette, pick, s);
    PassOutcome(L, mode, before);
    if XCentred(L, s) && mode.dropSpeed > 0 {
      if !mode.deleting {
        RefillKeepsXCentred(L, palette, pick, s);
      }
      PassKeepsXCentred(L, mode, before);
    }
  }

  class PlayGrid {
    const layout: Layout
    /** The cells, row-major. */
    const marbleArray: array<Cell>

    var availableColors: seq<int>
    var dropSpeed: int
    var minStrickSize: int

    /** The selected chain, in selection order. */
    var marbleStrick: seq<nat>
    /** The most recently selected marble. */
    var currentColor: Option<Anchor>
    /** The pointer position the trailing connector line is drawn to. */
    var cursorPosition: Option<Point>

    var score: int
    var reportedScores: seq<int>

    /** Nothing changed since the last settled frame: the frame is skipped. */
    var isSync: bool
    /** The initial drop is over. */
    var isInitialized: bool
    /** An accepted chain is being removed. */
    var deletingMarbles: bool
    /** The marbles receive pointer events. */
    var interactive: bool
    /** Removal timers started and not yet cleared. */
    var timers: nat

    ghost function State(): GridState
      reads this
    {
      GridState(availableColors, dropSpeed, minStrickSize, marbleStrick, currentColor, cursorPosition,
                score, reportedScores, isSync, isInitialized, deletingMarbles, interactive, timers)
    }

    /** The array has one cell per grid position and the chain holds distinct
        cells of the grid. */
    ghost predicate Valid()
      reads this
    {
      layout.Valid() && marbleArray.Length == layout.CellCount() &&
      (forall k :: 0 <= k < |marbleStrick| ==> marbleStrick[k] < marbleArray.Length) &&
      Distinct(marbleStrick)
    }

    /** A new grid: every cell holds a fresh marble above the visible area,
        nothing is selected, the score is 0 and the initial drop is pending.
        `colors`, `speed` and `minStrick` are the current static settings. */
    constructor (L: Layout, colors: seq<int>, speed: int, minStrick: int, pick: nat -> nat)
      requires L.Valid()
      ensures Valid() && fresh(marbleArray) && layout == L
      ensures forall i :: 0 <= i < marbleArray.Length ==>
                marbleArray[i] == Full(FreshMarble(L, colors, pick, i)) &&
                IsFresh(L, colors, i, marbleArray[i].marble)
      ensures State() == GridState(colors, speed, minStrick, [], None, None, 0, [],
                                   false, false, false, false, 0)
      ensures XCentred(L, marbleArray[..])
    {
      var n := L.CellCount();
      var a := new Cell[n];
      for i := 0 to n
        invariant forall j :: 0 <= j < i ==> a[j] == Full(FreshMarble(L, colors, pick, j))
      {
        a[i] := Full(FreshMarble(L, colors, pick, i));
      }
      layout := L;
      marbleArray := a;
      availableColors := colors;
      dropSpeed := speed;
      minStrickSize := minStrick;
      marbleStrick := [];
      currentColor := None;
      cursorPosition := None;
      score := 0;
      reportedScores := [];
      isSync := false;
      isInitialized := false;
      deletingMarbles := false;
      interactive := false;
      timers := 0;
    }

    /** `setColors`: a palette holding the empty value is refused (the error
        the original raises) and leaves the palette as it was. */
    method SetColors(colors: seq<int>) returns (ok: bool)
      modifies this
      ensures ok <==> AcceptablePalette(colors)
      ensures State() == if ok then old(State()).(availableColors := colors) else old(State())
    {
      if EMPTY_COLOR in colors {
        return false;
      }
      availableColors := colors;
      return true;
    }

    method SetDropSpeed(timePerTick: int)
      modifies this
      ensures State() == old(State()).(dropSpeed := timePerTick)
    {
      dropSpeed := timePerTick;
    }

    method SetMinStrick(strick: int)
      modifies this
      ensures State() == old(State()).(minStrickSize := strick)
    {
      minStrickSize := strick;
    }

    /** `setCurrentColor`: `None` drops the anchor; a marble becomes the anchor
        and is marked, and joins the chain as `Extend` says. */
    method SetCurrentColor(target: Option<nat>)
      requires Valid()
      requires target.Some? ==> target.value < marbleArray.Length && marbleArray[target.value].Full?
      modifies this, marbleArray
      ensures Valid()
      ensures target.None? ==>
                State() == old(State()).(currentColor := None) && marbleArray[..] == old(marbleArray[..])
      ensures target.Some? ==>
                var i := target.value;
                State() == old(State()).(marbleStrick := Extend(old(marbleStrick), old(currentColor).Some?, i),
                                         currentColor := Some(Anchor(i, old(marbleArray[i]).marble.color))) &&
                marbleArray[..] == Mark(old(marbleArray[..]), i)
      ensures ChainMarked(old(marbleArray[..]), old(marbleStrick)) ==> ChainMarked(marbleArray[..], marbleStrick)
      ensures XCentred(layout, old(marbleArray[..])) ==> XCentred(layout, marbleArray[..])
    {
      if target.None? {
        currentColor := None;
        return;
      }
      var i := target.value;
      MarkKeepsXCentred(layout, marbleArray[..], i);
      ExtendSpec(marbleStrick, currentColor.Some?, i);
      SelectKeepsMarked(marbleArray[..], marbleStrick, currentColor.Some?, i);
      if currentColor.Some? && i !in marbleStrick {
        marbleStrick := marbleStrick + [i];
      }
      if |marbleStrick| == 0 {
        marbleStrick := marbleStrick + [i];
      }
      var marble := marbleArray[i].marble;
      currentColor := Some(Anchor(i, marble.color));
      ghost var before := marbleArray[..];
      marbleArray[i] := Full(marble.(marked := true));
      assert marbleArray[..] == Mark(before, i);
    }

    /** The marbles' `pointerdown` handler: the marble under the pointer (or
        none) is selected, and the frame is no longer in sync. */
    method PointerDown(px: int, py: int)
      requires Valid()
      modifies this, marbleArray
      ensures Valid()
      ensures XCentred(layout, old(marbleArray[..])) ==> XCentred(layout, marbleArray[..])
      ensures var t := IndexFromPoint(layout, px, py);
              var cell := CellAt(old(marbleArray[..]), t);
              if cell.Full? then
                State() == old(State()).(isSync := false,
                                         marbleStrick := Extend(old(marbleStrick), old(currentColor).Some?, t),
                                         currentColor := Some(Anchor(t, cell.marble.color))) &&
                marbleArray[..] == Mark(old(marbleArray[..]), t)
              else
                State() == old(State()).(isSync := false, currentColor := None) &&
                marbleArray[..] == old(marbleArray[..])
    {
      isSync := false;
      var index := IndexFromPoint(layout, px, py);
      var marble := if 0 <= index < marbleArray.Length then marbleArray[index] else Empty;
      SetCurrentColor(if marble.Full? then Some(index) else None);
    }

    /** The marbles' `pointermove` handler: with an anchor, a marble under the
        pointer that `MoveAccepts` is selected; otherwise nothing changes. */
    method PointerMove(px: int, py: int)
      requires Valid()
      modifies this, marbleArray
      ensures Valid()
      ensures XCentred(layout, old(marbleArray[..])) ==> XCentred(layout, marbleArray[..])
      ensures var t := IndexFromPoint(layout, px, py);
              if old(currentColor).Some? && MoveAccepts(layout, old(marbleArray[..]), old(currentColor).value, t) then
                State() == old(State()).(marbleStrick := Extend(old(marbleStrick), true, t),
                                         currentColor := Some(Anchor(t, old(currentColor).value.color))) &&
                marbleArray[..] == Mark(old(marbleArray[..]), t)
              else
                State() == old(State()) && marbleArray[..] == old(marbleArray[..])
    {
      if currentColor.None? {
        return;
      }
      var index := IndexFromPoint(layout, px, py);
      var marble := if 0 <= index < marbleArray.Length then marbleArray[index] else Empty;
      if marble.Empty? {
        return;
      }
      var p := TwoDimIndex(layout, index);
      var anchor := currentColor.value;
      var anchorIndex := if anchor.index < marbleArray.Length && marbleArray[anchor.index].Full? then anchor.index else -1;
      var q := TwoDimIndex(layout, anchorIndex);
      var onSameAxis := p.x == q.x || p.y == q.y;
      if marble.marble.color == anchor.color && onSameAxis {
        SetCurrentColor(Some(index));
      }
    }

    /** `setCursorPosition`: a new pointer position is recorded and puts the
        frame out of sync; the same position again changes nothing. */
    method SetCursorPosition(px: int, py: int)
      modifies this
      ensures State() == if old(cursorPosition) == Some(Point(px, py)) then old(State())
                         else old(State()).(isSync := false, cursorPosition := Some(Point(px, py)))
    {
      if cursorPosition == Some(Point(px, py)) {
        return;
      }
      isSync := false;
      cursorPosition := Some(Point(px, py));
    }

    /** `removeMarbles`: a chain shorter than the minimum is unmarked and
        dropped; a long enough chain switches the grid to removal and starts
        a removal timer. */
    method RemoveMarbles()
      requires Valid()
      modifies this, marbleArray
      ensures Valid()
      ensures XCentred(layout, old(marbleArray[..])) ==> XCentred(layout, marbleArray[..])
      ensures |old(marbleStrick)| < old(minStrickSize) ==>
                State() == old(State()).(isSync := false, cursorPosition := None, marbleStrick := []) &&
                marbleArray[..] == Unmark(old(marbleArray[..]), old(marbleStrick))
      ensures |old(marbleStrick)| >= old(minStrickSize) ==>
                State() == old(State()).(isSync := false, cursorPosition := None, interactive := false,
                                         deletingMarbles := true, timers := old(timers) + 1) &&
                marbleArray[..] == old(marbleArray[..])
    {
      UnmarkKeepsXCentred(layout, marbleArray[..], marbleStrick);
      isSync := false;
      cursorPosition := None;
      var count := |marbleStrick|;
      if count < minStrickSize {
        UnmarkChain(marbleArray, marbleStrick);
        marbleStrick := [];
        return;
      }
      interactive := false;
      deletingMarbles := true;
      timers := timers + 1;
    }

    /** The container's `pointerup` handler: the chain is released and the
        anchor dropped. */
    method PointerUp()
      requires Valid()
      modifies this, marbleArray
      ensures Valid()
      ensures XCentred(layout, old(marbleArray[..])) ==> XCentred(layout, marbleArray[..])
      ensures |old(marbleStrick)| < old(minStrickSize) ==>
                State() == old(State()).(isSync := false, cursorPosition := None, marbleStrick := [],
                                         currentColor := None) &&
                marbleArray[..] == Unmark(old(marbleArray[..]), old(marbleStrick))
      ensures |old(marbleStrick)| >= old(minStrickSize) ==>
                State() == old(State()).(isSync := false, cursorPosition := None, currentColor := None,
                                         interactive := false, deletingMarbles := true,
                                         timers := old(timers) + 1) &&
                marbleArray[..] == old(marbleArray[..])
    {
      RemoveMarbles();
      SetCurrentColor(None);
    }

    /** The chain, the cells, the score and the reported scores, as the
        removal timer sees them. */
    ghost function Removing(): RemovalState
      reads this, marbleArray
    {
      RemovalState(marbleStrick, marbleArray[..], score, reportedScores)
    }

    /** One firing of a removal timer: on an empty chain the timer is cleared
        and the marbles receive events again; otherwise one `Tick`. */
    method RemovalTick() returns (stopped: bool)
      requires Valid() && timers > 0
      modifies this, marbleArray
      ensures Valid()
      ensures XCentred(layout, old(marbleArray[..])) ==> XCentred(layout, marbleArray[..])
      ensures stopped <==> |old(marbleStrick)| == 0
      ensures stopped ==>
                State() == old(State()).(isSync := false, interactive := true, deletingMarbles := false,
                                         timers := old(timers) - 1) &&
                marbleArray[..] == old(marbleArray[..])
      ensures !stopped ==>
                Removing() == Tick(old(Removing())) &&
                State() == old(State()).(isSync := false, marbleStrick := marbleStrick, score := score,
                                         reportedScores := reportedScores)
    {
      TickKeepsXCentred(layout, Removing());
      isSync := false;
      if |marbleStrick| == 0 {
        interactive := true;
        deletingMarbles := false;
        timers := timers - 1;
        return true;
      }
      var i := marbleStrick[|marbleStrick| - 1];
      marbleStrick := marbleStrick[..|marbleStrick| - 1];
      ghost var before := marbleArray[..];
      marbleArray[i] := Empty;
      assert marbleArray[..] == before[i := Empty];
      score := score + 1;
      reportedScores := reportedScores + [score];
      return false;
    }

    /** `update`, the frame tick. A synced frame is skipped. During the
        initial drop one pass runs in drop mode and its "settled" ends the
        drop. Afterwards the grid is compacted and refilled (except during a
        removal), then one pass runs and its "settled" is the new sync flag.
        A pass that raises its error ends the tick there. */
    method Update(pick: nat -> nat) returns (threw: bool)
      requires Valid()
      modifies this, marbleArray
      ensures Valid()
      ensures old(isSync) ==> !threw && State() == old(State()) && marbleArray[..] == old(marbleArray[..])
      ensures !old(isSync) && !old(isInitialized) ==>
                var r := AnimatePass(layout, Mode(false, old(deletingMarbles), old(dropSpeed)), old(marbleArray[..]));
                marbleArray[..] == r.cells && threw == r.outcome.Threw? &&
                State() == if threw then old(State())
                           else old(State()).(interactive := r.outcome.settled, isInitialized := r.outcome.settled,
                                              isSync := r.outcome.settled)
      ensures !old(isSync) && old(isInitialized) ==>
                var before := if old(deletingMarbles) then old(marbleArray[..])
                              else Refilled(layout, old(availableColors), pick, old(marbleArray[..]));
                var r := AnimatePass(layout, Mode(true, old(deletingMarbles), old(dropSpeed)), before);
                marbleArray[..] == r.cells && threw == r.outcome.Threw? &&
                State() == old(State()).(isSync := if threw then NoEmpty(old(marbleArray[..])) else r.outcome.settled)
      ensures old(deletingMarbles) ==> !threw
      ensures !old(isSync) && !old(isInitialized) && !old(deletingMarbles) && NoEmpty(old(marbleArray[..])) &&
              0 < layout.rows ==>
                (threw <==> layout.rows < layout.columns)
      ensures !old(isSync) && old(isInitialized) && !old(deletingMarbles) ==>
                NoEmpty(marbleArray[..]) &&
                (layout.rows >= layout.columns ==> !threw) &&
                (0 < layout.rows < layout.columns ==> threw)
      ensures XCentred(layout, old(marbleArray[..])) && old(dropSpeed) > 0 ==> XCentred(layout, marbleArray[..])
      ensures !old(isSync) && !old(isInitialized) && isInitialized &&
              XCentred(layout, old(marbleArray[..])) && old(dropSpeed) > 0 ==>
                AtCentre(layout, marbleArray[..])
    {
      if isSync {
        return false;
      }
      if !isInitialized {
        threw := InitialDrop();
      } else {
        threw := NextFrame(pick);
      }
    }

    /** The initial-drop branch of `update`: one pass in drop mode, whose
        "settled" ends the drop. */
    method InitialDrop() returns (threw: bool)
      requires Valid() && !isSync && !isInitialized
      modifies this, marbleArray
      ensures Valid()
      ensures var r := AnimatePass(layout, Mode(false, old(deletingMarbles), old(dropSpeed)), old(marbleArray[..]));
              marbleArray[..] == r.cells && threw == r.outcome.Threw? &&
              State() == if threw then old(State())
                         else old(State()).(interactive := r.outcome.settled, isInitialized := r.outcome.settled,
                                            isSync := r.outcome.settled)
      ensures old(deletingMarbles) ==> !threw
      ensures !old(deletingMarbles) && NoEmpty(old(marbleArray[..])) && 0 < layout.rows ==>
                (threw <==> layout.rows < layout.columns)
      ensures XCentred(layout, old(marbleArray[..])) && old(dropSpeed) > 0 ==>
                XCentred(layout, marbleArray[..]) && (isInitialized ==> AtCentre(layout, marbleArray[..]))
    {
      var mode := Mode(false, deletingMarbles, dropSpeed);
      PassOutcome(layout, mode, marbleArray[..]);
      if dropSpeed > 0 && XCentred(layout, marbleArray[..]) {
        DropSettlesAtCentre(layout, mode, marbleArray[..]);
        PassKeepsXCentred(layout, mode, marbleArray[..]);
      }
      var outcome := AnimateMarbles(marbleArray, layout, mode);
      if outcome.Threw? {
        return true;
      }
      interactive := outcome.settled;
      isInitialized := outcome.settled;
      isSync := outcome.settled;
      return false;
    }

    /** The branch of `update` after the initial drop: compaction and refill
        outside a removal, then one pass whose "settled" is the sync flag. */
    method NextFrame(pick: nat -> nat) returns (threw: bool)
      requires Valid() && !isSync && isInitialized
      modifies this, marbleArray
      ensures Valid()
      ensures var before := if old(deletingMarbles) then old(marbleArray[..])
                            else Refilled(layout, old(availableColors), pick, old(marbleArray[..]));
              var r := AnimatePass(layout, Mode(true, old(deletingMarbles), old(dropSpeed)), before);
              marbleArray[..] == r.cells && threw == r.outcome.Threw? &&
              State() == old(State()).(isSync := if threw then NoEmpty(old(marbleArray[..])) else r.outcome.settled)
      ensures old(deletingMarbles) ==> !threw
      ensures !old(deletingMarbles) ==>
                NoEmpty(marbleArray[..]) &&
                (layout.rows >= layout.columns ==> !threw) &&
                (0 < layout.rows < layout.columns ==> threw)
      ensures XCentred(layout, old(marbleArray[..])) && old(dropSpeed) > 0 ==> XCentred(layout, marbleArray[..])
    {
      var mode := Mode(true, deletingMarbles, dropSpeed);
      NextFrameOutcome(layout, availableColors, pick, mode, marbleArray[..]);
      if !deletingMarbles {
        var unChanged := UpdateMarbleArray(marbleArray, layout, availableColors, pick);
        isSync := unChanged;
      }
      var outcome := AnimateMarbles(marbleArray, layout, mode);
      if outcome.Threw? {
        return true;
      }
      isSync := outcome.settled;
      return false;
    }
  }
}
