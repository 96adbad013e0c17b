/**
  Marbles, cells of the grid and the choice of a colour for a new marble.
*/
module Marbles {
  import opened GridLayout

  /** One marble: its colour, its drawn position (half-pixels) and whether
      it belongs to the chain being selected. */
  datatype Marble = Marble(color: int, x: int, y: int, marked: bool)

  /** A grid cell: `Empty` is the `undefined` a removed marble leaves. */
  datatype Cell = Empty | Full(marble: Marble)

  /** The colour value the palette must not contain. It also stands for the
      `undefined` colour a marble gets from an empty palette: both compare
      equal only to themselves and to no palette colour. */
  const EMPTY_COLOR: int := 0

  /** The static settings a grid starts with: the palette, the drop speed
      in pixels per tick and the minimum chain length. */
  const DEFAULT_PALETTE: seq<int> := [0xffff00, 0x0000ff, 0x00ff00, 0xff0000, 0x990099]
  const DEFAULT_DROP_SPEED: int := 10
  const DEFAULT_MIN_STRICK: int := 3

  /** A palette `setColors` accepts. */
  predicate AcceptablePalette(colors: seq<int>) {
    EMPTY_COLOR !in colors
  }

  /** The colour of a new marble. `pick` stands for
      `Math.floor(Math.random() * palette.length)` and is reduced modulo the
      palette length; every palette entry is reachable this way. */
  function PaletteColor(palette: seq<int>, pick: nat): (c: int)
    ensures |palette| > 0 ==> c in palette
    ensures |palette| == 0 ==> c == EMPTY_COLOR
  {
    if |palette| == 0 then EMPTY_COLOR else palette[pick % |palette|]
  }

  /** A marble just created for cell `index`: one marble size above the
      visible area, centred on its column, unmarked, with a palette colour. */
  predicate IsFresh(L: Layout, palette: seq<int>, index: nat, m: Marble)
    requires L.Valid()
  {
    m.y == -2 * L.marbleSize && m.x == CentreX(L, index) && !m.marked &&
    (|palette| > 0 ==> m.color in palette)
  }

  /** The marble `getRandomMarble(index)` creates; on a palette `setColors`
      accepts, its colour is the undefined colour exactly when the palette is
      empty. */
  function FreshMarble(L: Layout, palette: seq<int>, pick: nat -> nat, index: nat): (m: Marble)
    requires L.Valid()
    ensures IsFresh(L, palette, index, m)
    ensures AcceptablePalette(palette) ==> (m.color == EMPTY_COLOR <==> |palette| == 0)
  {
    Marble(PaletteColor(palette, pick(index)), CentreX(L, index), -2 * L.marbleSize, false)
  }

  /** Lookup that treats indices outside the array as `undefined`. */
  function CellAt(s: seq<Cell>, i: int): Cell {
    if 0 <= i < |s| then s[i] else Empty
  }

  /** Every marble of the grid is on the centre line of its column. The
      pass only ever moves a marble toward its centre, and nothing but the
      pass moves a marble sideways, so this holds for as long as the drop
      speed is positive. */
  predicate XCentred(L: Layout, s: seq<Cell>)
    requires L.Valid()
  {
    forall j :: 0 <= j < |s| && s[j].Full? ==> s[j].marble.x == CentreX(L, j)
  }

  /** Every marble of the grid is at the centre of its cell. */
  predicate AtCentre(L: Layout, s: seq<Cell>)
    requires L.Valid()
  {
    forall j :: 0 <= j < |s| && s[j].Full? ==>
      s[j].marble.x == CentreX(L, j) && s[j].marble.y == CentreY(L, j)
  }

  /** The default palette is one `setColors` accepts, every new marble on it
      gets a real colour, and the default drop speed makes marbles move. */
  lemma DefaultSettings(L: Layout, pick: nat -> nat, index: nat)
    requires L.Valid()
    ensures AcceptablePalette(DEFAULT_PALETTE) && DEFAULT_DROP_SPEED > 0 && DEFAULT_MIN_STRICK > 0
    ensures FreshMarble(L, DEFAULT_PALETTE, pick, index).color != EMPTY_COLOR
  {
  }

  /** No cell of the grid is empty. */
  predicate NoEmpty(s: seq<Cell>) {
    forall i :: 0 <= i < |s| ==> s[i].Full?
  }
}
