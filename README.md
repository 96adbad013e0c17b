# Marble destroyer grid engine in Dafny

This project models the `PlayGrid` class of the marble destroyer puzzle and
proves properties of the model.

The grid is a row-major array of `columns × rows` cells. Each cell holds a
coloured marble or nothing. The player presses on a marble and drags across
marbles of the same colour. Each new marble must share a row or a column with
the marble selected last. Releasing a chain of at least the minimum length
starts a timer. At every firing the timer removes one marble, newest first,
and adds one point. A frame that is in sync does nothing. Every frame after the
initial drop that is not in sync and not in a removal closes the empty cells by
gravity: the marbles of each column fall to the bottom in their order, and new
marbles enter at the top. During a removal the holes stay until the chain is
drained. Then one animation pass moves each marble it reaches and does not skip
toward the centre of its cell: by the drop speed on each axis, or straight onto
the centre once it is closer than that. The pass can end early, at its error or
at a marble not yet visible after the initial drop.

## Modules

| file | module | contents |
|---|---|---|
| `grid_layout.dfy` | `GridLayout` | grid parameters; flat and two-dimensional indices; pointer→cell mapping; cell centres |
| `marbles.dfy` | `Marbles` | marbles, cells, palette, a new marble for a cell |
| `easing.dfy` | `Easing` | one easing step of one coordinate |
| `animation.dfy` | `Animation` | one animation pass (`animateMarbles`), as a function and as an in-place method |
| `refill.dfy` | `Refill` | compaction and refill (`updateMarbleArray`), as a column-by-column specification and as the in-place nested loops |
| `selection.dfy` | `Selection` | the chain and the anchor (`setCurrentColor`), the drag rule, unmarking a rejected chain |
| `removal.dfy` | `Removal` | the removal timer's tick, and what repeated ticks do |
| `play_grid.dfy` | `Game` | the `PlayGrid` class: fields, the event handlers, the removal tick and `update` |

## Units and representation

- **Pointer positions** are integer pixels relative to the grid.
- **Half-pixels.** Marble positions are integers in half-pixel units. The marble size is a whole number of pixels, but half of it need not be. The centre of column `c` is `c·step + gap + size/2`; the model stores twice that.
  - Every pixel threshold is doubled to match: the drop speed, "not yet visible" (`size/2 + gap`), and "lower than half a marble" (`size/2`).
  - A new marble starts at `y = -size` pixels, which is stored as `-2·size`.
- **`Math.ceil(p / step)`** is written with flooring division: `-((-p) / step)`.
- **JavaScript `%`** truncates toward zero. `JsRem` models it. The flat→two-dimensional conversion uses it for the column and flooring division for the row, as the code does.
- **Empty cells.** A cell is `Empty` (the `undefined` a removed marble leaves) or `Full(marble)`. Reading outside the array gives `Empty`.
- **Random colours.** The colour of a new marble comes from a caller-supplied oracle `pick`. Its value, taken modulo the palette length, indexes the palette. An empty palette gives colour `0`, which stands for `undefined`: both are equal to no palette colour.
- **References by cell index.** The chain and the anchor refer to marbles by cell index. The anchor also remembers its marble's colour, because a marble keeps its colour for life.
  - The code's `indexOf(currentColor)` becomes the anchor's index while that cell still holds a marble. Otherwise it becomes -1, as `indexOf` returns when the marble has left the grid.
- **Errors.**
  - `setColors` throwing becomes the result `ok = false`.
  - `animateMarbles` throwing "Doesnt find previous marble!" becomes the outcome `Threw`. The cells stay as the pass left them, and `update` ends the frame at that point.

## Behaviour kept as the code has it

Some of the code's behaviour looks unintended; the model keeps it as written.

- **The cascade skip** leaves a marble in place until it, or the marble below it, is lower than half a marble. It applies once the grid is initialised. During the initial drop it does not apply.
  - Instead, during the initial drop, the pass stops with "not finished" at the first marble that is still above the visible threshold after its step.
- **The row check.** Whether a marble looks at the cell below it is decided by comparing its row with `GRID_COLUMNS - 1`.
  - On a full grid with at least as many rows as columns, no pass raises its error (`NoThrowOnFullGrid`).
  - With fewer rows than columns, the bottom-right marble looks below the last row, and on a full grid outside a removal every pass raises the error (`WideGridThrows`).
  - During the initial drop that happens on every frame, so the drop never finishes and `isInitialized` stays false (`Game.PlayGrid.InitialDrop`, `Game.PlayGrid.Update`).
  - After the initial drop, every frame outside a removal refills the grid and then raises the error (`Game.PlayGrid.NextFrame`). If the refill found no empty cell, it has already set `isSync`, so the frames after it are skipped until an event clears the flag.
- **The drag handler** does not clear `isSync`. It can also move the anchor back to a marble already in the chain without adding anything. Later marbles are then tested against that marble, not against the end of the chain.
- **A press while the chain is not empty and there is no anchor** marks the pressed marble but does not add it to the chain (`Extend`, `ExtendSpec`).
- **Releasing again** while a chain is being removed calls `removeMarbles` again. It either drops the remaining chain or starts a second timer. `timers` counts the timers that are running.
- **Unchecked settings.**
  - `setDropSpeed` accepts any value. The easing properties assume a positive speed.
  - `setColors` accepts an empty palette.

## Model

| member | source | states |
|---|---|---|
| GridLayout.JsRem | src/PlayGrid.ts:177 | the remainder has the sign of the dividend and is smaller than the divisor in size; it is the mathematical remainder for a non-negative dividend and the dividend minus the divisor times its truncated quotient for a negative one |
| GridLayout.OneDimInGrid | src/PlayGrid.ts:171-173 | a column and a row inside the grid have a flat index inside the array |
| GridLayout.TwoDimIndex | src/PlayGrid.ts:175-180 | a non-negative flat index decodes to an in-grid column and a non-negative row that encode back to it; a negative index decodes to a negative row |
| GridLayout.CeilDivRange | src/PlayGrid.ts:158-159 | a coordinate strictly past 0 and at most `n` cells far gives a cell number `ceil(p/step) - 1` from 0 to `n - 1` |
| GridLayout.IndexFromPoint | src/PlayGrid.ts:157-161 | a pointer strictly inside the grid's width and height gives a flat index inside the array |
| GridLayout.CentreX | src/PlayGrid.ts:187-189 | the x centre of a cell lies strictly inside its column and as far from its left edge as from its right edge |
| GridLayout.CentreY | src/PlayGrid.ts:293-295 | the y centre of a cell lies strictly inside its row and as far from its top edge as from its bottom edge |
| GridLayout.CentreXOfCell | src/PlayGrid.ts:296-298 | every cell of a column has the x centre of that column's top cell |
| GridLayout.CeilDivInCell | src/PlayGrid.ts:158-159 | a coordinate strictly past the start of cell `c` and at most at its end gives `ceil(p/step) - 1 == c` |
| GridLayout.PointInCell | src/PlayGrid.ts:157-180 | a pointer inside cell (cx, cy) yields flat index `cy·columns + cx`, which decodes back to (cx, cy) whenever the column is inside the grid and the row is not negative |
| GridLayout.IndexRoundTrip | src/PlayGrid.ts:171-180 | the flat index of an in-grid column and a non-negative row decodes back to that column and row |
| GridLayout.CellInGrid | src/PlayGrid.ts:171-173 | an in-grid cell has an in-range flat index whose remainder and quotient by the column count are its column and row |
| GridLayout.IndexInGrid | src/PlayGrid.ts:175-180 | an in-range flat index has an in-grid column and row, and encodes back to itself |
| Marbles.PaletteColor | src/PlayGrid.ts:183-186 | a new marble's colour is in the palette, or is the undefined colour when the palette is empty |
| Marbles.FreshMarble | src/PlayGrid.ts:182-192 | a new marble is unmarked, one marble size above the grid, centred on its column, with a palette colour; for a palette `setColors` accepts, its colour is the undefined colour exactly when the palette is empty |
| Marbles.DefaultSettings | src/PlayGrid.ts:37-48 | the default palette is one `setColors` accepts, the default drop speed and minimum chain length are positive, and a new marble from the default palette has a real colour |
| Easing.Ease | src/PlayGrid.ts:299-310 | with a positive speed a coordinate never gets further from its target; it snaps to the target when closer than the speed, otherwise it moves exactly the speed toward it |
| Easing.EaseSettles | src/PlayGrid.ts:299-310 | a coordinate reaches its target after `ceil(distance/speed)` steps and stays there |
| Animation.Pass | src/PlayGrid.ts:269-325 | the rest of a pass, from cell `i` down to cell 0, keeps the number of cells |
| Animation.AnimatePass | src/PlayGrid.ts:267-327 | a whole pass keeps the number of cells and which cells hold a marble |
| Animation.AnimateMarbles | src/PlayGrid.ts:267-327 | the in-place pass produces exactly the cells and the outcome of the pass function `AnimatePass` |
| Animation.BelowIndex | src/PlayGrid.ts:276-282 | the neighbour a marble looks at is the cell one row further, `columns` cells on |
| Animation.PassFrame | src/PlayGrid.ts:267-327 | a pass keeps the length, never touches cells it has passed, keeps every cell's occupancy, and keeps every marble's colour and mark |
| Animation.SkippedStable | src/PlayGrid.ts:286-291 | whether a marble is skipped depends only on cells the rest of the pass does not change |
| Animation.PassSettled | src/PlayGrid.ts:314-326 | a pass that returns true had every marble it did not skip reach the centre row of its cell |
| Animation.AnimateSettled | src/PlayGrid.ts:267-327 | a whole pass returning true leaves every unskipped marble at its row, and in the initial drop every marble |
| Animation.PassApproaches | src/PlayGrid.ts:293-310 | with a positive drop speed no marble gets further from its cell centre on either axis during a pass |
| Animation.PassKeepsXCentred | src/PlayGrid.ts:305-310 | with a positive drop speed a pass keeps every marble that is on its column's x centre there |
| Animation.DropSettlesAtCentre | src/PlayGrid.ts:267-327 | with a positive drop speed and every marble on its column's x centre, an initial-drop pass that returns true leaves every marble exactly at its cell's centre |
| Animation.NoThrowWhileDeleting | src/PlayGrid.ts:283-285 | while a chain is being removed a pass never raises its error |
| Animation.NoThrowOnFullGrid | src/PlayGrid.ts:275-285 | on a full grid with at least as many rows as columns a pass never raises its error |
| Animation.WideGridThrows | src/PlayGrid.ts:275-285 | on a full grid with fewer rows than columns, outside a removal, a pass raises its error |
| Animation.PassOutcome | src/PlayGrid.ts:267-327 | a pass keeps a full grid full, never raises its error during a removal, and on a full grid outside a removal raises it exactly when there are fewer rows than columns |
| Refill.SurvivorsAppend | src/PlayGrid.ts:368-379 | the survivors of two stacked column parts are the survivors of each, stacked |
| Refill.EmptyCountSurvivors | src/PlayGrid.ts:365-378 | a column has as many empty cells as it lacks survivors |
| Refill.RefillColumn | src/PlayGrid.ts:364-383 | a refilled column has the column's length and no empty cell |
| Refill.Refilled | src/PlayGrid.ts:357-386 | after compaction and refill the grid has its size and no cell is empty |
| Refill.RefillKeepsXCentred | src/PlayGrid.ts:357-386 | compaction only moves marbles within their column and new marbles enter on it, so every marble on its column's x centre stays there |
| Refill.RefillShape | src/PlayGrid.ts:357-386 | in every column the survivors keep their order and fill the bottom rows, and the top `k` rows (`k` the column's empty cells) hold new marbles |
| Refill.RefillOfFullGrid | src/PlayGrid.ts:357-386 | a grid without empty cells is left as it is |
| Refill.ColumnUpdate | src/PlayGrid.ts:372-373 | writing one cell changes one row of its column and no other column |
| Refill.FallingStep | src/PlayGrid.ts:368-379 | one step of the falling loop moves an occupied cell to the current empty row and empties it, or counts one more empty cell |
| Refill.FillingStep | src/PlayGrid.ts:380-383 | one step of the fill loop puts a new marble in the next top row |
| Refill.FillingDone | src/PlayGrid.ts:364-383 | the column left by the two inner loops is the refilled column |
| Refill.SettleColumn | src/PlayGrid.ts:364-383 | the body for the lowest empty cell of a column turns that column into its refilled form and leaves every other column unchanged |
| Refill.ColumnMove | src/PlayGrid.ts:372-373 | moving a marble from row `j` down to row `e` of its column and emptying row `j` changes those two rows of that column and no other column |
| Refill.DropSurvivors | src/PlayGrid.ts:365-379 | the falling loop leaves the column's survivors above its lowest empty row directly on top of that row, in their order, with every row above them empty; it answers the number of empty rows, at least one, and changes no other column |
| Refill.FillTop | src/PlayGrid.ts:380-383 | the fill loop puts new marbles in the top rows of the column |
| Refill.UpdateMarbleArray | src/PlayGrid.ts:357-386 | the in-place loops produce exactly the column-by-column refill `Refilled` of the old cells, and the returned flag is true exactly when no cell was empty |
| Selection.Extend | src/PlayGrid.ts:147-152 | the chain only grows, by at most one cell, and is never empty afterwards; with an anchor or an empty chain the selected cell is in it |
| Selection.ExtendSpec | src/PlayGrid.ts:147-152 | a selected marble joins the chain exactly when it is not in it yet and there is an anchor or no chain; the chain never holds a cell twice |
| Selection.Mark | src/PlayGrid.ts:153-154 | selecting marks the selected marble, changes nothing else about it, and changes no other cell |
| Selection.MarkKeepsXCentred | src/PlayGrid.ts:153-154 | marking moves no marble |
| Selection.SelectKeepsMarked | src/PlayGrid.ts:142-155 | if every chain member is marked before a selection, every member is marked after it |
| Selection.MoveAccepts | src/PlayGrid.ts:128-135 | an accepted drag target is a cell of the grid holding a marble of the anchor's colour; once the anchor's marble has left the grid, a grid of more than one column accepts no drag |
| Selection.MoveAlongAxis | src/PlayGrid.ts:117-136 | a drag onto an in-grid cell extends the selection exactly when that cell holds a marble of the anchor's colour in the anchor's row or column |
| Selection.MoveKeepsColour | src/PlayGrid.ts:133-135 | an accepted drag keeps every chain member the anchor's colour |
| Selection.Unmark | src/PlayGrid.ts:334 | unmarking a rejected chain keeps the size and every cell's occupancy, changes only the marks of chain cells, and leaves every chain marble unmarked |
| Selection.UnmarkSpec | src/PlayGrid.ts:334 | if only chain members were marked, no marble stays marked after unmarking |
| Selection.UnmarkChain | src/PlayGrid.ts:334 | the in-place loop over the chain produces exactly `Unmark` of the old cells |
| Selection.UnmarkKeepsXCentred | src/PlayGrid.ts:334 | unmarking moves no marble |
| Selection.UnmarkStep | src/PlayGrid.ts:334 | unmarking the chain member after member gives the unmarked grid |
| Removal.Tick | src/PlayGrid.ts:342-353 | a tick keeps the number of cells and the score plus the chain's length, never lowers the score, and reports every point it adds, in order |
| Removal.TickEmpties | src/PlayGrid.ts:348-351 | a tick only empties cells, and keeps every chain cell inside the grid |
| Removal.TickKeepsXCentred | src/PlayGrid.ts:348-351 | a tick moves no marble |
| Removal.DrainChain | src/PlayGrid.ts:340-354 | after `m` ticks the last `m` chain cells have been emptied, newest first, every other cell is unchanged, the score is up by `m`, and each intermediate score was reported once, in order |
| Removal.DrainAll | src/PlayGrid.ts:340-354 | a chain of length `n` adds exactly `n` to the score and empties all its cells, and the next tick finds the chain empty |
| Removal.TickKeepsMarked | src/PlayGrid.ts:348-351 | on a duplicate-free, fully marked chain a tick removes a marble that is on the grid and leaves the rest of the chain marked |
| Game.NextFrameOutcome | src/PlayGrid.ts:417-424 | a frame after the initial drop never raises the error during a removal; outside one it leaves the grid full and raises the error exactly when there are fewer rows than columns; with a positive drop speed it keeps every marble on its column's x centre |
| Game.PlayGrid.constructor | src/PlayGrid.ts:63-95 | a new grid holds a new marble in every cell, each on its column's x centre, with nothing selected, score 0 and every flag false |
| Game.PlayGrid.SetColors | src/PlayGrid.ts:221-226 | a palette containing 0 is refused and the palette stays; otherwise it replaces the palette; nothing else changes |
| Game.PlayGrid.SetDropSpeed | src/PlayGrid.ts:213-215 | sets the drop speed, unchecked |
| Game.PlayGrid.SetMinStrick | src/PlayGrid.ts:217-219 | sets the minimum chain length, unchecked |
| Game.PlayGrid.SetCurrentColor | src/PlayGrid.ts:142-155 | no target only drops the anchor; a target grows the chain as `Extend` says, is marked and becomes the anchor; the chain stays duplicate-free and fully marked |
| Game.PlayGrid.PointerDown | src/PlayGrid.ts:97-108 | the handler puts the frame out of sync and selects the marble under the pointer, or drops the anchor over an empty or outside cell |
| Game.PlayGrid.PointerMove | src/PlayGrid.ts:117-136 | with an anchor and a target cell that `MoveAccepts`, the target is selected; otherwise nothing changes at all |
| Game.PlayGrid.SetCursorPosition | src/PlayGrid.ts:245-255 | a new position is recorded and puts the frame out of sync; the same position again changes nothing |
| Game.PlayGrid.RemoveMarbles | src/PlayGrid.ts:329-355 | a chain shorter than the minimum is unmarked and dropped, leaving cells (except marks), score and removal flag alone; a long enough chain starts a removal and a timer; either way the cursor is cleared |
| Game.PlayGrid.PointerUp | src/PlayGrid.ts:110-115 | release as `RemoveMarbles`, then the anchor is dropped |
| Game.PlayGrid.RemovalTick | src/PlayGrid.ts:340-354 | on an empty chain the removal ends and the marbles receive events again; otherwise exactly one `Tick`: pop the last cell, empty it, add one point and report it |
| Game.PlayGrid.Update | src/PlayGrid.ts:405-425 | a synced frame changes nothing; the initial drop runs one drop-mode pass whose "settled" sets the three flags; later frames refill (outside a removal), then run one pass whose "settled" is the new sync flag; the grid is then full, and the frame raises the error exactly as `PassOutcome` says; on a full grid the initial drop raises it exactly when there are fewer rows than columns; with a positive drop speed marbles stay on their column's x centre, and a finished initial drop leaves every marble at its cell's centre |
| Game.PlayGrid.InitialDrop | src/PlayGrid.ts:409-415 | one drop-mode pass whose "settled" sets the three flags; on a full grid it raises the error exactly when there are fewer rows than columns; with a positive drop speed a finished drop leaves every marble at its cell's centre |
| Game.PlayGrid.NextFrame | src/PlayGrid.ts:417-424 | refill outside a removal, then one pass whose "settled" is the sync flag, or the refill's "unchanged" when it raises the error; the grid is then full and the error is raised exactly when there are fewer rows than columns |

## Left out

- Drawing. This covers `drawMarble`, `drawConnections`, the mask and container, and the `Graphics` clear calls inside `animateMarbles` and `update`. They only draw.
- Event registration and removal. This covers the `.on` calls, `removeAllListeners` (line 112) and the container `pointermove` listener that `pointerdown` registers (lines 103-105).
  - The handler bodies are modelled as methods: `PointerDown`, `PointerMove`, `PointerUp`, `SetCursorPosition`.
  - The framework delivers pointer events to the marbles only while `marbles.interactive` is set. The model keeps that flag as `interactive` but does not gate the handlers with it.
- `getLocalCoordinates`: it subtracts the container's position with a framework call. The handlers take positions already relative to the grid.
- `setInterval` and `clearInterval`: this is host scheduling. One firing is `RemovalTick`, which requires a running timer.
- `Math.random`: replaced by the `pick` oracle.
- Floating point. Positions, the drop speed and pointer coordinates are integers, with positions in half-pixels. A fractional drop speed or pointer position is not modelled.
- The static singleton (`initPlayGrid`, `getGridInstance` with its defaults), `getGraphics`, console logging, and replacing the score hook (`setHookOnScoreChange`): these are glue. Reported scores are recorded in `reportedScores`. The static settings are fields of the one grid.
- Object identity. The chain and anchor hold cell indices; the code holds object references.
  - The two agree unless `updateMarbleArray` moves a selected marble. It never runs during a removal.
  - They differ in two cases:
    - A press in the frame between the end of a removal and the next refill.
    - A second timer that is still running after the removal has ended. A release during a removal can start one (lines 110-111, 332-340). The first timer to find the chain empty ends the removal but stops only itself (lines 343-345). A chain selected after that is popped by the second timer, and the refill moves its remaining marbles down their column. The code's references follow the moved marbles. The model's indices then name other cells, so later ticks empty different cells.
- Animation.PassKeepsXCentred, Game.PlayGrid.Update: the centring properties hold only with a positive drop speed. `setDropSpeed` accepts any value, and with a speed of 0 or less no marble approaches its centre.
- Game.PlayGrid.RemovalTick: the popped marble's `marked = false` (line 349) is not modelled. The marble leaves the grid and its cell becomes `Empty`.
- GridLayout.Layout.Valid: grids with no column or a marble size of 0 are excluded. The code divides by the column count and by the cell pitch.
- src/Button.ts and src/main.ts: user interface and page setup, not part of this model.
