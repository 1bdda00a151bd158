# Game of Life generation engine

A model of the generation engine of a Swing Game of Life program, the
non-UI part of `Controller`. The universe is a fixed `rows × cols` grid of
cells that are each `ALIVE` or `DEAD`. The grid is bounded: positions off the
grid do not exist and add nothing to a neighbour count.

The engine does the following:

- **Step.** One generation is double-buffered. A fresh buffer is filled with
  `DEAD`. Conway's four rules are then evaluated for every cell against the
  old grid, writing only into the buffer. Finally the buffer is copied back.
  After that the generation counter (a Java `int`) is incremented.
- **Neighbour count.** A loop runs over eight row/column offsets. Its bounds
  test compares each neighbour's index only with `-1` and with the dimension.
- **Clear.** Every cell is set `DEAD` and the counter is reset to 0.
- **Toggle.** A mouse press flips one cell between `DEAD` and `ALIVE`.

Files:

- `life.dfy`, module `Life`: the rules stated on values. A grid is a
  `seq<seq<State>>`. This module defines `NeighborCount`, the transition table
  `NextState`, the next generation `Next` and `Iterate`. It also holds lemmas
  about them:
  - the four rules at a single cell of any grid;
  - bounds on the neighbour count (corner, edge and interior);
  - locality, which is why the order cells are evaluated in does not matter;
  - dead grids stay dead;
  - a lone cell dies;
  - the 2×2 block is a still life;
  - the blinker has period 2;
  - toggling a cell twice restores the grid.
- `controller.dfy`, module `Controller`: the engine as a class `Engine`. It
  owns an `array2<State>`, has fixed `rows`/`cols` and the `int` counter
  `generation`. Each method is proved against `Life`:
  - `UpdateWorld` leaves `Universe() == Next(old(Universe()))`;
  - `CountLiveNeighbors` returns `NeighborCount(Universe(), x, y)`;
  - `Clear` leaves `Dead(rows, cols)` and counter 0;
  - `Toggle` leaves `Toggled(old(Universe()), x, y)`.

Facts about the code that the model keeps:

- The code never validates the grid dimensions; they come from the view. So
  the constructor takes any `nat` dimensions and has no failure path. A 0-row
  grid simply has no cells.
- The code never accesses a cell out of bounds, so there is no out-of-bounds
  error path. `Toggle` requires an in-bounds cell, because the mouse handler
  is attached only to existing cells.
- The grid is bounded, never toroidal.
- The generation counter is a 32-bit `int` that wraps around past `INT_MAX`.
  `Increment` models this.

The source calls `getNumLiveNeighbors` up to four times per live cell.
`ApplyRules` calls `CountLiveNeighbors` once per cell. The grid is not written
during the rule pass, so every call returns the same value.

## Model

| member | source | states |
|---|---|---|
| `Life.NextState` | src/Controller.java:145-171 | the next state is ALIVE exactly when the cell has 3 live neighbours, or is ALIVE with 2; otherwise DEAD (birth on 3, survival on 2 or 3, death on fewer than 2 or more than 3) |
| `Life.NeighborCountBounds` | src/Controller.java:187-199 | the live-neighbour count never exceeds the number of existing neighbour positions, which is at most 8; that number is Span(row)·Span(col) − 1, so it is at most 3 at a corner, at most 5 on an edge and exactly 8 in the interior |
| `Life.NeighborCountLocal` | src/Controller.java:187-199 | the count at (r, c) depends only on the in-bounds cells of the 3×3 block around (r, c) |
| `Life.NextIsLocal` | src/Controller.java:137-181 | a cell's next state depends only on the old grid's 3×3 block around it, so evaluation order does not matter while every cell reads the old grid |
| `Life.IterateShape` | src/Controller.java:137-181 | any number of generations keeps the grid's dimensions |
| `Life.DeadIsFixed` | src/Controller.java:139-151 | an all-DEAD grid's next generation is the same all-DEAD grid (no spontaneous generation) |
| `Life.DeadStaysDead` | src/Controller.java:139-151 | an all-DEAD grid stays all-DEAD for any number of generations |
| `Life.RulesAt` | src/Controller.java:147-169 | at any cell of any grid: a DEAD cell becomes ALIVE exactly when it has 3 live neighbours; an ALIVE cell dies with fewer than 2 or more than 3 and lives on with 2 or 3 |
| `Life.LoneCellDies` | src/Controller.java:154-158 | a grid with a single live cell becomes all DEAD in one generation (under-population) |
| `Life.BlockIsStill` | src/Controller.java:145-171 | a 2×2 block with nothing else alive is unchanged by a generation, wherever it sits on the bounded grid |
| `Life.BlockStaysStill` | src/Controller.java:145-171 | the block is unchanged by any number of generations |
| `Life.HorizontalTurnsVertical` | src/Controller.java:145-171 | a horizontal 3-cell line with a free row above and below becomes the vertical line through the same centre |
| `Life.VerticalTurnsHorizontal` | src/Controller.java:145-171 | a vertical 3-cell line with a free column on each side becomes the horizontal line through the same centre |
| `Life.BlinkerPeriodTwo` | src/Controller.java:145-171 | after 2k generations the blinker is exactly the starting grid; after 2k+1 it is the vertical phase |
| `Life.Toggled` | src/Controller.java:115-121 | toggling keeps the dimensions, changes the chosen cell and leaves every other cell as it was |
| `Life.ToggleTwice` | src/Controller.java:115-121 | toggling the same cell twice restores the grid |
| `Controller.Increment` | src/Controller.java:37 | `++` on a Java int: the result is in the 32-bit range and congruent to n + 1 modulo 2^32 (so INT_MAX wraps to INT_MIN) |
| `Controller.DeltaCountIsNeighborCount` | src/Controller.java:188-191 | the eight (r_delta, c_delta) pairs visit exactly the eight neighbours of the cell |
| `Controller.GuardIsBoundsCheck` | src/Controller.java:192 | for an in-bounds cell, the test against -1 and the dimension is equivalent to the neighbour being in bounds, because every offset is -1, 0 or 1 |
| `Controller.FillDead` | src/Controller.java:139-143 | every cell of the fresh buffer is DEAD |
| `Controller.Engine.constructor` | src/Controller.java:23-28 | the engine starts with the given dimensions, every cell DEAD and generation 0 |
| `Controller.Engine.CountLiveNeighbors` | src/Controller.java:187-199 | the loop over the eight offsets returns the number of live in-bounds neighbours of (x, y) |
| `Controller.Engine.ApplyRules` | src/Controller.java:147-169 | starting from the DEAD default, the source's sequence of rule tests leaves the buffer cell equal to the transition table applied to the old cell and its count; no other buffer cell changes |
| `Controller.Engine.EvaluateRules` | src/Controller.java:145-171 | the rule pass fills every buffer cell with the next generation of the old grid and does not write the grid |
| `Controller.Engine.CopyBack` | src/Controller.java:173-181 | after the copy-back every grid cell holds the buffer's value |
| `Controller.Engine.UpdateWorld` | src/Controller.java:136-182 | after one generation the grid, of unchanged dimensions, is `Next` of the old grid |
| `Controller.Engine.Step` | src/Controller.java:35-38 | a step replaces the grid by its next generation and increments the counter once, returning the new value |
| `Controller.Engine.Clear` | src/Controller.java:80-86 | every cell becomes DEAD and the counter 0, whatever the prior state, so clearing is idempotent |
| `Controller.ClearTwice` | src/Controller.java:80-86 | clearing twice leaves exactly the state one clear leaves: all DEAD, counter 0 |
| `Controller.Engine.Toggle` | src/Controller.java:115-121 | the grid becomes `Toggled` of the old grid: the pressed cell flips ALIVE↔DEAD, every other cell and the counter are unchanged |

## Left out

- Swing wiring is not modelled: the button action listeners, `setEnabled`, `setGenerationText` and the registration of the mouse listeners. It is user-interface event plumbing.
- The run button's loop thread is not modelled. Each iteration of that loop does exactly what `Step` models. The `Thread.sleep` pacing with delay `1000/x` from the slider, the `InterruptedException` handler and the forced `thread.stop()` of the stop button are out, because they concern concurrency and timing, not the engine.
- The `mouseEntered` drag gesture is not modelled separately. When the primary button is held, it performs the same flip as `Toggle`. The button-mask test reads mouse-event state.
- The `View` class is not part of this model: its panels, `getPanelState`/`setPanelState` and the dimension getters. The engine owns the grid as an `array2<State>` instead. The view's initial panel state is not shown, so the constructor starts from an all-DEAD grid at generation 0.
- Clear: there is no value-level clearing function. Idempotence follows from `Engine.Clear`'s postcondition, which fixes the new state (`Dead(rows, cols)`, generation 0) without reference to the old one. `Controller.ClearTwice` calls `Clear` twice and checks that the second call changes nothing.
