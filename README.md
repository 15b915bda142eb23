# Game of Life simulation core, in Dafny

This project models the simulation core of a Go Game of Life program built on the
ebiten game library. The program comes in two variants.

- **Configurable variant** (`game/game.go`). The canvas is 640 × 480 pixels. The
  cell size is chosen at construction and must be at least 5 pixels. The grid is a
  fixed 128 × 96 backing array. Only its top-left `columns × rows` part is active.
- **Fixed variant** (`main.go`). The cells are 10 pixels wide, so the grid is
  64 × 48 and is active in full. This variant has no colour theme.

Both variants share the same core:

- **Update.** The host calls it once per frame. It first runs the tick phase: a
  running game counts one tick, and when the count equals `ticksPerGeneration`
  exactly, the count restarts at 0 and the grid steps one generation. Then it
  applies a mouse click, then Space, then R, then T (T exists in the configurable
  variant only).
- **Step rule.** The neighbour count is a bounded Moore neighbourhood without
  wrap-around. A generation step builds the new grid from the old one.
- **Click.** It pauses a running game and flips the one cell under the cursor.
- **Space** flips the run state and zeroes the tick count.
- **R** kills the active region and zeroes the generation counter.
- **T** flips the colour theme.

The project has four modules:

- `Life` (`life.dfy`) holds the rule as pure functions over a column-major
  `seq<seq<bool>>`. `Neighbors` is the eight-term neighbour count, `NextGen` is
  one step, `Cleared` is a reset and `Flip` is a click. Lemmas cover bounds,
  still lifes, oscillators, the empty grid and idempotence.
- `Control` (`control.dfy`) holds the controller as pure functions over
  `Sim = (cells, state, ticks, generation)`. There is one function per phase of
  an Update and `UpdateSim` for the whole frame. Lemmas cover the cadence, the
  click, the toggle, the reset and the order of the phases.
- `Configurable` (`configurable.dfy`) holds the configurable variant:
  `LayoutFor` and `NewFromOptions`, plus a `Game` class.
- `Classic` (`classic.dfy`) holds the fixed variant as a `Game` class.

In each `Game` class, the grid is an `array2<bool>` that is mutated by nested
loops, as in the source. A ghost field `Cells` mirrors the array, and `Valid()`
ties the two together. Every state-changing method ensures that its new
`Snapshot()` is the matching pure phase function of `old(Snapshot())`. `Cycle`
states the step as a record update and `SwitchTheme` states that the snapshot
is unchanged. `CountLiveNeighbors` changes no state and returns `Neighbors`. `Valid()` also keeps
the invariant that the tick count is never negative and, with a positive
cadence, stays below it.

Behaviour kept exactly as the code has it, including the parts that look
accidental:

- **R keeps the tick count.** R does not touch the tick count or the run state.
  `reset` never assigns `ticks`.
- **Generation counter in R.** R zeroes the generation counter inside its
  clearing loop. An empty active region therefore leaves the counter unchanged.
  The active region is empty exactly when the cell size exceeds 480, because the
  source sets no upper bound on the cell size. The rows run out before the
  columns do. So `columns > 0` is not an invariant.
- **Zero cadence.** The cadence is taken as a parameter, and any integer is
  allowed. The configurable variant sets it to `TPS()/8`, which is 0 whenever
  the host runs below 8 ticks per second. With a cadence of 0, a running game
  never steps. A paused game whose tick count is 0 steps on every Update; this
  is a new game, or one paused with Space. A game paused by a click keeps its
  tick count and never steps (`Control.ZeroCadence`,
  `Control.ZeroCadencePausedSteps`, `Control.ZeroCadenceClickPausedFrozen`,
  `Control.NoStepWithoutPositiveCadence`).
- **Clicks outside the active region.** A click can land outside the active
  region but still inside the backing array. For example, with 7-pixel cells a
  click on pixel column 639 flips column 91, and only columns 0 to 90 are
  active. That cell is never counted and never shown, and R does not clear it.
  The next generation step does clear it.
- **Truncating division.** The click-to-cell division is Go's, which truncates
  toward zero. It is written out as `Control.Quot`.

## Model

| member | source | states |
|---|---|---|
| `Life.Neighbors` | game/game.go:163-185 | the count of live active-region cells among the eight cells around (x, y), with no wrap-around; never more than 8 |
| `Life.CornerNeighbors` | game/game.go:176 | a cell in a corner of the active region has at most 3 live neighbours |
| `Life.EdgeNeighbors` | game/game.go:176 | a cell on an edge of the active region has at most 5 live neighbours |
| `Life.Rule` | game/game.go:148-154 | three neighbours always give a live cell, two keep the cell as it was, and any other count gives a dead cell; `main.go:115-121` is the same rule |
| `Life.NextGen` | game/game.go:142-159 | a step builds a new grid of the same shape as the old one, cell by cell from the old grid; `main.go:109-126` is the same step |
| `Life.NextGenCell` | game/game.go:144-156 | after a step, a live active cell is alive iff it had 2 or 3 neighbours; a dead active cell is alive iff it had exactly 3; a cell outside the active region is dead |
| `Life.DeadStaysDead` | game/game.go:140-161 | an all-dead grid stays all-dead for any number of steps |
| `Life.BlockIsStill` | game/game.go:140-161 | a 2 × 2 block inside the active region is unchanged by a step, also against an edge |
| `Life.BlinkerTurns` | game/game.go:140-161 | a three-cell line with one free cell of room turns from horizontal to vertical and from vertical to horizontal |
| `Life.BlinkerOscillates` | game/game.go:140-161 | the blinker has period two: two steps restore the horizontal line |
| `Life.Cleared` | game/game.go:200-207 | a reset keeps the grid's shape; `main.go:167-174` clears the whole grid the same way |
| `Life.ClearedEffect` | game/game.go:200-207 | a reset leaves no live active cell, keeps every cell outside the active region, and is idempotent |
| `Life.Flip` | game/game.go:88 | a click flips exactly one cell and leaves every other cell and the grid's shape unchanged |
| `Life.FlipTwice` | game/game.go:88 | flipping the same cell twice restores the grid |
| `Control.Toggled` | game/game.go:191-196 | the run state always changes |
| `Control.Switched` | game/game.go:209-215 | the theme always changes |
| `Control.SwitchTwice` | game/game.go:209-215 | switching the theme twice restores it |
| `Control.Quot` | game/game.go:87 | the click-to-cell quotient truncates toward zero: for a non-negative pixel it is the whole number of cells before it |
| `Control.TickPhase` | game/game.go:75-81 | the tick phase keeps the run state; either it steps the grid exactly once, adds one to the generation and zeroes the count, or it leaves grid and generation alone, adds at most one tick, and the count is then not the cadence; `main.go:49-55` is the same phase |
| `Control.ClickCell` | game/game.go:86-87 | a click on a non-negative pixel lands on the cell whose span of `cellSize` pixels contains it, in both directions; `main.go:60-61` divides by 10 |
| `Control.ClickPhase` | game/game.go:82-89 | after a click the game is paused, both counters are unchanged, and the grid keeps its shape; `main.go:56-63` is the same |
| `Control.TogglePhase` | game/game.go:191-198 | Space changes the run state and zeroes the tick count; the grid and the generation are unchanged; `main.go:158-165` is the same |
| `Control.ResetPhase` | game/game.go:200-207 | R keeps the run state and the tick count; the generation becomes 0 or stays as it was; the grid keeps its shape; `main.go:167-174` is the same |
| `Control.UpdateSim` | game/game.go:74-99 | a whole Update keeps the grid's shape; with Space the tick count ends at 0; a click without Space leaves the game paused, a click with Space leaves it running; with neither, the run state is unchanged; `main.go:48-71` is the same frame without T |
| `Control.TickCadence` | game/game.go:75-81 | a running game gains exactly one tick and a paused game none; when the count equals the cadence it becomes 0 and exactly one step runs; otherwise cells and generation are unchanged |
| `Control.TickPhaseKeepsRange` | game/game.go:74-81 | with a positive cadence, the tick count stays in [0, cadence) after the tick phase, and a paused game is left exactly as it was |
| `Control.UpdateKeepsRange` | game/game.go:74-99 | a whole Update keeps the tick count non-negative and, with a positive cadence, below the cadence |
| `Control.ZeroCadence` | game/game.go:67-81 | with a zero cadence, one Update of a paused game at tick 0 steps the grid once and adds one to the generation |
| `Control.ZeroCadencePausedSteps` | game/game.go:67-81 | with a zero cadence, k idle Updates of a paused game at tick 0 show the k-th generation, and the counter grows by k |
| `Control.ZeroCadenceClickPausedFrozen` | game/game.go:74-89 | with a zero cadence, a game paused by a click keeps its non-zero tick count and stays exactly as it is for any number of idle Updates |
| `Control.NoStepWithoutPositiveCadence` | game/game.go:75-81 | with a zero or negative cadence, a running game only counts ticks and never steps |
| `Control.ClickEffect` | game/game.go:82-89 | a click pauses the game (a paused game stays paused), flips exactly the clicked cell, and leaves every other cell and both counters unchanged |
| `Control.ToggleTwice` | game/game.go:191-198 | Space flips the run state and zeroes the tick count; pressing it twice restores the run state |
| `Control.ResetEffect` | game/game.go:200-207 | R kills the active region; it zeroes the generation when the region is not empty and leaves the whole state unchanged when it is; it keeps the run state and the tick count; it is idempotent |
| `Control.UpdateOrder` | game/game.go:74-99 | the click applies to the grid after the tick phase; a click with Space leaves the game running with 0 ticks; with R in the same Update, a clicked active cell ends dead |
| `Control.IdleCounts` | game/game.go:75-81 | from tick 0, a running game with cadence N spends its first N - 1 idle Updates counting ticks and changes nothing else |
| `Control.CadenceGating` | game/game.go:75-81 | from tick 0, the N-th idle Update of a running game steps the grid once, adds one to the generation and resets the tick count to 0 |
| `Control.RunningGenerations` | game/game.go:74-81 | after k × N idle Updates from tick 0, a running game shows the k-th generation and its counter has grown by k |
| `Configurable.LayoutFor` | game/game.go:55-60 | a cell size below 5 is a construction error; otherwise the active region is the number of whole cells that fit on 640 × 480, so it fits the 128 × 96 backing array; no column is left exactly when the cell size exceeds 640, no row exactly when it exceeds 480, so the region is empty exactly when the cell size exceeds 480 |
| `Configurable.CanvasClickInside` | game/game.go:12-18 | with a valid cell size, every click on the canvas lands inside the backing array |
| `Configurable.ClickBeyondActiveRegion` | game/game.go:86-88 | with 7-pixel cells, a click on pixel column 639 lands on column 91, outside the 91 active columns |
| `Configurable.NewFromOptions` | game/game.go:55-72 | fails exactly when the cell size is below 5; otherwise returns a fresh, valid game that is paused, with the dark theme, both counters at 0 and all cells dead |
| `Configurable.Game.constructor` | game/game.go:62-71 | a new game is paused, with the dark theme, both counters at 0, all cells dead and the given layout and cadence |
| `Configurable.Game.CountLiveNeighbors` | game/game.go:163-185 | the double loop over the offsets returns exactly `Neighbors` of the cell |
| `Configurable.Game.Cycle` | game/game.go:140-161 | the grid becomes `NextGen` of the old grid, computed into a fresh array; the generation grows by exactly 1; nothing else changes |
| `Configurable.Game.ToggleState` | game/game.go:191-198 | the run state flips and the tick count becomes 0; the grid, the generation and the theme are unchanged |
| `Configurable.Game.Reset` | game/game.go:200-207 | the in-place clearing loop yields `ResetPhase`: the active region is dead, the generation is 0 unless the region is empty, and the run state, tick count and theme are unchanged |
| `Configurable.Game.SwitchTheme` | game/game.go:209-215 | the theme flips and nothing else changes |
| `Configurable.Game.Click` | game/game.go:82-89 | pauses a running game and flips the cell under the click in place |
| `Configurable.Game.Update` | game/game.go:74-99 | the new state is `UpdateSim` of the old one (tick phase, click, Space, R, in that order), and T switches the theme last; the tick-count invariant is kept |
| `Classic.FixedLayout` | main.go:13-19 | the grid is exactly 64 × 48 and tiles the 640 × 480 canvas with 10-pixel cells |
| `Classic.CanvasClickInGrid` | main.go:60-62 | every click on the canvas lands on a cell of the grid |
| `Classic.Game.constructor` | main.go:179-183 | the zero-valued game is paused, with both counters at 0 and all cells dead |
| `Classic.Game.CountLiveNeighbors` | main.go:130-152 | the double loop returns exactly `Neighbors` of the cell on the 64 × 48 grid |
| `Classic.Game.Cycle` | main.go:107-128 | the grid becomes `NextGen` of the old grid, and the generation grows by exactly 1 |
| `Classic.Game.ToggleState` | main.go:158-165 | the run state flips and the tick count becomes 0 |
| `Classic.Game.Reset` | main.go:167-174 | every cell dies and the generation becomes 0; the run state and tick count are unchanged |
| `Classic.Game.Click` | main.go:56-63 | pauses a running game and flips the cell at (x/10, y/10) |
| `Classic.Game.Update` | main.go:48-71 | the new state is `UpdateSim` of the old one with the fixed layout: tick phase, click, Space, R |

## Left out

- Rendering is not modelled: `Draw`, `drawGrid`, `drawBackground`, `drawDebugInfo` and `Layout`. They only draw with float coordinates.
- Input polling is not modelled. The mouse button, the cursor position and the Space, R and T keys become the parameters of `Update`.
- Cursor positions whose cell falls outside the backing array are excluded by a precondition. The source indexes its array unchecked, so Go would panic on them.
- `ebiten.TPS()` is not called. The cadence it yields is a constructor parameter instead.
- `ActualFPS` and `ActualTPS` are left out, because they are only displayed.
- `log.Fatalf` is modelled as the `Err` result of `NewFromOptions`. It is not modelled as process termination.
- `main()`, the window setup and `ebiten.RunGame` are left out. They are host glue.
- The colour palettes are left out: `Theme`, `NewDarkTheme`, `NewLightTheme`, `Theme.String` and the `theme()` selector. Only the `Dark | Light` choice is kept, because colours are cosmetic.
- The fixed variant's grid and cell colours are left out for the same reason.
- The `String` methods of the run-state enums are left out, because they are display only.
- `Update`'s `error` result is always nil, so it is not modelled.
- The source's counters are platform-width `int`s (64-bit on 64-bit targets), and the model does not wrap them. `ticks` and `generation` are unbounded integers, because wrap-around needs about 2^63 frames.
- `Configurable.Game.Cycle` and `Classic.Game.Cycle` assign a freshly built array to `grid`. Go instead copies the new array's values into the field's storage. The observable state is the same, but the model does not capture the storage being reused.
