/** The controller's state machine as pure functions: what one Update does to
    the grid, the run state, the tick counter and the generation counter. Both
    variants of the game (the configurable one and the fixed 64 x 48 one) run
    this same sequence; they differ only in their layout and in the theme,
    which the configurable one switches last and which nothing else reads. */
module Control {
  import opened Life

  datatype State = Paused | Running

  datatype ThemeID = Dark | Light

  datatype Option<T> = None | Some(value: T)

  /** The run-state flip behind the Space key. */
  function Toggled(s: State): (r: State)
    ensures r != s
  {
    if s == Paused then Running else Paused
  }

  /** The palette flip behind the T key. */
  function Switched(t: ThemeID): (r: ThemeID)
    ensures r != t
  {
    if t == Dark then Light else Dark
  }

  /** Switching the theme twice restores it. */
  lemma SwitchTwice(t: ThemeID)
    ensures Switched(Switched(t)) == t
  {
  }

  /** What an Update reads and writes, the theme aside. */
  datatype Sim = Sim(cells: Grid, state: State, ticks: int, generation: int)

  /** Fixed at construction: the size of a cell in pixels and the active region. */
  datatype Layout = Layout(cellSize: int, columns: int, rows: int)

  /** Bounds of Dafny's division of a natural number. */
  lemma DivBounds(a: int, b: int)
    requires a >= 0 && b > 0
    ensures 0 <= a / b && (a / b) * b <= a < (a / b) * b + b
    ensures a < b ==> a / b == 0
    ensures a >= b ==> a / b >= 1
  {
  }

  /** Go's integer division, which truncates toward zero (Dafny's rounds down):
      a pixel just left of 0 still maps to cell 0. */
  function Quot(a: int, b: int): (q: int)
    requires b > 0
    ensures a >= 0 ==> 0 <= q && q * b <= a < q * b + b
    ensures -b < a < 0 ==> q == 0
    ensures a <= -b ==> q < 0
  {
    if a >= 0 then
      DivBounds(a, b);
      a / b
    else
      DivBounds(-a, b);
      -((-a) / b)
  }

  /** The tick phase: a running game counts one tick; the count reaching the
      cadence exactly (whatever the run state) starts a new count and steps
      the grid once. */
  function TickPhase(s: Sim, layout: Layout, ticksPerGeneration: int): (r: Sim)
    ensures r.state == s.state
    ensures r.generation != s.generation ==>
      r.generation == s.generation + 1 && r.ticks == 0
      && r.cells == NextGen(s.cells, layout.columns, layout.rows)
    ensures r.generation == s.generation ==>
      r.cells == s.cells && r.ticks != ticksPerGeneration && s.ticks <= r.ticks <= s.ticks + 1
  {
    var ticks := if s.state == Running then s.ticks + 1 else s.ticks;
    if ticks == ticksPerGeneration then
      s.(ticks := 0, cells := NextGen(s.cells, layout.columns, layout.rows), generation := s.generation + 1)
    else
      s.(ticks := ticks)
  }

  /** The cell a click at pixel (px, py) lands on. */
  function ClickCell(layout: Layout, click: (int, int)): (r: (int, int))
    requires layout.cellSize > 0
    ensures click.0 >= 0 ==> 0 <= r.0 && r.0 * layout.cellSize <= click.0 < (r.0 + 1) * layout.cellSize
    ensures click.1 >= 0 ==> 0 <= r.1 && r.1 * layout.cellSize <= click.1 < (r.1 + 1) * layout.cellSize
  {
    (Quot(click.0, layout.cellSize), Quot(click.1, layout.cellSize))
  }

  /** The click lands inside the backing storage (the source indexes its
      arrays with it unchecked). */
  predicate ClickInside(cells: Grid, layout: Layout, click: (int, int)) {
    layout.cellSize > 0
    && 0 <= ClickCell(layout, click).0 < |cells|
    && 0 <= ClickCell(layout, click).1 < |cells[ClickCell(layout, click).0]|
  }

  /** The click phase: pause a running game and flip the clicked cell. */
  function ClickPhase(s: Sim, layout: Layout, click: (int, int)): (r: Sim)
    requires ClickInside(s.cells, layout, click)
    ensures r.state == Paused && r.ticks == s.ticks && r.generation == s.generation
    ensures |r.cells| == |s.cells| && forall x | 0 <= x < |s.cells| :: |r.cells[x]| == |s.cells[x]|
  {
    var (x, y) := ClickCell(layout, click);
    assert s.state == Running || s.state == Paused;
    s.(state := if s.state == Running then Paused else s.state, cells := Flip(s.cells, x, y))
  }

  /** The Space key: flip the run state and start the tick count over. */
  function TogglePhase(s: Sim): (r: Sim)
    ensures r.state != s.state && r.ticks == 0
    ensures r.cells == s.cells && r.generation == s.generation
  {
    s.(state := Toggled(s.state), ticks := 0)
  }

  /** The R key: clear the active region. The generation counter is zeroed
      inside the clearing loop, so an empty active region leaves it as it was. */
  function ResetPhase(s: Sim, layout: Layout): (r: Sim)
    ensures r.state == s.state && r.ticks == s.ticks
    ensures r.generation == 0 || r.generation == s.generation
    ensures |r.cells| == |s.cells| && forall x | 0 <= x < |s.cells| :: |r.cells[x]| == |s.cells[x]|
  {
    s.(cells := Cleared(s.cells, layout.columns, layout.rows),
       generation := if layout.columns > 0 && layout.rows > 0 then 0 else s.generation)
  }

  /** One Update: the tick phase, then the click, then Space, then R. */
  function UpdateSim(s: Sim, layout: Layout, ticksPerGeneration: int,
                     click: Option<(int, int)>, space: bool, restart: bool): (r: Sim)
    requires click.Some? ==> ClickInside(s.cells, layout, click.value)
    ensures |r.cells| == |s.cells| && forall x | 0 <= x < |s.cells| :: |r.cells[x]| == |s.cells[x]|
    ensures space ==> r.ticks == 0
    ensures click.Some? && !space ==> r.state == Paused
    ensures click.Some? && space ==> r.state == Running
    ensures click.None? && !space ==> r.state == s.state
  {
    var ticked := TickPhase(s, layout, ticksPerGeneration);
    var clicked := if click.Some? then ClickPhase(ticked, layout, click.value) else ticked;
    var toggled := if space then TogglePhase(clicked) else clicked;
    if restart then ResetPhase(toggled, layout) else toggled
  }

  /** The counter bounds every reachable state keeps: the tick count is never
      negative, and with a positive cadence it stays below the cadence. */
  predicate TicksInRange(s: Sim, ticksPerGeneration: int) {
    0 <= s.ticks && (ticksPerGeneration > 0 ==> s.ticks < ticksPerGeneration)
  }

  /** Tick cadence: a running game gains exactly one tick, a paused one none,
      unless the count reaches the cadence, when it restarts at 0 and exactly
      one generation step runs. */
  lemma TickCadence(s: Sim, layout: Layout, ticksPerGeneration: int)
    ensures var r := TickPhase(s, layout, ticksPerGeneration);
      var reached := (if s.state == Running then s.ticks + 1 else s.ticks) == ticksPerGeneration;
      r.state == s.state
      && (reached ==> r.ticks == 0 && r.generation == s.generation + 1
                      && r.cells == NextGen(s.cells, layout.columns, layout.rows))
      && (!reached ==> r.generation == s.generation && r.cells == s.cells
                       && r.ticks == (if s.state == Running then s.ticks + 1 else s.ticks))
  {
  }

  /** With a positive cadence the tick phase keeps the count in [0, cadence),
      and a paused game is left exactly as it was. */
  lemma TickPhaseKeepsRange(s: Sim, layout: Layout, ticksPerGeneration: int)
    requires TicksInRange(s, ticksPerGeneration)
    ensures TicksInRange(TickPhase(s, layout, ticksPerGeneration), ticksPerGeneration)
    ensures ticksPerGeneration > 0 ==> 0 <= TickPhase(s, layout, ticksPerGeneration).ticks < ticksPerGeneration
    ensures ticksPerGeneration > 0 && s.state == Paused ==> TickPhase(s, layout, ticksPerGeneration) == s
  {
  }

  /** Every Update keeps the counter bounds. */
  lemma UpdateKeepsRange(s: Sim, layout: Layout, ticksPerGeneration: int,
                         click: Option<(int, int)>, space: bool, restart: bool)
    requires click.Some? ==> ClickInside(s.cells, layout, click.value)
    requires TicksInRange(s, ticksPerGeneration)
    ensures TicksInRange(UpdateSim(s, layout, ticksPerGeneration, click, space, restart), ticksPerGeneration)
  {
    TickPhaseKeepsRange(s, layout, ticksPerGeneration);
  }

  /** A zero cadence (a host running below 8 ticks per second gives one): the
      exact-equality test then fires on an Update of a paused game whose tick
      count is 0 (a new game, or one paused with Space), while a running game
      never steps. A negative cadence never fires. */
  lemma ZeroCadence(s: Sim, layout: Layout)
    requires s.ticks == 0 && s.state == Paused
    ensures TickPhase(s, layout, 0)
      == s.(cells := NextGen(s.cells, layout.columns, layout.rows), generation := s.generation + 1)
  {
  }

  lemma NoStepWithoutPositiveCadence(s: Sim, layout: Layout, ticksPerGeneration: int)
    requires ticksPerGeneration <= 0 && s.state == Running && s.ticks >= 0
    ensures TickPhase(s, layout, ticksPerGeneration) == s.(ticks := s.ticks + 1)
  {
  }

  /** A click pauses a running game, leaves a paused one paused, flips exactly
      the clicked cell and leaves every other cell and both counters alone. */
  lemma ClickEffect(s: Sim, layout: Layout, click: (int, int))
    requires ClickInside(s.cells, layout, click)
    ensures var r := ClickPhase(s, layout, click);
      var (x, y) := ClickCell(layout, click);
      r.state == Paused && r.ticks == s.ticks && r.generation == s.generation
      && |r.cells| == |s.cells|
      && r.cells[x][y] == !s.cells[x][y]
      && forall i, j | 0 <= i < |s.cells| && 0 <= j < |s.cells[i]| && (i, j) != (x, y) ::
           |r.cells[i]| == |s.cells[i]| && r.cells[i][j] == s.cells[i][j]
  {
  }

  /** Space flips the run state and zeroes the tick count; pressing it twice
      restores the run state. */
  lemma ToggleTwice(s: Sim)
    ensures TogglePhase(s).state != s.state && TogglePhase(s).ticks == 0
    ensures TogglePhase(TogglePhase(s)) == s.(ticks := 0)
  {
  }

  /** R kills the active region, zeroes the generation when the region is not
      empty, keeps the run state and the tick count, and is idempotent. */
  lemma ResetEffect(s: Sim, layout: Layout)
    ensures var r := ResetPhase(s, layout);
      r.state == s.state && r.ticks == s.ticks
      && (layout.columns > 0 && layout.rows > 0 ==> r.generation == 0)
      && (layout.columns <= 0 || layout.rows <= 0 ==> r == s)
      && (forall x, y | 0 <= x < |s.cells| && 0 <= y < |s.cells[x]| ::
            !Live(r.cells, layout.columns, layout.rows, x, y))
      && ResetPhase(r, layout) == r
  {
    ClearedEffect(s.cells, layout.columns, layout.rows);
    if layout.columns <= 0 || layout.rows <= 0 {
      SameCells(Cleared(s.cells, layout.columns, layout.rows), s.cells);
    }
  }

  /** The order within one Update. The click comes after the tick phase, so it
      flips a cell of the grid the tick phase produced; Space comes after the
      click, so a click with Space leaves the game running whatever its state
      was; R comes last, so a clicked active cell ends dead. */
  lemma UpdateOrder(s: Sim, layout: Layout, ticksPerGeneration: int, click: (int, int), restart: bool)
    requires ClickInside(s.cells, layout, click)
    ensures var ticked := TickPhase(s, layout, ticksPerGeneration);
      ClickInside(ticked.cells, layout, click)
      && UpdateSim(s, layout, ticksPerGeneration, Some(click), false, false) == ClickPhase(ticked, layout, click)
    ensures UpdateSim(s, layout, ticksPerGeneration, Some(click), true, restart).state == Running
    ensures UpdateSim(s, layout, ticksPerGeneration, Some(click), true, restart).ticks == 0
    ensures var (x, y) := ClickCell(layout, click);
      x < layout.columns && y < layout.rows ==>
      !UpdateSim(s, layout, ticksPerGeneration, Some(click), false, true).cells[x][y]
  {
  }

  /** k Updates with no input. */
  function Idle(s: Sim, layout: Layout, ticksPerGeneration: int, k: nat): Sim {
    if k == 0 then s
    else UpdateSim(Idle(s, layout, ticksPerGeneration, k - 1), layout, ticksPerGeneration, None, false, false)
  }

  lemma {:induction false} IdleSplit(s: Sim, layout: Layout, ticksPerGeneration: int, a: nat, b: nat)
    ensures Idle(s, layout, ticksPerGeneration, a + b)
      == Idle(Idle(s, layout, ticksPerGeneration, a), layout, ticksPerGeneration, b)
  {
    if b > 0 {
      IdleSplit(s, layout, ticksPerGeneration, a, b - 1);
    }
  }

  /** Cadence gating: a running game that starts a tick count with cadence N
      spends N - 1 Updates only counting ticks. */
  lemma {:induction false} IdleCounts(s: Sim, layout: Layout, ticksPerGeneration: int, k: nat)
    requires s.state == Running && s.ticks == 0
    requires k < ticksPerGeneration
    ensures Idle(s, layout, ticksPerGeneration, k) == s.(ticks := k)
  {
    if k > 0 {
      IdleCounts(s, layout, ticksPerGeneration, k - 1);
    }
  }

  /** ... and its N-th Update steps the grid once and starts the count again. */
  lemma CadenceGating(s: Sim, layout: Layout, ticksPerGeneration: int)
    requires s.state == Running && s.ticks == 0 && ticksPerGeneration > 0
    ensures Idle(s, layout, ticksPerGeneration, ticksPerGeneration)
      == s.(cells := NextGen(s.cells, layout.columns, layout.rows), generation := s.generation + 1)
  {
    IdleCounts(s, layout, ticksPerGeneration, ticksPerGeneration - 1);
  }

  /** Left running, the game advances one generation every N Updates: after
      k * N of them it shows the k-th generation. */
  lemma {:induction false} RunningGenerations(s: Sim, layout: Layout, ticksPerGeneration: int, k: nat)
    requires s.state == Running && s.ticks == 0 && ticksPerGeneration > 0
    ensures Idle(s, layout, ticksPerGeneration, k * ticksPerGeneration)
      == s.(cells := Generations(s.cells, layout.columns, layout.rows, k), generation := s.generation + k)
  {
    if k > 0 {
      var n := ticksPerGeneration;
      RunningGenerations(s, layout, n, k - 1);
      assert k * n == (k - 1) * n + n;
      IdleSplit(s, layout, n, (k - 1) * n, n);
      CadenceGating(Idle(s, layout, n, (k - 1) * n), layout, n);
    }
  }

  /** With a zero cadence, a paused game whose tick count is 0 steps on every
      idle Update: after k of them it shows the k-th generation. */
  lemma {:induction false} ZeroCadencePausedSteps(s: Sim, layout: Layout, k: nat)
    requires s.state == Paused && s.ticks == 0
    ensures Idle(s, layout, 0, k)
      == s.(cells := Generations(s.cells, layout.columns, layout.rows, k), generation := s.generation + k)
  {
    if k > 0 {
      ZeroCadencePausedSteps(s, layout, k - 1);
    }
  }

  /** ... while a game paused by a click keeps its non-zero tick count and,
      with a zero cadence, never steps. */
  lemma {:induction false} ZeroCadenceClickPausedFrozen(s: Sim, layout: Layout, k: nat)
    requires s.state == Paused && s.ticks != 0
    ensures Idle(s, layout, 0, k) == s
  {
    if k > 0 {
      ZeroCadenceClickPausedFrozen(s, layout, k - 1);
    }
  }
}
