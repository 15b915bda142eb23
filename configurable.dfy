/** The configurable game: a 640 x 480 canvas cut into square cells of a size
    chosen at construction. The grid is a fixed 128 x 96 backing array (room
    for the smallest cell size); only its top-left columns x rows part is the
    active region. */
module Configurable {
  import opened Life
  import opened Control

  const ScreenWidth := 640
  const ScreenHeight := 480
  const MinCellSize := 5
  const MaxColumns := ScreenWidth / MinCellSize
  const MaxRows := ScreenHeight / MinCellSize

  datatype Options = Options(cellSize: int)

  datatype ConfigError = CellSizeTooSmall(minimum: int, got: int)

  datatype Result<T> = Ok(value: T) | Err(error: ConfigError)

  /** The layout a cell size gives, or the construction error. The active
      region is as many whole cells as fit on the canvas, so it always fits the
      backing array. The rows run out first: a cell taller than the canvas
      leaves no row, and with it the whole region, empty. */
  function LayoutFor(options: Options): (r: Result<Layout>)
    ensures r.Err? <==> options.cellSize < MinCellSize
    ensures r.Err? ==> r.error == CellSizeTooSmall(MinCellSize, options.cellSize)
    ensures r.Ok? ==> var l := r.value;
      l.cellSize == options.cellSize
      && 0 <= l.columns <= MaxColumns && 0 <= l.rows <= MaxRows
      && l.columns * l.cellSize <= ScreenWidth < (l.columns + 1) * l.cellSize
      && l.rows * l.cellSize <= ScreenHeight < (l.rows + 1) * l.cellSize
      && (l.columns == 0 <==> l.cellSize > ScreenWidth)
      && (l.rows == 0 <==> l.cellSize > ScreenHeight)
      && (l.columns == 0 || l.rows == 0 <==> l.cellSize > ScreenHeight)
  {
    if options.cellSize < MinCellSize then
      Err(CellSizeTooSmall(MinCellSize, options.cellSize))
    else
      var columns := ScreenWidth / options.cellSize;
      var rows := ScreenHeight / options.cellSize;
      DivisionBound(ScreenWidth, options.cellSize);
      DivisionBound(ScreenHeight, options.cellSize);
      Ok(Layout(options.cellSize, columns, rows))
  }

  /** n / d for d at least the minimum cell size is at most n / 5. */
  lemma DivisionBound(n: nat, d: int)
    requires d >= MinCellSize
    ensures 0 <= n / d <= n / MinCellSize
    ensures (n / d) * d <= n < (n / d + 1) * d
    ensures n / d == 0 <==> d > n
  {
    var q := n / d;
    assert q * d <= n;
    assert q * MinCellSize <= q * d;
    if q > 0 {
      assert d <= q * d;
    }
  }

  /** Any click on the canvas lands in the backing array, whatever the cell size. */
  lemma CanvasClickInside(layout: Layout, click: (int, int))
    requires layout.cellSize >= MinCellSize
    requires 0 <= click.0 < ScreenWidth && 0 <= click.1 < ScreenHeight
    ensures ClickInside(Dead(MaxColumns, MaxRows), layout, click)
  {
    DivisionBound(click.0, layout.cellSize);
    DivisionBound(click.1, layout.cellSize);
    assert click.0 / MinCellSize < MaxColumns;
    assert click.1 / MinCellSize < MaxRows;
  }

  /** ... but not always in the active region: with 7-pixel cells the canvas
      holds 91 columns, and a click on its last pixel column flips a cell of
      column 91, which is never shown, counted or cleared by R. */
  lemma ClickBeyondActiveRegion()
    ensures LayoutFor(Options(7)) == Ok(Layout(7, 91, 68))
    ensures ClickCell(Layout(7, 91, 68), (639, 0)) == (91, 0)
  {
  }

  class Game {
    var grid: array2<bool>
    const cellSize: int
    const columns: int
    const rows: int
    var ticks: int
    var generation: int
    const ticksPerGeneration: int
    var state: State
    var selectedThemeID: ThemeID

    /** The grid as a value. */
    ghost var Cells: Grid

    ghost predicate Valid()
      reads this, grid
    {
      grid.Length0 == MaxColumns && grid.Length1 == MaxRows
      && Shaped(Cells, MaxColumns, MaxRows)
      && (forall x, y | 0 <= x < MaxColumns && 0 <= y < MaxRows :: grid[x, y] == Cells[x][y])
      && LayoutFor(Options(cellSize)) == Ok(Layout(cellSize, columns, rows))
      && TicksInRange(Snapshot(), ticksPerGeneration)
    }

    ghost function Snapshot(): Sim
      reads this
    {
      Sim(Cells, state, ticks, generation)
    }

    function Dimensions(): Layout {
      Layout(cellSize, columns, rows)
    }

    /** A game for a valid layout: paused, dark theme, counters at zero, all cells dead. */
    constructor (layout: Layout, ticksPerGeneration: int)
      requires LayoutFor(Options(layout.cellSize)) == Ok(layout)
      ensures Valid() && fresh(grid)
      ensures Dimensions() == layout && this.ticksPerGeneration == ticksPerGeneration
      ensures Snapshot() == Sim(Dead(MaxColumns, MaxRows), Paused, 0, 0)
      ensures selectedThemeID == Dark
    {
      grid := new bool[MaxColumns, MaxRows]((x, y) => false);
      cellSize := layout.cellSize;
      columns := layout.columns;
      rows := layout.rows;
      ticks := 0;
      generation := 0;
      this.ticksPerGeneration := ticksPerGeneration;
      state := Paused;
      selectedThemeID := Dark;
      Cells := Dead(MaxColumns, MaxRows);
    }

    /** The neighbour count of (x, y) in the active region. */
    method CountLiveNeighbors(x: int, y: int) returns (count: int)
      requires Valid()
      ensures count == Neighbors(Cells, columns, rows, x, y)
    {
      count := 0;
      for i := -1 to 2
        invariant count == OffsetsBefore(Cells, columns, rows, x, y, i)
      {
        for j := -1 to 2
          invariant count == OffsetsBefore(Cells, columns, rows, x, y, i) + ColumnPrefix(Cells, columns, rows, x, y, i, j)
        {
          if i == 0 && j == 0 {
            continue;
          }
          var nx, ny := x + i, y + j;
          if nx >= 0 && nx < columns && ny >= 0 && ny < rows {
            if grid[nx, ny] {
              count := count + 1;
            }
          }
        }
      }
      OffsetsCoverNeighbors(Cells, columns, rows, x, y);
    }

    /** One generation step into a fresh array, which then replaces the grid. */
    method Cycle()
      requires Valid()
      modifies this
      ensures Valid() && fresh(grid)
      ensures Snapshot() == old(Snapshot()).(cells := NextGen(old(Cells), columns, rows), generation := old(generation) + 1)
      ensures selectedThemeID == old(selectedThemeID)
    {
      var newGrid := new bool[MaxColumns, MaxRows]((x, y) => false);
      for i := 0 to columns
        modifies newGrid
        invariant forall x, y | 0 <= x < MaxColumns && 0 <= y < MaxRows ::
          newGrid[x, y] == (x < i && NextCell(Cells, columns, rows, x, y))
      {
        for j := 0 to rows
          modifies newGrid
          invariant forall x, y | 0 <= x < MaxColumns && 0 <= y < MaxRows ::
            newGrid[x, y] == ((x < i || (x == i && y < j)) && NextCell(Cells, columns, rows, x, y))
        {
          var count := CountLiveNeighbors(i, j);
          if grid[i, j] {
            newGrid[i, j] := count == 2 || count == 3;
          } else {
            newGrid[i, j] := count == 3;
          }
          assert newGrid[i, j] == NextCell(Cells, columns, rows, i, j);
        }
      }
      assert forall x, y | 0 <= x < MaxColumns && 0 <= y < MaxRows ::
        newGrid[x, y] == NextGen(Cells, columns, rows)[x][y];
      grid := newGrid;
      Cells := NextGen(Cells, columns, rows);
      generation := generation + 1;
    }

    /** Flip the run state and start the tick count over. */
    method ToggleState()
      requires Valid()
      modifies this
      ensures Valid() && grid == old(grid)
      ensures Snapshot() == TogglePhase(old(Snapshot()))
      ensures selectedThemeID == old(selectedThemeID)
    {
      if state == Paused {
        state := Running;
      } else {
        state := Paused;
      }
      ticks := 0;
    }

    /** Kill the active region in place. */
    method Reset()
      requires Valid()
      modifies this, grid
      ensures Valid() && grid == old(grid)
      ensures Snapshot() == ResetPhase(old(Snapshot()), Dimensions())
      ensures selectedThemeID == old(selectedThemeID)
    {
      for i := 0 to columns
        invariant grid == old(grid) && Cells == old(Cells)
        invariant state == old(state) && ticks == old(ticks) && selectedThemeID == old(selectedThemeID)
        invariant generation == if i > 0 && rows > 0 then 0 else old(generation)
        invariant forall x, y | 0 <= x < MaxColumns && 0 <= y < MaxRows ::
          grid[x, y] == (!(x < i && y < rows) && Cells[x][y])
      {
        for j := 0 to rows
          invariant grid == old(grid) && Cells == old(Cells)
          invariant state == old(state) && ticks == old(ticks) && selectedThemeID == old(selectedThemeID)
          invariant generation == if (i > 0 && rows > 0) || j > 0 then 0 else old(generation)
          invariant forall x, y | 0 <= x < MaxColumns && 0 <= y < MaxRows ::
            grid[x, y] == (!((x < i || (x == i && y < j)) && y < rows) && Cells[x][y])
        {
          grid[i, j] := false;
          generation := 0;
        }
      }
      Cells := Cleared(Cells, columns, rows);
    }

    /** Flip the colour theme; nothing else changes. */
    method SwitchTheme()
      requires Valid()
      modifies this
      ensures Valid() && grid == old(grid)
      ensures Snapshot() == old(Snapshot())
      ensures selectedThemeID == Switched(old(selectedThemeID))
    {
      if selectedThemeID == Dark {
        selectedThemeID := Light;
      } else {
        selectedThemeID := Dark;
      }
    }

    /** A left click at pixel `click`: pause a running game and flip the cell under it. */
    method Click(click: (int, int))
      requires Valid()
      requires ClickInside(Cells, Dimensions(), click)
      modifies this, grid
      ensures Valid() && grid == old(grid)
      ensures Snapshot() == ClickPhase(old(Snapshot()), Dimensions(), click)
      ensures selectedThemeID == old(selectedThemeID)
    {
      if state == Running {
        state := Paused;
      }
      var (x, y) := click;
      var cellX, cellY := Quot(x, cellSize), Quot(y, cellSize);
      grid[cellX, cellY] := !grid[cellX, cellY];
      Cells := Flip(Cells, cellX, cellY);
    }

    /** One frame: the tick phase, then a click at pixel `click` if there was
        one, then the Space (`space`), R (`restart`) and T (`switchTheme`) keys. */
    method Update(click: Option<(int, int)>, space: bool, restart: bool, switchTheme: bool)
      requires Valid()
      requires click.Some? ==> ClickInside(Cells, Dimensions(), click.value)
      modifies this, grid
      ensures Valid()
      ensures Snapshot() == UpdateSim(old(Snapshot()), Dimensions(), ticksPerGeneration, click, space, restart)
      ensures selectedThemeID == if switchTheme then Switched(old(selectedThemeID)) else old(selectedThemeID)
    {
      if state == Running {
        ticks := ticks + 1;
      }
      if ticks == ticksPerGeneration {
        ticks := 0;
        Cycle();
      }
      assert Snapshot() == TickPhase(old(Snapshot()), Dimensions(), ticksPerGeneration);
      if click.Some? {
        Click(click.value);
      }
      if space {
        ToggleState();
      }
      if restart {
        Reset();
      }
      if switchTheme {
        SwitchTheme();
      }
    }
  }

  /** The constructor from options: a cell size below the minimum is a fatal
      configuration error and yields no game. */
  method NewFromOptions(options: Options, ticksPerGeneration: int) returns (r: Result<Game>)
    ensures r.Err? <==> options.cellSize < MinCellSize
    ensures r.Ok? ==> LayoutFor(options) == Ok(r.value.Dimensions())
    ensures r.Ok? ==> fresh(r.value) && r.value.Valid()
    ensures r.Ok? ==> r.value.Snapshot() == Sim(Dead(MaxColumns, MaxRows), Paused, 0, 0)
    ensures r.Ok? ==> r.value.selectedThemeID == Dark && r.value.ticksPerGeneration == ticksPerGeneration
  {
    var layout := LayoutFor(options);
    if layout.Err? {
      return Err(layout.error);
    }
    var g := new Game(layout.value, ticksPerGeneration);
    return Ok(g);
  }
}
