/** The earlier, fixed-size game: a 640 x 480 canvas of 10-pixel cells, so a
    64 x 48 grid that is active in full. It has no theme. */
module Classic {
  import opened Life
  import opened Control

  const ScreenWidth := 640
  const ScreenHeight := 480
  const CellSize := 10
  const Columns := ScreenWidth / CellSize
  const Rows := ScreenHeight / CellSize

  /** The whole grid is the active region. */
  function FixedLayout(): (l: Layout)
    ensures l.columns == 64 && l.rows == 48
    ensures l.columns * l.cellSize == ScreenWidth && l.rows * l.cellSize == ScreenHeight
  {
    Layout(CellSize, Columns, Rows)
  }

  /** Every click on the canvas lands on a cell of the grid. */
  lemma CanvasClickInGrid(click: (int, int))
    requires 0 <= click.0 < ScreenWidth && 0 <= click.1 < ScreenHeight
    ensures ClickInside(Dead(Columns, Rows), FixedLayout(), click)
    ensures ClickCell(FixedLayout(), click).0 < Columns && ClickCell(FixedLayout(), click).1 < Rows
  {
  }

  class Game {
    var grid: array2<bool>
    var ticks: int
    var generation: int
    const ticksPerGeneration: int
    var state: State

    /** The grid as a value. */
    ghost var Cells: Grid

    ghost predicate Valid()
      reads this, grid
    {
      grid.Length0 == Columns && grid.Length1 == Rows
      && Shaped(Cells, Columns, Rows)
      && (forall x, y | 0 <= x < Columns && 0 <= y < Rows :: grid[x, y] == Cells[x][y])
      && TicksInRange(Snapshot(), ticksPerGeneration)
    }

    ghost function Snapshot(): Sim
      reads this
    {
      Sim(Cells, state, ticks, generation)
    }

    /** The zero value of the game with the host's cadence filled in: paused,
        counters at zero, every cell dead. */
    constructor (ticksPerGeneration: int)
      ensures Valid() && fresh(grid)
      ensures this.ticksPerGeneration == ticksPerGeneration
      ensures Snapshot() == Sim(Dead(Columns, Rows), Paused, 0, 0)
    {
      grid := new bool[Columns, Rows]((x, y) => false);
      ticks := 0;
      generation := 0;
      this.ticksPerGeneration := ticksPerGeneration;
      state := Paused;
      Cells := Dead(Columns, Rows);
    }

    /** The neighbour count of (x, y) in the grid. */
    method CountLiveNeighbors(x: int, y: int) returns (count: int)
      requires Valid()
      ensures count == Neighbors(Cells, Columns, Rows, x, y)
    {
      count := 0;
      for i := -1 to 2
        invariant count == OffsetsBefore(Cells, Columns, Rows, x, y, i)
      {
        for j := -1 to 2
          invariant count == OffsetsBefore(Cells, Columns, Rows, x, y, i) + ColumnPrefix(Cells, Columns, Rows, x, y, i, j)
        {
          if i == 0 && j == 0 {
            continue;
          }
          var nx, ny := x + i, y + j;
          if nx >= 0 && nx < Columns && ny >= 0 && ny < Rows {
            if grid[nx, ny] {
              count := count + 1;
            }
          }
        }
      }
      OffsetsCoverNeighbors(Cells, Columns, Rows, x, y);
    }

    /** One generation step into a fresh array, which then replaces the grid. */
    method Cycle()
      requires Valid()
      modifies this
      ensures Valid() && fresh(grid)
      ensures Snapshot() == old(Snapshot()).(cells := NextGen(old(Cells), Columns, Rows), generation := old(generation) + 1)
    {
      var newGrid := new bool[Columns, Rows]((x, y) => false);
      for i := 0 to Columns
        modifies newGrid
        invariant forall x, y | 0 <= x < Columns && 0 <= y < Rows ::
          newGrid[x, y] == (x < i && NextCell(Cells, Columns, Rows, x, y))
      {
        for j := 0 to Rows
          modifies newGrid
          invariant forall x, y | 0 <= x < Columns && 0 <= y < Rows ::
            newGrid[x, y] == ((x < i || (x == i && y < j)) && NextCell(Cells, Columns, Rows, x, y))
        {
          var count := CountLiveNeighbors(i, j);
          if grid[i, j] {
            newGrid[i, j] := count == 2 || count == 3;
          } else {
            newGrid[i, j] := count == 3;
          }
          assert newGrid[i, j] == NextCell(Cells, Columns, Rows, i, j);
        }
      }
      assert forall x, y | 0 <= x < Columns && 0 <= y < Rows ::
        newGrid[x, y] == NextGen(Cells, Columns, Rows)[x][y];
      grid := newGrid;
      Cells := NextGen(Cells, Columns, Rows);
      generation := generation + 1;
    }

    /** Flip the run state and start the tick count over. */
    method ToggleState()
      requires Valid()
      modifies this
      ensures Valid() && grid == old(grid)
      ensures Snapshot() == TogglePhase(old(Snapshot()))
    {
      if state == Paused {
        state := Running;
      } else {
        state := Paused;
      }
      ticks := 0;
    }

    /** Kill every cell in place. */
    method Reset()
      requires Valid()
      modifies this, grid
      ensures Valid() && grid == old(grid)
      ensures Snapshot() == ResetPhase(old(Snapshot()), FixedLayout())
    {
      for i := 0 to Columns
        invariant grid == old(grid) && Cells == old(Cells)
        invariant state == old(state) && ticks == old(ticks)
        invariant generation == if i > 0 then 0 else old(generation)
        invariant forall x, y | 0 <= x < Columns && 0 <= y < Rows ::
          grid[x, y] == (!(x < i) && Cells[x][y])
      {
        for j := 0 to Rows
          invariant grid == old(grid) && Cells == old(Cells)
          invariant state == old(state) && ticks == old(ticks)
          invariant generation == if i > 0 || j > 0 then 0 else old(generation)
          invariant forall x, y | 0 <= x < Columns && 0 <= y < Rows ::
            grid[x, y] == (!(x < i || (x == i && y < j)) && Cells[x][y])
        {
          grid[i, j] := false;
          generation := 0;
        }
      }
      Cells := Cleared(Cells, Columns, Rows);
    }

    /** A left click at pixel `click`: pause a running game and flip the cell under it. */
    method Click(click: (int, int))
      requires Valid()
      requires ClickInside(Cells, FixedLayout(), click)
      modifies this, grid
      ensures Valid() && grid == old(grid)
      ensures Snapshot() == ClickPhase(old(Snapshot()), FixedLayout(), click)
    {
      if state == Running {
        state := Paused;
      }
      var (x, y) := click;
      var cellX, cellY := Quot(x, CellSize), Quot(y, CellSize);
      grid[cellX, cellY] := !grid[cellX, cellY];
      Cells := Flip(Cells, cellX, cellY);
    }

    /** One frame: the tick phase, then a click at pixel `click` if there was
        one, then the Space (`space`) and R (`restart`) keys. */
    method Update(click: Option<(int, int)>, space: bool, restart: bool)
      requires Valid()
      requires click.Some? ==> ClickInside(Cells, FixedLayout(), click.value)
      modifies this, grid
      ensures Valid()
      ensures Snapshot() == UpdateSim(old(Snapshot()), FixedLayout(), ticksPerGeneration, click, space, restart)
    {
      if state == Running {
        ticks := ticks + 1;
      }
      if ticks == ticksPerGeneration {
        ticks := 0;
        Cycle();
      }
      assert Snapshot() == TickPhase(old(Snapshot()), FixedLayout(), ticksPerGeneration);
      if click.Some? {
        Click(click.value);
      }
      if space {
        ToggleState();
      }
      if restart {
        Reset();
      }
    }
  }
}
