/** The Game of Life rule on a bounded, non-wrapping grid, as pure functions.
    A grid is column-major: g[x][y] is the cell in column x, row y. Only the
    active region [0, columns) x [0, rows) takes part in the simulation; the
    rest of the backing storage is neither counted nor kept alive. */
module Life {

  type Grid = seq<seq<bool>>

  /** g has exactly w columns of h cells each. */
  predicate Shaped(g: Grid, w: int, h: int) {
    |g| == w && forall x | 0 <= x < |g| :: |g[x]| == h
  }

  /** Two grids of the same shape that agree on every cell are equal. */
  lemma SameCells(a: Grid, b: Grid)
    requires |a| == |b| && forall x | 0 <= x < |a| :: |a[x]| == |b[x]|
    requires forall x, y | 0 <= x < |a| && 0 <= y < |a[x]| :: a[x][y] == b[x][y]
    ensures a == b
  {
    forall x | 0 <= x < |a|
      ensures a[x] == b[x]
    {
      assert forall y | 0 <= y < |a[x]| :: a[x][y] == b[x][y];
    }
  }

  /** The grid of w x h dead cells. */
  function Dead(w: nat, h: nat): (g: Grid)
    ensures Shaped(g, w, h)
    ensures forall x, y | 0 <= x < w && 0 <= y < h :: !g[x][y]
  {
    seq(w, _ => seq(h, _ => false))
  }

  /** (x, y) is a live cell of the active region; anything outside it counts as dead. */
  predicate Live(g: Grid, columns: int, rows: int, x: int, y: int) {
    0 <= x < columns && 0 <= y < rows && x < |g| && y < |g[x]| && g[x][y]
  }

  function Count(b: bool): nat {
    if b then 1 else 0
  }

  /** The number of live cells of the active region among the eight cells
      around (x, y): the Moore neighbourhood, without wrap-around. */
  function Neighbors(g: Grid, columns: int, rows: int, x: int, y: int): (n: nat)
    ensures n <= 8
  {
    Count(Live(g, columns, rows, x - 1, y - 1)) + Count(Live(g, columns, rows, x - 1, y))
    + Count(Live(g, columns, rows, x - 1, y + 1)) + Count(Live(g, columns, rows, x, y - 1))
    + Count(Live(g, columns, rows, x, y + 1)) + Count(Live(g, columns, rows, x + 1, y - 1))
    + Count(Live(g, columns, rows, x + 1, y)) + Count(Live(g, columns, rows, x + 1, y + 1))
  }

  /** What the neighbour-counting double loop has added once it reaches offset
      (i, j): offset (i, j) itself, then the partial sums in loop order. */
  function Offset(g: Grid, columns: int, rows: int, x: int, y: int, i: int, j: int): nat {
    if i == 0 && j == 0 then 0 else Count(Live(g, columns, rows, x + i, y + j))
  }

  /** Offsets (i, -1) .. (i, j - 1). */
  function ColumnPrefix(g: Grid, columns: int, rows: int, x: int, y: int, i: int, j: int): nat {
    (if j > -1 then Offset(g, columns, rows, x, y, i, -1) else 0)
    + (if j > 0 then Offset(g, columns, rows, x, y, i, 0) else 0)
    + (if j > 1 then Offset(g, columns, rows, x, y, i, 1) else 0)
  }

  /** All offsets whose first component is below i. */
  function OffsetsBefore(g: Grid, columns: int, rows: int, x: int, y: int, i: int): nat {
    (if i > -1 then ColumnPrefix(g, columns, rows, x, y, -1, 2) else 0)
    + (if i > 0 then ColumnPrefix(g, columns, rows, x, y, 0, 2) else 0)
    + (if i > 1 then ColumnPrefix(g, columns, rows, x, y, 1, 2) else 0)
  }

  /** The loop order visits every offset but (0, 0) once, so its total is the
      neighbour count. */
  lemma OffsetsCoverNeighbors(g: Grid, columns: int, rows: int, x: int, y: int)
    ensures OffsetsBefore(g, columns, rows, x, y, 2) == Neighbors(g, columns, rows, x, y)
  {
  }

  /** A cell of a corner of the active region has at most three neighbours. */
  lemma CornerNeighbors(g: Grid, columns: int, rows: int, x: int, y: int)
    requires 0 < columns && 0 < rows
    requires x == 0 || x == columns - 1
    requires y == 0 || y == rows - 1
    ensures Neighbors(g, columns, rows, x, y) <= 3
  {
  }

  /** A cell on an edge of the active region has at most five neighbours. */
  lemma EdgeNeighbors(g: Grid, columns: int, rows: int, x: int, y: int)
    requires 0 <= x < columns && 0 <= y < rows
    requires x == 0 || x == columns - 1 || y == 0 || y == rows - 1
    ensures Neighbors(g, columns, rows, x, y) <= 5
  {
  }

  /** The birth/survival rule: a live cell survives with two or three live
      neighbours, a dead cell comes alive with exactly three. Put the other
      way round (B3/S23): exactly three neighbours always give a live cell,
      exactly two keep the cell as it was, and any other count kills it. */
  function Rule(alive: bool, n: int): (b: bool)
    ensures n == 3 ==> b
    ensures n == 2 ==> b == alive
    ensures n != 2 && n != 3 ==> !b
  {
    if alive then n == 2 || n == 3 else n == 3
  }

  /** The next state of cell (x, y): an active cell follows the rule against
      the old grid, any other cell is dead. */
  predicate NextCell(g: Grid, columns: int, rows: int, x: int, y: int)
    requires 0 <= x < |g| && 0 <= y < |g[x]|
  {
    x < columns && y < rows && Rule(g[x][y], Neighbors(g, columns, rows, x, y))
  }

  /** The next generation, every cell computed from the old grid. The shape is kept. */
  function NextGen(g: Grid, columns: int, rows: int): (r: Grid)
    ensures |r| == |g| && forall x | 0 <= x < |g| :: |r[x]| == |g[x]|
  {
    seq(|g|, x requires 0 <= x < |g| =>
      seq(|g[x]|, y requires 0 <= y < |g[x]| => NextCell(g, columns, rows, x, y)))
  }

  /** The three effects of a generation step, cell by cell. */
  lemma NextGenCell(g: Grid, columns: int, rows: int, x: int, y: int)
    requires 0 <= x < |g| && 0 <= y < |g[x]|
    ensures 0 <= x < columns && 0 <= y < rows && g[x][y] ==>
      (NextGen(g, columns, rows)[x][y] <==> Neighbors(g, columns, rows, x, y) in {2, 3})
    ensures 0 <= x < columns && 0 <= y < rows && !g[x][y] ==>
      (NextGen(g, columns, rows)[x][y] <==> Neighbors(g, columns, rows, x, y) == 3)
    ensures x >= columns || y >= rows ==> !NextGen(g, columns, rows)[x][y]
  {
  }

  /** k generation steps. */
  function Generations(g: Grid, columns: int, rows: int, k: nat): Grid {
    if k == 0 then g else NextGen(Generations(g, columns, rows, k - 1), columns, rows)
  }

  /** A grid with no live cell stays that way for ever. */
  lemma {:induction false} DeadStaysDead(w: nat, h: nat, columns: int, rows: int, k: nat)
    ensures Generations(Dead(w, h), columns, rows, k) == Dead(w, h)
  {
    if k > 0 {
      DeadStaysDead(w, h, columns, rows, k - 1);
      var d := Dead(w, h);
      forall x, y | 0 <= x < w && 0 <= y < h
        ensures NextGen(d, columns, rows)[x][y] == d[x][y]
      {
        assert Neighbors(d, columns, rows, x, y) == 0;
      }
      SameCells(NextGen(d, columns, rows), d);
    }
  }

  /** Three small patterns, each anchored at a cell (x, y): the 2 x 2 block with
      (x, y) as its first cell, and the three-cell blinker centred on (x, y),
      lying along a row or along a column. */
  datatype Shape = Block | Horizontal | Vertical

  predicate InShape(s: Shape, x: int, y: int, a: int, b: int) {
    match s
    case Block => x <= a <= x + 1 && y <= b <= y + 1
    case Horizontal => b == y && x - 1 <= a <= x + 1
    case Vertical => a == x && y - 1 <= b <= y + 1
  }

  /** Every cell of the shape lies in the active region. */
  predicate Fits(s: Shape, x: int, y: int, columns: int, rows: int) {
    match s
    case Block => 0 <= x && x + 1 < columns && 0 <= y && y + 1 < rows
    case Horizontal => 1 <= x && x + 1 < columns && 0 <= y < rows
    case Vertical => 0 <= x < columns && 1 <= y && y + 1 < rows
  }

  /** The w x h grid whose only live cells are those of the shape. */
  function Placed(w: nat, h: nat, s: Shape, x: int, y: int): (g: Grid)
    ensures Shaped(g, w, h)
  {
    seq(w, a => seq(h, b => InShape(s, x, y, a, b)))
  }

  /** The neighbour count of (i, j) on an unbounded plane holding only the shape. */
  function ShapeNeighbors(s: Shape, x: int, y: int, i: int, j: int): nat {
    Count(InShape(s, x, y, i - 1, j - 1)) + Count(InShape(s, x, y, i - 1, j))
    + Count(InShape(s, x, y, i - 1, j + 1)) + Count(InShape(s, x, y, i, j - 1))
    + Count(InShape(s, x, y, i, j + 1)) + Count(InShape(s, x, y, i + 1, j - 1))
    + Count(InShape(s, x, y, i + 1, j)) + Count(InShape(s, x, y, i + 1, j + 1))
  }

  lemma PlacedLive(w: nat, h: nat, columns: int, rows: int, s: Shape, x: int, y: int, a: int, b: int)
    requires Fits(s, x, y, columns, rows) && columns <= w && rows <= h
    ensures Live(Placed(w, h, s, x, y), columns, rows, a, b) == InShape(s, x, y, a, b)
  {
  }

  /** A shape inside the active region has the neighbours it would have on an
      unbounded plane: the edge of the region adds none. */
  lemma PlacedNeighbors(w: nat, h: nat, columns: int, rows: int, s: Shape, x: int, y: int, i: int, j: int)
    requires Fits(s, x, y, columns, rows) && columns <= w && rows <= h
    ensures Neighbors(Placed(w, h, s, x, y), columns, rows, i, j) == ShapeNeighbors(s, x, y, i, j)
  {
    PlacedLive(w, h, columns, rows, s, x, y, i - 1, j - 1);
    PlacedLive(w, h, columns, rows, s, x, y, i - 1, j);
    PlacedLive(w, h, columns, rows, s, x, y, i - 1, j + 1);
    PlacedLive(w, h, columns, rows, s, x, y, i, j - 1);
    PlacedLive(w, h, columns, rows, s, x, y, i, j + 1);
    PlacedLive(w, h, columns, rows, s, x, y, i + 1, j - 1);
    PlacedLive(w, h, columns, rows, s, x, y, i + 1, j);
    PlacedLive(w, h, columns, rows, s, x, y, i + 1, j + 1);
  }

  /** One generation step of a shape, cell by cell, as on an unbounded plane. */
  lemma PlacedStep(w: nat, h: nat, columns: int, rows: int, s: Shape, x: int, y: int, i: int, j: int)
    requires Fits(s, x, y, columns, rows) && columns <= w && rows <= h
    requires 0 <= i < w && 0 <= j < h
    ensures NextGen(Placed(w, h, s, x, y), columns, rows)[i][j]
      == (i < columns && j < rows && Rule(InShape(s, x, y, i, j), ShapeNeighbors(s, x, y, i, j)))
  {
    PlacedNeighbors(w, h, columns, rows, s, x, y, i, j);
  }

  /** A block inside the active region is a still life. */
  lemma BlockIsStill(w: nat, h: nat, columns: int, rows: int, x: int, y: int)
    requires Fits(Block, x, y, columns, rows) && columns <= w && rows <= h
    ensures NextGen(Placed(w, h, Block, x, y), columns, rows) == Placed(w, h, Block, x, y)
  {
    var g := Placed(w, h, Block, x, y);
    var n := NextGen(g, columns, rows);
    forall i, j | 0 <= i < w && 0 <= j < h
      ensures n[i][j] == g[i][j]
    {
      PlacedStep(w, h, columns, rows, Block, x, y, i, j);
      if InShape(Block, x, y, i, j) {
        assert ShapeNeighbors(Block, x, y, i, j) == 3;
      } else {
        assert ShapeNeighbors(Block, x, y, i, j) <= 2;
      }
    }
    SameCells(n, g);
  }

  /** A horizontal blinker with room around it turns vertical, and back: a
      period-two oscillator. */
  lemma BlinkerOscillates(w: nat, h: nat, columns: int, rows: int, x: int, y: int)
    requires 1 <= x && x + 1 < columns <= w
    requires 1 <= y && y + 1 < rows <= h
    ensures NextGen(Placed(w, h, Horizontal, x, y), columns, rows) == Placed(w, h, Vertical, x, y)
    ensures NextGen(Placed(w, h, Vertical, x, y), columns, rows) == Placed(w, h, Horizontal, x, y)
    ensures Generations(Placed(w, h, Horizontal, x, y), columns, rows, 2) == Placed(w, h, Horizontal, x, y)
  {
    BlinkerTurns(w, h, columns, rows, x, y, Horizontal);
    BlinkerTurns(w, h, columns, rows, x, y, Vertical);
    assert Generations(Placed(w, h, Horizontal, x, y), columns, rows, 1) == Placed(w, h, Vertical, x, y);
  }

  lemma BlinkerTurns(w: nat, h: nat, columns: int, rows: int, x: int, y: int, s: Shape)
    requires 1 <= x && x + 1 < columns <= w
    requires 1 <= y && y + 1 < rows <= h
    requires s != Block
    ensures NextGen(Placed(w, h, s, x, y), columns, rows)
      == Placed(w, h, if s == Horizontal then Vertical else Horizontal, x, y)
  {
    var t := if s == Horizontal then Vertical else Horizontal;
    var g := Placed(w, h, s, x, y);
    var n := NextGen(g, columns, rows);
    var z := Placed(w, h, t, x, y);
    forall i, j | 0 <= i < w && 0 <= j < h
      ensures n[i][j] == z[i][j]
    {
      PlacedStep(w, h, columns, rows, s, x, y, i, j);
      if InShape(t, x, y, i, j) {
        assert ShapeNeighbors(s, x, y, i, j) == if i == x && j == y then 2 else 3;
      } else if InShape(s, x, y, i, j) {
        assert ShapeNeighbors(s, x, y, i, j) == 1;
      } else {
        assert ShapeNeighbors(s, x, y, i, j) <= 2;
      }
    }
    SameCells(n, z);
  }

  /** Every active cell dead, every other cell as it was. */
  function Cleared(g: Grid, columns: int, rows: int): (r: Grid)
    ensures |r| == |g| && forall x | 0 <= x < |g| :: |r[x]| == |g[x]|
  {
    seq(|g|, x requires 0 <= x < |g| =>
      seq(|g[x]|, y requires 0 <= y < |g[x]| => !(x < columns && y < rows) && g[x][y]))
  }

  /** Clearing kills exactly the active region, and clearing twice is clearing once. */
  lemma ClearedEffect(g: Grid, columns: int, rows: int)
    ensures forall x, y | 0 <= x < |g| && 0 <= y < |g[x]| ::
      !Live(Cleared(g, columns, rows), columns, rows, x, y)
    ensures forall x, y | 0 <= x < |g| && 0 <= y < |g[x]| && !(x < columns && y < rows) ::
      Cleared(g, columns, rows)[x][y] == g[x][y]
    ensures Cleared(Cleared(g, columns, rows), columns, rows) == Cleared(g, columns, rows)
  {
    var c := Cleared(g, columns, rows);
    SameCells(Cleared(c, columns, rows), c);
  }

  /** The grid with the one cell (x, y) flipped. */
  function Flip(g: Grid, x: int, y: int): (r: Grid)
    requires 0 <= x < |g| && 0 <= y < |g[x]|
    ensures |r| == |g| && forall i | 0 <= i < |g| :: |r[i]| == |g[i]|
    ensures r[x][y] == !g[x][y]
    ensures forall i, j | 0 <= i < |g| && 0 <= j < |g[i]| && (i, j) != (x, y) :: r[i][j] == g[i][j]
  {
    g[x := g[x][y := !g[x][y]]]
  }

  /** Flipping the same cell twice restores the grid. */
  lemma FlipTwice(g: Grid, x: int, y: int)
    requires 0 <= x < |g| && 0 <= y < |g[x]|
    ensures Flip(Flip(g, x, y), x, y) == g
  {
    SameCells(Flip(Flip(g, x, y), x, y), g);
  }
}
