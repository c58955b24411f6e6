/**
 * The grid maze of chapter 2. A maze is a rows x columns grid of cells; a
 * location is a (row, column) pair. The cells that the original fills at
 * random are given here as a set of blocked locations. Start and goal are
 * written after the blocked cells, the goal last.
 */
module Mazes {
  datatype Cell = Empty | Blocked | Start | Goal | PathCell

  datatype MazeLocation = MazeLocation(row: int, column: int)

  function Abs(x: int): nat
  {
    if x < 0 then -x else x
  }

  /** The location lies inside a rows x columns grid. */
  predicate InBounds(rows: int, columns: int, ml: MazeLocation)
  {
    0 <= ml.row < rows && 0 <= ml.column < columns
  }

  /** Every row of g has `columns` cells and there are `rows` rows. */
  ghost predicate Shaped(g: seq<seq<Cell>>, rows: int, columns: int)
  {
    |g| == rows && forall r :: 0 <= r < |g| ==> |g[r]| == columns
  }

  function At(g: seq<seq<Cell>>, ml: MazeLocation): Cell
    requires 0 <= ml.row < |g| && 0 <= ml.column < |g[ml.row]|
  {
    g[ml.row][ml.column]
  }

  /** `grid[row][column] = cell`. */
  function SetCell(g: seq<seq<Cell>>, ml: MazeLocation, cell: Cell): (h: seq<seq<Cell>>)
    requires 0 <= ml.row < |g| && 0 <= ml.column < |g[ml.row]|
    ensures |h| == |g| && forall r :: 0 <= r < |g| ==> |h[r]| == |g[r]|
    ensures forall r, c :: 0 <= r < |g| && 0 <= c < |g[r]| ==>
      h[r][c] == if MazeLocation(r, c) == ml then cell else g[r][c]
  {
    g[ml.row := g[ml.row][ml.column := cell]]
  }

  /** Every location of ps lies inside g. */
  ghost predicate AllInside(g: seq<seq<Cell>>, ps: seq<MazeLocation>)
  {
    forall i :: 0 <= i < |ps| ==> 0 <= ps[i].row < |g| && 0 <= ps[i].column < |g[ps[i].row]|
  }

  /** The grid after each location of ps, in order, is set to `cell`. */
  function PaintAll(g: seq<seq<Cell>>, ps: seq<MazeLocation>, cell: Cell): (h: seq<seq<Cell>>)
    requires AllInside(g, ps)
    ensures |h| == |g| && forall r :: 0 <= r < |g| ==> |h[r]| == |g[r]|
  {
    if ps == [] then g else SetCell(PaintAll(g, ps[..|ps| - 1], cell), ps[|ps| - 1], cell)
  }

  /** A location of ps ends up holding `cell`; every other location is unchanged. */
  lemma {:induction false} PaintAllAt(g: seq<seq<Cell>>, ps: seq<MazeLocation>, cell: Cell, r: int, c: int)
    requires AllInside(g, ps) && 0 <= r < |g| && 0 <= c < |g[r]|
    ensures PaintAll(g, ps, cell)[r][c] == if MazeLocation(r, c) in ps then cell else g[r][c]
  {
    if ps != [] {
      var init := ps[..|ps| - 1];
      PaintAllAt(g, init, cell, r, c);
      assert ps == init + [ps[|ps| - 1]];
    }
  }

  /** What `mark` and `clear` leave: the path painted, then start and goal restored. */
  function Painted(g: seq<seq<Cell>>, ps: seq<MazeLocation>, cell: Cell, start: MazeLocation, goal: MazeLocation)
    : (h: seq<seq<Cell>>)
    requires AllInside(g, ps)
    requires 0 <= start.row < |g| && 0 <= start.column < |g[start.row]|
    requires 0 <= goal.row < |g| && 0 <= goal.column < |g[goal.row]|
    ensures |h| == |g| && forall r :: 0 <= r < |g| ==> |h[r]| == |g[r]|
  {
    SetCell(SetCell(PaintAll(g, ps, cell), start, Start), goal, Goal)
  }

  /** Cell by cell: the goal wins over the start, the start over the path, the path over the old contents. */
  lemma PaintedAt(g: seq<seq<Cell>>, ps: seq<MazeLocation>, cell: Cell, start: MazeLocation, goal: MazeLocation,
                  r: int, c: int)
    requires AllInside(g, ps)
    requires 0 <= start.row < |g| && 0 <= start.column < |g[start.row]|
    requires 0 <= goal.row < |g| && 0 <= goal.column < |g[goal.row]|
    requires 0 <= r < |g| && 0 <= c < |g[r]|
    ensures Painted(g, ps, cell, start, goal)[r][c] ==
      if MazeLocation(r, c) == goal then Goal
      else if MazeLocation(r, c) == start then Start
      else if MazeLocation(r, c) in ps then cell
      else g[r][c]
  {
    PaintAllAt(g, ps, cell, r, c);
  }

  /**
   * Clearing a marked path gives the grid back, provided the path's cells
   * other than start and goal were empty and the start and goal cells held
   * Start and Goal.
   */
  lemma MarkThenClear(g: seq<seq<Cell>>, ps: seq<MazeLocation>, start: MazeLocation, goal: MazeLocation)
    requires AllInside(g, ps)
    requires 0 <= start.row < |g| && 0 <= start.column < |g[start.row]|
    requires 0 <= goal.row < |g| && 0 <= goal.column < |g[goal.row]|
    requires At(g, goal) == Goal && (start != goal ==> At(g, start) == Start)
    requires forall i :: 0 <= i < |ps| && ps[i] != start && ps[i] != goal ==> At(g, ps[i]) == Empty
    ensures Painted(Painted(g, ps, PathCell, start, goal), ps, Empty, start, goal) == g
  {
    var m := Painted(g, ps, PathCell, start, goal);
    var h := Painted(m, ps, Empty, start, goal);
    forall r | 0 <= r < |g| ensures h[r] == g[r] {
      forall c | 0 <= c < |g[r]| ensures h[r][c] == g[r][c] {
        PaintedAt(m, ps, Empty, start, goal, r, c);
        PaintedAt(g, ps, PathCell, start, goal, r, c);
        var ml := MazeLocation(r, c);
        if ml in ps && ml != start && ml != goal {
          var i :| 0 <= i < |ps| && ps[i] == ml;
        }
      }
    }
  }

  /** The grid the constructor builds, with the given cells blocked. */
  function Layout(rows: nat, columns: nat, blocked: set<MazeLocation>): (g: seq<seq<Cell>>)
    ensures Shaped(g, rows, columns)
    ensures forall r, c :: 0 <= r < rows && 0 <= c < columns ==>
      g[r][c] == if MazeLocation(r, c) in blocked then Blocked else Empty
  {
    seq(rows, r => seq(columns, c => if MazeLocation(r, c) in blocked then Blocked else Empty))
  }

  /** `manhattan_distance(goal)(ml)`: steps along rows plus steps along columns. */
  function ManhattanDistance(goal: MazeLocation, ml: MazeLocation): (d: nat)
    ensures d == 0 <==> ml == goal
  {
    Abs(ml.column - goal.column) + Abs(ml.row - goal.row)
  }

  /** The distance is symmetric and obeys the triangle inequality. */
  lemma ManhattanMetric(a: MazeLocation, b: MazeLocation, c: MazeLocation)
    ensures ManhattanDistance(a, b) == ManhattanDistance(b, a)
    ensures ManhattanDistance(a, c) <= ManhattanDistance(a, b) + ManhattanDistance(b, c)
  {
  }

  /** One step up, down, left or right. */
  predicate Adjacent(a: MazeLocation, b: MazeLocation)
  {
    ManhattanDistance(a, b) == 1
  }

  /** A step changes the distance to any goal by exactly one. */
  lemma ManhattanStep(goal: MazeLocation, a: MazeLocation, b: MazeLocation)
    requires Adjacent(a, b)
    ensures Abs(ManhattanDistance(goal, a) - ManhattanDistance(goal, b)) == 1
  {
  }

  /** A location inside the grid whose cell is not blocked. */
  predicate Open(g: seq<seq<Cell>>, rows: int, columns: int, n: MazeLocation)
    requires Shaped(g, rows, columns)
  {
    InBounds(rows, columns, n) && At(g, n) != Blocked
  }

  /** The open locations of cands, in order. */
  function KeepOpen(g: seq<seq<Cell>>, rows: int, columns: int, cands: seq<MazeLocation>): (kept: seq<MazeLocation>)
    requires Shaped(g, rows, columns)
    ensures |kept| <= |cands|
    ensures forall n :: n in kept <==> n in cands && Open(g, rows, columns, n)
  {
    if cands == [] then []
    else (if Open(g, rows, columns, cands[0]) then [cands[0]] else []) + KeepOpen(g, rows, columns, cands[1..])
  }

  /** Keeping some of a list of distinct locations keeps them distinct. */
  lemma {:induction false} KeepOpenDistinct(g: seq<seq<Cell>>, rows: int, columns: int, cands: seq<MazeLocation>)
    requires Shaped(g, rows, columns)
    requires forall i, j :: 0 <= i < j < |cands| ==> cands[i] != cands[j]
    ensures forall i, j :: 0 <= i < j < |KeepOpen(g, rows, columns, cands)| ==>
      KeepOpen(g, rows, columns, cands)[i] != KeepOpen(g, rows, columns, cands)[j]
  {
    if cands != [] {
      var rest := cands[1..];
      KeepOpenDistinct(g, rows, columns, rest);
      assert cands[0] !in rest;
    }
  }

  /** The four locations one step away, in the order down, up, right, left. */
  function Around(ml: MazeLocation): seq<MazeLocation>
  {
    [MazeLocation(ml.row + 1, ml.column), MazeLocation(ml.row - 1, ml.column),
     MazeLocation(ml.row, ml.column + 1), MazeLocation(ml.row, ml.column - 1)]
  }

  /**
   * The neighbours down, up, right and left, kept when inside the grid and
   * not blocked. For a location inside the grid, the one bound the program
   * checks per direction is the only one that can fail.
   */
  function Neighbours(g: seq<seq<Cell>>, rows: int, columns: int, ml: MazeLocation): (locations: seq<MazeLocation>)
    requires Shaped(g, rows, columns) && InBounds(rows, columns, ml)
    ensures |locations| <= 4
  {
    KeepOpen(g, rows, columns, Around(ml))
  }

  /**
   * The neighbours are exactly the open locations one step away, each listed
   * once.
   */
  lemma NeighboursSpec(g: seq<seq<Cell>>, rows: int, columns: int, ml: MazeLocation)
    requires Shaped(g, rows, columns) && InBounds(rows, columns, ml)
    ensures forall n :: n in Neighbours(g, rows, columns, ml) <==> Open(g, rows, columns, n) && Adjacent(ml, n)
    ensures forall i, j :: 0 <= i < j < |Neighbours(g, rows, columns, ml)| ==>
      Neighbours(g, rows, columns, ml)[i] != Neighbours(g, rows, columns, ml)[j]
  {
    var four := Around(ml);
    forall n | Adjacent(ml, n) ensures n in four {
      if n.row == ml.row {
        assert n == four[2] || n == four[3];
      } else {
        assert n == four[0] || n == four[1];
      }
    }
    KeepOpenDistinct(g, rows, columns, four);
  }

  class Maze {
    const rows: nat
    const columns: nat
    const start: MazeLocation
    const goal: MazeLocation
    var grid: seq<seq<Cell>>

    ghost predicate Valid()
      reads this
    {
      Shaped(grid, rows, columns) && InBounds(rows, columns, start) && InBounds(rows, columns, goal)
    }

    /**
     * `Maze(rows, columns, sparseness, start, goal)` with the blocked cells
     * given: every cell empty or blocked, then START at start, then GOAL at goal.
     */
    constructor (rows: nat, columns: nat, blocked: set<MazeLocation>, start: MazeLocation, goal: MazeLocation)
      requires InBounds(rows, columns, start) && InBounds(rows, columns, goal)
      ensures Valid()
      ensures this.rows == rows && this.columns == columns && this.start == start && this.goal == goal
      ensures At(grid, goal) == Goal && (start != goal ==> At(grid, start) == Start)
      ensures forall r, c ::
        (0 <= r < rows && 0 <= c < columns && MazeLocation(r, c) != start && MazeLocation(r, c) != goal) ==>
          grid[r][c] == if MazeLocation(r, c) in blocked then Blocked else Empty
    {
      this.rows := rows;
      this.columns := columns;
      this.start := start;
      this.goal := goal;
      var g := Layout(rows, columns, blocked);
      g := SetCell(g, start, Start);
      g := SetCell(g, goal, Goal);
      grid := g;
    }

    /** `goal_test(ml)`. */
    function GoalTest(ml: MazeLocation): (r: bool)
      reads this
      ensures r <==> ManhattanDistance(goal, ml) == 0
    {
      ml == goal
    }

    /**
     * `successors(ml)`: the open neighbours of an in-grid location, in the
     * order down, up, right, left.
     */
    function Successors(ml: MazeLocation): (locations: seq<MazeLocation>)
      reads this
      requires Valid() && InBounds(rows, columns, ml)
      ensures forall n :: n in locations <==> InBounds(rows, columns, n) && Adjacent(ml, n) && At(grid, n) != Blocked
      ensures forall i, j :: 0 <= i < j < |locations| ==> locations[i] != locations[j]
    {
      NeighboursSpec(grid, rows, columns, ml);
      Neighbours(grid, rows, columns, ml)
    }

    /** `mark(path)`: paint the path, then restore start and goal. */
    method Mark(path: seq<MazeLocation>)
      requires Valid() && AllInside(grid, path)
      modifies this
      ensures Valid()
      ensures grid == Painted(old(grid), path, PathCell, start, goal)
    {
      Paint(path, PathCell);
    }

    /** `clear(path)`: empty the path, then restore start and goal. */
    method Clear(path: seq<MazeLocation>)
      requires Valid() && AllInside(grid, path)
      modifies this
      ensures Valid()
      ensures grid == Painted(old(grid), path, Empty, start, goal)
    {
      Paint(path, Empty);
    }

    /** The loop shared by `mark` and `clear`. */
    method Paint(path: seq<MazeLocation>, cell: Cell)
      requires Valid() && AllInside(grid, path)
      modifies this
      ensures Valid()
      ensures grid == Painted(old(grid), path, cell, start, goal)
    {
      for i := 0 to |path|
        invariant Shaped(grid, rows, columns)
        invariant grid == PaintAll(old(grid), path[..i], cell)
      {
        assert path[..i + 1][..i] == path[..i];
        grid := SetCell(grid, path[i], cell);
      }
      assert path[..|path|] == path;
      grid := SetCell(grid, start, Start);
      grid := SetCell(grid, goal, Goal);
    }
  }
}
