/**
 * Greedy hill-climbing over the editor's grid: from the current cell, move to
 * the first passable 4-neighbour that strictly lowers the Manhattan distance
 * to the goal, until the goal is reached, no neighbour improves, or the
 * iteration budget runs out.
 */
module Search {
  import opened Constants
  import opened GridEditor

  /** A cell as (x, y): column, then row. */
  type Pos = (int, int)

  datatype Option<T> = None | Some(value: T)

  /** Default iteration cap of hill climbing, also what the restart wrapper passes to every call. */
  const DEFAULT_MAX_ITERATIONS: int := 1000
  /** Default number of hill-climbing attempts of the restart wrapper. */
  const DEFAULT_RESTARTS: int := 10

  /** The four neighbour offsets, in the order they are tried. */
  const DIRECTIONS: seq<Pos> := [(-1, 0), (1, 0), (0, -1), (0, 1)]

  function Abs(v: int): nat
  {
    if v < 0 then -v else v
  }

  /** Manhattan distance from p to the goal. */
  function Heuristic(p: Pos, goal: Pos): (h: nat)
    ensures h == 0 <==> p == goal
  {
    Abs(p.0 - goal.0) + Abs(p.1 - goal.1)
  }

  /** p and q share a side. */
  predicate Adjacent(p: Pos, q: Pos)
  {
    Abs(p.0 - q.0) + Abs(p.1 - q.1) == 1
  }

  /** Consecutive cells of w share a side. */
  predicate IsWalk(w: seq<Pos>)
  {
    forall i :: 0 <= i < |w| - 1 ==> Adjacent(w[i], w[i + 1])
  }

  /** The heuristic strictly drops from each cell of w to the next. */
  predicate Descends(w: seq<Pos>, goal: Pos)
  {
    forall i :: 0 <= i < |w| - 1 ==> Heuristic(w[i + 1], goal) < Heuristic(w[i], goal)
  }

  predicate Distinct(w: seq<Pos>)
  {
    forall i, j :: 0 <= i < j < |w| ==> w[i] != w[j]
  }

  /** The array g is the n x n grid the search was given. */
  predicate Fits(g: array2<int>, n: int)
  {
    g.Length0 == n && g.Length1 == n
  }

  /** q lies on the grid and its cell has finite cost (lookup default 1). */
  predicate Passable(g: array2<int>, n: int, q: Pos)
    reads g
    requires Fits(g, n)
    ensures Passable(g, n, q) <==>
      0 <= q.0 < n && 0 <= q.1 < n && g[q.1, q.0] != WALL_ID && g[q.1, q.0] != LAVA_ID && g[q.1, q.0] != HIDRA_ID
  {
    0 <= q.0 < n && 0 <= q.1 < n && CellCost(g[q.1, q.0]).Finite?
  }

  /** Every cell of w after the first is passable. */
  predicate PassableAfterStart(g: array2<int>, n: int, w: seq<Pos>)
    reads g
    requires Fits(g, n)
  {
    forall i :: 1 <= i < |w| ==> Passable(g, n, w[i])
  }

  function Step(p: Pos, d: Pos): Pos
  {
    (p.0 + d.0, p.1 + d.1)
  }

  /** The passable cells p + d, for d in dirs, kept in the order of dirs. */
  function Expand(g: array2<int>, n: int, p: Pos, dirs: seq<Pos>): (r: seq<Pos>)
    reads g
    requires Fits(g, n)
    ensures |r| <= |dirs|
  {
    if dirs == [] then []
    else
      var q := Step(p, dirs[|dirs| - 1]);
      Expand(g, n, p, dirs[..|dirs| - 1]) + (if Passable(g, n, q) then [q] else [])
  }

  /** Expand keeps at most one cell per offset: exactly the passable cells p + d. */
  lemma {:induction false} ExpandMembers(g: array2<int>, n: int, p: Pos, dirs: seq<Pos>)
    requires Fits(g, n)
    ensures |Expand(g, n, p, dirs)| <= |dirs|
    ensures forall q :: q in Expand(g, n, p, dirs) <==> Passable(g, n, q) && exists i :: 0 <= i < |dirs| && q == Step(p, dirs[i])
  {
    if dirs != [] {
      var front := dirs[..|dirs| - 1];
      ExpandMembers(g, n, p, front);
      assert forall i :: 0 <= i < |front| ==> front[i] == dirs[i];
    }
  }

  /** The passable 4-neighbours of p, in the order of DIRECTIONS. */
  function Neighbors(g: array2<int>, n: int, p: Pos): (r: seq<Pos>)
    reads g
    requires Fits(g, n)
    ensures |r| <= 4
  {
    Expand(g, n, p, DIRECTIONS)
  }

  /** The four offsets reach exactly the cells adjacent to p. */
  lemma DirectionsReachAdjacent(p: Pos, q: Pos)
    ensures Adjacent(p, q) <==> exists i :: 0 <= i < |DIRECTIONS| && q == Step(p, DIRECTIONS[i])
  {
    if Adjacent(p, q) {
      var i := if q.0 < p.0 then 0 else if q.0 > p.0 then 1 else if q.1 < p.1 then 2 else 3;
      assert q == Step(p, DIRECTIONS[i]);
    }
  }

  /** Neighbors returns at most four cells: exactly the passable cells adjacent to p. */
  lemma NeighborsAreAdjacentPassable(g: array2<int>, n: int, p: Pos)
    requires Fits(g, n)
    ensures |Neighbors(g, n, p)| <= 4
    ensures forall q :: q in Neighbors(g, n, p) <==> Adjacent(p, q) && Passable(g, n, q)
  {
    ExpandMembers(g, n, p, DIRECTIONS);
    forall q
      ensures q in Neighbors(g, n, p) <==> Adjacent(p, q) && Passable(g, n, q)
    {
      DirectionsReachAdjacent(p, q);
    }
  }

  /**
   * One left-to-right pass over ns keeping the best cell and its heuristic,
   * replacing them only on a strictly smaller heuristic; bestH starts at h0.
   * The result is the first cell whose heuristic is the strict minimum
   * below h0, or None when no cell is below h0.
   */
  function Scan(ns: seq<Pos>, goal: Pos, h0: int): (r: (Option<Pos>, int))
    ensures r.0.None? ==> r.1 == h0
    ensures r.0.Some? ==> r.0.value in ns && r.1 < h0
  {
    if ns == [] then (None, h0)
    else
      var (best, bestH) := Scan(ns[..|ns| - 1], goal, h0);
      var last := ns[|ns| - 1];
      if Heuristic(last, goal) < bestH then (Some(last), Heuristic(last, goal)) else (best, bestH)
  }

  /**
   * Scan keeps a heuristic no larger than every cell's and no larger than h0;
   * it finds a cell exactly when one is below h0, and then the first one
   * whose heuristic is the minimum.
   */
  lemma {:induction false} ScanFindsFirstBest(ns: seq<Pos>, goal: Pos, h0: int)
    ensures var r := Scan(ns, goal, h0);
      r.1 <= h0 &&
      (forall j :: 0 <= j < |ns| ==> Heuristic(ns[j], goal) >= r.1) &&
      (r.0.None? ==> r.1 == h0) &&
      (r.0.Some? ==> r.1 < h0) &&
      (r.0.Some? ==>
         exists k :: 0 <= k < |ns| && ns[k] == r.0.value && Heuristic(ns[k], goal) == r.1 &&
           forall j :: 0 <= j < k ==> Heuristic(ns[j], goal) > r.1)
  {
    if ns != [] {
      var front := ns[..|ns| - 1];
      ScanFindsFirstBest(front, goal, h0);
      assert forall j :: 0 <= j < |front| ==> front[j] == ns[j];
    }
  }

  /** The heuristic Scan returns is the one of the cell it returns. */
  lemma {:induction false} ScanKeepsBestHeuristic(ns: seq<Pos>, goal: Pos, h0: int)
    ensures Scan(ns, goal, h0).0.Some? ==> Scan(ns, goal, h0).1 == Heuristic(Scan(ns, goal, h0).0.value, goal)
  {
    if ns != [] {
      ScanKeepsBestHeuristic(ns[..|ns| - 1], goal, h0);
    }
  }

  /**
   * The cell one hill-climbing pass moves to from `current`: None when there
   * is no passable neighbour or none strictly improves the heuristic.
   */
  function NextCell(g: array2<int>, n: int, goal: Pos, current: Pos): (r: Option<Pos>)
    reads g
    requires Fits(g, n)
    ensures r.Some? ==> r.value in Neighbors(g, n, current)
  {
    var ns := Neighbors(g, n, current);
    if ns == [] then None else Scan(ns, goal, Heuristic(current, goal)).0
  }

  /**
   * The hill-climbing loop as a function: `k` passes are left, `path` is the
   * path so far and ends at `current`.
   */
  function Climb(g: array2<int>, n: int, goal: Pos, current: Pos, path: seq<Pos>, k: int): Option<seq<Pos>>
    reads g
    requires Fits(g, n)
    decreases k
  {
    if k <= 0 then None
    else if current == goal then Some(path)
    else
      match NextCell(g, n, goal, current)
      case None => None
      case Some(b) => Climb(g, n, goal, b, path + [b], k - 1)
  }

  /** One pass that finds a better neighbour moves there and appends it to the path. */
  lemma ClimbAdvances(g: array2<int>, n: int, goal: Pos, current: Pos, path: seq<Pos>, k: int)
    requires Fits(g, n)
    requires k > 0 && current != goal && NextCell(g, n, goal, current).Some?
    ensures var b := NextCell(g, n, goal, current).value;
      Climb(g, n, goal, current, path, k) == Climb(g, n, goal, b, path + [b], k - 1)
  {
  }

  /** What hill climbing from start returns within maxIterations passes. */
  function HillClimb(g: array2<int>, n: int, start: Pos, goal: Pos, maxIterations: int): Option<seq<Pos>>
    reads g
    requires Fits(g, n)
  {
    Climb(g, n, goal, start, [start], maxIterations)
  }

  /** Along a sidewise step the heuristic changes by exactly one. */
  lemma HeuristicStep(p: Pos, q: Pos, goal: Pos)
    requires Adjacent(p, q)
    ensures Heuristic(q, goal) == Heuristic(p, goal) + 1 || Heuristic(q, goal) + 1 == Heuristic(p, goal)
  {
  }

  /** The cell a pass moves to is adjacent, passable and exactly one step closer to the goal. */
  lemma NextCellStep(g: array2<int>, n: int, goal: Pos, current: Pos)
    requires Fits(g, n)
    requires NextCell(g, n, goal, current).Some?
    ensures var b := NextCell(g, n, goal, current).value;
      Adjacent(current, b) && Passable(g, n, b) && Heuristic(b, goal) + 1 == Heuristic(current, goal)
  {
    var ns := Neighbors(g, n, current);
    var r := Scan(ns, goal, Heuristic(current, goal));
    NeighborsAreAdjacentPassable(g, n, current);
    ScanFindsFirstBest(ns, goal, Heuristic(current, goal));
    var k :| 0 <= k < |ns| && ns[k] == r.0.value && Heuristic(ns[k], goal) == r.1;
    assert ns[k] in ns;
    HeuristicStep(current, r.0.value, goal);
  }

  /** A pass moves on whenever some passable neighbour is closer to the goal. */
  lemma NextCellExists(g: array2<int>, n: int, goal: Pos, current: Pos, q: Pos)
    requires Fits(g, n)
    requires Adjacent(current, q) && Passable(g, n, q) && Heuristic(q, goal) < Heuristic(current, goal)
    ensures NextCell(g, n, goal, current).Some?
  {
    NeighborsAreAdjacentPassable(g, n, current);
    var ns := Neighbors(g, n, current);
    assert q in ns;
    var i :| 0 <= i < |ns| && ns[i] == q;
    ScanFindsFirstBest(ns, goal, Heuristic(current, goal));
    assert Heuristic(ns[i], goal) < Heuristic(current, goal);
  }

  /** Every cell of a walk whose heuristic strictly drops is exactly i below the start at index i. */
  lemma {:induction false} DescentHeights(w: seq<Pos>, goal: Pos, i: int)
    requires IsWalk(w) && Descends(w, goal)
    requires 0 <= i < |w|
    ensures Heuristic(w[i], goal) + i == Heuristic(w[0], goal)
  {
    if i > 0 {
      DescentHeights(w, goal, i - 1);
      HeuristicStep(w[i - 1], w[i], goal);
    }
  }

  /** Any walk from p to the goal has at least Heuristic(p, goal) steps: the heuristic is admissible. */
  lemma {:induction false} HeuristicAdmissible(w: seq<Pos>, goal: Pos)
    requires |w| > 0 && IsWalk(w) && w[|w| - 1] == goal
    ensures Heuristic(w[0], goal) <= |w| - 1
  {
    if |w| > 1 {
      HeuristicAdmissible(w[1..], goal);
      HeuristicStep(w[0], w[1], goal);
    }
  }

  /** Appending an adjacent, passable, closer cell keeps a path a passable descending walk. */
  lemma ExtendDescent(g: array2<int>, n: int, goal: Pos, path: seq<Pos>, b: Pos)
    requires Fits(g, n)
    requires |path| > 0 && IsWalk(path) && Descends(path, goal) && PassableAfterStart(g, n, path)
    requires Adjacent(path[|path| - 1], b) && Passable(g, n, b)
    requires Heuristic(b, goal) < Heuristic(path[|path| - 1], goal)
    ensures IsWalk(path + [b]) && Descends(path + [b], goal) && PassableAfterStart(g, n, path + [b])
  {
    var next := path + [b];
    assert forall i :: 0 <= i < |path| ==> next[i] == path[i];
  }

  /**
   * A result of Climb extends the path so far, ends at the goal and adds
   * fewer cells than the passes left.
   */
  lemma {:induction false} ClimbEndsAtGoal(g: array2<int>, n: int, goal: Pos, current: Pos, path: seq<Pos>, k: int)
    requires Fits(g, n)
    requires |path| > 0 && path[|path| - 1] == current
    ensures var r := Climb(g, n, goal, current, path, k);
      r.Some? ==>
        |path| <= |r.value| && r.value[..|path|] == path && r.value[|r.value| - 1] == goal &&
        |r.value| - |path| < k
    decreases k
  {
    if k > 0 && current != goal && NextCell(g, n, goal, current).Some? {
      var b := NextCell(g, n, goal, current).value;
      var next := path + [b];
      ClimbEndsAtGoal(g, n, goal, b, next, k - 1);
      assert Climb(g, n, goal, current, path, k) == Climb(g, n, goal, b, next, k - 1);
      var q := Climb(g, n, goal, b, next, k - 1);
      if q.Some? {
        assert q.value[..|path|] == next[..|path|];
      }
    }
  }

  /**
   * Every cell Climb adds is adjacent to the one before, passable and
   * strictly closer to the goal.
   */
  lemma {:induction false} ClimbKeepsDescent(g: array2<int>, n: int, goal: Pos, current: Pos, path: seq<Pos>, k: int)
    requires Fits(g, n)
    requires |path| > 0 && path[|path| - 1] == current
    requires IsWalk(path) && Descends(path, goal) && PassableAfterStart(g, n, path)
    ensures var r := Climb(g, n, goal, current, path, k);
      r.Some? ==> IsWalk(r.value) && Descends(r.value, goal) && PassableAfterStart(g, n, r.value)
    decreases k
  {
    if k > 0 && current != goal && NextCell(g, n, goal, current).Some? {
      var b := NextCell(g, n, goal, current).value;
      NextCellStep(g, n, goal, current);
      ExtendDescent(g, n, goal, path, b);
      ClimbKeepsDescent(g, n, goal, b, path + [b], k - 1);
    }
  }

  /**
   * A path hill climbing returns starts at start, ends at the goal, moves
   * between adjacent passable cells, strictly lowers the heuristic at each
   * step (so no cell repeats), has exactly Heuristic(start, goal) + 1 cells
   * and fits in the iteration budget.
   */
  lemma HillClimbSound(g: array2<int>, n: int, start: Pos, goal: Pos, maxIterations: int)
    requires Fits(g, n)
    ensures var r := HillClimb(g, n, start, goal, maxIterations);
      r.Some? ==>
        var p := r.value;
        |p| > 0 && p[0] == start && p[|p| - 1] == goal &&
        IsWalk(p) && Descends(p, goal) && PassableAfterStart(g, n, p) && Distinct(p) &&
        |p| == Heuristic(start, goal) + 1 && |p| <= maxIterations
  {
    ClimbEndsAtGoal(g, n, goal, start, [start], maxIterations);
    ClimbKeepsDescent(g, n, goal, start, [start], maxIterations);
    var r := HillClimb(g, n, start, goal, maxIterations);
    if r.Some? {
      var p := r.value;
      assert p[0] == p[..1][0] == start;
      forall i, j | 0 <= i < j < |p|
        ensures p[i] != p[j]
      {
        DescentHeights(p, goal, i);
        DescentHeights(p, goal, j);
      }
      DescentHeights(p, goal, |p| - 1);
    }
  }

  /** A returned path is a shortest walk from start to goal: no walk between them is shorter. */
  lemma HillClimbIsShortest(g: array2<int>, n: int, start: Pos, goal: Pos, maxIterations: int, w: seq<Pos>)
    requires Fits(g, n)
    requires HillClimb(g, n, start, goal, maxIterations).Some?
    requires |w| > 0 && IsWalk(w) && w[0] == start && w[|w| - 1] == goal
    ensures |HillClimb(g, n, start, goal, maxIterations).value| <= |w|
  {
    HillClimbSound(g, n, start, goal, maxIterations);
    HeuristicAdmissible(w, goal);
  }

  /** With no more passes than the distance to the goal, hill climbing always fails. */
  lemma HillClimbNeedsBudget(g: array2<int>, n: int, start: Pos, goal: Pos, maxIterations: int)
    requires Fits(g, n)
    requires maxIterations <= Heuristic(start, goal)
    ensures HillClimb(g, n, start, goal, maxIterations) == None
  {
    HillClimbSound(g, n, start, goal, maxIterations);
  }

  /** Any two budgets beyond the distance to the goal give the same outcome. */
  lemma {:induction false} ClimbBudgetIrrelevant(g: array2<int>, n: int, goal: Pos, current: Pos, path: seq<Pos>, k1: int, k2: int)
    requires Fits(g, n)
    requires k1 > Heuristic(current, goal) && k2 > Heuristic(current, goal)
    ensures Climb(g, n, goal, current, path, k1) == Climb(g, n, goal, current, path, k2)
    decreases k1
  {
    if current != goal && NextCell(g, n, goal, current).Some? {
      var b := NextCell(g, n, goal, current).value;
      NextCellStep(g, n, goal, current);
      ClimbBudgetIrrelevant(g, n, goal, b, path + [b], k1 - 1, k2 - 1);
    }
  }

  /**
   * Once the iteration cap exceeds the distance to the goal, raising it
   * further never changes what hill climbing returns.
   */
  lemma HillClimbBudgetIrrelevant(g: array2<int>, n: int, start: Pos, goal: Pos, max1: int, max2: int)
    requires Fits(g, n)
    requires max1 > Heuristic(start, goal) && max2 > Heuristic(start, goal)
    ensures HillClimb(g, n, start, goal, max1) == HillClimb(g, n, start, goal, max2)
  {
    ClimbBudgetIrrelevant(g, n, goal, start, [start], max1, max2);
  }

  /** q lies in the rectangle spanned by a and b. */
  predicate InBox(a: Pos, b: Pos, q: Pos)
  {
    (if a.0 <= b.0 then a.0 <= q.0 <= b.0 else b.0 <= q.0 <= a.0) &&
    (if a.1 <= b.1 then a.1 <= q.1 <= b.1 else b.1 <= q.1 <= a.1)
  }

  /** A neighbour one step closer to the goal stays in the rectangle spanned by the current cell and the goal. */
  lemma CloserNeighborInBox(c: Pos, b: Pos, goal: Pos)
    requires Adjacent(c, b) && Heuristic(b, goal) < Heuristic(c, goal)
    ensures InBox(c, goal, b)
    ensures forall q :: InBox(b, goal, q) ==> InBox(c, goal, q)
  {
  }

  lemma {:induction false} ClimbSucceedsInClearBox(g: array2<int>, n: int, goal: Pos, current: Pos, path: seq<Pos>, k: int)
    requires Fits(g, n)
    requires forall q :: InBox(current, goal, q) ==> Passable(g, n, q)
    requires k > Heuristic(current, goal)
    ensures Climb(g, n, goal, current, path, k).Some?
    decreases k
  {
    if current != goal {
      var toward :=
        if current.0 < goal.0 then (current.0 + 1, current.1)
        else if current.0 > goal.0 then (current.0 - 1, current.1)
        else if current.1 < goal.1 then (current.0, current.1 + 1)
        else (current.0, current.1 - 1);
      assert InBox(current, goal, toward);
      NextCellExists(g, n, goal, current, toward);
      NextCellStep(g, n, goal, current);
      var b := NextCell(g, n, goal, current).value;
      CloserNeighborInBox(current, b, goal);
      ClimbSucceedsInClearBox(g, n, goal, b, path + [b], k - 1);
    }
  }

  /**
   * When every cell of the rectangle spanned by start and goal is on the grid
   * and passable, hill climbing with a budget beyond the distance finds the goal.
   */
  lemma HillClimbSucceedsInClearBox(g: array2<int>, n: int, start: Pos, goal: Pos, maxIterations: int)
    requires Fits(g, n)
    requires forall q :: InBox(start, goal, q) ==> Passable(g, n, q)
    requires maxIterations > Heuristic(start, goal)
    ensures HillClimb(g, n, start, goal, maxIterations).Some?
  {
    ClimbSucceedsInClearBox(g, n, goal, start, [start], maxIterations);
  }

  class LocalSearch {
    const grid: Grid
    const gridSize: int

    constructor (grid: Grid)
      requires grid.Square()
      ensures this.grid == grid && gridSize == grid.gridSize
      ensures Valid()
    {
      this.grid := grid;
      gridSize := grid.gridSize;
    }

    /** The grid's array is gridSize x gridSize. */
    predicate Valid()
    {
      Fits(grid.grid, gridSize)
    }

    /** The passable 4-neighbours of (x, y), left, right, up, down. */
    method GetNeighbors(x: int, y: int) returns (neighbors: seq<Pos>)
      requires Valid()
      ensures neighbors == Neighbors(grid.grid, gridSize, (x, y))
      ensures |neighbors| <= 4
      ensures forall q :: q in neighbors <==> Adjacent((x, y), q) && Passable(grid.grid, gridSize, q)
    {
      neighbors := [];
      var i := 0;
      while i < |DIRECTIONS|
        invariant 0 <= i <= |DIRECTIONS|
        invariant neighbors == Expand(grid.grid, gridSize, (x, y), DIRECTIONS[..i])
      {
        var (dx, dy) := DIRECTIONS[i];
        var nx, ny := x + dx, y + dy;
        if 0 <= nx < gridSize && 0 <= ny < gridSize {
          var cellId := grid.grid[ny, nx];
          var cost := CellCost(cellId);
          if !cost.Infinite? {
            neighbors := neighbors + [(nx, ny)];
          }
        }
        assert DIRECTIONS[..i + 1][..i] == DIRECTIONS[..i];
        i := i + 1;
      }
      assert DIRECTIONS[..i] == DIRECTIONS;
      NeighborsAreAdjacentPassable(grid.grid, gridSize, (x, y));
    }

    /** Greedy descent from start towards goal within maxIterations passes. */
    method HillClimbing(start: Pos, goal: Pos, maxIterations: int := DEFAULT_MAX_ITERATIONS) returns (path: Option<seq<Pos>>)
      requires Valid()
      ensures path == HillClimb(grid.grid, gridSize, start, goal, maxIterations)
      ensures path.Some? ==>
        var p := path.value;
        |p| > 0 && p[0] == start && p[|p| - 1] == goal &&
        IsWalk(p) && Descends(p, goal) && PassableAfterStart(grid.grid, gridSize, p) && Distinct(p) &&
        |p| == Heuristic(start, goal) + 1 && |p| <= maxIterations
    {
      var current := start;
      var trail := [current];
      var currentH := Heuristic(current, goal);

      var i := 0;
      while i < maxIterations
        invariant 0 <= i
        invariant currentH == Heuristic(current, goal)
        invariant HillClimb(grid.grid, gridSize, start, goal, maxIterations)
                  == Climb(grid.grid, gridSize, goal, current, trail, maxIterations - i)
      {
        if current == goal {
          path := Some(trail);
          HillClimbSound(grid.grid, gridSize, start, goal, maxIterations);
          return;
        }
        var neighbors := GetNeighbors(current.0, current.1);
        if neighbors == [] {
          path := None;
          HillClimbSound(grid.grid, gridSize, start, goal, maxIterations);
          return;
        }

        var bestNeighbor, bestH := EvaluateNeighbors(neighbors, goal, currentH);
        assert bestNeighbor == NextCell(grid.grid, gridSize, goal, current);

        if bestNeighbor == None {
          path := None;
          HillClimbSound(grid.grid, gridSize, start, goal, maxIterations);
          return;
        } else {
          NextCellStep(grid.grid, gridSize, goal, current);
          ClimbAdvances(grid.grid, gridSize, goal, current, trail, maxIterations - i);
          var (nx, ny) := bestNeighbor.value;
          var cellId := grid.grid[ny, nx];
          CellCostTable(cellId);
          if cellId == HIDRA_ID || cellId == LAVA_ID {
            // Unreachable: the neighbour list holds only finite-cost cells.
            assert false;
          }
          current := bestNeighbor.value;
          currentH := bestH;
          trail := trail + [current];
        }
        i := i + 1;
      }
      path := None;
      HillClimbSound(grid.grid, gridSize, start, goal, maxIterations);
    }

    /**
     * The neighbour-evaluation pass of one hill-climbing step: the first
     * neighbour whose heuristic is the strict minimum below currentH, with
     * that heuristic, or None and currentH when no neighbour improves.
     */
    method EvaluateNeighbors(neighbors: seq<Pos>, goal: Pos, currentH: int) returns (bestNeighbor: Option<Pos>, bestH: int)
      ensures (bestNeighbor, bestH) == Scan(neighbors, goal, currentH)
      ensures bestNeighbor.None? <==> forall j :: 0 <= j < |neighbors| ==> Heuristic(neighbors[j], goal) >= currentH
      ensures bestNeighbor.None? ==> bestH == currentH
      ensures bestNeighbor.Some? ==>
        bestH < currentH && bestH == Heuristic(bestNeighbor.value, goal) &&
        exists k :: 0 <= k < |neighbors| && neighbors[k] == bestNeighbor.value &&
          (forall j :: 0 <= j < |neighbors| ==> Heuristic(neighbors[j], goal) >= bestH) &&
          (forall j :: 0 <= j < k ==> Heuristic(neighbors[j], goal) > bestH)
    {
      bestNeighbor := None;
      bestH := currentH;
      var j := 0;
      while j < |neighbors|
        invariant 0 <= j <= |neighbors|
        invariant (bestNeighbor, bestH) == Scan(neighbors[..j], goal, currentH)
      {
        var nh := Heuristic(neighbors[j], goal);
        if nh < bestH {
          bestH := nh;
          bestNeighbor := Some(neighbors[j]);
        }
        assert neighbors[..j + 1][..j] == neighbors[..j];
        j := j + 1;
      }
      assert neighbors[..j] == neighbors;
      ScanKeepsBestHeuristic(neighbors, goal, currentH);
      ScanFindsFirstBest(neighbors, goal, currentH);
    }

    /** Up to `restarts` identical hill-climbing calls with the default cap; the first path found wins. */
    method LocalSearchWithRestarts(start: Pos, goal: Pos, restarts: int := DEFAULT_RESTARTS) returns (path: Option<seq<Pos>>)
      requires Valid()
      ensures path == if restarts <= 0 then None else HillClimb(grid.grid, gridSize, start, goal, DEFAULT_MAX_ITERATIONS)
    {
      var i := 0;
      while i < restarts
        invariant 0 <= i
        invariant i > 0 ==> HillClimb(grid.grid, gridSize, start, goal, DEFAULT_MAX_ITERATIONS) == None
      {
        path := HillClimbing(start, goal);
        if path != None {
          return path;
        }
        i := i + 1;
      }
      return None;
    }
  }

  /**
   * Hill climbing never checks the start cell: on a 2 x 2 grid whose cell
   * (0, 0) is a wall, the search from (0, 0) to (1, 0) returns the path
   * [(0, 0), (1, 0)], which begins on the wall.
   */
  method WallStartScenario() returns (g: Grid, path: Option<seq<Pos>>)
    ensures g.Valid() && g.gridSize == 2
    ensures g.grid[0, 0] == WALL_ID && CellCost(g.grid[0, 0]).Infinite?
    ensures path == Some([(0, 0), (1, 0)])
  {
    g := new Grid(2);
    g.UpdateCell(0, 0, "wall");
    assert g.grid[0, 1] == EMPTY_CELL_ID;
    var search := new LocalSearch(g);
    path := search.HillClimbing((0, 0), (1, 0), 2);
    NextCellExists(g.grid, 2, (1, 0), (0, 0), (1, 0));
    NextCellStep(g.grid, 2, (1, 0), (0, 0));
    ClimbAdvances(g.grid, 2, (1, 0), (0, 0), [(0, 0)], 2);
    assert NextCell(g.grid, 2, (1, 0), (0, 0)) == Some((1, 0));
    assert [(0, 0)] + [(1, 0)] == [(0, 0), (1, 0)];
    assert Climb(g.grid, 2, (1, 0), (1, 0), [(0, 0), (1, 0)], 1) == Some([(0, 0), (1, 0)]);
    assert HillClimb(g.grid, 2, (0, 0), (1, 0), 2) == Some([(0, 0), (1, 0)]);
  }
}
