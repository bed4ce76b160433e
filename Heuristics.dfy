/** The estimators of `sources/heuristics.py`. Each compares a flat board
    (`grid`) with a goal board of the same width `size`. `manhattan` and
    `squared` first map every goal value to its (row, col) and then add up a
    distance per cell, the blank included; `misplaced` counts the cells that
    differ. */
module Heuristics {
  import opened Boards

  /** The distance between a cell and its goal cell, per estimator:
      `|dx| + |dy|` for `manhattan`, `dx**2 + dy**2` for `squared`. */
  datatype Metric = Taxicab | SquaredEuclid

  function TileCost(metric: Metric, dy: int, dx: int): nat
  {
    match metric
    case Taxicab => Abs(dx) + Abs(dy)
    case SquaredEuclid => dx * dx + dy * dy
  }

  /** A tile costs nothing exactly when it is on its goal cell. */
  lemma TileCostZero(metric: Metric, dy: int, dx: int)
    ensures TileCost(metric, dy, dx) == 0 <==> dy == 0 && dx == 0
  {
    if metric == SquaredEuclid && (dy != 0 || dx != 0) {
      if dy != 0 { MulPositive(dy); } else { MulPositive(dx); }
    }
  }

  lemma MulPositive(a: int)
    requires a != 0
    ensures a * a > 0
  {
    if a < 0 { MulNonneg(-a - 1, -a); } else { MulNonneg(a - 1, a); }
  }

  /** The `coords` dictionary: each goal value mapped to `divmod(i, size)`
      of its position `i`; a value that occurs twice keeps its last
      position, as a dict comprehension does. */
  function Coords(goal: seq<int>, size: nat): (m: map<int, (int, int)>)
    requires size > 0 || goal == []
    ensures forall e :: e in m <==> e in goal
  {
    if goal == [] then map[]
    else
      var i := |goal| - 1;
      Coords(goal[..i], size)[goal[i] := (i / size, i % size)]
  }

  /** In a goal without duplicates, `coords` finds each value where it is. */
  lemma {:induction false} CoordsOfDistinct(goal: seq<int>, size: nat, k: nat)
    requires size > 0 && Distinct(goal) && k < |goal|
    ensures goal[k] in Coords(goal, size)
    ensures Coords(goal, size)[goal[k]] == (k / size, k % size)
  {
    var i := |goal| - 1;
    if k < i {
      assert Distinct(goal[..i]);
      assert goal[..i][k] == goal[k];
      CoordsOfDistinct(goal[..i], size, k);
      assert goal[k] != goal[i];
    }
  }

  /** The heuristic is computable: the width is positive whenever a
      position is divided by it, and every grid value has a goal position.
      Otherwise the source raises ZeroDivisionError or KeyError. */
  predicate Defined(grid: seq<int>, size: nat, goal: seq<int>)
  {
    && (goal != [] || grid != [] ==> size > 0)
    && forall k :: 0 <= k < |grid| ==> grid[k] in goal
  }

  /** The sum over the cells of `grid` of the distance from the cell to the
      goal position `coords` gives for its value. */
  function Total(metric: Metric, grid: seq<int>, size: nat, coords: map<int, (int, int)>): nat
    requires size > 0 || grid == []
    requires forall k :: 0 <= k < |grid| ==> grid[k] in coords
  {
    if grid == [] then 0
    else
      var i := |grid| - 1;
      var target := coords[grid[i]];
      Total(metric, grid[..i], size, coords) + TileCost(metric, i / size - target.0, i % size - target.1)
  }

  /** The summing loop shared by `manhattan` and `squared` (heuristics.py:
      6-12 and 17-23): build `coords` from the goal, then add one distance
      per cell of the grid. None stands for the exception the source
      raises when the heuristic is not defined. */
  method SumOfDistances(metric: Metric, grid: seq<int>, size: nat, goal: seq<int>)
    returns (r: Option<int>)
    ensures r.None? <==> !Defined(grid, size, goal)
    ensures r.Some? ==> r.value == Total(metric, grid, size, Coords(goal, size))
  {
    if size == 0 && goal != [] {
      return None;  // divmod(i, 0) in the comprehension
    }
    var coords: map<int, (int, int)> := map[];
    var i := 0;
    while i < |goal|
      invariant 0 <= i <= |goal|
      invariant coords == Coords(goal[..i], size)
    {
      coords := coords[goal[i] := (i / size, i % size)];
      assert goal[..i + 1][..i] == goal[..i];
      i := i + 1;
    }
    assert goal[..i] == goal;
    var res := 0;
    i := 0;
    while i < |grid|
      invariant 0 <= i <= |grid|
      invariant forall k :: 0 <= k < i ==> grid[k] in coords
      invariant i > 0 ==> size > 0
      invariant res == Total(metric, grid[..i], size, coords)
    {
      if grid[i] !in coords {
        return None;  // KeyError, or divmod(i, 0) with an empty goal
      }
      var cury, curx := i / size, i % size;
      var target := coords[grid[i]];
      res := res + TileCost(metric, cury - target.0, curx - target.1);
      assert grid[..i + 1][..i] == grid[..i];
      i := i + 1;
    }
    assert grid[..i] == grid;
    return Some(res);
  }

  /** `manhattan(grid, size, goal)`. */
  method Manhattan(grid: seq<int>, size: nat, goal: seq<int>) returns (r: Option<int>)
    ensures r.None? <==> !Defined(grid, size, goal)
    ensures r.Some? ==> r.value == Total(Taxicab, grid, size, Coords(goal, size))
  {
    r := SumOfDistances(Taxicab, grid, size, goal);
  }

  /** `squared(grid, size, goal)`. */
  method Squared(grid: seq<int>, size: nat, goal: seq<int>) returns (r: Option<int>)
    ensures r.None? <==> !Defined(grid, size, goal)
    ensures r.Some? ==> r.value == Total(SquaredEuclid, grid, size, Coords(goal, size))
  {
    r := SumOfDistances(SquaredEuclid, grid, size, goal);
  }

  /** `misplaced(grid, size, goal)`: the number of positions, up to the
      shorter of the two boards, where they differ. */
  function Misplaced(grid: seq<int>, goal: seq<int>): (r: nat)
    ensures r <= |grid| && r <= |goal|
    ensures |grid| == |goal| ==> (r == 0 <==> grid == goal)
  {
    var n := if |grid| <= |goal| then |grid| else |goal|;
    assert |grid| == |goal| ==> grid[..n] == grid && goal[..n] == goal;
    MisplacedUpTo(grid, goal, n)
  }

  /** Number of positions below `n` where the boards differ. */
  function MisplacedUpTo(grid: seq<int>, goal: seq<int>, n: nat): (r: nat)
    requires n <= |grid| && n <= |goal|
    ensures r <= n
    ensures r == 0 <==> grid[..n] == goal[..n]
  {
    if n == 0 then 0
    else
      var r := MisplacedUpTo(grid, goal, n - 1) + (if grid[n - 1] != goal[n - 1] then 1 else 0);
      assert grid[..n] == grid[..n - 1] + [grid[n - 1]];
      assert goal[..n] == goal[..n - 1] + [goal[n - 1]];
      assert grid[..n] == goal[..n] ==> grid[..n - 1] == goal[..n - 1] by {
        if grid[..n] == goal[..n] {
          assert grid[..n][..n - 1] == goal[..n][..n - 1];
        }
      }
      assert grid[..n] == goal[..n] ==> grid[n - 1] == goal[n - 1] by {
        if grid[..n] == goal[..n] {
          assert grid[..n][n - 1] == goal[..n][n - 1];
        }
      }
      r
  }

  // ---------------------------------------------------------------------
  // Properties of the estimators

  /** At the goal every cell is at its own goal position, so both distance
      sums are zero (for a goal without duplicates). */
  lemma ZeroAtGoal(metric: Metric, goal: seq<int>, size: nat)
    requires size > 0 && Distinct(goal)
    ensures forall k :: 0 <= k < |goal| ==> goal[k] in Coords(goal, size)
    ensures Total(metric, goal, size, Coords(goal, size)) == 0
  {
    var coords := Coords(goal, size);
    forall k | 0 <= k < |goal| ensures goal[k] in coords && coords[goal[k]] == (k / size, k % size) {
      CoordsOfDistinct(goal, size, k);
    }
    ZeroAtGoalPrefix(metric, goal, size, coords, |goal|);
    assert goal[..|goal|] == goal;
  }

  lemma {:induction false} ZeroAtGoalPrefix(metric: Metric, goal: seq<int>, size: nat, coords: map<int, (int, int)>, n: nat)
    requires size > 0 && n <= |goal|
    requires forall k :: 0 <= k < |goal| ==> goal[k] in coords && coords[goal[k]] == (k / size, k % size)
    ensures Total(metric, goal[..n], size, coords) == 0
  {
    if n > 0 {
      assert goal[..n][..n - 1] == goal[..n - 1];
      ZeroAtGoalPrefix(metric, goal, size, coords, n - 1);
    }
  }

  /** `dx**2 + dy**2 >= |dx| + |dy|` on integers, so `squared` is never
      below `manhattan` on the same grid and goal. */
  lemma {:induction false} SquaredDominatesManhattan(grid: seq<int>, size: nat, coords: map<int, (int, int)>)
    requires size > 0 || grid == []
    requires forall k :: 0 <= k < |grid| ==> grid[k] in coords
    ensures Total(SquaredEuclid, grid, size, coords) >= Total(Taxicab, grid, size, coords)
  {
    if grid != [] {
      var i := |grid| - 1;
      assert forall k :: 0 <= k < i ==> grid[..i][k] == grid[k];
      SquaredDominatesManhattan(grid[..i], size, coords);
      var (ty, tx) := coords[grid[i]];
      SquareAtLeastAbs(i / size - ty);
      SquareAtLeastAbs(i % size - tx);
    }
  }

  lemma SquareAtLeastAbs(d: int)
    ensures d * d >= Abs(d)
  {
    if d < 0 {
      assert d * d == (-d) * (-d);
    }
    if d != 0 {
      assert Abs(d) * Abs(d) >= Abs(d) * 1;
    }
  }

  /** When the grid only holds goal values and the goal has no duplicates,
      each misplaced cell is at least one step from its goal cell, so
      `misplaced <= manhattan`. */
  lemma MisplacedAtMostManhattan(grid: seq<int>, size: nat, goal: seq<int>)
    requires size > 0 && |grid| == |goal| && Distinct(goal)
    requires forall k :: 0 <= k < |grid| ==> grid[k] in goal
    ensures forall k :: 0 <= k < |grid| ==> grid[k] in Coords(goal, size)
    ensures Misplaced(grid, goal) <= Total(Taxicab, grid, size, Coords(goal, size))
  {
    var coords := Coords(goal, size);
    var pos := GoalPositions(grid, size, goal);
    MisplacedAtMostTotal(grid, goal, size, coords, pos, |grid|);
    assert grid[..|grid|] == grid;
  }

  /** The position in the goal of each cell's value, and where `coords`
      puts that value. */
  lemma GoalPositions(grid: seq<int>, size: nat, goal: seq<int>) returns (pos: seq<nat>)
    requires size > 0 && Distinct(goal)
    requires forall k :: 0 <= k < |grid| ==> grid[k] in goal
    ensures |pos| == |grid|
    ensures forall k :: 0 <= k < |grid| ==>
              && grid[k] in Coords(goal, size)
              && Coords(goal, size)[grid[k]] == (pos[k] / size, pos[k] % size)
              && (k < |goal| && grid[k] != goal[k] ==> pos[k] != k)
  {
    pos := seq(|grid|, k requires 0 <= k < |grid| => IndexOf(goal, grid[k]));
    forall k | 0 <= k < |grid|
      ensures Coords(goal, size)[grid[k]] == (pos[k] / size, pos[k] % size)
    {
      CoordsOfDistinct(goal, size, pos[k]);
    }
  }

  /** The first `n` cells: each misplaced one adds at least one to the
      distance sum, given the goal position `pos[k]` of each cell's value. */
  lemma {:induction false} MisplacedAtMostTotal(grid: seq<int>, goal: seq<int>, size: nat,
                                                coords: map<int, (int, int)>, pos: seq<nat>, n: nat)
    requires size > 0 && n <= |grid| && n <= |goal| && |pos| == |grid|
    requires forall k :: 0 <= k < |grid| ==>
               && grid[k] in coords && coords[grid[k]] == (pos[k] / size, pos[k] % size)
               && (k < |goal| && grid[k] != goal[k] ==> pos[k] != k)
    ensures forall k :: 0 <= k < n ==> grid[..n][k] in coords
    ensures MisplacedUpTo(grid, goal, n) <= Total(Taxicab, grid[..n], size, coords)
  {
    if n > 0 {
      var cells := grid[..n];
      MisplacedAtMostTotal(grid, goal, size, coords, pos, n - 1);
      assert cells[..n - 1] == grid[..n - 1];
      assert cells[n - 1] == grid[n - 1];
      CellCost(cells, size, coords, pos[n - 1]);
      assert grid[n - 1] != goal[n - 1] ==> pos[n - 1] != n - 1;
    }
  }

  /** The last cell of `cells` adds its distance to the sum, which is at
      least one when the cell is away from its goal position `j`. */
  lemma CellCost(cells: seq<int>, size: nat, coords: map<int, (int, int)>, j: nat)
    requires size > 0 && cells != []
    requires forall k :: 0 <= k < |cells| ==> cells[k] in coords
    requires coords[cells[|cells| - 1]] == (j / size, j % size)
    ensures Total(Taxicab, cells, size, coords)
              >= Total(Taxicab, cells[..|cells| - 1], size, coords) + (if j != |cells| - 1 then 1 else 0)
  {
    var i := |cells| - 1;
    if j != i {
      DivModDetermines(i, j, size);
    }
  }

  /** Two different positions have different (row, col). */
  lemma DivModDetermines(i: nat, j: nat, size: nat)
    requires size > 0 && i != j
    ensures i / size != j / size || i % size != j % size
  {
    assert i == i / size * size + i % size;
    assert j == j / size * size + j % size;
  }

  /** The blank counts like any tile: exchanging the blank with the tile
      beside it costs two, not one. */
  lemma BlankIsCounted()
    ensures Total(Taxicab, [1, 0], 2, Coords([0, 1], 2)) == 2
  {
    var coords := Coords([0, 1], 2);
    assert [0, 1][..1] == [0];
    assert coords == map[0 := (0, 0), 1 := (0, 1)];
    assert [1, 0][..1] == [1];
    assert [1][..0] == [];
  }

  // ---------------------------------------------------------------------
  // The table of estimators by name

  /** The three functions of `NAMES`. */
  datatype Estimator = ByManhattan | BySquared | ByMisplaced

  /** `f.__name__`: a key of the table under which `e` itself is found. */
  function NameOf(e: Estimator): (name: string)
    ensures Lookup(name) == Some(e)
  {
    match e
    case ByManhattan => "manhattan"
    case BySquared => "squared"
    case ByMisplaced => "misplaced"
  }

  /** `NAMES.get(name)`: the estimator whose function has that name. */
  function Lookup(name: string): (r: Option<Estimator>)
  {
    if name == "manhattan" then Some(ByManhattan)
    else if name == "squared" then Some(BySquared)
    else if name == "misplaced" then Some(ByMisplaced)
    else None
  }

  /** `DEFAULT`: the name of the misplaced-tiles estimator. */
  function Default(): (name: string)
    ensures Lookup(name) == Some(ByMisplaced)
  {
    "misplaced"
  }

  /** `NAMES` is keyed by function name: looking a name up finds the
      function of that name, every function can be found by its name, and
      there are no other keys. The default names `misplaced`. */
  lemma NamesTable(name: string, e: Estimator)
    ensures Lookup(NameOf(e)) == Some(e)
    ensures Lookup(name).Some? ==> NameOf(Lookup(name).value) == name
    ensures Lookup(name).None? <==> name !in {"manhattan", "squared", "misplaced"}
    ensures Lookup(Default()) == Some(ByMisplaced)
  {
  }

  /** `NAMES[name](grid, size, goal)` for an estimator found in the table. */
  method Estimate(e: Estimator, grid: seq<int>, size: nat, goal: seq<int>) returns (r: Option<int>)
    ensures e == ByMisplaced ==> r == Some(Misplaced(grid, goal))
    ensures e != ByMisplaced ==> (r.None? <==> !Defined(grid, size, goal))
    ensures e == ByManhattan && r.Some? ==> r.value == Total(Taxicab, grid, size, Coords(goal, size))
    ensures e == BySquared && r.Some? ==> r.value == Total(SquaredEuclid, grid, size, Coords(goal, size))
  {
    match e
    case ByManhattan => r := Manhattan(grid, size, goal);
    case BySquared => r := Squared(grid, size, goal);
    case ByMisplaced => r := Some(Misplaced(grid, goal));
  }
}
