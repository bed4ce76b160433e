/** The board generator of `sources/generator.py`: the spiral goal of
    `make_goal`, and `generate`, which walks the blank away from that goal by
    random swaps with its neighbours. The random choice is supplied by the
    caller. */
module Generator {
  import opened Boards

  // ---------------------------------------------------------------------
  // make_goal: the spiral fill, one loop iteration at a time

  /** The variables of the `make_goal` loop: the board being filled, the
      current cell (y, x) and the direction (dy, dx). */
  datatype Walk = Walk(cells: seq<int>, y: int, x: int, dy: int, dx: int)

  /** One of the four unit directions. */
  predicate IsDirection(dy: int, dx: int)
  {
    (dy == 0 && (dx == 1 || dx == -1)) || (dx == 0 && (dy == 1 || dy == -1))
  }

  predicate WellFormed(size: nat, w: Walk)
  {
    |w.cells| == size * size && IsDirection(w.dy, w.dx)
  }

  /** The state before the first iteration: all zeros, at (0, 0), heading
      right. */
  function Start(size: nat): (w: Walk)
    ensures WellFormed(size, w)
  {
    Walk(seq(size * size, _ => 0), 0, 0, 0, 1)
  }

  /** `cells[row * size + col]` for a cell on the board. */
  function CellAt(size: nat, cells: seq<int>, row: int, col: int): int
    requires |cells| == size * size && 0 <= row < size && 0 <= col < size
  {
    IndexBounds(size, row, col);
    cells[row * size + col]
  }

  /** The turn test of the loop: the next cell (ny, nx), at most one step
      off the board, is off it or already numbered. */
  predicate Blocked(size: nat, cells: seq<int>, ny: int, nx: int)
    requires |cells| == size * size && -1 <= ny <= size && -1 <= nx <= size
  {
    ny < 0 || ny == size || nx < 0 || nx == size || CellAt(size, cells, ny, nx) != 0
  }

  /** Iteration `i` of the loop: write `i + 1` at the current cell; turn
      clockwise, `(dy, dx) -> (dx, -dy)`, when the next cell is off the board
      or already filled; then advance. The first branch, for a current cell
      off the board, is never taken (see `RunShape`); it only makes the
      function total. */
  function Step(size: nat, w: Walk, i: nat): (w': Walk)
    requires WellFormed(size, w)
    ensures WellFormed(size, w')
  {
    if !(0 <= w.y < size && 0 <= w.x < size) then w
    else
      IndexBounds(size, w.y, w.x);
      var cells := w.cells[w.y * size + w.x := i + 1];
      var ny, nx := w.y + w.dy, w.x + w.dx;
      var turn := Blocked(size, cells, ny, nx);
      var dy, dx := if turn then w.dx else w.dy, if turn then -w.dy else w.dx;
      Walk(cells, w.y + dy, w.x + dx, dy, dx)
  }

  /** The state after `k` iterations. */
  function Run(size: nat, k: nat): (w: Walk)
    ensures WellFormed(size, w)
  {
    if k == 0 then Start(size) else Step(size, Run(size, k - 1), k - 1)
  }

  /** Number of iterations: `range(size * size - 1)`. */
  function Iterations(size: nat): nat
  {
    if size == 0 then 0 else size * size - 1
  }

  /** The board `make_goal(size)` returns. */
  function Spiral(size: nat): (goal: seq<int>)
    ensures |goal| == size * size
  {
    Run(size, Iterations(size)).cells
  }

  // ---------------------------------------------------------------------
  // The spiral invariant. The cells not yet filled are those of a
  // rectangle [t..b] x [l..r] minus the part of its current edge already
  // walked; the current cell is the next one on that edge.

  /** Cell (row, col) of the rectangle's current edge has been walked. */
  predicate Walked(w: Walk, row: int, col: int, t: int, b: int, l: int, r: int)
  {
    if w.dy == 0 && w.dx == 1 then row == t && l <= col < w.x
    else if w.dy == 1 then col == r && t <= row < w.y
    else if w.dy == 0 then row == b && w.x < col <= r
    else col == l && w.y < row <= b
  }

  /** Cell (row, col) holds a number: it is outside the rectangle or walked. */
  predicate Filled(w: Walk, row: int, col: int, t: int, b: int, l: int, r: int)
  {
    !(t <= row <= b && l <= col <= r) || Walked(w, row, col, t, b, l, r)
  }

  /** The current cell lies on the rectangle's edge for its direction. */
  predicate OnEdge(w: Walk, t: int, b: int, l: int, r: int)
  {
    if w.dy == 0 && w.dx == 1 then w.y == t && l <= w.x <= r
    else if w.dy == 1 then w.x == r && t <= w.y <= b
    else if w.dy == 0 then w.y == b && l <= w.x <= r
    else w.x == l && t <= w.y <= b
  }

  /** How many cells of the current edge have been walked. */
  function WalkedCount(w: Walk, t: int, b: int, l: int, r: int): int
  {
    if w.dy == 0 && w.dx == 1 then w.x - l
    else if w.dy == 1 then w.y - t
    else if w.dy == 0 then r - w.x
    else b - w.y
  }

  /** The walk after `i` iterations has filled exactly the cells outside
      the rectangle [t..b] x [l..r] and the walked part of its current edge,
      with distinct numbers from `1 .. i`. */
  ghost predicate Shape(size: nat, w: Walk, i: nat, t: int, b: int, l: int, r: int)
  {
    && WellFormed(size, w)
    && 0 <= t <= b < size && 0 <= l <= r < size
    && OnEdge(w, t, b, l, r)
    && (forall row, col :: 0 <= row < size && 0 <= col < size ==>
          (CellAt(size, w.cells, row, col) != 0 <==> Filled(w, row, col, t, b, l, r)))
    && i + (b - t + 1) * (r - l + 1) - WalkedCount(w, t, b, l, r) == size * size
    && (forall k :: 0 <= k < |w.cells| ==> 0 <= w.cells[k] <= i)
    && (forall k, k' :: 0 <= k < |w.cells| && 0 <= k' < |w.cells| && k != k' && w.cells[k] != 0 ==>
          w.cells[k] != w.cells[k'])
  }

  /** The loop starts in the spiral shape. */
  lemma StartShape(size: nat)
    requires size > 0
    ensures Shape(size, Start(size), 0, 0, size - 1, 0, size - 1)
  {
    var w := Start(size);
    forall row, col | 0 <= row < size && 0 <= col < size
      ensures CellAt(size, w.cells, row, col) == 0
    {
      IndexBounds(size, row, col);
    }
  }

  /** The current edge has been walked to its last cell. */
  predicate AtEnd(w: Walk, t: int, b: int, l: int, r: int)
  {
    if w.dy == 0 && w.dx == 1 then w.x == r
    else if w.dy == 1 then w.y == b
    else if w.dy == 0 then w.x == l
    else w.y == t
  }

  /** The rectangle after a step: at the end of an edge, that edge leaves
      it. */
  function Shrink(w: Walk, t: int, b: int, l: int, r: int): (int, int, int, int)
  {
    if !AtEnd(w, t, b, l, r) then (t, b, l, r)
    else if w.dy == 0 && w.dx == 1 then (t + 1, b, l, r)
    else if w.dy == 1 then (t, b, l, r - 1)
    else if w.dy == 0 then (t, b - 1, l, r)
    else (t, b, l + 1, r)
  }

  /** In the spiral shape the current cell is on the board and still 0, and
      the loop turns exactly at the end of an edge. */
  lemma TurnAtEnd(size: nat, w: Walk, i: nat, t: int, b: int, l: int, r: int)
    requires Shape(size, w, i, t, b, l, r)
    ensures 0 <= w.y < size && 0 <= w.x < size
    ensures 0 <= w.y * size + w.x < size * size
    ensures CellAt(size, w.cells, w.y, w.x) == 0
    ensures var turn := AtEnd(w, t, b, l, r);
            var dy, dx := if turn then w.dx else w.dy, if turn then -w.dy else w.dx;
            Step(size, w, i) == Walk(w.cells[w.y * size + w.x := i + 1], w.y + dy, w.x + dx, dy, dx)
  {
    IndexBounds(size, w.y, w.x);
    var p := w.y * size + w.x;
    assert !Filled(w, w.y, w.x, t, b, l, r);
    var cells := w.cells[p := i + 1];
    var ny, nx := w.y + w.dy, w.x + w.dx;
    if 0 <= ny < size && 0 <= nx < size {
      IndexBounds(size, ny, nx);
      if ny * size + nx == p {
        IndexInjective(size, ny, nx, w.y, w.x);
      }
      assert CellAt(size, cells, ny, nx) == CellAt(size, w.cells, ny, nx);
      assert CellAt(size, w.cells, ny, nx) != 0 <==> Filled(w, ny, nx, t, b, l, r);
    }
  }

  /** The rectangle bookkeeping of one step, as arithmetic on the corners:
      the shrunk rectangle is non-empty while cells remain, the next cell is
      on its edge, and the filled cells gain exactly the current one. */
  lemma ShrinkStep(size: nat, w: Walk, w': Walk, i: nat, t: int, b: int, l: int, r: int)
    requires IsDirection(w.dy, w.dx)
    requires 0 <= t <= b < size && 0 <= l <= r < size && OnEdge(w, t, b, l, r)
    requires i + (b - t + 1) * (r - l + 1) - WalkedCount(w, t, b, l, r) == size * size
    requires i + 1 < size * size
    requires var turn := AtEnd(w, t, b, l, r);
             && w'.dy == (if turn then w.dx else w.dy) && w'.dx == (if turn then -w.dy else w.dx)
             && w'.y == w.y + w'.dy && w'.x == w.x + w'.dx
    ensures var (t', b', l', r') := Shrink(w, t, b, l, r);
            && 0 <= t' <= b' < size && 0 <= l' <= r' < size && OnEdge(w', t', b', l', r')
            && i + 1 + (b' - t' + 1) * (r' - l' + 1) - WalkedCount(w', t', b', l', r') == size * size
            && (forall row, col :: Filled(w', row, col, t', b', l', r') <==>
                  Filled(w, row, col, t, b, l, r) || (row == w.y && col == w.x))
  {
    if AtEnd(w, t, b, l, r) {
      if w.dy == 0 && w.dx == 1 {
        assert (b - t + 1) * (r - l + 1) == (b - t) * (r - l + 1) + (r - l + 1);
      } else if w.dy == 1 {
        assert (b - t + 1) * (r - l + 1) == (b - t + 1) * (r - l) + (b - t + 1);
      } else if w.dy == 0 {
        assert (b - t + 1) * (r - l + 1) == (b - t) * (r - l + 1) + (r - l + 1);
      } else {
        assert (b - t + 1) * (r - l + 1) == (b - t + 1) * (r - l) + (b - t + 1);
      }
    }
  }

  /** One iteration keeps the spiral shape, as long as a cell is left to
      fill afterwards. */
  lemma StepShape(size: nat, w: Walk, i: nat, t: int, b: int, l: int, r: int)
    returns (t': int, b': int, l': int, r': int)
    requires Shape(size, w, i, t, b, l, r)
    requires i + 1 < size * size
    ensures 0 <= w.y < size && 0 <= w.x < size && CellAt(size, w.cells, w.y, w.x) == 0
    ensures Shape(size, Step(size, w, i), i + 1, t', b', l', r')
  {
    TurnAtEnd(size, w, i, t, b, l, r);
    var p := w.y * size + w.x;
    var w' := Step(size, w, i);
    ShrinkStep(size, w, w', i, t, b, l, r);
    t', b', l', r' := Shrink(w, t, b, l, r).0, Shrink(w, t, b, l, r).1,
                      Shrink(w, t, b, l, r).2, Shrink(w, t, b, l, r).3;
    FilledAfterStep(size, w, w', i, t, b, l, r, t', b', l', r');
    FreshWrite(w.cells, p, i);
  }

  /** Numbering the current cell makes it, and no other cell, nonzero. */
  lemma FilledAfterStep(size: nat, w: Walk, w': Walk, i: nat, t: int, b: int, l: int, r: int,
                        t': int, b': int, l': int, r': int)
    requires |w.cells| == size * size && 0 <= w.y < size && 0 <= w.x < size
    requires 0 <= w.y * size + w.x < size * size
    requires w'.cells == w.cells[w.y * size + w.x := i + 1]
    requires forall row, col :: 0 <= row < size && 0 <= col < size ==>
               (CellAt(size, w.cells, row, col) != 0 <==> Filled(w, row, col, t, b, l, r))
    requires forall row, col :: Filled(w', row, col, t', b', l', r') <==>
               Filled(w, row, col, t, b, l, r) || (row == w.y && col == w.x)
    ensures forall row, col :: 0 <= row < size && 0 <= col < size ==>
              (CellAt(size, w'.cells, row, col) != 0 <==> Filled(w', row, col, t', b', l', r'))
  {
    var p := w.y * size + w.x;
    forall row, col | 0 <= row < size && 0 <= col < size
      ensures CellAt(size, w'.cells, row, col) != 0 <==> Filled(w', row, col, t', b', l', r')
    {
      IndexBounds(size, row, col);
      if row * size + col == p {
        IndexInjective(size, row, col, w.y, w.x);
      }
    }
  }

  /** Writing `i + 1` into a 0 cell of a board whose numbers are distinct
      and at most `i` keeps them distinct, and at most `i + 1`. */
  lemma FreshWrite(cells: seq<int>, p: int, i: nat)
    requires 0 <= p < |cells| && cells[p] == 0
    requires forall k :: 0 <= k < |cells| ==> 0 <= cells[k] <= i
    requires forall k, k' :: 0 <= k < |cells| && 0 <= k' < |cells| && k != k' && cells[k] != 0 ==>
               cells[k] != cells[k']
    ensures var cells' := cells[p := i + 1];
            && (forall k :: 0 <= k < |cells'| ==> 0 <= cells'[k] <= i + 1)
            && (forall k, k' :: 0 <= k < |cells'| && 0 <= k' < |cells'| && k != k' && cells'[k] != 0 ==>
                  cells'[k] != cells'[k'])
  {
    var cells' := cells[p := i + 1];
    forall k, k' | 0 <= k < |cells'| && 0 <= k' < |cells'| && k != k' && cells'[k] != 0
      ensures cells'[k] != cells'[k']
    {
      if k != p && k' != p {
        assert cells[k] != cells[k'];
      }
    }
  }

  /** After `k` iterations, `k` below the number of cells, the walk is in
      the spiral shape; the rectangle is returned. */
  lemma {:induction false} RunShape(size: nat, k: nat) returns (t: int, b: int, l: int, r: int)
    requires size > 0 && k < size * size
    ensures Shape(size, Run(size, k), k, t, b, l, r)
  {
    if k == 0 {
      StartShape(size);
      t, b, l, r := 0, size - 1, 0, size - 1;
    } else {
      var t0, b0, l0, r0 := RunShape(size, k - 1);
      t, b, l, r := StepShape(size, Run(size, k - 1), k - 1, t0, b0, l0, r0);
    }
  }

  /** Every write of `make_goal` lands on the board, on a cell still 0. */
  lemma WriteInBounds(size: nat, k: nat)
    requires size > 0 && k + 1 < size * size
    ensures var w := Run(size, k);
            && 0 <= w.y < size && 0 <= w.x < size
            && 0 <= w.y * size + w.x < size * size
            && CellAt(size, w.cells, w.y, w.x) == 0
            && Run(size, k + 1).cells == w.cells[w.y * size + w.x := k + 1]
  {
    var t, b, l, r := RunShape(size, k);
    TurnAtEnd(size, Run(size, k), k, t, b, l, r);
  }

  /** When one cell is left, it is the current one. */
  lemma LastCell(size: nat, w: Walk, i: nat, t: int, b: int, l: int, r: int)
    requires Shape(size, w, i, t, b, l, r) && i + 1 == size * size
    ensures forall row, col :: 0 <= row < size && 0 <= col < size ==>
              (CellAt(size, w.cells, row, col) == 0 <==> row == w.y && col == w.x)
  {
    OneCellLeft(w, t, b, l, r);
  }

  /** A rectangle with one unwalked cell left: that cell is the current
      one. */
  lemma OneCellLeft(w: Walk, t: int, b: int, l: int, r: int)
    requires IsDirection(w.dy, w.dx) && t <= b && l <= r && OnEdge(w, t, b, l, r)
    requires (b - t + 1) * (r - l + 1) - WalkedCount(w, t, b, l, r) == 1
    ensures forall row, col :: !Filled(w, row, col, t, b, l, r) <==> row == w.y && col == w.x
  {
    if b - t > 0 {
      MulNonneg(b - t - 1, r - l + 1);
      assert (b - t + 1) * (r - l + 1) == 2 * (r - l + 1) + (b - t - 1) * (r - l + 1);
    }
    if r - l > 0 {
      MulNonneg(b - t + 1, r - l - 1);
      assert (b - t + 1) * (r - l + 1) == 2 * (b - t + 1) + (b - t + 1) * (r - l - 1);
    }
  }

  /** When one cell is left, the 0 is at the current cell and nowhere
      else. */
  lemma ZeroIsCurrent(size: nat, w: Walk, i: nat, t: int, b: int, l: int, r: int)
    requires Shape(size, w, i, t, b, l, r) && i + 1 == size * size
    ensures forall k :: 0 <= k < |w.cells| && w.cells[k] == 0 ==> k == w.y * size + w.x
  {
    LastCell(size, w, i, t, b, l, r);
    forall k | 0 <= k < |w.cells| && w.cells[k] == 0 ensures k == w.y * size + w.x {
      IndexSplit(size, k);
      assert CellAt(size, w.cells, k / size, k % size) == 0;
    }
  }

  /** `make_goal(size)` is a permutation of `0 .. size*size-1`: each of
      `1 .. size*size-1` once, and a single 0. */
  lemma SpiralIsPermutation(size: nat)
    ensures IsPermutation(Spiral(size), size * size)
  {
    if size > 0 {
      var n := size * size;
      var w := Run(size, n - 1);
      var t, b, l, r := RunShape(size, n - 1);
      ZeroIsCurrent(size, w, n - 1, t, b, l, r);
    }
  }

  /** The board after numbering the first `k` cells of the top row. */
  function TopRowPrefix(size: nat, k: nat): (cells: seq<int>)
    ensures |cells| == size * size
    ensures forall c :: 0 <= c < |cells| ==> cells[c] == if c < k then c + 1 else 0
  {
    seq(size * size, c => if c < k then c + 1 else 0)
  }

  /** Numbering cell `k - 1` extends the prefix; cell `k` is still 0. */
  lemma PrefixExtend(size: nat, k: nat)
    requires 0 < k < size
    ensures k < size * size
    ensures TopRowPrefix(size, k - 1)[k - 1 := k] == TopRowPrefix(size, k)
    ensures TopRowPrefix(size, k)[k] == 0
  {
    IndexBounds(size, 0, k);
  }

  /** One iteration along the top row: number the current cell and move
      right, the next cell being on the board and still 0. */
  lemma TopRowAdvance(size: nat, k: nat)
    requires 2 <= size && 0 < k < size
    requires Run(size, k - 1) == Walk(TopRowPrefix(size, k - 1), 0, k - 1, 0, 1)
    ensures Run(size, k) == Walk(TopRowPrefix(size, k), 0, k, 0, 1)
  {
    PrefixExtend(size, k);
    var w := Run(size, k - 1);
    assert w.y * size + w.x == k - 1;
    assert CellAt(size, TopRowPrefix(size, k), 0, k) == 0;
  }

  /** For the first `size` iterations the walk runs along the top row. */
  lemma {:induction false} TopRowWalk(size: nat, k: nat)
    requires 2 <= size && k < size
    ensures Run(size, k) == Walk(TopRowPrefix(size, k), 0, k, 0, 1)
  {
    if k > 0 {
      TopRowWalk(size, k - 1);
      TopRowAdvance(size, k);
    }
  }

  /** The first `size` cells hold `1 .. size`. */
  predicate TopRowNumbered(size: nat, cells: seq<int>)
  {
    size <= |cells| && forall c :: 0 <= c < size ==> cells[c] == c + 1
  }

  /** The last cell of the top row is numbered `size`; the walk then turns
      down, since the next cell is off the board. */
  lemma TopRowLastStep(size: nat)
    requires 2 <= size
    ensures Run(size, size).cells == TopRowPrefix(size, size)
  {
    TopRowWalk(size, size - 1);
    TopRowLastWrite(size, Run(size, size - 1));
  }

  /** Writing `size` at the end of the top row completes the prefix. */
  lemma TopRowLastWrite(size: nat, w: Walk)
    requires 2 <= size && w == Walk(TopRowPrefix(size, size - 1), 0, size - 1, 0, 1)
    ensures Step(size, w, size - 1).cells == TopRowPrefix(size, size)
  {
    IndexBounds(size, 0, size - 1);
    assert w.y * size + w.x == size - 1;
    assert TopRowPrefix(size, size - 1)[size - 1 := size] == TopRowPrefix(size, size);
  }

  /** The first `size` iterations fill the top row with `1 .. size`. */
  lemma TopRowFilled(size: nat)
    requires 2 <= size
    ensures TopRowNumbered(size, Run(size, size).cells)
  {
    TopRowLastStep(size);
    IndexBounds(size, 0, size - 1);
  }

  /** A later iteration writes to a cell that is still 0, so it leaves the
      numbered top row alone. */
  lemma TopRowStep(size: nat, k: nat)
    requires 2 <= size && 0 < k < size * size
    requires TopRowNumbered(size, Run(size, k - 1).cells)
    ensures TopRowNumbered(size, Run(size, k).cells)
  {
    WriteInBounds(size, k - 1);
  }

  /** Later iterations only fill cells that are still 0, so the top row
      keeps `1 .. size`. */
  lemma {:induction false} TopRowKept(size: nat, k: nat)
    requires 2 <= size && size <= k < size * size
    ensures TopRowNumbered(size, Run(size, k).cells)
  {
    if k == size {
      TopRowFilled(size);
    } else {
      TopRowKept(size, k - 1);
      TopRowStep(size, k);
    }
  }

  /** `make_goal` starts at (0, 0) heading right: the top row is `1 .. size`. */
  lemma SpiralTopRow(size: nat)
    requires size >= 2
    ensures TopRowNumbered(size, Spiral(size))
  {
    MulNonneg(size - 2, size);
    assert size * size == size + (size - 1) * size;
    TopRowKept(size, size * size - 1);
  }

  /** A sequence of loop states, each one iteration after the previous
      one and starting from the initial state, is what `Run` computes. */
  lemma {:induction false} RunChain(size: nat, k: nat, ws: seq<Walk>)
    requires |ws| == k + 1 && ws[0] == Start(size)
    requires forall j :: 0 <= j < k ==> WellFormed(size, ws[j]) && Step(size, ws[j], j) == ws[j + 1]
    ensures Run(size, k) == ws[k]
  {
    if k > 0 {
      RunChain(size, k - 1, ws[..k]);
    }
  }

  /** The loop states of `make_goal(2)`, one per iteration. */
  function TwoWalks(): seq<Walk>
  {
    [
      Walk([0, 0, 0, 0], 0, 0, 0, 1),
      Walk([1, 0, 0, 0], 0, 1, 0, 1),
      Walk([1, 2, 0, 0], 1, 1, 1, 0),
      Walk([1, 2, 0, 3], 1, 0, 0, -1)
    ]
  }

  /** The three iterations of `make_goal(2)`. */
  lemma TwoStep(k: nat)
    requires 0 <= k < 3
    ensures WellFormed(2, TwoWalks()[k]) && Step(2, TwoWalks()[k], k) == TwoWalks()[k + 1]
  {
    if k == 0 {
      assert Step(2, Walk([0, 0, 0, 0], 0, 0, 0, 1), 0) == Walk([1, 0, 0, 0], 0, 1, 0, 1);
    } else if k == 1 {
      assert Step(2, Walk([1, 0, 0, 0], 0, 1, 0, 1), 1) == Walk([1, 2, 0, 0], 1, 1, 1, 0);
    } else {
      assert Step(2, Walk([1, 2, 0, 0], 1, 1, 1, 0), 2) == Walk([1, 2, 0, 3], 1, 0, 0, -1);
    }
  }

  /** The spiral for size 2, as the loop builds it. */
  lemma SpiralOfTwo()
    ensures Spiral(2) == [1, 2, 0, 3]
  {
    forall j | 0 <= j < 3
      ensures WellFormed(2, TwoWalks()[j]) && Step(2, TwoWalks()[j], j) == TwoWalks()[j + 1]
    {
      TwoStep(j);
    }
    RunChain(2, 3, TwoWalks());
  }

  /** The loop states of `make_goal(3)`, one per iteration. */
  function ThreeWalks(): seq<Walk>
  {
    [
      Walk([0, 0, 0, 0, 0, 0, 0, 0, 0], 0, 0, 0, 1),
      Walk([1, 0, 0, 0, 0, 0, 0, 0, 0], 0, 1, 0, 1),
      Walk([1, 2, 0, 0, 0, 0, 0, 0, 0], 0, 2, 0, 1),
      Walk([1, 2, 3, 0, 0, 0, 0, 0, 0], 1, 2, 1, 0),
      Walk([1, 2, 3, 0, 0, 4, 0, 0, 0], 2, 2, 1, 0),
      Walk([1, 2, 3, 0, 0, 4, 0, 0, 5], 2, 1, 0, -1),
      Walk([1, 2, 3, 0, 0, 4, 0, 6, 5], 2, 0, 0, -1),
      Walk([1, 2, 3, 0, 0, 4, 7, 6, 5], 1, 0, -1, 0),
      Walk([1, 2, 3, 8, 0, 4, 7, 6, 5], 1, 1, 0, 1)
    ]
  }

  /** Iteration 0 of `make_goal(3)` numbers (0, 0) and keeps heading right. */
  lemma ThreeStep0()
    ensures Step(3, Walk([0, 0, 0, 0, 0, 0, 0, 0, 0], 0, 0, 0, 1), 0) == Walk([1, 0, 0, 0, 0, 0, 0, 0, 0], 0, 1, 0, 1)
  {
    StepOnBoard(3, Walk([0, 0, 0, 0, 0, 0, 0, 0, 0], 0, 0, 0, 1), 0);
  }

  /** Iteration 1 of `make_goal(3)` numbers (0, 1) and keeps heading right. */
  lemma ThreeStep1()
    ensures Step(3, Walk([1, 0, 0, 0, 0, 0, 0, 0, 0], 0, 1, 0, 1), 1) == Walk([1, 2, 0, 0, 0, 0, 0, 0, 0], 0, 2, 0, 1)
  {
    StepOnBoard(3, Walk([1, 0, 0, 0, 0, 0, 0, 0, 0], 0, 1, 0, 1), 1);
  }

  /** Iteration 2 of `make_goal(3)` numbers (0, 2) and turns down at the right edge. */
  lemma ThreeStep2()
    ensures Step(3, Walk([1, 2, 0, 0, 0, 0, 0, 0, 0], 0, 2, 0, 1), 2) == Walk([1, 2, 3, 0, 0, 0, 0, 0, 0], 1, 2, 1, 0)
  {
    StepOnBoard(3, Walk([1, 2, 0, 0, 0, 0, 0, 0, 0], 0, 2, 0, 1), 2);
  }

  /** Iteration 3 of `make_goal(3)` numbers (1, 2) and keeps heading down. */
  lemma ThreeStep3()
    ensures Step(3, Walk([1, 2, 3, 0, 0, 0, 0, 0, 0], 1, 2, 1, 0), 3) == Walk([1, 2, 3, 0, 0, 4, 0, 0, 0], 2, 2, 1, 0)
  {
    StepOnBoard(3, Walk([1, 2, 3, 0, 0, 0, 0, 0, 0], 1, 2, 1, 0), 3);
  }

  /** Iteration 4 of `make_goal(3)` numbers (2, 2) and turns left at the bottom edge. */
  lemma ThreeStep4()
    ensures Step(3, Walk([1, 2, 3, 0, 0, 4, 0, 0, 0], 2, 2, 1, 0), 4) == Walk([1, 2, 3, 0, 0, 4, 0, 0, 5], 2, 1, 0, -1)
  {
    StepOnBoard(3, Walk([1, 2, 3, 0, 0, 4, 0, 0, 0], 2, 2, 1, 0), 4);
  }

  /** Iteration 5 of `make_goal(3)` numbers (2, 1) and keeps heading left. */
  lemma ThreeStep5()
    ensures Step(3, Walk([1, 2, 3, 0, 0, 4, 0, 0, 5], 2, 1, 0, -1), 5) == Walk([1, 2, 3, 0, 0, 4, 0, 6, 5], 2, 0, 0, -1)
  {
    StepOnBoard(3, Walk([1, 2, 3, 0, 0, 4, 0, 0, 5], 2, 1, 0, -1), 5);
  }

  /** Iteration 6 of `make_goal(3)` numbers (2, 0) and turns up at the left edge. */
  lemma ThreeStep6()
    ensures Step(3, Walk([1, 2, 3, 0, 0, 4, 0, 6, 5], 2, 0, 0, -1), 6) == Walk([1, 2, 3, 0, 0, 4, 7, 6, 5], 1, 0, -1, 0)
  {
    StepOnBoard(3, Walk([1, 2, 3, 0, 0, 4, 0, 6, 5], 2, 0, 0, -1), 6);
  }

  /** Iteration 7 of `make_goal(3)` numbers (1, 0) and turns right before the numbered top row. */
  lemma ThreeStep7()
    ensures Step(3, Walk([1, 2, 3, 0, 0, 4, 7, 6, 5], 1, 0, -1, 0), 7) == Walk([1, 2, 3, 8, 0, 4, 7, 6, 5], 1, 1, 0, 1)
  {
    StepOnBoard(3, Walk([1, 2, 3, 0, 0, 4, 7, 6, 5], 1, 0, -1, 0), 7);
  }

  /** The eight iterations of `make_goal(3)`, one lemma each. */
  lemma ThreeStep(k: nat)
    requires k < 8
    ensures WellFormed(3, ThreeWalks()[k]) && Step(3, ThreeWalks()[k], k) == ThreeWalks()[k + 1]
  {
    if k == 0 { ThreeStep0(); }
    else if k == 1 { ThreeStep1(); }
    else if k == 2 { ThreeStep2(); }
    else if k == 3 { ThreeStep3(); }
    else if k == 4 { ThreeStep4(); }
    else if k == 5 { ThreeStep5(); }
    else if k == 6 { ThreeStep6(); }
    else { ThreeStep7(); }
  }

  /** The spiral for size 3, as the loop builds it. */
  lemma SpiralOfThree()
    ensures Spiral(3) == [1, 2, 3, 8, 0, 4, 7, 6, 5]
  {
    forall j | 0 <= j < 8
      ensures WellFormed(3, ThreeWalks()[j]) && Step(3, ThreeWalks()[j], j) == ThreeWalks()[j + 1]
    {
      ThreeStep(j);
    }
    RunChain(3, 8, ThreeWalks());
  }

  /** What `make_goal` promises about its result. */
  lemma SpiralFacts(size: nat)
    ensures IsPermutation(Spiral(size), size * size)
    ensures size >= 2 ==> TopRowNumbered(size, Spiral(size))
  {
    SpiralIsPermutation(size);
    if size >= 2 {
      SpiralTopRow(size);
    }
  }

  /** One iteration of the `make_goal` loop from the state after `i`
      iterations, with the turn test read off the board after the write, as
      the loop body does it. */
  lemma LoopBody(size: nat, i: nat, cells: seq<int>, y: int, x: int, dy: int, dx: int)
    requires i < Iterations(size) && Run(size, i) == Walk(cells, y, x, dy, dx)
    ensures 0 <= y < size && 0 <= x < size && 0 <= y * size + x < |cells| == size * size
    ensures var cells' := cells[y * size + x := i + 1];
            var ny, nx := y + dy, x + dx;
            var turn := Blocked(size, cells', ny, nx);
            var dy', dx' := if turn then dx else dy, if turn then -dy else dx;
            Run(size, i + 1) == Walk(cells', y + dy', x + dx', dy', dx')
  {
    assert size > 0 && i + 1 < size * size;
    WriteInBounds(size, i);
    StepOnBoard(size, Walk(cells, y, x, dy, dx), i);
  }

  /** `Step` from a cell on the board, written out. */
  lemma StepOnBoard(size: nat, w: Walk, i: nat)
    requires WellFormed(size, w) && 0 <= w.y < size && 0 <= w.x < size
    ensures 0 <= w.y * size + w.x < size * size
    ensures var cells := w.cells[w.y * size + w.x := i + 1];
            var ny, nx := w.y + w.dy, w.x + w.dx;
            var turn := Blocked(size, cells, ny, nx);
            var dy, dx := if turn then w.dx else w.dy, if turn then -w.dy else w.dx;
            Step(size, w, i) == Walk(cells, w.y + dy, w.x + dx, dy, dx)
  {
    IndexBounds(size, w.y, w.x);
  }

  /** The turn test of the `make_goal` loop: keep the direction while the
      next cell (ny, nx) is on the board and still 0, otherwise turn
      clockwise. */
  method NextDirection(a: array<int>, size: nat, ny: int, nx: int, dy: int, dx: int)
    returns (dy': int, dx': int)
    requires a.Length == size * size && -1 <= ny <= size && -1 <= nx <= size
    ensures var turn := Blocked(size, a[..], ny, nx);
            dy' == (if turn then dx else dy) && dx' == (if turn then -dy else dx)
  {
    dy', dx' := dy, dx;
    IndexBounds(size, ny, nx);
    if ny < 0 || ny == size || nx < 0 || nx == size || a[ny * size + nx] != 0 {
      dy', dx' := dx, -dy;
    }
  }

  /** The body of the `make_goal` loop: number the current cell, then turn
      clockwise if the next cell is off the board or already numbered. The
      caller advances to the next cell. */
  method FillCell(a: array<int>, size: nat, i: nat, y: int, x: int, dy: int, dx: int)
    returns (dy': int, dx': int)
    requires i < Iterations(size) && Run(size, i) == Walk(a[..], y, x, dy, dx)
    modifies a
    ensures Run(size, i + 1) == Walk(a[..], y + dy', x + dx', dy', dx')
  {
    LoopBody(size, i, a[..], y, x, dy, dx);
    ghost var cells := a[..][y * size + x := i + 1];
    a[y * size + x] := i + 1;
    assert a[..] == cells;
    dy', dx' := NextDirection(a, size, y + dy, x + dx, dy, dx);
  }

  /** `make_goal`: the spiral goal board, numbered clockwise from the top
      left corner and ending with the blank in the last cell walked. */
  method MakeGoal(size: nat) returns (goal: seq<int>)
    ensures goal == Spiral(size)
    ensures IsPermutation(goal, size * size)
    ensures size >= 2 ==> TopRowNumbered(size, goal)
  {
    var a := new int[size * size](_ => 0);
    var y, x := 0, 0;
    var dy, dx := 0, 1;
    var i := 0;
    while i < Iterations(size)
      invariant 0 <= i <= Iterations(size)
      invariant Walk(a[..], y, x, dy, dx) == Run(size, i)
    {
      dy, dx := FillCell(a, size, i, y, x, dy, dx);
      y := y + dy;
      x := x + dx;
      i := i + 1;
    }
    goal := a[..];
    SpiralFacts(size);
  }

  // ---------------------------------------------------------------------
  // generate and swap_empty: the blank's random walk

  /** Cells `a` and `b` of a board `size` wide are orthogonal neighbours:
      their rows and columns differ by one in total. */
  predicate Adjacent(size: nat, a: int, b: int)
    requires size > 0
  {
    Abs(a / size - b / size) + Abs(a % size - b % size) == 1
  }

  /** The `poss` list of `swap_empty`, in the order it is built: left,
      right, up, down. The source divides with `/`, true division: for a
      non-negative `idx`, `idx / size > 0` holds exactly when `idx > 0`,
      and `idx / size < size - 1` exactly when `idx + size < size * size`. */
  function Candidates(size: nat, idx: nat): seq<int>
    requires size > 0
  {
    (if idx % size > 0 then [idx - 1] else [])
    + (if idx % size < size - 1 then [idx + 1] else [])
    + (if idx > 0 && idx - size >= 0 then [idx - size] else [])
    + (if idx + size < size * size then [idx + size] else [])
  }

  /** A row below the last row is one whose cells come before the last
      row's. */
  lemma BeforeLastRow(size: nat, row: int, col: int)
    requires 0 <= row && 0 <= col < size
    ensures row < size - 1 <==> row * size + col + size < size * size
  {
    if row < size - 1 {
      MulNonneg(size - 2 - row, size);
      assert size * size == (size - 2) * size + size + size;
    } else {
      MulNonneg(row - (size - 1), size);
    }
  }

  /** The candidates of a cell on the board are exactly its neighbours on
      the board. */
  lemma CandidatesAreNeighbours(size: nat, idx: nat)
    requires size > 0 && idx < size * size
    ensures forall c :: c in Candidates(size, idx) <==> 0 <= c < size * size && Adjacent(size, idx, c)
  {
    forall c ensures c in Candidates(size, idx) <==> 0 <= c < size * size && Adjacent(size, idx, c) {
      if c in Candidates(size, idx) {
        CandidateIsNeighbour(size, idx, c);
      }
      if 0 <= c < size * size && Adjacent(size, idx, c) {
        NeighbourIsCandidate(size, idx, c);
      }
    }
  }

  /** Cell `b` at (row2, col2), next to cell `a` at (row, col), is its
      neighbour. */
  lemma NeighbourAt(size: nat, a: int, row: int, col: int, b: int, row2: int, col2: int)
    requires 0 <= row < size && 0 <= col < size && 0 <= row2 < size && 0 <= col2 < size
    requires a == row * size + col && b == row2 * size + col2
    requires Abs(row - row2) + Abs(col - col2) == 1
    ensures 0 <= b < size * size
    ensures Adjacent(size, a, b)
  {
    DivModOfIndex(size, row, col);
    DivModOfIndex(size, row2, col2);
    IndexBounds(size, row2, col2);
  }

  /** The candidates of cell (row, col), by row and column. */
  lemma CandidatesAt(size: nat, row: int, col: int)
    requires 0 <= row < size && 0 <= col < size
    ensures 0 <= row * size + col
    ensures Candidates(size, row * size + col)
         == (if col > 0 then [row * size + col - 1] else [])
          + (if col < size - 1 then [row * size + col + 1] else [])
          + (if row > 0 then [(row - 1) * size + col] else [])
          + (if row < size - 1 then [(row + 1) * size + col] else [])
  {
    DivModOfIndex(size, row, col);
    IndexBounds(size, row, col);
    BeforeLastRow(size, row, col);
    var idx := row * size + col;
    assert idx - size == (row - 1) * size + col;
    assert idx + size == (row + 1) * size + col;
    if row == 0 {
      assert idx < size;
    } else {
      MulNonneg(row - 1, size);
      assert idx >= size;
    }
  }

  lemma CandidateIsNeighbour(size: nat, idx: nat, c: int)
    requires size > 0 && idx < size * size && c in Candidates(size, idx)
    ensures 0 <= c < size * size && Adjacent(size, idx, c)
  {
    IndexSplit(size, idx);
    var row, col := idx / size, idx % size;
    CandidatesAt(size, row, col);
    if col > 0 && c == row * size + col - 1 {
      NeighbourAt(size, idx, row, col, c, row, col - 1);
    } else if col < size - 1 && c == row * size + col + 1 {
      NeighbourAt(size, idx, row, col, c, row, col + 1);
    } else if row > 0 && c == (row - 1) * size + col {
      NeighbourAt(size, idx, row, col, c, row - 1, col);
    } else {
      NeighbourAt(size, idx, row, col, c, row + 1, col);
    }
  }

  lemma NeighbourIsCandidate(size: nat, idx: nat, c: int)
    requires size > 0 && idx < size * size && 0 <= c < size * size && Adjacent(size, idx, c)
    ensures c in Candidates(size, idx)
  {
    IndexSplit(size, idx);
    IndexSplit(size, c);
    var row, col := idx / size, idx % size;
    var r, k := c / size, c % size;
    CandidatesAt(size, row, col);
    if r == row {
      assert c == row * size + k;
    } else if r == row - 1 {
      assert c == (row - 1) * size + col;
    } else {
      assert c == (row + 1) * size + col;
    }
  }

  /** `swap_empty` has a candidate exactly when the board is at least 2
      wide; on a 1x1 board `random.choice` gets an empty list. */
  lemma CandidatesNonEmpty(size: nat, idx: nat)
    requires size > 0 && idx < size * size
    ensures Candidates(size, idx) != [] <==> size >= 2
  {
    if size == 1 {
      assert idx == 0;
    }
  }

  /** The two writes of `swap_empty`: the tile at `swi` moves to `idx` and
      `swi` becomes the blank. With the blank at `idx` this is a swap. */
  function Slide(board: seq<int>, idx: nat, swi: nat): (r: seq<int>)
    requires idx < |board| && swi < |board|
    ensures board[idx] == 0 ==> r == Swap(board, idx, swi)
  {
    board[idx := board[swi]][swi := 0]
  }

  /** Sliding a tile into the blank keeps the board a permutation, and the
      blank is then at the tile's old cell. */
  lemma SlidePreservesPermutation(board: seq<int>, n: int, zero: nat, swi: nat)
    requires IsPermutation(board, n) && zero < |board| && swi < |board| && board[zero] == 0
    ensures IsPermutation(Slide(board, zero, swi), n)
    ensures Slide(board, zero, swi)[swi] == 0
    ensures IndexOf(Slide(board, zero, swi), 0) == swi
  {
    SwapPreservesPermutation(board, n, zero, swi);
    IndexOfDistinct(Slide(board, zero, swi), swi);
  }

  /** The list `poss` of `swap_empty`, built by appending the left,
      right, upper and lower neighbour in that order; it holds exactly the
      cells adjacent to `idx`. */
  method CollectCandidates(size: nat, idx: nat) returns (poss: seq<int>)
    requires size > 0 && idx < size * size
    ensures poss == Candidates(size, idx)
    ensures forall c :: c in poss <==> 0 <= c < size * size && Adjacent(size, idx, c)
  {
    poss := [];
    if idx % size > 0 {
      poss := poss + [idx - 1];
    }
    if idx % size < size - 1 {
      poss := poss + [idx + 1];
    }
    if idx > 0 && idx - size >= 0 {
      poss := poss + [idx - size];
    }
    if idx + size < size * size {
      poss := poss + [idx + size];
    }
    CandidatesAreNeighbours(size, idx);
  }

  /** `swap_empty(puzzle, idx)`. `draw` stands for `random.choice`: the
      candidate at `draw` modulo their number is taken. None is the
      IndexError of `random.choice` on an empty list, the board then being
      left as it was. */
  method SwapEmpty(puzzle: array<int>, size: nat, idx: nat, draw: nat) returns (r: Option<nat>)
    requires size > 0 && puzzle.Length == size * size && idx < puzzle.Length
    modifies puzzle
    ensures r.None? <==> Candidates(size, idx) == []
    ensures r.None? ==> puzzle[..] == old(puzzle[..])
    ensures r.Some? ==> && r.value < puzzle.Length
                        && r.value == Candidates(size, idx)[draw % |Candidates(size, idx)|]
                        && Adjacent(size, idx, r.value)
                        && puzzle[..] == Slide(old(puzzle[..]), idx, r.value)
  {
    var poss := CollectCandidates(size, idx);
    if poss == [] {
      return None;
    }
    var swi := poss[draw % |poss|];
    assert swi in poss;
    puzzle[idx] := puzzle[swi];
    puzzle[swi] := 0;
    return Some(swi);
  }

  /** The board and blank index after `k` iterations of the loop of
      `generate` started from `goal`, `pick(j)` being the draw of iteration
      `j`; None once `random.choice` has been handed an empty list. */
  function Scrambled(goal: seq<int>, size: nat, k: nat, pick: nat -> nat): (r: Option<(seq<int>, nat)>)
    requires size > 0 && IsPermutation(goal, size * size)
    ensures r.Some? ==> |r.value.0| == size * size && r.value.1 < size * size
  {
    if k == 0 then
      PermutationContainsAll(goal, size * size, 0);
      Some((goal, IndexOf(goal, 0)))
    else
      match Scrambled(goal, size, k - 1, pick)
      case None => None
      case Some((board, zero)) =>
        var poss := Candidates(size, zero);
        if poss == [] then None
        else
          CandidatesAreNeighbours(size, zero);
          var swi := poss[pick(k - 1) % |poss|];
          assert swi in poss;
          Some((Slide(board, zero, swi), swi))
  }

  /** A board with each of `0 .. n-1` once and the blank at `zero`, which
      is then `board.index(0)`. */
  predicate BlankAt(board: seq<int>, n: int, zero: int)
  {
    IsPermutation(board, n) && 0 <= zero < |board| && board[zero] == 0 && zero == IndexOf(board, 0)
  }

  /** Every board the walk reaches is a permutation, with the blank where
      the index says. */
  lemma {:induction false} ScrambledIsPermutation(goal: seq<int>, size: nat, k: nat, pick: nat -> nat)
    requires size > 0 && IsPermutation(goal, size * size)
    ensures Scrambled(goal, size, k, pick).Some? ==>
              BlankAt(Scrambled(goal, size, k, pick).value.0, size * size, Scrambled(goal, size, k, pick).value.1)
  {
    if k == 0 {
      PermutationContainsAll(goal, size * size, 0);
    } else {
      ScrambledIsPermutation(goal, size, k - 1, pick);
      ScrambledKeepsBlank(goal, size, k, pick);
    }
  }

  /** One iteration keeps the board a permutation with the blank at the
      index. */
  lemma ScrambledKeepsBlank(goal: seq<int>, size: nat, k: nat, pick: nat -> nat)
    requires size > 0 && IsPermutation(goal, size * size) && k > 0
    requires Scrambled(goal, size, k - 1, pick).Some? ==>
               BlankAt(Scrambled(goal, size, k - 1, pick).value.0, size * size,
                       Scrambled(goal, size, k - 1, pick).value.1)
    ensures Scrambled(goal, size, k, pick).Some? ==>
              BlankAt(Scrambled(goal, size, k, pick).value.0, size * size, Scrambled(goal, size, k, pick).value.1)
  {
    var prev := Scrambled(goal, size, k - 1, pick);
    if prev.Some? {
      var board, zero := prev.value.0, prev.value.1;
      ScrambledNext(goal, size, k - 1, pick, board, zero);
      var poss := Candidates(size, zero);
      if poss != [] {
        SlidePreservesPermutation(board, size * size, zero, poss[pick(k - 1) % |poss|]);
      }
    }
  }

  /** One more iteration from a board reached after `k`: None when the
      blank has no neighbour, otherwise the slide to the drawn candidate. */
  lemma ScrambledNext(goal: seq<int>, size: nat, k: nat, pick: nat -> nat, board: seq<int>, zero: nat)
    requires size > 0 && IsPermutation(goal, size * size)
    requires Scrambled(goal, size, k, pick) == Some((board, zero))
    ensures zero < |board| == size * size
    ensures Candidates(size, zero) == [] ==> Scrambled(goal, size, k + 1, pick).None?
    ensures Candidates(size, zero) != [] ==>
              var poss := Candidates(size, zero);
              var swi := poss[pick(k) % |poss|];
              && 0 <= swi < |board|
              && Scrambled(goal, size, k + 1, pick) == Some((Slide(board, zero, swi), swi))
  {
    if Candidates(size, zero) != [] {
      CandidatesAreNeighbours(size, zero);
      var poss := Candidates(size, zero);
      assert poss[pick(k) % |poss|] in poss;
    }
  }

  /** The walk fails at iteration `k` when it had failed already or the
      blank has no neighbour. */
  lemma ScrambledFailsStep(goal: seq<int>, size: nat, k: nat, pick: nat -> nat)
    requires size > 0 && IsPermutation(goal, size * size) && k > 0
    ensures Scrambled(goal, size, k, pick).None? <==>
              || Scrambled(goal, size, k - 1, pick).None?
              || Candidates(size, Scrambled(goal, size, k - 1, pick).value.1) == []
  {
  }

  /** The walk fails exactly on a 1x1 board asked for at least one swap:
      on every larger board the blank always has a neighbour. */
  lemma {:induction false} ScrambledFails(goal: seq<int>, size: nat, k: nat, pick: nat -> nat)
    requires size > 0 && IsPermutation(goal, size * size)
    ensures Scrambled(goal, size, k, pick).None? <==> size == 1 && k > 0
  {
    if k > 0 {
      ScrambledFails(goal, size, k - 1, pick);
      ScrambledFailsStep(goal, size, k, pick);
      var prev := Scrambled(goal, size, k - 1, pick);
      if prev.Some? {
        var zero := prev.value.1;
        assert zero < size * size;
        CandidatesNonEmpty(size, zero);
        assert Scrambled(goal, size, k, pick).None? <==> size == 1;
      } else {
        assert size == 1 && k - 1 > 0;
      }
    }
  }

  /** Each iteration moves the blank from `zero` to a neighbouring cell by
      a single swap. */
  lemma ScrambledStep(goal: seq<int>, size: nat, k: nat, pick: nat -> nat, board: seq<int>, zero: nat)
    requires size > 0 && IsPermutation(goal, size * size)
    requires Scrambled(goal, size, k, pick) == Some((board, zero))
    requires Scrambled(goal, size, k + 1, pick).Some?
    ensures zero < |board| && Scrambled(goal, size, k + 1, pick).value.1 < |board|
    ensures Adjacent(size, zero, Scrambled(goal, size, k + 1, pick).value.1)
    ensures Scrambled(goal, size, k + 1, pick).value.0 == Swap(board, zero, Scrambled(goal, size, k + 1, pick).value.1)
  {
    ScrambledIsPermutation(goal, size, k, pick);
    ScrambledNext(goal, size, k, pick, board, zero);
    CandidatesAreNeighbours(size, zero);
    var poss := Candidates(size, zero);
    assert poss[pick(k) % |poss|] in poss;
  }

  /** One pass of the loop of `generate`: the blank at `zero` changes
      place with the drawn neighbour, which is iteration `k + 1` of the
      walk; None when `random.choice` is handed an empty list. */
  method ScrambleOnce(puzzle: array<int>, goal: seq<int>, size: nat, k: nat, pick: nat -> nat, zero: nat)
    returns (moved: Option<nat>)
    requires size > 0 && IsPermutation(goal, size * size) && puzzle.Length == size * size
    requires Scrambled(goal, size, k, pick) == Some((puzzle[..], zero))
    modifies puzzle
    ensures moved.None? <==> Scrambled(goal, size, k + 1, pick).None?
    ensures moved.Some? ==> Scrambled(goal, size, k + 1, pick) == Some((puzzle[..], moved.value))
  {
    ScrambledNext(goal, size, k, pick, puzzle[..], zero);
    moved := SwapEmpty(puzzle, size, zero, pick(k));
  }

  /** The loop of `generate`: `n` passes of `swap_empty` over a copy of
      `goal`, the blank starting at `goal.index(0)`. */
  method Scramble(goal: seq<int>, size: nat, n: nat, pick: nat -> nat) returns (r: Option<seq<int>>)
    requires size > 0 && IsPermutation(goal, size * size)
    ensures r.None? <==> Scrambled(goal, size, n, pick).None?
    ensures r.Some? ==> Scrambled(goal, size, n, pick).Some? && Scrambled(goal, size, n, pick).value.0 == r.value
  {
    var puzzle := new int[|goal|](k requires 0 <= k < |goal| => goal[k]);
    PermutationContainsAll(goal, size * size, 0);
    var zero := IndexOf(goal, 0);
    assert puzzle[..] == goal;
    var it := 0;
    while it < n
      invariant 0 <= it <= n
      invariant puzzle.Length == size * size
      invariant Scrambled(goal, size, it, pick) == Some((puzzle[..], zero))
    {
      var moved := ScrambleOnce(puzzle, goal, size, it, pick, zero);
      if moved.None? {
        ScrambledFails(goal, size, it + 1, pick);
        ScrambledFails(goal, size, n, pick);
        return None;
      }
      zero := moved.value;
      it := it + 1;
    }
    return Some(puzzle[..]);
  }

  /** `generate(size, iterations)`, `pick` supplying the draws of
      `random.choice`. None is the exception the source raises: ValueError
      from `puzzle.index(0)` on the empty board of size 0, IndexError from
      `random.choice` on a 1x1 board. Otherwise the result is the scrambled
      board, a permutation. */
  method Generate(size: nat, iterations: int, pick: nat -> nat) returns (r: Option<seq<int>>)
    ensures r.None? <==> size == 0 || (size == 1 && iterations > 0)
    ensures r.Some? ==> IsPermutation(r.value, size * size)
    ensures r.Some? ==> var n := if iterations < 0 then 0 else iterations;
                        && IsPermutation(Spiral(size), size * size)
                        && Scrambled(Spiral(size), size, n, pick).Some?
                        && Scrambled(Spiral(size), size, n, pick).value.0 == r.value
  {
    var goal := MakeGoal(size);
    if 0 !in goal {
      assert size == 0 by {
        if size > 0 {
          PermutationContainsAll(goal, size * size, 0);
        }
      }
      return None;
    }
    assert size > 0;
    var n := if iterations < 0 then 0 else iterations;
    r := Scramble(goal, size, n, pick);
    ScrambledFails(goal, size, n, pick);
    ScrambledIsPermutation(goal, size, n, pick);
  }
}
