/** The board layer of `sources/solver.py`: the validation and flattening
    done by `Puzzle.__init__`, the successor generation of `Puzzle.expand`,
    the `bad_place` count and the goal test of `Puzzle.solve`. */
module Solver {
  import opened Boards
  import Heuristics
  import Generator

  /** The one exception `check_valid` raises, "Invalid puzzle". */
  datatype Invalid = InvalidPuzzle

  // ---------------------------------------------------------------------
  // check_valid and __init__

  /** `any(not line for line in lines)`. */
  predicate AnyEmpty(lines: seq<seq<int>>)
  {
    lines != [] && (lines[0] == [] || AnyEmpty(lines[1..]))
  }

  /** `any(len(line) != size for line in rows)`. */
  predicate AnyWrongLength(rows: seq<seq<int>>, size: int)
  {
    rows != [] && (|rows[0]| != size || AnyWrongLength(rows[1..], size))
  }

  lemma {:induction false} AnyEmptyIff(lines: seq<seq<int>>)
    ensures AnyEmpty(lines) <==> exists k :: 0 <= k < |lines| && lines[k] == []
  {
    if lines != [] {
      AnyEmptyIff(lines[1..]);
      if AnyEmpty(lines[1..]) {
        var k :| 0 <= k < |lines[1..]| && lines[1..][k] == [];
        assert lines[k + 1] == [];
      }
      if lines[0] != [] && !AnyEmpty(lines[1..]) {
        forall k | 0 <= k < |lines|
          ensures lines[k] != []
        {
          if k > 0 {
            assert lines[k] == lines[1..][k - 1];
          }
        }
      }
    }
  }

  lemma {:induction false} AnyWrongLengthIff(rows: seq<seq<int>>, size: int)
    ensures AnyWrongLength(rows, size) <==> exists k :: 0 <= k < |rows| && |rows[k]| != size
  {
    if rows != [] {
      AnyWrongLengthIff(rows[1..], size);
      if AnyWrongLength(rows[1..], size) {
        var k :| 0 <= k < |rows[1..]| && |rows[1..][k]| != size;
        assert |rows[k + 1]| != size;
      }
      if |rows[0]| == size && !AnyWrongLength(rows[1..], size) {
        forall k | 0 <= k < |rows|
          ensures |rows[k]| == size
        {
          if k > 0 {
            assert rows[k] == rows[1..][k - 1];
          }
        }
      }
    }
  }

  /** The body of `check_valid`: the header line's first value is the size;
      the body must have that many lines, each that long. */
  function CheckValid(puzzle: seq<seq<int>>): Outcome<Invalid>
  {
    if puzzle == [] || AnyEmpty(puzzle) then Fail(InvalidPuzzle)
    else
      var size := puzzle[0][0];
      var rows := puzzle[1..];
      if size != |rows| || AnyWrongLength(rows, size) then Fail(InvalidPuzzle)
      else Pass
  }

  /** A square board as `check_valid` wants it: a non-empty header line
      whose first value `n` is the number of body lines, and `n` body lines
      of `n` values each. */
  predicate SquareInput(puzzle: seq<seq<int>>)
  {
    && |puzzle| > 0
    && |puzzle[0]| > 0
    && puzzle[0][0] == |puzzle| - 1
    && forall k :: 1 <= k < |puzzle| ==> |puzzle[k]| == puzzle[0][0]
  }

  /** `check_valid` passes exactly on square input, and it raises on the
      empty input, on an empty line, on a wrong number of body lines and on
      a body line of the wrong length. Neither the values nor their
      solvability are checked. */
  lemma CheckValidAccepts(puzzle: seq<seq<int>>)
    ensures CheckValid(puzzle).Pass? <==> SquareInput(puzzle)
    ensures puzzle == [] ==> CheckValid(puzzle).Fail?
    ensures (exists k :: 0 <= k < |puzzle| && puzzle[k] == []) ==> CheckValid(puzzle).Fail?
    ensures puzzle != [] && puzzle[0] != [] && puzzle[0][0] != |puzzle| - 1 ==> CheckValid(puzzle).Fail?
    ensures puzzle != [] && puzzle[0] != [] && (exists k :: 1 <= k < |puzzle| && |puzzle[k]| != puzzle[0][0]) ==>
              CheckValid(puzzle).Fail?
  {
    AnyEmptyIff(puzzle);
    if puzzle != [] && puzzle[0] != [] {
      AnyWrongLengthIff(puzzle[1..], puzzle[0][0]);
      if exists k :: 1 <= k < |puzzle| && |puzzle[k]| != puzzle[0][0] {
        var k :| 1 <= k < |puzzle| && |puzzle[k]| != puzzle[0][0];
        assert |puzzle[1..][k - 1]| != puzzle[0][0];
      }
      if SquareInput(puzzle) {
        forall k | 0 <= k < |puzzle|
          ensures puzzle[k] != []
        {
          if k > 0 {
            assert |puzzle[k]| == |puzzle| - 1 > 0;
          }
        }
        forall k | 0 <= k < |puzzle[1..]|
          ensures |puzzle[1..][k]| == puzzle[0][0]
        {
          assert puzzle[1..][k] == puzzle[k + 1];
        }
      }
    }
  }

  /** The board `__init__` keeps, `sum(puzzle[1:], [])`, holds the body
      rows in row-major order: cell `c` of body row `r` is at `r * n + c`. */
  lemma FlattenedBody(puzzle: seq<seq<int>>, r: nat, c: nat)
    requires SquareInput(puzzle)
    requires r < |puzzle| - 1 && c < |puzzle| - 1
    ensures var n := |puzzle| - 1;
            && |Flatten(puzzle[1..])| == n * n
            && r * n + c < n * n
            && Flatten(puzzle[1..])[r * n + c] == puzzle[r + 1][c]
  {
    var n := |puzzle| - 1;
    forall k | 0 <= k < |puzzle[1..]|
      ensures |puzzle[1..][k]| == n
    {
      assert puzzle[1..][k] == puzzle[k + 1];
    }
    FlattenRowMajor(puzzle[1..], n, r, c);
  }

  /** A search state `(f, d, y, x, puzzle)`: priority, depth, the blank's
      row and column, and the board. */
  datatype State = State(f: int, d: int, y: int, x: int, board: seq<int>)

  /** `Puzzle`: the side length, the flat board and the `solved` flag. */
  class Puzzle {
    var size: int
    var puzzle: seq<int>
    var solved: bool

    /** `__init__` on input `check_valid` accepts: the size is the header's
        first value, the board the body rows flattened, `solved` false. */
    constructor (raw: seq<seq<int>>)
      requires CheckValid(raw).Pass?
      ensures size == raw[0][0] && puzzle == Flatten(raw[1..]) && !solved
    {
      size := raw[0][0];
      puzzle := Flatten(raw[1..]);
      solved := false;
    }

    /** `expand(state, h)`: one successor for each of the moves down, up,
        right and left that stays on the board, in that order. `h` stands
        for the heuristic the source calls with no argument. */
    method Expand(state: State, h: () -> int) returns (possibilities: seq<State>)
      requires 0 <= state.y < size && 0 <= state.x < size && |state.board| == size * size
      ensures possibilities == Successors(size, state, h(), 4)
    {
      var y, x := state.y, state.x;
      var moves := [(y + 1, x), (y - 1, x), (y, x + 1), (y, x - 1)];
      possibilities := [];
      var k := 0;
      while k < 4
        invariant 0 <= k <= 4
        invariant possibilities == Successors(size, state, h(), k)
      {
        var ny, nx := moves[k].0, moves[k].1;
        assert moves[k] == Target(y, x, k);
        possibilities := AddMove(state, h, k, ny, nx, possibilities);
        k := k + 1;
      }
    }

    /** One pass of the loop of `expand`: skip `(ny, nx)` when it is off the
        board, otherwise append the copy of the board with the blank moved
        there. */
    method AddMove(state: State, h: () -> int, ghost k: nat, ny: int, nx: int, possibilities: seq<State>)
      returns (next: seq<State>)
      requires 0 <= state.y < size && 0 <= state.x < size && |state.board| == size * size
      requires k < 4 && (ny, nx) == Target(state.y, state.x, k)
      requires possibilities == Successors(size, state, h(), k)
      ensures next == Successors(size, state, h(), k + 1)
    {
      SuccessorsNext(size, state, h(), k);
      next := possibilities;
      if !(ny < 0 || ny == size || nx < 0 || nx == size) {
        IndexBounds(size, state.y, state.x);
        IndexBounds(size, ny, nx);
        var updated := SwapCopy(state.board, state.y * size + state.x, ny * size + nx);
        next := next + [State(h(), state.d + 1, ny, nx, updated)];
      }
    }
  }

  /** `Puzzle(raw)`: the exception `check_valid` raises, or a new puzzle
      holding the size and the flattened body. */
  method NewPuzzle(raw: seq<seq<int>>) returns (r: Result<Puzzle, Invalid>)
    ensures r.Err? <==> CheckValid(raw).Fail?
    ensures r.Ok? ==> && fresh(r.value)
                      && r.value.size == raw[0][0] == |raw| - 1
                      && r.value.puzzle == Flatten(raw[1..])
                      && |r.value.puzzle| == r.value.size * r.value.size
                      && !r.value.solved
  {
    CheckValidAccepts(raw);
    if CheckValid(raw).Fail? {
      return Err(InvalidPuzzle);
    }
    if |raw| > 1 {
      FlattenedBody(raw, 0, 0);
    }
    var p := new Puzzle(raw);
    return Ok(p);
  }

  /** `list(puzzle)` followed by the tuple assignment that exchanges cells
      `i` and `j` of the copy. */
  method SwapCopy(board: seq<int>, i: nat, j: nat) returns (r: seq<int>)
    requires i < |board| && j < |board|
    ensures r == Swap(board, i, j)
  {
    var updated := new int[|board|](k requires 0 <= k < |board| => board[k]);
    assert updated[..] == board;
    updated[i], updated[j] := updated[j], updated[i];
    r := updated[..];
  }

  // ---------------------------------------------------------------------
  // expand

  /** Candidate `i` for the blank's new position, in the order `expand`
      tries them: down, up, right, left. */
  function Target(y: int, x: int, i: nat): (p: (int, int))
    requires i < 4
    ensures Abs(p.0 - y) + Abs(p.1 - x) == 1
  {
    [(y + 1, x), (y - 1, x), (y, x + 1), (y, x - 1)][i]
  }

  /** The test `expand` keeps a move on. */
  predicate OnBoard(size: int, ny: int, nx: int)
  {
    !(ny < 0 || ny == size || nx < 0 || nx == size)
  }

  /** The successor with the blank moved to `(ny, nx)`: the two cells
      exchanged, depth one more, priority `hv`. */
  function Successor(size: int, s: State, hv: int, ny: int, nx: int): (t: State)
    requires 0 <= s.y < size && 0 <= s.x < size && |s.board| == size * size
    requires 0 <= ny < size && 0 <= nx < size
    ensures 0 <= s.y * size + s.x < |s.board| && 0 <= ny * size + nx < |s.board|
    ensures t.y == ny && t.x == nx && t.f == hv && t.d == s.d + 1
    ensures t.board == Swap(s.board, s.y * size + s.x, ny * size + nx)
  {
    IndexBounds(size, s.y, s.x);
    IndexBounds(size, ny, nx);
    State(hv, s.d + 1, ny, nx, Swap(s.board, s.y * size + s.x, ny * size + nx))
  }

  /** The successors `expand` builds from its first `n` candidates: one for
      each candidate that passes the bounds test, in order. */
  function Successors(size: int, s: State, hv: int, n: nat): (r: seq<State>)
    requires 0 <= s.y < size && 0 <= s.x < size && |s.board| == size * size
    requires n <= 4
    ensures |r| <= n
  {
    if n == 0 then []
    else
      var p := Target(s.y, s.x, n - 1);
      if OnBoard(size, p.0, p.1) then Successors(size, s, hv, n - 1) + [Successor(size, s, hv, p.0, p.1)]
      else Successors(size, s, hv, n - 1)
  }

  /** One more candidate adds its successor when it passes the bounds
      test. */
  lemma SuccessorsNext(size: int, s: State, hv: int, n: nat)
    requires 0 <= s.y < size && 0 <= s.x < size && |s.board| == size * size && n < 4
    ensures var p := Target(s.y, s.x, n);
            Successors(size, s, hv, n + 1) ==
              if OnBoard(size, p.0, p.1) then Successors(size, s, hv, n) + [Successor(size, s, hv, p.0, p.1)]
              else Successors(size, s, hv, n)
  {
  }

  /** Each successor comes from a candidate `i` that passes the bounds
      test: it is the parent's board with the blank moved to that
      candidate, at depth `d + 1`. */
  lemma {:induction false} SuccessorsSound(size: int, s: State, hv: int, n: nat, k: nat) returns (i: nat)
    requires 0 <= s.y < size && 0 <= s.x < size && |s.board| == size * size
    requires n <= 4 && k < |Successors(size, s, hv, n)|
    ensures i < n && OnBoard(size, Target(s.y, s.x, i).0, Target(s.y, s.x, i).1)
    ensures Successors(size, s, hv, n)[k] == Successor(size, s, hv, Target(s.y, s.x, i).0, Target(s.y, s.x, i).1)
  {
    SuccessorsNext(size, s, hv, n - 1);
    if k < |Successors(size, s, hv, n - 1)| {
      i := SuccessorsSound(size, s, hv, n - 1, k);
    } else {
      i := n - 1;
    }
  }

  /** Successors keep the order of their candidates (down, up, right,
      left): an earlier successor comes from an earlier candidate. */
  lemma {:induction false} SuccessorsInOrder(size: int, s: State, hv: int, n: nat, k1: nat, k2: nat)
    returns (i1: nat, i2: nat)
    requires 0 <= s.y < size && 0 <= s.x < size && |s.board| == size * size
    requires n <= 4 && k1 < k2 < |Successors(size, s, hv, n)|
    ensures i1 < i2 < n
    ensures OnBoard(size, Target(s.y, s.x, i1).0, Target(s.y, s.x, i1).1)
    ensures OnBoard(size, Target(s.y, s.x, i2).0, Target(s.y, s.x, i2).1)
    ensures Successors(size, s, hv, n)[k1] == Successor(size, s, hv, Target(s.y, s.x, i1).0, Target(s.y, s.x, i1).1)
    ensures Successors(size, s, hv, n)[k2] == Successor(size, s, hv, Target(s.y, s.x, i2).0, Target(s.y, s.x, i2).1)
  {
    var before := Successors(size, s, hv, n - 1);
    SuccessorsNext(size, s, hv, n - 1);
    if k2 < |before| {
      assert Successors(size, s, hv, n)[k1] == before[k1] && Successors(size, s, hv, n)[k2] == before[k2];
      i1, i2 := SuccessorsInOrder(size, s, hv, n - 1, k1, k2);
    } else {
      var p := Target(s.y, s.x, n - 1);
      assert OnBoard(size, p.0, p.1);
      assert Successors(size, s, hv, n) == before + [Successor(size, s, hv, p.0, p.1)];
      i1 := SuccessorsSound(size, s, hv, n - 1, k1);
      i2 := n - 1;
    }
  }

  /** A successor's blank is on the board, one step from the parent's. */
  lemma SuccessorMoved(size: int, s: State, hv: int, k: nat)
    requires 0 <= s.y < size && 0 <= s.x < size && |s.board| == size * size
    requires k < |Successors(size, s, hv, 4)|
    ensures var t := Successors(size, s, hv, 4)[k];
            && 0 <= t.y < size && 0 <= t.x < size
            && Abs(t.y - s.y) + Abs(t.x - s.x) == 1
            && t.d == s.d + 1 && t.f == hv
            && 0 <= s.y * size + s.x < |s.board| && 0 <= t.y * size + t.x < |s.board|
            && t.board == Swap(s.board, s.y * size + s.x, t.y * size + t.x)
  {
    var i := SuccessorsSound(size, s, hv, 4, k);
  }

  /** Every candidate among the first `n` that stays on the board yields a
      successor. */
  lemma {:induction false} SuccessorsComplete(size: int, s: State, hv: int, n: nat, i: nat) returns (k: nat)
    requires 0 <= s.y < size && 0 <= s.x < size && |s.board| == size * size
    requires i < n <= 4 && OnBoard(size, Target(s.y, s.x, i).0, Target(s.y, s.x, i).1)
    ensures k < |Successors(size, s, hv, n)|
    ensures Successors(size, s, hv, n)[k] == Successor(size, s, hv, Target(s.y, s.x, i).0, Target(s.y, s.x, i).1)
  {
    SuccessorsNext(size, s, hv, n - 1);
    if i == n - 1 {
      k := |Successors(size, s, hv, n - 1)|;
    } else {
      k := SuccessorsComplete(size, s, hv, n - 1, i);
    }
  }

  /** Away from the edges `expand` yields four successors, the blank moved
      down, up, right and left in that order. */
  lemma ExpandInterior(size: int, s: State, hv: int)
    requires 0 < s.y < size - 1 && 0 < s.x < size - 1 && |s.board| == size * size
    ensures var r := Successors(size, s, hv, 4);
            && |r| == 4
            && (r[0].y, r[0].x) == (s.y + 1, s.x)
            && (r[1].y, r[1].x) == (s.y - 1, s.x)
            && (r[2].y, r[2].x) == (s.y, s.x + 1)
            && (r[3].y, r[3].x) == (s.y, s.x - 1)
  {
    var r1 := Successors(size, s, hv, 1);
    assert r1 == [Successor(size, s, hv, s.y + 1, s.x)];
    var r2 := Successors(size, s, hv, 2);
    assert r2 == r1 + [Successor(size, s, hv, s.y - 1, s.x)];
    var r3 := Successors(size, s, hv, 3);
    assert r3 == r2 + [Successor(size, s, hv, s.y, s.x + 1)];
  }

  /** In the top left corner only the moves down and right remain. */
  lemma ExpandCorner(size: int, s: State, hv: int)
    requires size >= 2 && s.y == 0 && s.x == 0 && |s.board| == size * size
    ensures var r := Successors(size, s, hv, 4);
            && |r| == 2
            && (r[0].y, r[0].x) == (1, 0)
            && (r[1].y, r[1].x) == (0, 1)
  {
    var r1 := Successors(size, s, hv, 1);
    assert r1 == [Successor(size, s, hv, 1, 0)];
    var r2 := Successors(size, s, hv, 2);
    assert r2 == r1;
    var r3 := Successors(size, s, hv, 3);
    assert r3 == r2 + [Successor(size, s, hv, 0, 1)];
  }

  /** Successors of a board with the blank at `(y, x)` stay permutations,
      with the blank at their own `(y, x)`. */
  lemma SuccessorsKeepBlank(size: int, s: State, hv: int, k: nat)
    requires 0 <= s.y < size && 0 <= s.x < size && |s.board| == size * size
    requires IsPermutation(s.board, size * size) && 0 in s.board && IndexOf(s.board, 0) == s.y * size + s.x
    requires k < |Successors(size, s, hv, 4)|
    ensures var t := Successors(size, s, hv, 4)[k];
            && IsPermutation(t.board, size * size)
            && 0 <= t.y * size + t.x < size * size
            && t.board[t.y * size + t.x] == 0
  {
    SuccessorMoved(size, s, hv, k);
    var t := Successors(size, s, hv, 4)[k];
    IndexBounds(size, t.y, t.x);
    SwapPreservesPermutation(s.board, size * size, s.y * size + s.x, t.y * size + t.x);
  }

  /** The candidate of a cell `(y, x)` one step from `(y', x')` that leads
      back to `(y', x')`. */
  lemma BackTarget(y: int, x: int, y': int, x': int) returns (i: nat)
    requires Abs(y - y') + Abs(x - x') == 1
    ensures i < 4 && Target(y', x', i) == (y, x)
  {
    if y' == y - 1 {
      i := 0;
    } else if y' == y + 1 {
      i := 1;
    } else if x' == x - 1 {
      i := 2;
    } else {
      i := 3;
    }
  }

  /** `expand` does not exclude the move back: from every successor, the
      parent's board is among its own successors. */
  lemma MoveBackIncluded(size: int, s: State, hv: int, hv': int, k: nat)
    requires 0 <= s.y < size && 0 <= s.x < size && |s.board| == size * size
    requires k < |Successors(size, s, hv, 4)|
    ensures 0 <= Successors(size, s, hv, 4)[k].y < size && 0 <= Successors(size, s, hv, 4)[k].x < size
    ensures |Successors(size, s, hv, 4)[k].board| == size * size
    ensures var t := Successors(size, s, hv, 4)[k];
            exists j :: 0 <= j < |Successors(size, t, hv', 4)| && Successors(size, t, hv', 4)[j].board == s.board
  {
    var t := Successors(size, s, hv, 4)[k];
    var i0 := SuccessorsSound(size, s, hv, 4, k);
    var p := Target(s.y, s.x, i0);
    assert t == Successor(size, s, hv, p.0, p.1);
    var i := BackTarget(s.y, s.x, t.y, t.x);
    assert OnBoard(size, Target(t.y, t.x, i).0, Target(t.y, t.x, i).1);
    var j := SuccessorsComplete(size, t, hv', 4, i);
    UndoMove(size, s, hv, hv', p.0, p.1);
  }

  /** Moving the blank to `(ny, nx)` and back restores the board. */
  lemma UndoMove(size: int, s: State, hv: int, hv': int, ny: int, nx: int)
    requires 0 <= s.y < size && 0 <= s.x < size && |s.board| == size * size
    requires 0 <= ny < size && 0 <= nx < size
    ensures Successor(size, Successor(size, s, hv, ny, nx), hv', s.y, s.x).board == s.board
  {
    var t := Successor(size, s, hv, ny, nx);
    var here, there := s.y * size + s.x, ny * size + nx;
    assert t.board == Swap(s.board, here, there);
    var back := Successor(size, t, hv', s.y, s.x);
    assert back.board == Swap(t.board, there, here);
    SwapTwice(s.board, here, there);
  }

  // ---------------------------------------------------------------------
  // bad_place and the goal test

  /** The goal test of `solve`, `all(i == e for i, e in enumerate(puzzle))`:
      every cell holds its own index. */
  predicate IsFinal(board: seq<int>)
  {
    forall i :: 0 <= i < |board| ==> board[i] == i
  }

  /** `sum(i != e for i, e in enumerate(board[:n]))`. */
  function BadCount(board: seq<int>, n: nat): (r: nat)
    requires n <= |board|
    ensures r <= n
    ensures r == 0 <==> forall i :: 0 <= i < n ==> board[i] == i
  {
    if n == 0 then 0
    else BadCount(board, n - 1) + (if board[n - 1] != n - 1 then 1 else 0)
  }

  /** `bad_place(state)`: the number of cells not holding their own index. */
  function BadPlace(state: State): (r: nat)
    ensures r <= |state.board|
    ensures r == 0 <==> IsFinal(state.board)
  {
    BadCount(state.board, |state.board|)
  }

  /** The board `0, 1, .., n-1` the goal test looks for. */
  function Identity(n: nat): (r: seq<int>)
    ensures |r| == n && IsFinal(r)
  {
    seq(n, i => i)
  }

  /** `bad_place` is the `misplaced` heuristic measured against the
      identity board. */
  lemma {:induction false} BadPlaceIsMisplaced(board: seq<int>, n: nat)
    requires n <= |board|
    ensures BadCount(board, n) == Heuristics.MisplacedUpTo(board, Identity(|board|), n)
  {
    if n > 0 {
      BadPlaceIsMisplaced(board, n - 1);
    }
  }

  /** The only board that passes the goal test is the identity, a
      permutation. */
  lemma FinalIsIdentity(board: seq<int>)
    requires IsFinal(board)
    ensures board == Identity(|board|) && IsPermutation(board, |board|)
  {
  }

  /** The goal test never accepts the spiral board of `make_goal` on a board
      of side 2 or more: the first cell of the spiral holds 1, not 0. */
  lemma SpiralIsNotFinal(size: nat)
    requires size >= 2
    ensures !IsFinal(Generator.Spiral(size))
    ensures BadPlace(State(0, 0, 0, 0, Generator.Spiral(size))) > 0
  {
    Generator.SpiralFacts(size);
    assert Generator.Spiral(size)[0] == 1;
  }
}
