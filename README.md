# n-puzzle board layer in Dafny

A model of the part of the n-puzzle repository that works on boards. The
search loop around it is not modelled. A board is a flat, row-major sequence
of the `height * width` values `0 .. height*width-1`, with `0` as the blank.
The model covers:

- **Reading puzzle files** (`Parsing.dfy`, `sources/parsing.py`).
  - `deserialize_puzzle` strips each line's `#` comment, splits the line on
    whitespace and keeps the non-empty ones. It is modelled as a loop over
    the lines of the file.
  - `parse_dimensions` reads an `N` or `NxM` header.
  - `parse_puzzle` checks the header, the token form, the cell count, the
    value range and duplicates, in that order, each with its own error.
  - Proved: an accepted puzzle is a permutation of `0 .. h*w-1`, laid out as
    the body rows concatenated. Every rejection happens exactly where the
    source raises.
- **Heuristics** (`Heuristics.dfy`, `sources/heuristics.py`).
  - `manhattan` and `squared` are modelled as the source's loops: first the
    `coords` dictionary is built, then one distance per cell is added up,
    the blank included. `misplaced` is a count of differing positions.
  - A KeyError or ZeroDivisionError becomes `None`.
  - Proved: both sums are zero at the goal. `misplaced <= manhattan <=
    squared` holds on permutations. The `NAMES` / `DEFAULT` table maps each
    name to its function.
- **Goal and instance generation** (`Generator.dfy`, `sources/generator.py`).
  - `make_goal` fills an array in a clockwise spiral. It is proved equal to
    a step function run `size*size - 1` times (`Spiral`).
  - Proved: every write stays on the board, the result is a permutation,
    and for size 2 or more its top row is `1 .. size` (`make_goal(1)` is
    `[0]`). `make_goal(2)` and `make_goal(3)` are computed exactly.
  - `generate` / `swap_empty` perform a random walk of the blank.
    `random.choice` is replaced by a draw the caller supplies.
  - Proved: each step exchanges the blank with an orthogonal neighbour on
    the board. The board stays a permutation, with `zero_idx` equal to
    `puzzle.index(0)`. The only failures are the ones Python raises:
    `index(0)` on the empty board of size 0, and `choice([])` on a 1x1
    board.
- **Move semantics**.
  - `Solver.dfy` (`sources/solver.py`):
    - `check_valid` accepts exactly square input.
    - `Puzzle.__init__` keeps the size and the flattened body.
    - `Puzzle.expand` yields, in the order down, up, right, left, one
      successor per in-bounds move. Each successor is its parent with two
      cells exchanged and the depth one more. The move back is never
      excluded.
    - `bad_place` is zero exactly when the goal test of line 61 holds, and
      it equals `misplaced` measured against the identity board.
  - `Visualizer.dfy` (`sources/visualizer.py`):
    - `Visualizer.apply_move` changes the board in place.
    - Off the board, or with a symbol other than `^ v < >`, it changes
      nothing.
    - Otherwise it swaps the blank with the target cell and keeps the
      permutation. `v` then `^`, and `>` then `<`, restore the board.

`Boards.dfy` holds what these share:
- permutations;
- row-major indexing on square and rectangular boards;
- the flattening `sum(rows, [])`;
- the swap of two cells.

The goal test of `Puzzle.solve` (solver.py:61) wants cell `i` to hold `i`:
the identity board, with the blank first. It is not the spiral `make_goal`
builds. `Solver.SpiralIsNotFinal` proves that no spiral of side 2 or more
passes that test.

The model follows the definitions as written:
- `make_goal` and `generate` take one side length (generator.py:4, 27). The
  driver calls them with a height and a width (n-puzzle.py:80, 83).
- `generate` takes the number of iterations as a parameter, whose default
  is 50 (generator.py:4).
- `check_valid` checks only the shape of the input (solver.py:28-34). It
  does not check that the values form a permutation.

## Model

| member | source | states |
|---|---|---|
| Boards.Flatten | sources/parsing.py:78 | `sum(rows, [])`: the rows concatenated in order (its length is `FlattenLength`, its layout `FlattenRowMajor`) |
| Boards.FlattenLength | sources/parsing.py:78 | the flattened rows hold as many cells as all the rows together, whatever their lengths |
| Boards.FlattenRowMajor | sources/parsing.py:78 | `sum(rows, [])` of rows all `n` long puts cell `c` of row `r` at index `r*n + c` |
| Boards.Swap | sources/solver.py:45 | the tuple assignment exchanging two cells (also visualizer.py:44 and generator.py:16-17): the two cells trade values and every other cell is unchanged |
| Boards.SwapKeepsMultiset | sources/solver.py:45 | exchanging two cells keeps every value, as often as before |
| Boards.SwapPreservesPermutation | sources/visualizer.py:44 | exchanging two cells of a permutation leaves a permutation |
| Boards.SwapTwice | sources/solver.py:45 | exchanging the same two cells twice gives back the board |
| Boards.Elements | sources/parsing.py:93 | `set(puzzle)`: its size equals the length exactly when there are no duplicates (`ElementsSize`) |
| Boards.IndexOf | sources/generator.py:21 | `list.index`: the index of the first occurrence of the value |
| Parsing.IsSpace | sources/parsing.py:20 | the characters `str.split()` treats as whitespace, on the ASCII range |
| Parsing.IsDigits | sources/parsing.py:45 | `str.isdigit`: non-empty and decimal digits only |
| Parsing.Value | sources/parsing.py:46 | `int` of a digit string: its decimal value, most significant digit first |
| Parsing.Find | sources/parsing.py:17 | `str.find`: -1 exactly when the character is absent; otherwise the index of its first occurrence |
| Parsing.Count | sources/parsing.py:43 | `str.count` of one character: the number of its occurrences (its multiplicity in the string), so zero exactly when it is absent and at most the length |
| Parsing.StripComment | sources/parsing.py:17-19 | the result has no `#`, is a prefix of the line, ends where the first `#` was, and is the whole line when there is no `#` |
| Parsing.Split | sources/parsing.py:20 | every token is non-empty, holds no whitespace and uses only characters of the line; which tokens come out is `SplitSpaced` |
| Parsing.SplitJoin | sources/parsing.py:20 | `split()` recovers exactly the words of a line written as words separated by spaces |
| Parsing.SplitLeadingBlank | sources/parsing.py:20 | whitespace before a line's first word yields nothing |
| Parsing.SplitTrailingBlank | sources/parsing.py:20 | whitespace after a line's last word, such as its newline, yields nothing |
| Parsing.SplitWordFirst | sources/parsing.py:20 | a word followed by whitespace or by the end of the line is one whole token |
| Parsing.SplitSpaced | sources/parsing.py:20 | `split()` recovers exactly the words of any line where they are separated by non-empty runs of any whitespace, with any whitespace or none at either end |
| Parsing.SplitBodyLine | sources/parsing.py:20 | the line `"3 1 2\n"` splits into `["3", "1", "2"]` |
| Parsing.Tokenize | sources/parsing.py:16-22 | at most one row per line, no empty row, every token a word without `#` |
| Parsing.Deserialize | sources/parsing.py:15-24 | the loop builds exactly the comment-stripped, split, non-empty lines, in order |
| Parsing.CommentedLine | sources/parsing.py:17-22 | a line of words followed by `#` and any comment yields exactly those words |
| Parsing.ParseDimensions | sources/parsing.py:41-48 | only SyntaxError is raised; an accepted header without `x` is digits giving `(N, N)`; with `x`, both parts are digits, the second holds no `x`, and they give `(height, width)` |
| Parsing.ParseSquare | sources/parsing.py:42-46 | a digits-only header `N` gives `(N, N)` |
| Parsing.HeaderParts | sources/parsing.py:43-44 | `HxW` with digit-only parts holds one `x`, found at index `len(H)`, with H before it and W after |
| Parsing.ParseRectangle | sources/parsing.py:43-46 | `H + "x" + W` with digit-only parts gives `(H, W)` |
| Parsing.ParseDimensionsRejects | sources/parsing.py:43-48 | a header with two or more `x` is a SyntaxError |
| Parsing.ParseDimensionsRejectsEmptyParts | sources/parsing.py:43-48 | `"3x"`, `"x3"` and `""` are SyntaxErrors |
| Parsing.AllDigits | sources/parsing.py:79 | `all(e.isdigit() for e in puzzle)` |
| Parsing.ToInts | sources/parsing.py:82 | `map(int, ...)` keeps the length and reads each token's decimal value |
| Parsing.OutOfRange | sources/parsing.py:87 | holds exactly the values of the board outside `0 .. n-1` |
| Parsing.Header | sources/parsing.py:71-76 | every header failure (no single token, or a bad dimension) is the same SyntaxError; an accepted header is one token |
| Parsing.ParsePuzzle | sources/parsing.py:68-96 | on success: the dimensions come from the header, the cells are the body tokens flattened in row order and read as integers, and they form a permutation of `0 .. h*w-1` |
| Parsing.ParsePuzzleRejections | sources/parsing.py:68-94 | empty input if and only if EmptyPuzzle; a bad header gives BadHeader; a non-digit token gives NotNumbers; a wrong count gives WrongCount; out-of-range values are reported in full; duplicates give Duplicates; each check in the source's order |
| Parsing.ParsePuzzleAccepts | sources/parsing.py:78-96 | a good header over digit tokens that form a permutation is always accepted, with exactly those cells |
| Parsing.CountIsOverAllRows | sources/parsing.py:78-85 | the count error is raised exactly when the number of body tokens, summed over all rows whatever their lengths, differs from `height * width` |
| Parsing.RejectsNonDigitToken | sources/parsing.py:78-80 | any non-digit token in any body row, such as `-1`, is rejected |
| Parsing.RaggedRowsAccepted | sources/parsing.py:78-85 | row lengths are not checked: a 2x2 board given as rows of 3 and 1 tokens is accepted |
| Heuristics.TileCost | sources/heuristics.py:11 | one cell's distance, `abs(dx) + abs(dy)` or (line 22) `dx**2 + dy**2` |
| Heuristics.TileCostZero | sources/heuristics.py:11 | under either distance a cell costs nothing exactly when it is on its goal cell |
| Heuristics.Total | sources/heuristics.py:8-11 | the loop's `res`: the distances of all cells added up, each measured to where `coords` puts the cell's value |
| Heuristics.Defined | sources/heuristics.py:7-11 | the heuristic raises neither ZeroDivisionError (a zero width with any goal or grid cell to divide) nor KeyError (a grid value missing from the goal); `SumOfDistances` returns `None` exactly when it fails |
| Heuristics.Coords | sources/heuristics.py:7 | the dictionary's keys are exactly the goal's values |
| Heuristics.CoordsOfDistinct | sources/heuristics.py:7 | in a goal without duplicates, each value maps to `divmod` of its own index |
| Heuristics.SumOfDistances | sources/heuristics.py:6-12 | `None` exactly when the source raises (zero width, or a grid value missing from the goal); otherwise the sum of per-cell distances to the `coords` position |
| Heuristics.Manhattan | sources/heuristics.py:5-12 | the same, with the distance `abs(dx) + abs(dy)` |
| Heuristics.Squared | sources/heuristics.py:16-23 | the same, with the distance `dx**2 + dy**2` |
| Heuristics.Misplaced | sources/heuristics.py:27-28 | at most the length of either board; for equal lengths, zero exactly when grid equals goal |
| Heuristics.MisplacedUpTo | sources/heuristics.py:28 | at most `n`, and zero exactly when the first `n` cells agree |
| Heuristics.ZeroAtGoal | sources/heuristics.py:5-23 | both distance sums are zero on the goal itself (goal without duplicates) |
| Heuristics.SquaredDominatesManhattan | sources/heuristics.py:5-23 | `squared >= manhattan` for every grid and dictionary |
| Heuristics.MisplacedAtMostManhattan | sources/heuristics.py:5-28 | when the goal has no duplicates and contains every grid value, `misplaced <= manhattan` |
| Heuristics.BlankIsCounted | sources/heuristics.py:8-11 | the blank's own distance is included: swapping blank and tile on `[0, 1]` costs 2 |
| Heuristics.NameOf | sources/heuristics.py:32 | `f.__name__` is a key of `NAMES` under which `f` itself is found |
| Heuristics.Lookup | sources/heuristics.py:32 | `NAMES.get(name)`: the function named `name`, or nothing |
| Heuristics.Default | sources/heuristics.py:31 | `DEFAULT` is a key of `NAMES`, under which `misplaced` is found |
| Heuristics.NamesTable | sources/heuristics.py:31-32 | each function is found under its name, a name that is found names that function, only the three names are keys, and the default is `misplaced` |
| Heuristics.Estimate | sources/heuristics.py:32 | dispatching by table entry gives the matching heuristic's result |
| Generator.Iterations | sources/generator.py:32 | `range(size * size - 1)`: one fewer iteration than cells, none for size 0 |
| Generator.Blocked | sources/generator.py:35 | the turn test: the next cell is off the board or already filled |
| Generator.Spiral | sources/generator.py:27-40 | `make_goal(size)` has `size*size` cells (its contents: `SpiralIsPermutation`, `SpiralTopRow`) |
| Generator.Start | sources/generator.py:28-30 | the state before the loop: `size*size` zeros and a unit direction |
| Generator.Step | sources/generator.py:33-38 | one iteration keeps the board length and a unit direction |
| Generator.Run | sources/generator.py:32-38 | every state of the loop has the board length and a unit direction |
| Generator.TurnAtEnd | sources/generator.py:34-38 | the current cell is on the board and 0, and the loop turns exactly at the end of an edge of the unfilled rectangle |
| Generator.RunShape | sources/generator.py:32-38 | after each iteration the filled cells are those outside a shrinking rectangle plus the walked part of its edge, holding distinct numbers up to the iteration count |
| Generator.WriteInBounds | sources/generator.py:33 | every write lands on the board, on a cell still 0 |
| Generator.SpiralIsPermutation | sources/generator.py:27-40 | `make_goal(size)` holds each of `0 .. size*size-1` exactly once |
| Generator.SpiralTopRow | sources/generator.py:29-33 | the walk starts at (0, 0) heading right, so for size 2 or more the top row is `1 .. size` |
| Generator.SpiralOfTwo | sources/generator.py:27-40 | `make_goal(2) == [1, 2, 0, 3]` |
| Generator.SpiralOfThree | sources/generator.py:27-40 | `make_goal(3) == [1, 2, 3, 8, 0, 4, 7, 6, 5]` |
| Generator.LoopBody | sources/generator.py:33-38 | the loop body as written (write, then test the next cell on the updated board, turn, advance) is one step of the walk |
| Generator.NextDirection | sources/generator.py:34-36 | turn clockwise `(dy, dx) -> (dx, -dy)` exactly when the next cell is off the board or nonzero |
| Generator.FillCell | sources/generator.py:33-36 | the array after the write and the new direction are iteration `i + 1` of the walk |
| Generator.MakeGoal | sources/generator.py:27-40 | the array loop computes `Spiral(size)`, a permutation whose top row, for size 2 or more, is `1 .. size` |
| Generator.Candidates | sources/generator.py:6-14 | `poss`, built by the four tests in order (its meaning: `CandidatesAreNeighbours`) |
| Generator.CandidatesAreNeighbours | sources/generator.py:5-14 | `poss` holds exactly the on-board orthogonal neighbours of `idx` |
| Generator.CandidatesNonEmpty | sources/generator.py:5-15 | `poss` is non-empty exactly on boards of side 2 or more |
| Generator.Slide | sources/generator.py:16-17 | with the blank at `idx` the two writes are the swap of `idx` and `swi` |
| Generator.SlidePreservesPermutation | sources/generator.py:15-18 | the board stays a permutation and the blank is at `swi`, which is then `index(0)` |
| Generator.CollectCandidates | sources/generator.py:6-14 | the four appends build `poss`, which holds exactly the on-board neighbours |
| Generator.SwapEmpty | sources/generator.py:5-18 | fails exactly on an empty `poss`, leaving the board; otherwise returns the drawn neighbour and slides the blank there |
| Generator.Scrambled | sources/generator.py:20-23 | every reached state has a full-size board and a blank index on it |
| Generator.ScrambledIsPermutation | sources/generator.py:20-23 | every board of the walk is a permutation with `zero_idx == puzzle.index(0)` |
| Generator.ScrambledFails | sources/generator.py:15-23 | the walk fails exactly on a 1x1 board with at least one iteration |
| Generator.ScrambledStep | sources/generator.py:15-23 | each iteration swaps the blank with an adjacent cell |
| Generator.ScrambleOnce | sources/generator.py:23 | one call of `swap_empty` is one more step of the walk |
| Generator.Scramble | sources/generator.py:20-25 | the loop returns the board after `n` steps, and fails exactly when the walk does |
| Generator.Generate | sources/generator.py:4-25 | fails exactly for size 0, or size 1 with iterations; otherwise returns a permutation, the walk from `make_goal(size)` |
| Solver.AnyEmpty | sources/solver.py:29 | `any(not line for line in puzzle)` |
| Solver.AnyWrongLength | sources/solver.py:33 | `any(len(line) != size for line in puzzle)` |
| Solver.AnyEmptyIff | sources/solver.py:29 | `any(not line ...)` holds exactly when some line is empty |
| Solver.AnyWrongLengthIff | sources/solver.py:33 | `any(len(line) != size ...)` holds exactly when some line has another length |
| Solver.CheckValid | sources/solver.py:28-34 | the two raising tests, in order (what they accept: `CheckValidAccepts`) |
| Solver.CheckValidAccepts | sources/solver.py:28-34 | passes exactly on square input; raises on empty input, an empty line, a wrong body line count or a wrong line length |
| Solver.FlattenedBody | sources/solver.py:25 | the flattened body has `n*n` cells, with body cell `(r, c)` at `r*n + c` |
| Solver.Puzzle.constructor | sources/solver.py:22-26 | the size is `puzzle[0][0]`, the board is the body flattened, and `solved` is false |
| Solver.NewPuzzle | sources/solver.py:22-34 | raises exactly when `check_valid` does; otherwise a new puzzle whose board has `size*size` cells |
| Solver.Puzzle.Expand | sources/solver.py:37-48 | the loop returns exactly the successors of the in-bounds moves, in order |
| Solver.Puzzle.AddMove | sources/solver.py:42-46 | one iteration appends the candidate's successor when in bounds, else skips it |
| Solver.SwapCopy | sources/solver.py:44-45 | copying the board and exchanging two cells gives the swapped board |
| Solver.Target | sources/solver.py:41 | each candidate is one step from `(y, x)` |
| Solver.OnBoard | sources/solver.py:42 | the keep test of `expand`, in its `== self.size` form; `SuccessorsSound` and `SuccessorsComplete` prove that exactly the candidates passing it yield successors |
| Solver.Successor | sources/solver.py:44-46 | the blank at `(ny, nx)`, depth `d + 1`, priority `h()`, board with the two cells exchanged |
| Solver.Successors | sources/solver.py:39-46 | at most one successor per candidate |
| Solver.SuccessorsSound | sources/solver.py:41-46 | every successor comes from an in-bounds candidate |
| Solver.SuccessorsInOrder | sources/solver.py:41-47 | successors come in the order of their candidates: of two successors, the earlier comes from the earlier of down, up, right, left |
| Solver.SuccessorMoved | sources/solver.py:41-46 | every successor's blank is on the board, adjacent to the parent's, with depth `d + 1` and the single swap |
| Solver.SuccessorsComplete | sources/solver.py:41-46 | every in-bounds candidate yields a successor |
| Solver.ExpandInterior | sources/solver.py:41-46 | away from the edges: four successors, down, up, right, left |
| Solver.ExpandCorner | sources/solver.py:41-43 | in the top left corner: down, then right |
| Solver.SuccessorsKeepBlank | sources/solver.py:44-46 | successors of a permutation are permutations with the blank at their `(y, x)` |
| Solver.UndoMove | sources/solver.py:44-45 | moving the blank to a cell and then back to where it was restores the board |
| Solver.MoveBackIncluded | sources/solver.py:41-46 | from every successor, some successor has the parent's board again |
| Solver.IsFinal | sources/solver.py:61 | the goal test: every cell `i` holds `i` |
| Solver.BadCount | sources/solver.py:93 | at most `n`, zero exactly when the first `n` cells hold their index |
| Solver.BadPlace | sources/solver.py:91-93 | at most the board length, zero exactly when the goal test holds |
| Solver.Identity | sources/solver.py:61 | the identity board passes the goal test |
| Solver.BadPlaceIsMisplaced | sources/solver.py:91-93 | `bad_place` equals `misplaced` against the identity board |
| Solver.FinalIsIdentity | sources/solver.py:61 | only the identity board, a permutation, passes the goal test |
| Solver.SpiralIsNotFinal | sources/solver.py:61 | the spiral goal of `make_goal` (side 2 or more) fails the goal test and has `bad_place > 0` |
| Visualizer.RowDelta | sources/visualizer.py:40 | the row change of a symbol: nonzero, by one, exactly for `v` and `^` |
| Visualizer.ColDelta | sources/visualizer.py:41 | the column change of a symbol: nonzero, by one, exactly for `>` and `<` |
| Visualizer.Destination | sources/visualizer.py:39-43 | a target is found exactly when the shifted row and column are both on the board, and it is then at `new_y * width + new_x` |
| Visualizer.Moved | sources/visualizer.py:37-44 | the board keeps its length |
| Visualizer.Visualizer.constructor | sources/visualizer.py:5-7 | records the height and width |
| Visualizer.Visualizer.ApplyMove | sources/visualizer.py:37-44 | raises exactly without a blank, then changing nothing; otherwise the array becomes the moved board |
| Visualizer.FindBlank | sources/visualizer.py:38 | `board.index(0)`: the first blank |
| Visualizer.BlockedMoveUnchanged | sources/visualizer.py:42 | a move off the board changes nothing |
| Visualizer.UnknownSymbolUnchanged | sources/visualizer.py:40-44 | a symbol other than `^ v < >` changes nothing |
| Visualizer.MoveKeepsPermutation | sources/visualizer.py:43-44 | an on-board move keeps the permutation, puts 0 at the target and the target's tile at the old blank, and leaves every other cell alone |
| Visualizer.DestinationCell | sources/visualizer.py:39-41 | the target's row and column are the blank's shifted by the symbol |
| Visualizer.BackDestination | sources/visualizer.py:39-43 | the opposite symbol takes the blank straight back |
| Visualizer.MoveThenBack | sources/visualizer.py:38-44 | a move followed by the opposite move restores the board |
| Visualizer.DownThenUp | sources/visualizer.py:38-44 | `v` then `^` restores the board |
| Visualizer.RightThenLeft | sources/visualizer.py:38-44 | `>` then `<` restores the board |

## Left out

- `sources/n-puzzle.py`, the command-line driver: argument parsing, the
  SIGINT handler, timing and printing. Its calls also do not match the
  definitions modelled here: `generate` and `make_goal` are called with two
  sizes, `is_solvable` with four arguments, and `solver.NAMES` does not
  exist.
- The search loop of `Puzzle.solve` (solver.py:50-68). It calls `heapq` on a
  `deque`, and `expand` calls `h()` without the argument `bad_place` takes,
  so there is no working search to model. Only its goal test (line 61) is
  modelled.
- `sources/utils.py` is not part of this model. Its `is_solvable` always
  returns true, and the rest is console output.
- `sources/ai.py` (model training) and all pygame drawing, events and timing
  of `sources/visualizer.py`.
- Output and file I/O: `rinttt`, `__repr__`, `error`, and opening and
  closing files. `deserialize_puzzle` of `sources/parsing.py` takes the
  file's lines as a sequence of strings.
- `deserialize_puzzle` of `sources/solver.py` (solver.py:79-89). It strips
  lines and applies `int` to tokens. The model's `Puzzle` takes its input
  already as integers.
- `random.choice` is a draw the caller supplies, reduced modulo the number
  of candidates. Uniformity is not modelled.
- Parsing.IsDigits: `str.isdigit` is modelled on ASCII digits only. Unicode
  digits (for which `int` may also raise) are not modelled.
- Parsing.IsSpace: `str.split()` whitespace is modelled on the ASCII range
  only.
- Heuristics.SumOfDistances: the width is a natural number. `divmod` by a
  negative width (floor semantics) is not modelled.
- Solver.Puzzle.Expand: requires the blank's `(y, x)` on a board of
  `size*size` cells, as `solve` creates it. Python's negative indexing for
  other states is not modelled.
- Solver.Puzzle.constructor: requires input that `check_valid` accepts.
  `Solver.NewPuzzle` models the exception for the rest.
- Visualizer.Visualizer.ApplyMove: requires a positive width and a board of
  `width*height` cells. The ZeroDivisionError of a zero width and the
  IndexError of a shorter board are not modelled.
