/** The one piece of `sources/visualizer.py` that is not drawing: applying a
    move symbol to the board in place. */
module Visualizer {
  import opened Boards

  /** The ValueError of `board.index(0)` on a board without a blank. */
  datatype MoveError = NoBlank

  /** Row change of a move symbol: `v` down, `^` up, anything else none. */
  function RowDelta(move: char): (d: int)
    ensures -1 <= d <= 1
    ensures d != 0 <==> move == 'v' || move == '^'
  {
    if move == 'v' then 1 else if move == '^' then -1 else 0
  }

  /** Column change of a move symbol: `>` right, `<` left, anything else
      none. */
  function ColDelta(move: char): (d: int)
    ensures -1 <= d <= 1
    ensures d != 0 <==> move == '>' || move == '<'
  {
    if move == '>' then 1 else if move == '<' then -1 else 0
  }

  /** The cell the blank at `empty` moves to, when that cell is on the
      `width` x `height` board. */
  function Destination(width: int, height: int, empty: nat, move: char): (r: Option<nat>)
    requires width > 0
    ensures r.Some? <==> (&& 0 <= empty / width + RowDelta(move) < height
                          && 0 <= empty % width + ColDelta(move) < width)
    ensures r.Some? ==> && r.value == (empty / width + RowDelta(move)) * width + empty % width + ColDelta(move)
                        && r.value < width * height
  {
    var y, x := empty / width, empty % width;
    var newY, newX := y + RowDelta(move), x + ColDelta(move);
    if 0 <= newX < width && 0 <= newY < height then
      RectIndexBounds(width, height, newY, newX);
      Some(newY * width + newX)
    else None
  }

  /** The board after `apply_move`: the blank exchanged with the cell it
      moves to, or the board unchanged when that cell is off the board. */
  function Moved(board: seq<int>, width: int, height: int, move: char): (r: seq<int>)
    requires width > 0 && |board| == width * height && 0 in board
    ensures |r| == |board|
  {
    var empty := IndexOf(board, 0);
    match Destination(width, height, empty, move)
    case None => board
    case Some(target) => Swap(board, empty, target)
  }

  /** `Visualizer`: only the board dimensions matter here. */
  class Visualizer {
    var width: int
    var height: int

    /** The dimensions `__init__` records; the window, font and colours are
        not part of this model. */
    constructor (height: int, width: int)
      ensures this.height == height && this.width == width
    {
      this.width := width;
      this.height := height;
    }

    /** `apply_move(board, move)`: find the blank, move it one cell as the
        symbol says, and exchange it with the tile there, in place; off the
        board, nothing changes. */
    method ApplyMove(board: array<int>, move: char) returns (r: Outcome<MoveError>)
      requires width > 0 && board.Length == width * height
      modifies board
      ensures r.Fail? <==> 0 !in old(board[..])
      ensures r.Fail? ==> board[..] == old(board[..])
      ensures r.Pass? ==> 0 in old(board[..]) && board[..] == Moved(old(board[..]), width, height, move)
    {
      if 0 !in board[..] {
        return Fail(NoBlank);
      }
      var empty := FindBlank(board);
      var y, x := empty / width, empty % width;
      var newY := y + (if move == 'v' then 1 else if move == '^' then -1 else 0);
      var newX := x + (if move == '>' then 1 else if move == '<' then -1 else 0);
      if 0 <= newX < width && 0 <= newY < height {
        RectIndexBounds(width, height, newY, newX);
        var newIndex := newY * width + newX;
        board[empty], board[newIndex] := board[newIndex], board[empty];
      }
      return Pass;
    }
  }

  /** `board.index(0)`: the first blank, searched from the front. */
  method FindBlank(board: array<int>) returns (k: nat)
    requires 0 in board[..]
    ensures k == IndexOf(board[..], 0)
  {
    k := 0;
    while board[k] != 0
      invariant 0 <= k < board.Length
      invariant forall j :: 0 <= j < k ==> board[j] != 0
      invariant 0 in board[k..]
      decreases board.Length - k
    {
      k := k + 1;
    }
    IndexOfFirst(board[..], 0, k);
  }

  /** `IndexOf` is the first occurrence. */
  lemma IndexOfFirst(s: seq<int>, v: int, k: nat)
    requires k < |s| && s[k] == v && forall j :: 0 <= j < k ==> s[j] != v
    ensures IndexOf(s, v) == k
  {
  }

  // ---------------------------------------------------------------------
  // Properties of a move

  /** Off the board, or with a symbol that is not a move, the board is
      left as it was. */
  lemma BlockedMoveUnchanged(board: seq<int>, width: int, height: int, move: char)
    requires width > 0 && |board| == width * height && 0 in board
    requires Destination(width, height, IndexOf(board, 0), move).None?
    ensures Moved(board, width, height, move) == board
  {
  }

  /** A symbol other than `^ v < >` exchanges the blank with itself. */
  lemma UnknownSymbolUnchanged(board: seq<int>, width: int, height: int, move: char)
    requires width > 0 && |board| == width * height && 0 in board
    requires move !in {'^', 'v', '<', '>'}
    ensures Moved(board, width, height, move) == board
  {
    var empty := IndexOf(board, 0);
    RectIndexSplit(width, height, empty);
  }

  /** A move that stays on the board keeps a permutation a permutation,
      puts the blank at the target cell, which is one row or one column
      away, and changes only the two cells exchanged. */
  lemma MoveKeepsPermutation(board: seq<int>, width: int, height: int, move: char)
    requires width > 0 && |board| == width * height && IsPermutation(board, width * height)
    requires 0 in board && Destination(width, height, IndexOf(board, 0), move).Some?
    ensures var empty, target := IndexOf(board, 0), Destination(width, height, IndexOf(board, 0), move).value;
            && target < |board|
            && IsPermutation(Moved(board, width, height, move), width * height)
            && Moved(board, width, height, move)[target] == 0
            && Moved(board, width, height, move)[empty] == board[target]
            && (forall k :: 0 <= k < |board| && k != empty && k != target ==> Moved(board, width, height, move)[k] == board[k])
            && IndexOf(Moved(board, width, height, move), 0) == target
  {
    var empty := IndexOf(board, 0);
    var target := Destination(width, height, empty, move).value;
    SwapPreservesPermutation(board, width * height, empty, target);
    IndexOfDistinct(Swap(board, empty, target), target);
  }

  /** Where the blank lands: the target cell's row and column. */
  lemma DestinationCell(width: int, height: int, empty: nat, move: char)
    requires width > 0 && empty < width * height
    requires Destination(width, height, empty, move).Some?
    ensures var target := Destination(width, height, empty, move).value;
            && target / width == empty / width + RowDelta(move)
            && target % width == empty % width + ColDelta(move)
  {
    DivModOfIndex(width, empty / width + RowDelta(move), empty % width + ColDelta(move));
  }

  /** Moving the blank down and then up restores the board. */
  lemma DownThenUp(board: seq<int>, width: int, height: int)
    requires width > 0 && |board| == width * height && IsPermutation(board, width * height)
    requires 0 in board && Destination(width, height, IndexOf(board, 0), 'v').Some?
    ensures 0 in Moved(board, width, height, 'v')
    ensures Moved(Moved(board, width, height, 'v'), width, height, '^') == board
  {
    MoveThenBack(board, width, height, 'v', '^');
  }

  /** Moving the blank right and then left restores the board. */
  lemma RightThenLeft(board: seq<int>, width: int, height: int)
    requires width > 0 && |board| == width * height && IsPermutation(board, width * height)
    requires 0 in board && Destination(width, height, IndexOf(board, 0), '>').Some?
    ensures 0 in Moved(board, width, height, '>')
    ensures Moved(Moved(board, width, height, '>'), width, height, '<') == board
  {
    MoveThenBack(board, width, height, '>', '<');
  }

  /** The opposite move takes the blank from the target cell straight back
      to where it started. */
  lemma BackDestination(width: int, height: int, empty: nat, move: char, back: char)
    requires width > 0 && empty < width * height
    requires RowDelta(back) == -RowDelta(move) && ColDelta(back) == -ColDelta(move)
    requires Destination(width, height, empty, move).Some?
    ensures Destination(width, height, Destination(width, height, empty, move).value, back) == Some(empty)
  {
    var target := Destination(width, height, empty, move).value;
    DestinationCell(width, height, empty, move);
    RectIndexSplit(width, height, empty);
    var y, x := target / width + RowDelta(back), target % width + ColDelta(back);
    assert y == empty / width && x == empty % width;
    assert y * width + x == empty;
  }

  /** A move followed by the opposite move restores the board. */
  lemma MoveThenBack(board: seq<int>, width: int, height: int, move: char, back: char)
    requires width > 0 && |board| == width * height && IsPermutation(board, width * height)
    requires RowDelta(back) == -RowDelta(move) && ColDelta(back) == -ColDelta(move)
    requires 0 in board && Destination(width, height, IndexOf(board, 0), move).Some?
    ensures 0 in Moved(board, width, height, move)
    ensures Moved(Moved(board, width, height, move), width, height, back) == board
  {
    var empty := IndexOf(board, 0);
    var target := Destination(width, height, empty, move).value;
    MoveKeepsPermutation(board, width, height, move);
    var after := Moved(board, width, height, move);
    assert after == Swap(board, empty, target);
    BackDestination(width, height, empty, move, back);
    assert Moved(after, width, height, back) == Swap(after, target, empty);
    SwapTwice(board, empty, target);
  }
}
