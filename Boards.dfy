/** Shared vocabulary of the n-puzzle model: result wrappers, flat row-major
    boards, the permutation invariant every board must satisfy, and the
    blank swap that every move primitive is built from. */
module Boards {

  datatype Option<T> = None | Some(value: T)

  /** A value, or the error an operation raises instead. */
  datatype Result<T, E> = Ok(value: T) | Err(error: E)

  /** Pass, or the error an operation raises. */
  datatype Outcome<E> = Pass | Fail(error: E)

  /** Python's `sum(rows, [])`: the rows concatenated in order. */
  function Flatten<T>(rows: seq<seq<T>>): seq<T>
  {
    if rows == [] then [] else rows[0] + Flatten(rows[1..])
  }

  /** Total number of cells in `rows`, summed row by row. */
  function TotalLength<T>(rows: seq<seq<T>>): nat
  {
    if rows == [] then 0 else |rows[0]| + TotalLength(rows[1..])
  }

  lemma {:induction false} FlattenLength<T>(rows: seq<seq<T>>)
    ensures |Flatten(rows)| == TotalLength(rows)
  {
    if rows != [] {
      FlattenLength(rows[1..]);
    }
  }

  /** Flattening rows that all have length `w` places cell `c` of row `r`
      at the row-major index `r * w + c`. */
  lemma {:induction false} FlattenRowMajor<T>(rows: seq<seq<T>>, w: nat, r: nat, c: nat)
    requires forall k :: 0 <= k < |rows| ==> |rows[k]| == w
    requires r < |rows| && c < w
    ensures |Flatten(rows)| == |rows| * w
    ensures r * w + c < |Flatten(rows)| && Flatten(rows)[r * w + c] == rows[r][c]
  {
    FlattenUniformLength(rows, w);
    if r > 0 {
      FlattenRowMajor(rows[1..], w, r - 1, c);
      assert Flatten(rows) == rows[0] + Flatten(rows[1..]);
      assert r * w + c == w + ((r - 1) * w + c);
    }
  }

  lemma {:induction false} FlattenUniformLength<T>(rows: seq<seq<T>>, w: nat)
    requires forall k :: 0 <= k < |rows| ==> |rows[k]| == w
    ensures |Flatten(rows)| == |rows| * w
  {
    if rows != [] {
      FlattenUniformLength(rows[1..], w);
      assert |rows| * w == w + (|rows| - 1) * w;
    }
  }

  /** No value occurs twice. */
  predicate Distinct(s: seq<int>)
  {
    forall i, j :: 0 <= i < j < |s| ==> s[i] != s[j]
  }

  /** The board invariant: `b` holds each of `0 .. n-1` exactly once. */
  predicate IsPermutation(b: seq<int>, n: int)
  {
    && |b| == n
    && (forall i :: 0 <= i < |b| ==> 0 <= b[i] < n)
    && Distinct(b)
  }

  /** The set of values of a sequence, as Python's `set(...)` builds it. */
  function Elements(s: seq<int>): set<int>
  {
    set x | x in s
  }

  /** The values `0 .. n-1`. */
  function Range(n: nat): (r: set<int>)
    ensures forall v :: v in r <==> 0 <= v < n
  {
    if n == 0 then {} else Range(n - 1) + {n - 1}
  }

  lemma {:induction false} RangeSize(n: nat)
    ensures |Range(n)| == n
  {
    if n > 0 {
      var smaller := Range(n - 1);
      RangeSize(n - 1);
      assert n - 1 !in smaller;
      assert Range(n) == smaller + {n - 1};
      assert |smaller + {n - 1}| == |smaller| + 1;
    }
  }

  /** Appending a value that is not yet present keeps a sequence free of
      duplicates, and cannot remove one. */
  lemma DistinctSnoc(init: seq<int>, last: int)
    requires last !in init
    ensures Distinct(init + [last]) <==> Distinct(init)
  {
    var s := init + [last];
    if Distinct(init) {
      forall i, j | 0 <= i < j < |s| ensures s[i] != s[j] {
        assert s[i] == init[i];
      }
    }
    if Distinct(s) {
      forall i, j | 0 <= i < j < |init| ensures init[i] != init[j] {
        assert init[i] == s[i] && init[j] == s[j];
      }
    }
  }

  /** `len(set(s))` never exceeds `len(s)`, and equals it exactly when `s`
      has no duplicates: the duplicate check of the parser relies on this. */
  lemma {:induction false} ElementsSize(s: seq<int>)
    ensures |Elements(s)| <= |s|
    ensures |Elements(s)| == |s| <==> Distinct(s)
  {
    if s != [] {
      var init, last := s[..|s| - 1], s[|s| - 1];
      ElementsSize(init);
      assert s == init + [last];
      assert Elements(s) == Elements(init) + {last};
      if last in init {
        var k :| 0 <= k < |init| && init[k] == last;
        assert s[k] == s[|s| - 1];
        assert Elements(s) == Elements(init);
      } else {
        DistinctSnoc(init, last);
      }
    }
  }

  /** A subset of `0 .. n-1` with `n` elements is all of it. */
  lemma SubsetOfRangeIsRange(a: set<int>, n: nat)
    requires a <= Range(n) && |a| == n
    ensures a == Range(n)
  {
    RangeSize(n);
    var rest := Range(n) - a;
    assert Range(n) == a + rest;
    assert a * rest == {};
    assert |rest| == 0;
  }

  /** Pigeonhole: a permutation of `0 .. n-1` contains every one of those
      values, so the position of any tile can always be found. */
  lemma PermutationContainsAll(b: seq<int>, n: nat, v: int)
    requires IsPermutation(b, n)
    requires 0 <= v < n
    ensures v in b
  {
    ElementsSize(b);
    assert Elements(b) <= Range(n);
    SubsetOfRangeIsRange(Elements(b), n);
    assert v in Range(n);
  }

  /** Exchange the cells `i` and `j`. */
  function Swap(s: seq<int>, i: nat, j: nat): (r: seq<int>)
    requires i < |s| && j < |s|
    ensures |r| == |s| && r[i] == s[j] && r[j] == s[i]
    ensures forall k :: 0 <= k < |s| && k != i && k != j ==> r[k] == s[k]
  {
    s[i := s[j]][j := s[i]]
  }

  /** A swap rearranges the cells: the same values, as many times each. */
  lemma SwapKeepsMultiset(s: seq<int>, i: nat, j: nat)
    requires i < |s| && j < |s|
    ensures multiset(Swap(s, i, j)) == multiset(s)
  {
    var t := s[i := s[j]];
    assert multiset(t) == multiset(s) - multiset{s[i]} + multiset{s[j]};
  }

  /** A swap never breaks the board invariant. */
  lemma SwapPreservesPermutation(s: seq<int>, n: int, i: nat, j: nat)
    requires IsPermutation(s, n) && i < |s| && j < |s|
    ensures IsPermutation(Swap(s, i, j), n)
  {
    var r := Swap(s, i, j);
    // the position each cell of `r` came from
    var from := (k: int) => if k == i then j else if k == j then i else k;
    forall a, b | 0 <= a < b < |r| ensures r[a] != r[b] {
      assert r[a] == s[from(a)] && r[b] == s[from(b)];
      assert from(a) != from(b);
      if from(a) < from(b) {
        assert s[from(a)] != s[from(b)];
      } else {
        assert s[from(b)] != s[from(a)];
      }
    }
  }

  /** Swapping the same two cells twice restores the board. */
  lemma SwapTwice(s: seq<int>, i: nat, j: nat)
    requires i < |s| && j < |s|
    ensures Swap(Swap(s, i, j), j, i) == s
  {
  }

  /** Index of the first occurrence of `v`, as Python's `list.index`. */
  function IndexOf(s: seq<int>, v: int): (k: nat)
    requires v in s
    ensures k < |s| && s[k] == v
    ensures forall j :: 0 <= j < k ==> s[j] != v
  {
    if s[0] == v then 0 else 1 + IndexOf(s[1..], v)
  }

  /** In a board without duplicates, the first occurrence is the only one. */
  lemma IndexOfDistinct(s: seq<int>, k: nat)
    requires Distinct(s) && k < |s|
    ensures IndexOf(s, s[k]) == k
  {
  }

  // Row-major indexing: cell (row, col) of a board `size` wide is at
  // `row * size + col`. The multiplications are kept inside these lemmas.

  lemma MulNonneg(a: int, b: int)
    requires a >= 0 && b >= 0
    ensures a * b >= 0
  {
  }

  /** A cell on a `size` x `size` board has an index on the board. */
  lemma IndexBounds(size: nat, row: int, col: int)
    ensures 0 <= row < size && 0 <= col < size ==> 0 <= row * size + col < size * size
  {
    if 0 <= row < size && 0 <= col < size {
      MulNonneg(size - 1 - row, size);
    }
  }

  /** Every index of a `size` x `size` board is some cell's. */
  lemma IndexSplit(size: nat, k: int)
    requires 0 <= k < size * size
    ensures k == (k / size) * size + k % size
    ensures 0 <= k / size < size && 0 <= k % size < size
  {
  }

  /** Different cells have different indices. */
  lemma IndexInjective(size: nat, r1: int, c1: int, r2: int, c2: int)
    requires 0 <= c1 < size && 0 <= c2 < size
    requires r1 * size + c1 == r2 * size + c2
    ensures r1 == r2 && c1 == c2
  {
    if r1 != r2 {
      var d := if r1 > r2 then r1 - r2 else r2 - r1;
      MulNonneg(d - 1, size);
    }
  }

  /** A cell of a `width` x `height` board has a row-major index on it. */
  lemma RectIndexBounds(width: int, height: int, row: int, col: int)
    requires width > 0 && 0 <= row < height && 0 <= col < width
    ensures 0 <= row * width + col < width * height
  {
    MulNonneg(row, width);
    MulNonneg(height - 1 - row, width);
    assert (height - 1 - row) * width == height * width - width - row * width;
  }

  /** An index of a `width` x `height` board splits into a row and column
      on it. */
  lemma RectIndexSplit(width: int, height: int, k: int)
    requires width > 0 && 0 <= k < width * height
    ensures k == (k / width) * width + k % width
    ensures 0 <= k / width < height && 0 <= k % width < width
  {
    if k / width >= height {
      MulNonneg(k / width - height, width);
      assert false;
    }
  }

  /** `divmod` recovers the row and column of an index. */
  lemma DivModOfIndex(size: nat, row: int, col: int)
    requires size > 0 && 0 <= col < size
    ensures (row * size + col) / size == row && (row * size + col) % size == col
  {
    var k := row * size + col;
    IndexInjective(size, k / size, k % size, row, col);
  }

  function Abs(a: int): nat
  {
    if a < 0 then -a else a
  }
}
