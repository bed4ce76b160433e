/** The puzzle-file reader of `sources/parsing.py`: comment stripping and
    whitespace splitting of each line, the `N` / `NxM` header, and the
    validation that turns the remaining tokens into a flat row-major board. */
module Parsing {
  import opened Boards

  /** The errors `parse_dimensions` and `parse_puzzle` raise. A bad header,
      whether the token count of the first line or its format is wrong, is
      the one SyntaxError both functions report. */
  datatype ParseError =
    | EmptyPuzzle
    | BadHeader
    | NotNumbers
    | WrongCount(height: nat, width: nat)
    | InvalidElements(elements: seq<int>)
    | Duplicates

  /** A parsed puzzle: its dimensions and its cells in row-major order. */
  datatype Parsed = Parsed(height: nat, width: nat, cells: seq<int>)

  // ---------------------------------------------------------------------
  // Characters and tokens

  /** Python's `str.isspace` on the ASCII range: tab, line feed, vertical
      tab, form feed, carriage return, the four separators 0x1c..0x1f and
      the space. */
  predicate IsSpace(c: char)
  {
    9 <= c as int <= 13 || 28 <= c as int <= 32
  }

  /** `str.isdigit` on the ASCII range: non-empty, decimal digits only. */
  predicate IsDigits(s: string)
  {
    |s| > 0 && forall k :: 0 <= k < |s| ==> '0' <= s[k] <= '9'
  }

  /** A token `str.split()` can produce: non-empty, no whitespace. */
  predicate IsWord(t: string)
  {
    t != [] && forall k :: 0 <= k < |t| ==> !IsSpace(t[k])
  }

  /** `int(s)` on a digit string (leading zeros allowed). */
  function Value(s: string): nat
    requires forall k :: 0 <= k < |s| ==> '0' <= s[k] <= '9'
  {
    if s == [] then 0
    else Value(s[..|s| - 1]) * 10 + (s[|s| - 1] as int - '0' as int)
  }

  /** `s.find(c)`: the first index of `c`, or -1 when there is none. */
  function Find(s: string, c: char): (r: int)
    ensures r == -1 <==> c !in s
    ensures r != -1 ==> 0 <= r < |s| && s[r] == c
    ensures r != -1 ==> forall k :: 0 <= k < r ==> s[k] != c
  {
    if s == [] then -1
    else if s[0] == c then 0
    else
      var k := Find(s[1..], c);
      if k == -1 then -1 else k + 1
  }

  /** `s.count(c)` for a single character. */
  function Count(s: string, c: char): (r: nat)
    ensures r == multiset(s)[c]
    ensures r == 0 <==> c !in s
    ensures r <= |s|
  {
    if s == [] then 0
    else
      assert s == [s[0]] + s[1..];
      (if s[0] == c then 1 else 0) + Count(s[1..], c)
  }

  lemma {:induction false} CountAppend(a: string, b: string, c: char)
    ensures Count(a + b, c) == Count(a, c) + Count(b, c)
  {
    if a != [] {
      assert (a + b)[1..] == a[1..] + b;
      CountAppend(a[1..], b, c);
    } else {
      assert a + b == b;
    }
  }

  lemma {:induction false} FindAppend(a: string, b: string, c: char)
    requires c !in a && c in b
    ensures Find(a + b, c) == |a| + Find(b, c)
  {
    if a != [] {
      assert (a + b)[1..] == a[1..] + b;
      FindAppend(a[1..], b, c);
    } else {
      assert a + b == b;
    }
  }

  /** The line with everything from its first `#` on removed
      (parsing.py:17-19). */
  function StripComment(line: string): (r: string)
    ensures '#' !in r
    ensures |r| <= |line| && r == line[..|r|]
    ensures '#' in line ==> line[|r|] == '#'
    ensures '#' !in line ==> r == line
  {
    var comment := Find(line, '#');
    if comment != -1 then line[..comment] else line
  }

  /** Length of the leading run of non-whitespace characters. */
  function WordLength(s: string): (n: nat)
    ensures n <= |s|
    ensures forall k :: 0 <= k < n ==> !IsSpace(s[k])
    ensures n == |s| || IsSpace(s[n])
  {
    if s == [] || IsSpace(s[0]) then 0 else 1 + WordLength(s[1..])
  }

  /** `s.split()` with no separator: the maximal runs of non-whitespace
      characters, in order. */
  function Split(s: string): (r: seq<string>)
    ensures forall k :: 0 <= k < |r| ==> IsWord(r[k])
    ensures forall k :: 0 <= k < |r| ==> forall c :: c in r[k] ==> c in s
    decreases |s|
  {
    if s == [] then []
    else if IsSpace(s[0]) then Split(s[1..])
    else
      var n := WordLength(s);
      [s[..n]] + Split(s[n..])
  }

  /** Words written out with one space between them. */
  function Join(words: seq<string>): string
  {
    if |words| == 0 then ""
    else if |words| == 1 then words[0]
    else words[0] + " " + Join(words[1..])
  }

  lemma {:induction false} WordLengthOfWord(t: string, rest: string)
    requires IsWord(t)
    requires rest == [] || IsSpace(rest[0])
    ensures WordLength(t + rest) == |t|
  {
    if |t| > 1 {
      assert (t + rest)[1..] == t[1..] + rest;
      WordLengthOfWord(t[1..], rest);
    } else {
      assert (t + rest)[1..] == rest;
    }
  }

  /** Splitting undoes joining: `split()` recovers the exact words of a
      line written as words separated by spaces. */
  lemma {:induction false} SplitJoin(words: seq<string>)
    requires forall k :: 0 <= k < |words| ==> IsWord(words[k])
    ensures Split(Join(words)) == words
  {
    if |words| == 1 {
      WordLengthOfWord(words[0], "");
      assert words[0] + "" == words[0];
      assert Join(words)[|words[0]|..] == [];
    } else if |words| > 1 {
      var t, rest := words[0], " " + Join(words[1..]);
      assert Join(words) == t + rest;
      WordLengthOfWord(t, rest);
      assert (t + rest)[..|t|] == t;
      assert (t + rest)[|t|..] == rest;
      assert rest[1..] == Join(words[1..]);
      SplitJoin(words[1..]);
      assert Split(rest) == Split(Join(words[1..]));
    }
  }

  /** A run of whitespace characters only (possibly empty). */
  predicate IsBlank(ws: string)
  {
    forall k :: 0 <= k < |ws| ==> IsSpace(ws[k])
  }

  /** Leading whitespace is skipped: it never yields a word. */
  lemma {:induction false} SplitLeadingBlank(ws: string, s: string)
    requires IsBlank(ws)
    ensures Split(ws + s) == Split(s)
  {
    if ws != [] {
      assert (ws + s)[1..] == ws[1..] + s;
      SplitLeadingBlank(ws[1..], s);
    } else {
      assert ws + s == s;
    }
  }

  /** Whitespace appended to a word does not lengthen it. */
  lemma {:induction false} WordLengthAppendBlank(s: string, ws: string)
    requires IsBlank(ws)
    ensures WordLength(s + ws) == WordLength(s)
  {
    if s != [] && !IsSpace(s[0]) {
      assert (s + ws)[1..] == s[1..] + ws;
      WordLengthAppendBlank(s[1..], ws);
    } else if s == [] {
      assert s + ws == ws;
    }
  }

  /** Trailing whitespace, such as the newline that ends a line read from a
      file, is dropped: it never yields a word. */
  lemma {:induction false} SplitTrailingBlank(s: string, ws: string)
    requires IsBlank(ws)
    ensures Split(s + ws) == Split(s)
    decreases |s|
  {
    if s == [] {
      SplitLeadingBlank(ws, []);
      assert ws + [] == ws;
      assert s + ws == ws;
    } else if IsSpace(s[0]) {
      assert (s + ws)[1..] == s[1..] + ws;
      SplitTrailingBlank(s[1..], ws);
    } else {
      var n := WordLength(s);
      WordLengthAppendBlank(s, ws);
      assert (s + ws)[..n] == s[..n];
      assert (s + ws)[n..] == s[n..] + ws;
      SplitTrailingBlank(s[n..], ws);
    }
  }

  /** A word followed by whitespace or by nothing is split off whole. */
  lemma SplitWordFirst(w: string, rest: string)
    requires IsWord(w)
    requires rest == [] || IsSpace(rest[0])
    ensures Split(w + rest) == [w] + Split(rest)
  {
    WordLengthOfWord(w, rest);
    assert (w + rest)[..|w|] == w;
    assert (w + rest)[|w|..] == rest;
  }

  /** The line `gaps[0] + words[0] + gaps[1] + ... + words[n-1] + gaps[n]`. */
  function Spaced(words: seq<string>, gaps: seq<string>): string
    requires |gaps| == |words| + 1
  {
    if words == [] then gaps[0] else gaps[0] + words[0] + Spaced(words[1..], gaps[1..])
  }

  lemma SpacedStart(words: seq<string>, gaps: seq<string>)
    requires |gaps| == |words| + 1
    requires IsBlank(gaps[0]) && (words != [] ==> gaps[0] != [])
    ensures Spaced(words, gaps) == [] || IsSpace(Spaced(words, gaps)[0])
  {
    if words != [] {
      assert Spaced(words, gaps)[0] == gaps[0][0];
    }
  }

  /** `split()` recovers the words of any line in which they are separated
      by non-empty runs of whitespace, with any whitespace (or none) before
      the first word and after the last. */
  lemma {:induction false} SplitSpaced(words: seq<string>, gaps: seq<string>)
    requires forall k :: 0 <= k < |words| ==> IsWord(words[k])
    requires |gaps| == |words| + 1
    requires forall k :: 0 <= k < |gaps| ==> IsBlank(gaps[k])
    requires forall k :: 0 < k < |words| ==> gaps[k] != []
    ensures Split(Spaced(words, gaps)) == words
  {
    if words == [] {
      SplitLeadingBlank(gaps[0], []);
      assert gaps[0] + [] == gaps[0];
    } else {
      var rest := Spaced(words[1..], gaps[1..]);
      assert Spaced(words, gaps) == gaps[0] + (words[0] + rest);
      SplitLeadingBlank(gaps[0], words[0] + rest);
      SpacedStart(words[1..], gaps[1..]);
      SplitWordFirst(words[0], rest);
      SplitSpaced(words[1..], gaps[1..]);
    }
  }

  /** A body line as read from a file, with its newline. */
  lemma SplitBodyLine()
    ensures Split("3 1 2\n") == ["3", "1", "2"]
  {
    var words, gaps := ["3", "1", "2"], ["", " ", " ", "\n"];
    assert Spaced(words, gaps) == "3 1 2\n";
    SplitSpaced(words, gaps);
  }

  // ---------------------------------------------------------------------
  // deserialize_puzzle, over the lines of the file

  /** The tokens kept from the first `n` lines: each line loses its comment,
      is split on whitespace, and is kept only when a token remains. */
  function Tokenize(lines: seq<string>): (raw: seq<seq<string>>)
    ensures |raw| <= |lines|
    ensures forall k :: 0 <= k < |raw| ==> raw[k] != []
    ensures forall k, j :: 0 <= k < |raw| && 0 <= j < |raw[k]| ==>
              IsWord(raw[k][j]) && '#' !in raw[k][j]
  {
    if lines == [] then []
    else
      var raw := Tokenize(lines[..|lines| - 1]);
      var words := Split(StripComment(lines[|lines| - 1]));
      if words != [] then raw + [words] else raw
  }

  /** Tokenizing one more line appends that line's words, if any. */
  lemma TokenizeStep(lines: seq<string>, i: nat)
    requires i < |lines|
    ensures var words := Split(StripComment(lines[i]));
            Tokenize(lines[..i + 1]) == if words != [] then Tokenize(lines[..i]) + [words] else Tokenize(lines[..i])
  {
    assert lines[..i + 1][..i] == lines[..i];
    assert lines[..i + 1][i] == lines[i];
  }

  /** `deserialize_puzzle` on the lines of an opened file: the loop that
      truncates each line at `#`, splits it and appends non-empty results. */
  method Deserialize(lines: seq<string>) returns (raw: seq<seq<string>>)
    ensures raw == Tokenize(lines)
  {
    raw := [];
    var i := 0;
    while i < |lines|
      invariant 0 <= i <= |lines|
      invariant raw == Tokenize(lines[..i])
    {
      var line := StripComment(lines[i]);
      var words := Split(line);
      if words != [] {
        raw := raw + [words];
      }
      TokenizeStep(lines, i);
      i := i + 1;
    }
    assert lines[..i] == lines;
  }

  /** A line of words followed by a comment yields exactly those words. */
  lemma {:induction false} CommentedLine(words: seq<string>, comment: string)
    requires words != []
    requires forall k :: 0 <= k < |words| ==> IsWord(words[k]) && '#' !in words[k]
    ensures Tokenize([Join(words) + "#" + comment]) == [words]
  {
    var text := Join(words);
    JoinHasNo(words, '#');
    var line := text + "#" + comment;
    assert line == text + ("#" + comment);
    FindAppend(text, "#" + comment, '#');
    assert Find(line, '#') == |text|;
    assert line[..|text|] == text;
    assert StripComment(line) == text;
    SplitJoin(words);
    assert [line][..0] == [];
    assert Tokenize([line]) == Tokenize([]) + [words];
  }

  lemma {:induction false} JoinHasNo(words: seq<string>, c: char)
    requires forall k :: 0 <= k < |words| ==> c !in words[k]
    requires c != ' '
    ensures c !in Join(words)
  {
    if |words| > 1 {
      JoinHasNo(words[1..], c);
    }
  }

  // ---------------------------------------------------------------------
  // parse_dimensions

  /** `parse_dimensions`: a header "N" gives (N, N), a header with exactly
      one `x` gives the two parts as height and width; anything else, an
      empty part included, is a SyntaxError. */
  function ParseDimensions(header: string): (r: Result<(nat, nat), ParseError>)
    ensures r.Err? ==> r.error == BadHeader
    ensures r.Ok? && 'x' !in header ==>
              IsDigits(header) && r.value == (Value(header), Value(header))
    ensures r.Ok? && 'x' in header ==>
              var k := Find(header, 'x');
              && IsDigits(header[..k]) && IsDigits(header[k + 1..])
              && 'x' !in header[k + 1..]
              && r.value == (Value(header[..k]), Value(header[k + 1..]))
  {
    if Count(header, 'x') == 1 then
      var k := Find(header, 'x');
      var height, width := header[..k], header[k + 1..];
      if IsDigits(height) && IsDigits(width) then Ok((Value(height), Value(width)))
      else Err(BadHeader)
    else if IsDigits(header) then Ok((Value(header), Value(header)))
    else Err(BadHeader)
  }

  /** A digits-only header `N` describes an N x N board. */
  lemma ParseSquare(n: string)
    requires IsDigits(n)
    ensures ParseDimensions(n) == Ok((Value(n), Value(n)))
  {
    DigitsHaveNoX(n);
  }

  /** A header `HxW` with digit-only parts gives height H and width W. */
  lemma ParseRectangle(h: string, w: string)
    requires IsDigits(h) && IsDigits(w)
    ensures ParseDimensions(h + "x" + w) == Ok((Value(h), Value(w)))
  {
    HeaderParts(h, w);
  }

  /** `HxW` holds one `x`, at index |H|, between H and W. */
  lemma HeaderParts(h: string, w: string)
    requires IsDigits(h) && IsDigits(w)
    ensures var header := h + "x" + w;
            && Count(header, 'x') == 1 && Find(header, 'x') == |h|
            && header[..|h|] == h && header[|h| + 1..] == w
  {
    var header := h + "x" + w;
    DigitsHaveNoX(h);
    DigitsHaveNoX(w);
    CountAppend(h, "x", 'x');
    CountAppend(h + "x", w, 'x');
    FindAppend(h, "x" + w, 'x');
    assert header == h + ("x" + w);
    assert header[..|h|] == h;
    assert header[|h| + 1..] == w;
  }

  lemma DigitsHaveNoX(s: string)
    requires IsDigits(s)
    ensures 'x' !in s
  {
    assert forall k :: 0 <= k < |s| ==> s[k] != 'x';
  }

  /** Two or more `x`s, or an empty part, are rejected. */
  lemma ParseDimensionsRejects(header: string)
    requires Count(header, 'x') >= 2
    ensures ParseDimensions(header) == Err(BadHeader)
  {
    if IsDigits(header) {
      DigitsHaveNoX(header);
    }
  }

  /** Concrete rejections: an empty part and an empty header. */
  lemma ParseDimensionsRejectsEmptyParts()
    ensures ParseDimensions("3x") == Err(BadHeader)
    ensures ParseDimensions("x3") == Err(BadHeader)
    ensures ParseDimensions("") == Err(BadHeader)
  {
    assert Count("3x", 'x') == 1;
    assert Find("3x", 'x') == 1;
    assert "3x"[2..] == "";
    assert Count("x3", 'x') == 1;
    assert Find("x3", 'x') == 0;
    assert "x3"[..0] == "";
  }

  // ---------------------------------------------------------------------
  // parse_puzzle

  predicate AllDigits(tokens: seq<string>)
  {
    forall k :: 0 <= k < |tokens| ==> IsDigits(tokens[k])
  }

  /** `list(map(int, tokens))`. */
  function ToInts(tokens: seq<string>): (r: seq<int>)
    requires AllDigits(tokens)
    ensures |r| == |tokens|
    ensures forall k :: 0 <= k < |r| ==> r[k] == Value(tokens[k])
  {
    if tokens == [] then [] else [Value(tokens[0])] + ToInts(tokens[1..])
  }

  /** `[e for e in cells if not 0 <= e < n]`, in order. */
  function OutOfRange(cells: seq<int>, n: int): (r: seq<int>)
    ensures forall e :: e in r <==> e in cells && !(0 <= e < n)
  {
    if cells == [] then []
    else (if 0 <= cells[0] < n then [] else [cells[0]]) + OutOfRange(cells[1..], n)
  }

  lemma {:induction false} InRangeHasNoneOut(cells: seq<int>, n: int)
    requires forall k :: 0 <= k < |cells| ==> 0 <= cells[k] < n
    ensures OutOfRange(cells, n) == []
  {
    if cells != [] {
      InRangeHasNoneOut(cells[1..], n);
    }
  }

  /** The header of an input that has one: its dimensions, when it is a
      single token that `parse_dimensions` accepts. */
  function Header(raw: seq<seq<string>>): (r: Result<(nat, nat), ParseError>)
    ensures r.Err? ==> r.error == BadHeader
    ensures r.Ok? ==> raw != [] && |raw[0]| == 1
  {
    if raw == [] || |raw[0]| != 1 then Err(BadHeader) else ParseDimensions(raw[0][0])
  }

  /** `parse_puzzle` (parsing.py:68-96). What it returns is the header's
      dimensions and the body's tokens, flattened row after row and read as
      integers; and whatever it returns is a permutation. */
  function ParsePuzzle(raw: seq<seq<string>>): (r: Result<Parsed, ParseError>)
    ensures r.Ok? ==> IsPermutation(r.value.cells, r.value.height * r.value.width)
    ensures r.Ok? ==>
              && Header(raw) == Ok((r.value.height, r.value.width))
              && AllDigits(Flatten(raw[1..]))
              && r.value.cells == ToInts(Flatten(raw[1..]))
  {
    if raw == [] then Err(EmptyPuzzle)
    else if |raw[0]| != 1 || ParseDimensions(raw[0][0]).Err? then Err(BadHeader)
    else
      var (height, width) := ParseDimensions(raw[0][0]).value;
      var tokens := Flatten(raw[1..]);
      if !AllDigits(tokens) then Err(NotNumbers)
      else
        var cells := ToInts(tokens);
        var n := height * width;
        if |cells| != n then Err(WrongCount(height, width))
        else if OutOfRange(cells, n) != [] then Err(InvalidElements(OutOfRange(cells, n)))
        else if |Elements(cells)| != n then Err(Duplicates)
        else
          ElementsSize(cells);
          assert forall k :: 0 <= k < |cells| ==> cells[k] in cells;
          Ok(Parsed(height, width, cells))
  }

  /** Each rejection of `parse_puzzle`, in the order the source tries them:
      an empty input; a header that is not one token or not a valid
      dimension; a non-digit body token; a cell count other than
      height*width; values outside `0 .. height*width-1`, all reported; and
      duplicates. */
  lemma {:induction false} ParsePuzzleRejections(raw: seq<seq<string>>)
    ensures raw == [] <==> ParsePuzzle(raw) == Err(EmptyPuzzle)
    ensures raw != [] && Header(raw).Err? ==> ParsePuzzle(raw) == Err(BadHeader)
    ensures raw != [] && Header(raw).Ok? && !AllDigits(Flatten(raw[1..])) ==>
              ParsePuzzle(raw) == Err(NotNumbers)
    ensures raw != [] && Header(raw).Ok? && AllDigits(Flatten(raw[1..])) ==>
              var (height, width) := Header(raw).value;
              var cells := ToInts(Flatten(raw[1..]));
              var n := height * width;
              && (|cells| != n ==> ParsePuzzle(raw) == Err(WrongCount(height, width)))
              && (|cells| == n && OutOfRange(cells, n) != [] ==>
                    ParsePuzzle(raw) == Err(InvalidElements(OutOfRange(cells, n))))
              && (|cells| == n && OutOfRange(cells, n) == [] && !Distinct(cells) ==>
                    ParsePuzzle(raw) == Err(Duplicates))
  {
    if raw != [] && Header(raw).Ok? && AllDigits(Flatten(raw[1..])) {
      ElementsSize(ToInts(Flatten(raw[1..])));
    }
  }

  /** The converse of the permutation guarantee: a good header over a body
      of digit tokens that form a permutation is always accepted. */
  lemma {:induction false} ParsePuzzleAccepts(raw: seq<seq<string>>)
    requires raw != [] && Header(raw).Ok? && AllDigits(Flatten(raw[1..]))
    requires IsPermutation(ToInts(Flatten(raw[1..])), Header(raw).value.0 * Header(raw).value.1)
    ensures ParsePuzzle(raw) ==
              Ok(Parsed(Header(raw).value.0, Header(raw).value.1, ToInts(Flatten(raw[1..]))))
  {
    var cells := ToInts(Flatten(raw[1..]));
    var n := Header(raw).value.0 * Header(raw).value.1;
    ElementsSize(cells);
    assert |Elements(cells)| == n;
    InRangeHasNoneOut(cells, n);
  }

  /** The count check compares the number of body tokens summed over all
      rows, whatever their individual lengths, with height*width. */
  lemma CountIsOverAllRows(raw: seq<seq<string>>)
    requires raw != [] && Header(raw).Ok? && AllDigits(Flatten(raw[1..]))
    ensures var (height, width) := Header(raw).value;
            ParsePuzzle(raw) == Err(WrongCount(height, width)) <==>
              TotalLength(raw[1..]) != height * width
  {
    FlattenLength(raw[1..]);
    ParsePuzzleRejections(raw);
  }

  /** A body token that is not a digit string, such as "-1", makes the
      input rejected once the header is good. */
  lemma RejectsNonDigitToken(raw: seq<seq<string>>, row: nat, col: nat)
    requires 1 <= row < |raw| && col < |raw[row]|
    requires Header(raw).Ok?
    requires !IsDigits(raw[row][col])
    ensures ParsePuzzle(raw) == Err(NotNumbers)
  {
    FlattenHas(raw[1..], row - 1, col);
  }

  lemma {:induction false} FlattenHas(rows: seq<seq<string>>, r: nat, c: nat)
    requires r < |rows| && c < |rows[r]|
    ensures rows[r][c] in Flatten(rows)
  {
    if r > 0 {
      FlattenHas(rows[1..], r - 1, c);
    } else {
      assert Flatten(rows) == rows[0] + Flatten(rows[1..]);
      assert Flatten(rows)[c] == rows[0][c];
    }
  }

  /** Row lengths are not checked: a 2x2 board written as rows of three and
      one cells is accepted. */
  lemma RaggedRowsAccepted()
    ensures ParsePuzzle([["2"], ["0", "1", "2"], ["3"]]) == Ok(Parsed(2, 2, [0, 1, 2, 3]))
  {
    var raw := [["2"], ["0", "1", "2"], ["3"]];
    RaggedHeader();
    RaggedBody();
    assert raw[1..] == [["0", "1", "2"], ["3"]];
    assert IsPermutation([0, 1, 2, 3], 4);
    ParsePuzzleAccepts(raw);
  }

  lemma RaggedHeader()
    ensures Header([["2"], ["0", "1", "2"], ["3"]]) == Ok((2, 2))
  {
    ParseSquare("2");
    assert Value("2") == 2 by {
      assert "2"[..0] == "";
    }
  }

  lemma RaggedBody()
    ensures Flatten([["0", "1", "2"], ["3"]]) == ["0", "1", "2", "3"]
    ensures AllDigits(["0", "1", "2", "3"])
    ensures ToInts(["0", "1", "2", "3"]) == [0, 1, 2, 3]
  {
    assert Flatten([["3"]]) == ["3"];
    assert Value("0") == 0 by { assert "0"[..0] == ""; }
    assert Value("1") == 1 by { assert "1"[..0] == ""; }
    assert Value("2") == 2 by { assert "2"[..0] == ""; }
    assert Value("3") == 3 by { assert "3"[..0] == ""; }
  }
}
