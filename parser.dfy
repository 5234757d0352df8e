/**
 * src/nonogram.py: `parse_clue`, which turns a clue line such as "2a 1b"
 * into blocks, and `Nonogram.parse_file` from the stripped lines on, which
 * reads the header and the palette and hands the non-blank clue lines out to
 * rows and columns, padding both with empty clues.
 */
module Parser {
  import opened Wrappers
  import opened Text
  import opened Puzzle

  //////////////////////////////////////////////////////////////////////////
  // parse_clue

  /** The length of the maximal ASCII-digit prefix of a token. */
  function DigitPrefixLen(part: string): (n: nat)
    ensures n <= |part| && AllDigits(part[..n]) && (n == |part| || !IsDigit(part[n]))
  {
    if part == [] || !IsDigit(part[0]) then 0
    else
      var n := 1 + DigitPrefixLen(part[1..]);
      assert part[..n] == [part[0]] + part[1..][..n - 1];
      n
  }

  /** Only one prefix length is all digits and stops at a non-digit or the end. */
  lemma DigitPrefixUnique(part: string, i: nat)
    requires i <= |part| && AllDigits(part[..i]) && (i == |part| || !IsDigit(part[i]))
    ensures i == DigitPrefixLen(part)
  {
    var n := DigitPrefixLen(part);
    assert forall j :: 0 <= j < n ==> part[..n][j] == part[j];
    assert forall j :: 0 <= j < i ==> part[..i][j] == part[j];
  }

  /**
   * What one token contributes: its digit prefix read as the count (0 when
   * there is none) and the rest as the colour, kept only when the count is
   * positive and the colour is not empty. A digit prefix of any length is
   * read; CPython's digit-count limit on int() is not modelled.
   */
  function TokenBlock(part: string): Option<Block>
  {
    var i := DigitPrefixLen(part);
    var count := if i > 0 then DecimalValue(part[..i]) else 0;
    var color := part[i..];
    if count > 0 && color != [] then Some(Block(count, color)) else None
  }

  function Contribution(part: string): Clue
  {
    match TokenBlock(part)
    case Some(blk) => [blk]
    case None => []
  }

  /** The blocks of the tokens `parts`, in token order. */
  function ClueOf(parts: seq<string>): Clue
  {
    if parts == [] then [] else ClueOf(parts[..|parts| - 1]) + Contribution(parts[|parts| - 1])
  }

  /** `parse_clue(line)` as a value. */
  function ParsedClue(line: string): Clue
  {
    ClueOf(Split(line))
  }

  /** `parse_clue`: scans every token's digit prefix and keeps the well-formed (count, colour) pairs. */
  method ParseClue(clueLine: string) returns (clues: Clue)
    ensures clues == ParsedClue(clueLine)
  {
    clues := [];
    var parts := Split(clueLine);
    for k := 0 to |parts|
      invariant clues == ClueOf(parts[..k])
    {
      var part := parts[k];
      var i := 0;
      while i < |part| && IsDigit(part[i])
        invariant 0 <= i <= |part| && AllDigits(part[..i])
      {
        i := i + 1;
      }
      DigitPrefixUnique(part, i);
      var count := if i > 0 then DecimalValue(part[..i]) else 0;
      var color := if i < |part| then part[i..] else "";
      if count > 0 && color != "" {
        clues := clues + [Block(count, color)];
      }
      assert parts[..k + 1][..k] == parts[..k];
    }
    assert parts[..|parts|] == parts;
  }

  /** A block of a parsed clue has a positive length and a colour that does not start with a digit. */
  predicate WellFormedBlock(blk: Block)
  {
    blk.len >= 1 && blk.color != [] && !IsDigit(blk.color[0])
  }

  lemma TokenBlockWellFormed(part: string)
    ensures TokenBlock(part).Some? ==> WellFormedBlock(TokenBlock(part).value)
  {
  }

  /** Every block of a parsed clue is well formed, and there are at most as many blocks as tokens. */
  lemma {:induction false} ClueOfBlocks(parts: seq<string>)
    ensures |ClueOf(parts)| <= |parts|
    ensures forall k :: 0 <= k < |ClueOf(parts)| ==> WellFormedBlock(ClueOf(parts)[k])
  {
    if parts != [] {
      ClueOfBlocks(parts[..|parts| - 1]);
      TokenBlockWellFormed(parts[|parts| - 1]);
    }
  }

  /** Parsing keeps token order: the clue of two token lists is the clue of the first then that of the second. */
  lemma {:induction false} ClueOfAppend(a: seq<string>, b: seq<string>)
    ensures ClueOf(a + b) == ClueOf(a) + ClueOf(b)
    decreases |b|
  {
    if b != [] {
      var b' := b[..|b| - 1];
      assert (a + b)[..|a + b| - 1] == a + b';
      ClueOfAppend(a, b');
    } else {
      assert a + b == a;
    }
  }

  lemma ContributionMembers(part: string, blk: Block)
    ensures blk in Contribution(part) <==> TokenBlock(part) == Some(blk)
  {
  }

  /** A block is in the clue exactly when some token yields it. */
  lemma {:induction false} ClueOfMembers(parts: seq<string>, blk: Block)
    ensures blk in ClueOf(parts) <==> exists k :: 0 <= k < |parts| && TokenBlock(parts[k]) == Some(blk)
  {
    if parts != [] {
      var front := parts[..|parts| - 1];
      var last := parts[|parts| - 1];
      assert ClueOf(parts) == ClueOf(front) + Contribution(last);
      ClueOfMembers(front, blk);
      ContributionMembers(last, blk);
      assert forall k :: 0 <= k < |front| ==> front[k] == parts[k];
    }
  }

  /** `str(len) + color` is read back as the block, when the colour does not start with a digit. */
  lemma TokenRoundTrip(blk: Block)
    requires WellFormedBlock(blk)
    ensures TokenBlock(Decimal(blk.len) + blk.color) == Some(blk)
  {
    var ds := Decimal(blk.len);
    var part := ds + blk.color;
    assert part[..|ds|] == ds;
    assert part[|ds|..] == blk.color;
    DigitPrefixUnique(part, |ds|);
    DecimalRoundTrip(blk.len);
  }

  /** The tokens a clue is written as: one `<len><colour>` token per block. */
  function Tokens(clue: Clue): seq<string>
    requires forall k :: 0 <= k < |clue| ==> clue[k].len >= 0
  {
    seq(|clue|, k requires 0 <= k < |clue| => Decimal(clue[k].len) + clue[k].color)
  }

  predicate WritableClue(clue: Clue)
  {
    forall k :: 0 <= k < |clue| ==> WellFormedBlock(clue[k]) && NoSpace(clue[k].color)
  }

  lemma DecimalWord(n: nat)
    ensures IsWord(Decimal(n))
  {
    var ds := Decimal(n);
    assert forall k :: 0 <= k < |ds| ==> IsDigit(ds[k]);
  }

  /** The token of a block is a word: its digits then its space-free colour. */
  lemma TokenWord(blk: Block)
    requires WellFormedBlock(blk) && NoSpace(blk.color)
    ensures IsWord(Decimal(blk.len) + blk.color)
  {
    var ds := Decimal(blk.len);
    var t := ds + blk.color;
    DecimalWord(blk.len);
    assert forall j :: 0 <= j < |t| ==> t[j] == if j < |ds| then ds[j] else blk.color[j - |ds|];
  }

  lemma TokensWords(clue: Clue)
    requires WritableClue(clue)
    ensures AllWords(Tokens(clue))
  {
    var ts := Tokens(clue);
    forall k | 0 <= k < |ts|
      ensures IsWord(ts[k])
    {
      TokenWord(clue[k]);
    }
  }

  /** Writing a clue's blocks separated by spaces and parsing the line gives the clue back. */
  lemma ClueRoundTrip(clue: Clue)
    requires WritableClue(clue)
    ensures ParsedClue(Join(Tokens(clue))) == clue
  {
    var ts := Tokens(clue);
    TokensWords(clue);
    SplitJoin(ts);
    TokensRoundTrip(clue, |clue|);
    assert ts[..|clue|] == ts;
    assert clue[..|clue|] == clue;
  }

  lemma {:induction false} TokensRoundTrip(clue: Clue, n: nat)
    requires n <= |clue| && forall k :: 0 <= k < |clue| ==> WellFormedBlock(clue[k]) && clue[k].len >= 0
    ensures ClueOf(Tokens(clue)[..n]) == clue[..n]
  {
    if n > 0 {
      var ts := Tokens(clue)[..n];
      assert ts[..n - 1] == Tokens(clue)[..n - 1];
      TokensRoundTrip(clue, n - 1);
      TokenRoundTrip(clue[n - 1]);
      assert clue[..n] == clue[..n - 1] + [clue[n - 1]];
    }
  }

  //////////////////////////////////////////////////////////////////////////
  // parse_file

  /** The exceptions parse_file can raise on read lines. */
  datatype ParseError = IndexError | ValueError

  datatype Header = Header(gridType: Option<string>, height: int, width: int)

  /** Lines 19-23: 'rect' followed by height and width sets the grid; any other first token keeps the defaults. */
  function ParseHeader(first: string): (r: Result<Header, ParseError>)
    ensures Split(first) == [] ==> r == Failure(IndexError)
    ensures Split(first) != [] && Split(first)[0] != "rect" ==> r == Success(Header(None, 0, 0))
    ensures r.Success? && r.value.gridType.Some? ==>
      |Split(first)| >= 3 && PyInt(Split(first)[1]) == Some(r.value.height) && PyInt(Split(first)[2]) == Some(r.value.width)
  {
    var info := Split(first);
    if |info| == 0 then Failure(IndexError)
    else if info[0] != "rect" then Success(Header(None, 0, 0))
    else if |info| < 2 then Failure(IndexError)
    else
      match PyInt(info[1])
      case None => Failure(ValueError)
      case Some(h) =>
        if |info| < 3 then Failure(IndexError)
        else
          match PyInt(info[2])
          case None => Failure(ValueError)
          case Some(w) => Success(Header(Some("rect"), h, w))
  }

  predicate NonBlank(line: string)
  {
    Strip(line) != []
  }

  /** The elements of xs that satisfy `keep`, in order, as a list comprehension with a condition yields them. */
  function Filter<T>(xs: seq<T>, keep: T -> bool): seq<T>
  {
    if xs == [] then []
    else Filter(xs[..|xs| - 1], keep) + (if keep(xs[|xs| - 1]) then [xs[|xs| - 1]] else [])
  }

  /** Line 30: `[line for line in lines[2:] if line.strip()]`. */
  function ClueLines(lines: seq<string>): seq<string>
  {
    if |lines| <= 2 then [] else Filter(lines[2..], NonBlank)
  }

  /** A line survives the filter exactly when it is not all whitespace. */
  lemma NonBlankIff(line: string)
    ensures NonBlank(line) <==> !AllSpace(line)
  {
    StripEmpty(line);
  }

  lemma {:induction false} FilterFrom<T>(xs: seq<T>, keep: T -> bool, x: T)
    requires x in Filter(xs, keep)
    ensures x in xs && keep(x)
  {
    var front := xs[..|xs| - 1];
    var last := xs[|xs| - 1];
    if x in Filter(front, keep) {
      FilterFrom(front, keep, x);
      assert x in xs by {
        var k :| 0 <= k < |front| && front[k] == x;
        assert xs[k] == x;
      }
    } else {
      var tail := if keep(last) then [last] else [];
      assert x in tail;
    }
  }

  lemma {:induction false} FilterHas<T>(xs: seq<T>, keep: T -> bool, k: nat)
    requires k < |xs| && keep(xs[k])
    ensures xs[k] in Filter(xs, keep)
  {
    var front := xs[..|xs| - 1];
    if k < |front| {
      FilterHas(front, keep, k);
      assert front[k] == xs[k];
    }
  }

  /** A line is a clue line exactly when it is a non-blank line past the first two. */
  lemma ClueLinesMembers(lines: seq<string>, x: string)
    ensures x in ClueLines(lines) <==> exists k :: 2 <= k < |lines| && lines[k] == x && !AllSpace(x)
  {
    NonBlankIff(x);
    if x in ClueLines(lines) {
      FilterFrom(lines[2..], NonBlank, x);
      var k :| 0 <= k < |lines[2..]| && lines[2..][k] == x;
      assert lines[k + 2] == x;
    }
    if k :| 2 <= k < |lines| && lines[k] == x && !AllSpace(x) {
      assert lines[2..][k - 2] == x;
      FilterHas(lines[2..], NonBlank, k - 2);
    }
  }

  /** There are at most as many clue lines as input lines. */
  lemma {:induction false} FilterCount<T>(xs: seq<T>, keep: T -> bool)
    ensures |Filter(xs, keep)| <= |xs|
  {
    if xs != [] {
      FilterCount(xs[..|xs| - 1], keep);
    }
  }

  /** Filtering keeps order: the kept elements of a + b are those of a followed by those of b. */
  lemma {:induction false} FilterAppend<T>(a: seq<T>, b: seq<T>, keep: T -> bool)
    ensures Filter(a + b, keep) == Filter(a, keep) + Filter(b, keep)
    decreases |b|
  {
    if b == [] {
      assert a + b == a;
    } else {
      var b' := b[..|b| - 1];
      assert (a + b)[..|a + b| - 1] == a + b';
      FilterAppend(a, b', keep);
    }
  }

  /** Python's `xs[i]` for a possibly negative i: None where it raises IndexError. */
  function PyIndex<T>(xs: seq<T>, i: int): Option<T>
  {
    if 0 <= i < |xs| then Some(xs[i])
    else if -|xs| <= i < 0 then Some(xs[|xs| + i])
    else None
  }

  function Min(a: int, b: int): int
  {
    if a < b then a else b
  }

  /** Lines 33-36 and 45-46: the first min(height, #clue lines) clue lines parsed, then empty clues up to height. */
  function RowClues(height: int, clueLines: seq<string>): seq<Clue>
  {
    seq(Dim(height), i requires 0 <= i < Dim(height) => if i < |clueLines| then ParsedClue(clueLines[i]) else [])
  }

  /** How many column clues the loop of lines 39-42 reads: len(range(height, min(height + width, n))). */
  function ColCount(height: int, width: int, n: nat): nat
  {
    Dim(Min(height + width, n) - height)
  }

  /**
   * Lines 39-42 and 48-49: clue lines height, height+1, ... up to
   * height+width-1 or the last one (indexed from the end when negative),
   * then empty clues up to width. An index before the start raises IndexError.
   */
  function ColClues(height: int, width: int, clueLines: seq<string>): Result<seq<Clue>, ParseError>
  {
    if ColCount(height, width, |clueLines|) > 0 && height < -|clueLines| then Failure(IndexError)
    else Success(ColCluesList(height, width, clueLines))
  }

  function ColCluesList(height: int, width: int, clueLines: seq<string>): seq<Clue>
  {
    var count := ColCount(height, width, |clueLines|);
    seq(Dim(width), j requires 0 <= j < Dim(width) =>
      if j < count && PyIndex(clueLines, height + j).Some? then ParsedClue(PyIndex(clueLines, height + j).value)
      else [])
  }

  /** Line 16: every read line stripped. */
  function StripAll(raw: seq<string>): seq<string>
  {
    seq(|raw|, k requires 0 <= k < |raw| => Strip(raw[k]))
  }

  /** `Nonogram.parse_file` from line 16 on, over the lines `f.readlines()` returned. */
  function ParseSpec(raw: seq<string>): Result<Nonogram, ParseError>
  {
    var lines := StripAll(raw);
    if |lines| == 0 then Failure(IndexError)
    else
      match ParseHeader(lines[0])
      case Failure(e) => Failure(e)
      case Success(hd) =>
        if |lines| < 2 then Failure(IndexError)
        else
          var clueLines := ClueLines(lines);
          match ColClues(hd.height, hd.width, clueLines)
          case Failure(e) => Failure(e)
          case Success(cols) =>
            Success(Nonogram(hd.gridType, hd.height, hd.width, Split(lines[1]), RowClues(hd.height, clueLines), cols))
  }

  /** Lines 19-23: the grid type and size, left at None, 0, 0 unless the first token is 'rect'. */
  method ReadHeader(first: string) returns (r: Result<Header, ParseError>)
    ensures r == ParseHeader(first)
  {
    var gridType: Option<string> := None;
    var height := 0;
    var width := 0;
    var gridInfo := Split(first);
    if |gridInfo| == 0 {
      return Failure(IndexError);
    }
    if gridInfo[0] == "rect" {
      gridType := Some("rect");
      if |gridInfo| < 2 {
        return Failure(IndexError);
      }
      var h := PyInt(gridInfo[1]);
      if h.None? {
        return Failure(ValueError);
      }
      height := h.value;
      if |gridInfo| < 3 {
        return Failure(IndexError);
      }
      var w := PyInt(gridInfo[2]);
      if w.None? {
        return Failure(ValueError);
      }
      width := w.value;
    }
    return Success(Header(gridType, height, width));
  }

  /** Lines 33-36 and 45-46: the row clues from the first clue lines, padded with empty clues to height. */
  method ReadRowClues(height: int, clueLines: seq<string>) returns (rowClues: seq<Clue>)
    ensures rowClues == RowClues(height, clueLines)
  {
    ghost var spec := RowClues(height, clueLines);
    var n := |clueLines|;
    rowClues := [];
    var i := 0;
    while i < Min(height, n)
      invariant 0 <= i <= Dim(Min(height, n)) && |rowClues| == i
      invariant forall k :: 0 <= k < i ==> rowClues[k] == spec[k]
    {
      var clue := ParseClue(clueLines[i]);
      rowClues := rowClues + [clue];
      i := i + 1;
    }
    while |rowClues| < height
      invariant Dim(Min(height, n)) <= |rowClues| <= Dim(height)
      invariant forall k :: 0 <= k < |rowClues| ==> rowClues[k] == spec[k]
    {
      rowClues := rowClues + [[]];
    }
  }

  /** Lines 39-42 and 48-49: the column clues from clue line height on, padded with empty clues to width. */
  method ReadColClues(height: int, width: int, clueLines: seq<string>) returns (r: Result<seq<Clue>, ParseError>)
    ensures r == ColClues(height, width, clueLines)
  {
    var n := |clueLines|;
    ghost var count := ColCount(height, width, n);
    ghost var spec := ColCluesList(height, width, clueLines);
    var colClues: seq<Clue> := [];
    var i := height;
    while i < Min(height + width, n)
      invariant height <= i && |colClues| == i - height <= count
      invariant i > height ==> height >= -n
      invariant forall k :: 0 <= k < |colClues| ==> colClues[k] == spec[k]
    {
      if i < -n {
        return Failure(IndexError);
      }
      var line := if i >= 0 then clueLines[i] else clueLines[n + i];
      assert PyIndex(clueLines, height + |colClues|) == Some(line);
      var clue := ParseClue(line);
      colClues := colClues + [clue];
      i := i + 1;
    }
    while |colClues| < width
      invariant count <= |colClues| <= Dim(width)
      invariant forall k :: 0 <= k < |colClues| ==> colClues[k] == spec[k]
    {
      colClues := colClues + [[]];
    }
    assert count > 0 ==> i > height;
    assert colClues == spec;
    return Success(colClues);
  }

  /**
   * `Nonogram.parse_file` after `f.readlines()`: strips the lines, reads the
   * header and the palette, then the row clues and the column clues.
   */
  method ParseFile(raw: seq<string>) returns (r: Result<Nonogram, ParseError>)
    ensures r == ParseSpec(raw)
  {
    var lines := seq(|raw|, k requires 0 <= k < |raw| => Strip(raw[k]));
    assert lines == StripAll(raw);
    if |lines| == 0 {
      return Failure(IndexError);
    }
    var header := ReadHeader(lines[0]);
    if header.Failure? {
      return Failure(header.error);
    }
    if |lines| < 2 {
      return Failure(IndexError);
    }
    var colors := Split(lines[1]);
    var clueLines := ClueLines(lines);
    var rowClues := ReadRowClues(header.value.height, clueLines);
    var colClues := ReadColClues(header.value.height, header.value.width, clueLines);
    if colClues.Failure? {
      return Failure(colClues.error);
    }
    var hd := header.value;
    return Success(Nonogram(hd.gridType, hd.height, hd.width, colors, rowClues, colClues.value));
  }

  //////////////////////////////////////////////////////////////////////////
  // What parse_file promises.

  /** After padding there are exactly height row clues and width column clues (none when negative). */
  lemma ParsedShape(raw: seq<string>)
    requires ParseSpec(raw).Success?
    ensures |ParseSpec(raw).value.rowClues| == Dim(ParseSpec(raw).value.height)
    ensures |ParseSpec(raw).value.colClues| == Dim(ParseSpec(raw).value.width)
    ensures ParseSpec(raw).value.height <= |ParseSpec(raw).value.rowClues|
    ensures ParseSpec(raw).value.width <= |ParseSpec(raw).value.colClues|
  {
  }

  /** A first line whose first token is not 'rect' leaves the defaults: no grid type, no rows, no columns. */
  lemma HeaderDefaults(raw: seq<string>)
    requires |raw| >= 2
    requires Split(Strip(raw[0])) != [] && Split(Strip(raw[0]))[0] != "rect"
    ensures ParseSpec(raw).Success?
    ensures ParseSpec(raw).value.gridType == None
    ensures ParseSpec(raw).value.height == 0 && ParseSpec(raw).value.width == 0
    ensures ParseSpec(raw).value.rowClues == [] && ParseSpec(raw).value.colClues == []
  {
  }

  /** Row i takes clue line i while there is one, and is empty past the last clue line. */
  lemma RowClueSource(height: int, clueLines: seq<string>, i: int)
    requires 0 <= i < height
    ensures i < |clueLines| ==> RowClues(height, clueLines)[i] == ParsedClue(clueLines[i])
    ensures i >= |clueLines| ==> RowClues(height, clueLines)[i] == []
  {
  }

  /**
   * With a non-negative height there is no IndexError, and column j takes
   * clue line height + j while there is one and is empty after; so the clue
   * lines go to the rows first and the columns after, in order.
   */
  lemma ColClueSource(height: int, width: int, clueLines: seq<string>, j: int)
    requires height >= 0 && 0 <= j < width
    ensures ColClues(height, width, clueLines).Success?
    ensures height + j < |clueLines| ==> ColClues(height, width, clueLines).value[j] == ParsedClue(clueLines[height + j])
    ensures height + j >= |clueLines| ==> ColClues(height, width, clueLines).value[j] == []
  {
    if height + j < |clueLines| {
      assert j < ColCount(height, width, |clueLines|);
      assert PyIndex(clueLines, height + j) == Some(clueLines[height + j]);
    }
  }

  /** A negative height reaching before the first clue line, with columns still to read, raises IndexError. */
  lemma NegativeHeightFails(height: int, width: int, clueLines: seq<string>)
    requires height < -|clueLines| && height + width > height
    ensures ColClues(height, width, clueLines) == Failure(IndexError)
  {
  }

  /** A successful parse holds the row and column clues of the stripped lines' clue lines. */
  lemma ParsedFrom(raw: seq<string>)
    requires ParseSpec(raw).Success?
    ensures ParseSpec(raw).value.rowClues == RowClues(ParseSpec(raw).value.height, ClueLines(StripAll(raw)))
    ensures ParseSpec(raw).value.colClues ==
      ColCluesList(ParseSpec(raw).value.height, ParseSpec(raw).value.width, ClueLines(StripAll(raw)))
  {
  }

  predicate WellFormedClues(clues: seq<Clue>)
  {
    forall r, k :: 0 <= r < |clues| && 0 <= k < |clues[r]| ==> WellFormedBlock(clues[r][k])
  }

  lemma ParsedClueWellFormed(line: string)
    ensures WellFormedClues([ParsedClue(line)])
  {
    ClueOfBlocks(Split(line));
  }

  lemma RowCluesWellFormed(height: int, clueLines: seq<string>)
    ensures WellFormedClues(RowClues(height, clueLines))
  {
    var rows := RowClues(height, clueLines);
    forall r | 0 <= r < |rows|
      ensures WellFormedClues([rows[r]])
    {
      if r < |clueLines| {
        ParsedClueWellFormed(clueLines[r]);
      }
    }
    assert forall r :: 0 <= r < |rows| ==> [rows[r]][0] == rows[r];
  }

  lemma ColCluesWellFormed(height: int, width: int, clueLines: seq<string>)
    ensures WellFormedClues(ColCluesList(height, width, clueLines))
  {
    var cols := ColCluesList(height, width, clueLines);
    forall c | 0 <= c < |cols|
      ensures WellFormedClues([cols[c]])
    {
      var line := PyIndex(clueLines, height + c);
      if line.Some? {
        ParsedClueWellFormed(line.value);
      }
    }
    assert forall c :: 0 <= c < |cols| ==> [cols[c]][0] == cols[c];
  }

  /** Every block of every parsed clue has a positive length and a colour that does not start with a digit. */
  lemma ParsedBlocksWellFormed(raw: seq<string>)
    requires ParseSpec(raw).Success?
    ensures WellFormedClues(ParseSpec(raw).value.rowClues)
    ensures WellFormedClues(ParseSpec(raw).value.colClues)
  {
    var p := ParseSpec(raw).value;
    ParsedFrom(raw);
    RowCluesWellFormed(p.height, ClueLines(StripAll(raw)));
    ColCluesWellFormed(p.height, p.width, ClueLines(StripAll(raw)));
  }

  //////////////////////////////////////////////////////////////////////////
  // Writing a puzzle out and reading it back.

  /** The line a clue is written as: its tokens separated by spaces, or "0" for an empty clue. */
  function ClueLine(clue: Clue): string
    requires forall k :: 0 <= k < |clue| ==> clue[k].len >= 0
  {
    if clue == [] then "0" else Join(Tokens(clue))
  }

  /** The lines of a puzzle file: header, palette, then one line per row clue and per column clue. */
  function Render(p: Nonogram): seq<string>
    requires Writable(p)
  {
    [Join(["rect", Decimal(p.height), Decimal(p.width)]), Join(p.colors)]
    + seq(|p.rowClues|, r requires 0 <= r < |p.rowClues| => ClueLine(p.rowClues[r]))
    + seq(|p.colClues|, c requires 0 <= c < |p.colClues| => ClueLine(p.colClues[c]))
  }

  /** A puzzle that a file can describe: a rect grid of its own size, with word colours and well-formed clues. */
  predicate Writable(p: Nonogram)
  {
    && p.gridType == Some("rect") && p.height >= 0 && p.width >= 0
    && |p.rowClues| == p.height && |p.colClues| == p.width
    && AllWords(p.colors)
    && (forall r :: 0 <= r < |p.rowClues| ==> WritableClue(p.rowClues[r]))
    && (forall c :: 0 <= c < |p.colClues| ==> WritableClue(p.colClues[c]))
  }

  lemma {:induction false} JoinEnds(ws: seq<string>)
    requires AllWords(ws) && ws != []
    ensures Join(ws) != [] && Join(ws)[0] == ws[0][0]
    ensures Join(ws)[|Join(ws)| - 1] == ws[|ws| - 1][|ws[|ws| - 1]| - 1]
  {
    if |ws| > 1 {
      JoinEnds(ws[1..]);
    }
  }

  /** Words joined by spaces have nothing to strip. */
  lemma StripJoin(ws: seq<string>)
    requires AllWords(ws)
    ensures Strip(Join(ws)) == Join(ws)
  {
    if ws != [] {
      JoinEnds(ws);
    }
  }

  /** A written clue line is non-blank, has nothing to strip, and parses back to the clue. */
  lemma ClueLineRoundTrip(clue: Clue)
    requires WritableClue(clue)
    ensures Strip(ClueLine(clue)) == ClueLine(clue) && NonBlank(ClueLine(clue))
    ensures ParsedClue(ClueLine(clue)) == clue
  {
    if clue == [] {
      var z := "0";
      assert WordLen(z) == 1;
      assert z[..1] == z && z[1..] == [];
      assert Split(z) == [z];
      assert DigitPrefixLen(z) == 1;
      assert DecimalValue(z[..1]) == 0;
      assert TokenBlock(z) == None;
      assert ClueOf([z]) == ClueOf([z][..0]) + Contribution(z);
    } else {
      TokensWords(clue);
      StripJoin(Tokens(clue));
      JoinEnds(Tokens(clue));
      ClueRoundTrip(clue);
    }
  }

  lemma {:induction false} FilterAll<T>(xs: seq<T>, keep: T -> bool)
    requires forall k :: 0 <= k < |xs| ==> keep(xs[k])
    ensures Filter(xs, keep) == xs
  {
    if xs != [] {
      FilterAll(xs[..|xs| - 1], keep);
    }
  }

  function WrittenClues(p: Nonogram): seq<string>
    requires Writable(p)
  {
    seq(|p.rowClues|, r requires 0 <= r < |p.rowClues| => ClueLine(p.rowClues[r]))
    + seq(|p.colClues|, c requires 0 <= c < |p.colClues| => ClueLine(p.colClues[c]))
  }

  lemma WrittenClueAt(p: Nonogram, k: nat)
    requires Writable(p) && k < |WrittenClues(p)|
    ensures k < |p.rowClues| ==> WrittenClues(p)[k] == ClueLine(p.rowClues[k])
    ensures k >= |p.rowClues| ==> WrittenClues(p)[k] == ClueLine(p.colClues[k - |p.rowClues|])
  {
    var rows := seq(|p.rowClues|, r requires 0 <= r < |p.rowClues| => ClueLine(p.rowClues[r]));
    var cols := seq(|p.colClues|, c requires 0 <= c < |p.colClues| => ClueLine(p.colClues[c]));
    assert WrittenClues(p) == rows + cols;
    if k < |p.rowClues| {
      assert (rows + cols)[k] == rows[k];
    } else {
      assert (rows + cols)[k] == cols[k - |rows|];
    }
  }

  /** Every written clue line is non-blank and has nothing to strip. */
  lemma WrittenCluesClean(p: Nonogram)
    requires Writable(p)
    ensures forall k :: 0 <= k < |WrittenClues(p)| ==> Strip(WrittenClues(p)[k]) == WrittenClues(p)[k] && NonBlank(WrittenClues(p)[k])
  {
    var lines := WrittenClues(p);
    forall k | 0 <= k < |lines|
      ensures Strip(lines[k]) == lines[k] && NonBlank(lines[k])
    {
      WrittenClueAt(p, k);
      var clue := if k < |p.rowClues| then p.rowClues[k] else p.colClues[k - |p.rowClues|];
      assert WritableClue(clue);
      ClueLineRoundTrip(clue);
    }
  }

  lemma StripAllClean(raw: seq<string>)
    requires forall k :: 0 <= k < |raw| ==> Strip(raw[k]) == raw[k]
    ensures StripAll(raw) == raw
  {
  }

  lemma RenderLines(p: Nonogram)
    requires Writable(p)
    ensures StripAll(Render(p)) == Render(p)
    ensures |Render(p)| >= 2 && Render(p)[2..] == WrittenClues(p)
    ensures ClueLines(Render(p)) == WrittenClues(p)
  {
    var raw := Render(p);
    var first := Join(["rect", Decimal(p.height), Decimal(p.width)]);
    var second := Join(p.colors);
    var lines := WrittenClues(p);
    assert raw == [first, second] + lines;
    DecimalWord(p.height);
    DecimalWord(p.width);
    assert IsWord("rect");
    StripJoin(["rect", Decimal(p.height), Decimal(p.width)]);
    StripJoin(p.colors);
    WrittenCluesClean(p);
    assert forall k :: 2 <= k < |raw| ==> raw[k] == lines[k - 2];
    StripAllClean(raw);
    assert raw[2..] == lines;
    FilterAll(lines, NonBlank);
  }

  lemma RenderHeader(p: Nonogram)
    requires Writable(p)
    ensures ParseHeader(Render(p)[0]) == Success(Header(Some("rect"), p.height, p.width))
    ensures Split(Render(p)[1]) == p.colors
  {
    var header := ["rect", Decimal(p.height), Decimal(p.width)];
    DecimalWord(p.height);
    DecimalWord(p.width);
    assert IsWord("rect");
    SplitJoin(header);
    PyIntRoundTrip(p.height);
    PyIntRoundTrip(p.width);
    SplitJoin(p.colors);
  }

  lemma RowClueWritten(p: Nonogram, r: nat)
    requires Writable(p) && r < p.height
    ensures RowClues(p.height, WrittenClues(p))[r] == p.rowClues[r]
  {
    WrittenClueAt(p, r);
    ClueLineRoundTrip(p.rowClues[r]);
  }

  /** With enough clue lines, column clue j is clue line height + j parsed. */
  lemma ColCluesListAt(height: int, width: int, clueLines: seq<string>, j: nat)
    requires 0 <= height && height + width <= |clueLines| && j < width
    ensures ColCluesList(height, width, clueLines)[j] == ParsedClue(clueLines[height + j])
  {
    assert ColCount(height, width, |clueLines|) == width;
    assert PyIndex(clueLines, height + j) == Some(clueLines[height + j]);
  }

  lemma ColClueWritten(p: Nonogram, c: nat)
    requires Writable(p) && c < p.width
    ensures ColCluesList(p.height, p.width, WrittenClues(p))[c] == p.colClues[c]
  {
    ColCluesListAt(p.height, p.width, WrittenClues(p), c);
    WrittenClueAt(p, p.height + c);
    ClueLineRoundTrip(p.colClues[c]);
  }

  lemma RenderClues(p: Nonogram)
    requires Writable(p)
    ensures RowClues(p.height, WrittenClues(p)) == p.rowClues
    ensures ColClues(p.height, p.width, WrittenClues(p)) == Success(p.colClues)
  {
    var clueLines := WrittenClues(p);
    var rows := RowClues(p.height, clueLines);
    forall r | 0 <= r < p.height
      ensures rows[r] == p.rowClues[r]
    {
      RowClueWritten(p, r);
    }
    var cols := ColCluesList(p.height, p.width, clueLines);
    forall c | 0 <= c < p.width
      ensures cols[c] == p.colClues[c]
    {
      ColClueWritten(p, c);
    }
    assert rows == p.rowClues;
    assert cols == p.colClues;
  }

  /** Parsing the written lines of a puzzle gives the puzzle back. */
  lemma RenderRoundTrip(p: Nonogram)
    requires Writable(p)
    ensures ParseSpec(Render(p)) == Success(p)
  {
    RenderLines(p);
    RenderHeader(p);
    RenderClues(p);
  }
}
