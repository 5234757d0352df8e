/**
 * The clauses that src/sat_encoder.py emits for one line (a row or a column),
 * as functions of the line's clue, its length, the palette size and the first
 * variable id the line's block-start variables receive. Rows and columns are
 * the same procedure with the roles of the two coordinates exchanged, so one
 * `Line` value with an `Axis` describes either.
 */
module Encoding {
  import opened Puzzle
  import opened Cnf

  datatype Axis = Rows | Cols

  /**
   * A line to encode: `index` is the row (or column) number, `len` the number
   * of cells on it, `width` the grid width used by the cell-variable
   * numbering, `k` the number of paintable colours and `base` the id of the
   * line's first block-start variable.
   */
  datatype Line = Line(axis: Axis, index: int, clues: Clue, len: int, width: int, k: nat, base: int)

  /** The largest palette index whose letter chr(ord('a') + i - 1) is below the surrogate range. */
  const MaxPaintable: nat := 0xD7FF - 0x60

  /** The one-letter code `chr(ord('a') + i - 1)` of palette index i. */
  function Code(i: int): (s: string)
    requires 1 <= i <= MaxPaintable
    ensures HasCode(s, i)
  {
    [(0x60 + i) as char]
  }

  function CodeIndex(s: string): int
  {
    if |s| == 1 then (s[0] as int) - 0x60 else 0
  }

  /** `s` is the code of palette index i. */
  predicate HasCode(s: string, i: int)
  {
    |s| == 1 && CodeIndex(s) == i
  }

  /** Equality with a code letter is the same as having that code. */
  lemma CodeMatches(s: string, i: int)
    requires 1 <= i <= MaxPaintable
    ensures s == Code(i) <==> HasCode(s, i)
  {
    if HasCode(s, i) {
      assert s == [s[0]];
    }
  }

  /** The id of cell variable (r, c, colour i): cells in row-major order, i varying fastest. */
  function CellId(width: int, k: int, r: int, c: int, i: int): int
  {
    1 + (r * width + c) * k + (i - 1)
  }

  /** The cell variable of position p on line l for palette index i. */
  function CellVar(l: Line, p: int, i: int): int
  {
    if l.axis == Rows then CellId(l.width, l.k, l.index, p, i)
    else CellId(l.width, l.k, p, l.index, i)
  }

  /** How many starts a block of length `len` has on a line of length L: len(range(L - len + 1)). */
  function Positions(len: int, lineLen: int): nat
  {
    Dim(lineLen - len + 1)
  }

  /** The number of start variables of the first b blocks. */
  function Offset(clues: Clue, lineLen: int, b: nat): nat
    requires b <= |clues|
  {
    if b == 0 then 0 else Offset(clues, lineLen, b - 1) + Positions(clues[b - 1].len, lineLen)
  }

  /** The number of variables a line allocates. */
  function StartCount(l: Line): nat
  {
    Offset(l.clues, l.len, |l.clues|)
  }

  /** The id of the variable "block b starts at position s". */
  function StartVar(l: Line, b: nat, s: int): int
    requires b <= |l.clues|
  {
    l.base + Offset(l.clues, l.len, b) + s
  }

  /** The number of start positions of block b. */
  function BlockPositions(l: Line, b: nat): nat
    requires b < |l.clues|
  {
    Positions(l.clues[b].len, l.len)
  }

  //////////////////////////////////////////////////////////////////////////
  // A line without clues: every cell variable on it is forced false.

  function UnitsFor(l: Line, p: int, n: nat): Formula
  {
    seq(n, j requires 0 <= j < n => [-CellVar(l, p, j + 1)])
  }

  function EmptyLineUpTo(l: Line, m: nat): Formula
  {
    if m == 0 then [] else EmptyLineUpTo(l, m - 1) + UnitsFor(l, m - 1, l.k)
  }

  //////////////////////////////////////////////////////////////////////////
  // Exactly one start per block.

  /** The start variables of block b, in position order. */
  function Starts(l: Line, b: nat): seq<int>
    requires b < |l.clues|
  {
    seq(BlockPositions(l, b), s requires 0 <= s < BlockPositions(l, b) => StartVar(l, b, s))
  }

  function BlockStartClauses(l: Line, b: nat): Formula
    requires b < |l.clues|
  {
    [Starts(l, b)] + AtMostOne(Starts(l, b))
  }

  function StartClausesUpTo(l: Line, n: nat): Formula
    requires n <= |l.clues|
  {
    if n == 0 then [] else StartClausesUpTo(l, n - 1) + BlockStartClauses(l, n - 1)
  }

  //////////////////////////////////////////////////////////////////////////
  // Cell / block linkage.

  /** The starts of block b that cover position p, for offsets 0..n-1. */
  function CoverOffsets(l: Line, b: nat, p: int, n: nat): seq<int>
    requires b < |l.clues|
  {
    if n == 0 then []
    else
      var s := p - (n - 1);
      CoverOffsets(l, b, p, n - 1) +
      (if 0 <= s <= l.len - l.clues[b].len then [StartVar(l, b, s)] else [])
  }

  function BlockCover(l: Line, b: nat, p: int, i: int): seq<int>
    requires b < |l.clues|
  {
    if HasCode(l.clues[b].color, i) then CoverOffsets(l, b, p, Dim(l.clues[b].len)) else []
  }

  function CoverUpTo(l: Line, p: int, i: int, n: nat): seq<int>
    requires n <= |l.clues|
  {
    if n == 0 then [] else CoverUpTo(l, p, i, n - 1) + BlockCover(l, n - 1, p, i)
  }

  /** The list `block_starts` for position p and colour i. */
  function Cover(l: Line, p: int, i: int): seq<int>
  {
    CoverUpTo(l, p, i, |l.clues|)
  }

  function Implications(starts: seq<int>, x: int): Formula
  {
    seq(|starts|, j requires 0 <= j < |starts| => [-starts[j], x])
  }

  function CellLinks(l: Line, p: int, i: int): Formula
  {
    var cov := Cover(l, p, i);
    var x := CellVar(l, p, i);
    Implications(cov, x) + (if cov == [] then [] else [[-x] + cov])
  }

  /** The link clauses of position p, one formula per colour 1..k. */
  function ColorLinks(l: Line, p: int): seq<Formula>
  {
    seq(l.k, j requires 0 <= j < l.k => CellLinks(l, p, j + 1))
  }

  /** Link clauses of position p for colours 1..n. */
  function ColorLinksUpTo(l: Line, p: int, n: nat): Formula
    requires n <= l.k
  {
    Joined(ColorLinks(l, p), n)
  }

  /** The link clauses of the line, one formula per position. */
  function PositionLinks(l: Line): seq<Formula>
  {
    seq(Dim(l.len), p requires 0 <= p < Dim(l.len) => ColorLinksUpTo(l, p, l.k))
  }

  function LinkClausesUpTo(l: Line, m: nat): Formula
    requires m <= Dim(l.len)
  {
    Joined(PositionLinks(l), m)
  }

  //////////////////////////////////////////////////////////////////////////
  // Ordering of consecutive blocks with a gap of at least one cell.

  function Min(a: int, b: int): int
  {
    if a < b then a else b
  }

  /** For block b at c1, the pairs with starts c2 of block b+1 among the first n ones that are too early. */
  function OrderPairsBelow(l: Line, b: nat, c1: int, n: int): Formula
    requires b + 1 < |l.clues|
  {
    var count := Dim(Min(n, c1 + l.clues[b].len + 1));
    seq(count, c2 requires 0 <= c2 < count => [-StartVar(l, b, c1), -StartVar(l, b + 1, c2)])
  }

  function OrderPairs(l: Line, b: nat, c1: int): Formula
    requires b + 1 < |l.clues|
  {
    OrderPairsBelow(l, b, c1, BlockPositions(l, b + 1))
  }

  function OrderBlockUpTo(l: Line, b: nat, n: nat): Formula
    requires b + 1 < |l.clues|
  {
    if n == 0 then [] else OrderBlockUpTo(l, b, n - 1) + OrderPairs(l, b, n - 1)
  }

  function OrderUpTo(l: Line, m: nat): Formula
    requires m < |l.clues|
  {
    if m == 0 then [] else OrderUpTo(l, m - 1) + OrderBlockUpTo(l, m - 1, BlockPositions(l, m - 1))
  }

  //////////////////////////////////////////////////////////////////////////

  /** All clauses of one line, in the order _encode_row_block_start emits them. */
  function LineClauses(l: Line): Formula
  {
    if l.clues == [] then EmptyLineUpTo(l, Dim(l.len))
    else StartClausesUpTo(l, |l.clues|) + LinkClausesUpTo(l, Dim(l.len)) + OrderUpTo(l, |l.clues| - 1)
  }
}
