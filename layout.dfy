/**
 * Puzzle-level view of src/sat_encoder.py: how variable ids are laid out
 * (cell variables first, then the start variables of each row, then those of
 * each column), the meaning recorded for every id, and the whole formula.
 */
module Layout {
  import opened Puzzle
  import opened Cnf
  import opened Encoding

  /** The meanings recorded in `var_mapping`. */
  datatype VarInfo =
    | Cell(r: int, c: int, color: string)
    | RowStart(row: int, b: int, c: int)
    | ColStart(col: int, b: int, r: int)

  function K(p: Nonogram): nat
  {
    Paintable(p.colors)
  }

  /** What the encoder needs of its puzzle: a clue for every row and column it visits, and letters for the palette. */
  predicate WellShaped(p: Nonogram)
  {
    && p.height <= |p.rowClues|
    && p.width <= |p.colClues|
    && (p.height <= 0 || p.width <= 0 || K(p) <= MaxPaintable)
  }

  function NCells(p: Nonogram): nat
  {
    Dim(p.height) * Dim(p.width) * K(p)
  }

  /** The number of start variables of the first n lines of `lines`, each of length lineLen. */
  function LinesVars(lines: seq<Clue>, lineLen: int, n: nat): nat
    requires n <= |lines|
  {
    if n == 0 then 0
    else LinesVars(lines, lineLen, n - 1) + Offset(lines[n - 1], lineLen, |lines[n - 1]|)
  }

  function RowBase(p: Nonogram, r: nat): int
    requires r <= |p.rowClues|
  {
    1 + NCells(p) + LinesVars(p.rowClues, p.width, r)
  }

  function ColBase(p: Nonogram, c: nat): int
    requires WellShaped(p) && c <= |p.colClues|
  {
    1 + NCells(p) + LinesVars(p.rowClues, p.width, Dim(p.height)) + LinesVars(p.colClues, p.height, c)
  }

  /** The total number of variables issued. */
  function VarCount(p: Nonogram): nat
    requires WellShaped(p)
  {
    NCells(p) + LinesVars(p.rowClues, p.width, Dim(p.height)) + LinesVars(p.colClues, p.height, Dim(p.width))
  }

  function RowLine(p: Nonogram, r: nat): Line
    requires r < |p.rowClues|
  {
    Line(Rows, r, p.rowClues[r], p.width, p.width, K(p), RowBase(p, r))
  }

  function ColLine(p: Nonogram, c: nat): Line
    requires WellShaped(p) && c < |p.colClues|
  {
    Line(Cols, c, p.colClues[c], p.height, p.width, K(p), ColBase(p, c))
  }

  /** The variables of the paintable colours of cell (r, c), in palette order. */
  function ColorVars(p: Nonogram, r: int, c: int): seq<int>
  {
    seq(K(p), j requires 0 <= j < K(p) => CellId(p.width, K(p), r, c, j + 1))
  }

  /** The at-most-one-colour clauses of the cells of row r, one formula per cell. */
  function CellExclusions(p: Nonogram, r: int): seq<Formula>
  {
    seq(Dim(p.width), c requires 0 <= c < Dim(p.width) => AtMostOne(ColorVars(p, r, c)))
  }

  /** The at-most-one-colour clauses of cells 0..n-1 of row r. */
  function ExclusionRow(p: Nonogram, r: int, n: nat): Formula
    requires n <= Dim(p.width)
  {
    Joined(CellExclusions(p, r), n)
  }

  function RowExclusions(p: Nonogram): seq<Formula>
  {
    seq(Dim(p.height), r requires 0 <= r < Dim(p.height) => ExclusionRow(p, r, Dim(p.width)))
  }

  /** The at-most-one-colour clauses of rows 0..m-1. */
  function ExclusionUpTo(p: Nonogram, m: nat): Formula
    requires m <= Dim(p.height)
  {
    Joined(RowExclusions(p), m)
  }

  /** The clauses of each row, row by row. */
  function RowFormulas(p: Nonogram): seq<Formula>
  {
    seq(|p.rowClues|, r requires 0 <= r < |p.rowClues| => LineClauses(RowLine(p, r)))
  }

  function ColFormulas(p: Nonogram): seq<Formula>
    requires WellShaped(p)
  {
    seq(|p.colClues|, c requires 0 <= c < |p.colClues| => LineClauses(ColLine(p, c)))
  }

  /** The clauses of rows 0..n-1. */
  function RowsUpTo(p: Nonogram, n: nat): Formula
    requires n <= |p.rowClues|
  {
    Joined(RowFormulas(p), n)
  }

  function ColsUpTo(p: Nonogram, n: nat): Formula
    requires WellShaped(p) && n <= |p.colClues|
  {
    Joined(ColFormulas(p), n)
  }

  /** The formula encode_block_start returns. */
  function EncodedClauses(p: Nonogram): Formula
    requires WellShaped(p)
  {
    ExclusionUpTo(p, Dim(p.height)) + RowsUpTo(p, Dim(p.height)) + ColsUpTo(p, Dim(p.width))
  }

  /** `li` is a line the encoder visits: a row below height or a column below width. */
  predicate LineIndexOk(p: Nonogram, axis: Axis, li: int)
  {
    if axis == Rows then 0 <= li < p.height else 0 <= li < p.width
  }

  function LineOf(p: Nonogram, axis: Axis, li: int): Line
    requires WellShaped(p) && LineIndexOk(p, axis, li)
  {
    if axis == Rows then RowLine(p, li) else ColLine(p, li)
  }

  /** The meaning recorded for a start variable of line `li`. */
  function StartTag(axis: Axis, li: int, b: int, s: int): VarInfo
  {
    if axis == Rows then RowStart(li, b, s) else ColStart(li, b, s)
  }

  /** The key of `cell_vars` for position `pos` of line `li`. */
  function CellKeyOf(axis: Axis, li: int, pos: int, color: string): (int, int, string)
  {
    if axis == Rows then (li, pos, color) else (pos, li, color)
  }

  /** The meanings the encoder can issue a variable for. */
  predicate ValidTag(p: Nonogram, t: VarInfo)
    requires WellShaped(p)
  {
    match t
    case Cell(r, c, color) =>
      0 <= r < p.height && 0 <= c < p.width && 1 <= CodeIndex(color) <= K(p) && |color| == 1
    case RowStart(r, b, s) =>
      0 <= r < p.height && 0 <= b < |p.rowClues[r]| && 0 <= s < Positions(p.rowClues[r][b].len, p.width)
    case ColStart(c, b, s) =>
      0 <= c < p.width && 0 <= b < |p.colClues[c]| && 0 <= s < Positions(p.colClues[c][b].len, p.height)
  }

  /** The id the encoder gives to a meaning. */
  function IdOf(p: Nonogram, t: VarInfo): int
    requires WellShaped(p) && ValidTag(p, t)
  {
    match t
    case Cell(r, c, color) => CellId(p.width, K(p), r, c, CodeIndex(color))
    case RowStart(r, b, s) => StartVar(RowLine(p, r), b, s)
    case ColStart(c, b, s) => StartVar(ColLine(p, c), b, s)
  }

  /**
   * `m` records exactly the ids 1..counter-1, each under the meaning whose id
   * it is, and every meaning whose id is below `counter` is recorded.
   */
  ghost predicate MappingSpec(p: Nonogram, m: map<int, VarInfo>, counter: int)
    requires WellShaped(p)
  {
    && (forall v :: v in m <==> 1 <= v < counter)
    && (forall v :: v in m ==> ValidTag(p, m[v]) && IdOf(p, m[v]) == v)
    && (forall t :: ValidTag(p, t) && IdOf(p, t) < counter ==> IdOf(p, t) in m && m[IdOf(p, t)] == t)
  }
}
