/**
 * src/solver.py, `NonogramSolver.extract_solution`: the grid read back from
 * a SAT model. The SAT search that produces the model is not modelled; the
 * model is any list of signed integers, entry v-1 standing for variable v.
 */
module Solver {
  import opened Wrappers
  import opened Puzzle
  import opened Cnf
  import opened Encoding
  import opened Layout
  import opened LayoutIds
  import opened LineSemantics
  import opened EncodingFacts

  /** A solution grid: one row of cell strings per grid row. */
  type Grid = seq<seq<string>>

  /** Line 23: height rows of width background cells `'-'`. */
  function Blank(height: int, width: int): (g: Grid)
    ensures |g| == Dim(height)
    ensures forall r :: 0 <= r < |g| ==> |g[r]| == Dim(width) && forall c :: 0 <= c < |g[r]| ==> g[r][c] == "-"
  {
    seq(Dim(height), r => seq(Dim(width), c => "-"))
  }

  /** Every cell entry of the mapping names a cell inside the grid, so `solution[r][c]` is in range. */
  predicate CellsInGrid(mapping: map<int, VarInfo>, height: int, width: int)
  {
    forall v :: v in mapping && mapping[v].Cell? ==> 0 <= mapping[v].r < height && 0 <= mapping[v].c < width
  }

  /** Variable v is true in the model and the mapping records it as a cell variable. */
  predicate Paints(model: Model, mapping: map<int, VarInfo>, v: int)
  {
    1 <= v <= |model| && model[v - 1] > 0 && v in mapping && mapping[v].Cell?
  }

  /** Variable v paints cell (r, c). */
  predicate PaintsAt(model: Model, mapping: map<int, VarInfo>, v: int, r: int, c: int)
  {
    Paints(model, mapping, v) && mapping[v].r == r && mapping[v].c == c
  }

  predicate Shaped(g: Grid, height: int, width: int)
  {
    |g| == Dim(height) && forall r :: 0 <= r < |g| ==> |g[r]| == Dim(width)
  }

  /** The grid after the loop of lines 26-31 has visited model entries 1..n. */
  function Scan(model: Model, mapping: map<int, VarInfo>, height: int, width: int, n: nat): (g: Grid)
    requires n <= |model| && CellsInGrid(mapping, height, width)
    ensures Shaped(g, height, width)
  {
    if n == 0 then Blank(height, width)
    else
      var g := Scan(model, mapping, height, width, n - 1);
      if Paints(model, mapping, n) then
        var t := mapping[n];
        g[t.r := g[t.r][t.c := t.color]]
      else g
  }

  /** Python accepts `xs[i]` on a list of length n exactly for -n <= i < n. */
  predicate PyInRange(i: int, n: nat)
  {
    -(n as int) <= i < n
  }

  /** The position `xs[i]` refers to, counting a negative i from the end. */
  function PyPos(i: int, n: nat): (k: int)
    requires PyInRange(i, n)
    ensures 0 <= k < n && (k == i || k == i + n)
  {
    if i < 0 then i + n else i
  }

  /** Entry v can be written: it is not a painting entry, or its row and column index the grid. */
  predicate Indexable(model: Model, mapping: map<int, VarInfo>, height: int, width: int, v: int)
  {
    Paints(model, mapping, v) ==> PyInRange(mapping[v].r, Dim(height)) && PyInRange(mapping[v].c, Dim(width))
  }

  /**
   * The loop of lines 26-31 over model entries 1..n with Python's list
   * indexing: negative indices count from the end, and None stands for the
   * IndexError raised by an entry outside the grid.
   */
  function PyScan(model: Model, mapping: map<int, VarInfo>, height: int, width: int, n: nat): (g: Option<Grid>)
    requires n <= |model|
    ensures g.Some? ==> Shaped(g.value, height, width)
  {
    if n == 0 then Some(Blank(height, width))
    else
      match PyScan(model, mapping, height, width, n - 1)
      case None => None
      case Some(g) =>
        if !Paints(model, mapping, n) then Some(g)
        else if !Indexable(model, mapping, height, width, n) then None
        else
          var t := mapping[n];
          var r := PyPos(t.r, Dim(height));
          var c := PyPos(t.c, Dim(width));
          Some(g[r := g[r][c := t.color]])
  }

  /** `extract_solution`: a '-' grid, then each true cell variable writes its colour, in id order. */
  method ExtractSolution(model: Model, varMapping: map<int, VarInfo>, nonogram: Nonogram) returns (solution: Option<Grid>)
    ensures solution == PyScan(model, varMapping, nonogram.height, nonogram.width, |model|)
  {
    var grid := seq(Dim(nonogram.height), r => seq(Dim(nonogram.width), c => "-"));
    assert grid == Blank(nonogram.height, nonogram.width);
    var v := 1;
    while v <= |model|
      invariant 1 <= v <= |model| + 1
      invariant PyScan(model, varMapping, nonogram.height, nonogram.width, v - 1) == Some(grid)
    {
      var value := model[v - 1];
      if value > 0 && v in varMapping {
        var info := varMapping[v];
        if info.Cell? {
          var r, c, color := info.r, info.c, info.color;
          if !PyInRange(r, |grid|) || !PyInRange(c, |grid[PyPos(r, |grid|)]|) {
            PyScanStaysFailed(model, varMapping, nonogram.height, nonogram.width, v, |model|);
            return None;
          }
          var row := PyPos(r, |grid|);
          grid := grid[row := grid[row][PyPos(c, |grid[row]|) := color]];
        }
      }
      v := v + 1;
    }
    solution := Some(grid);
  }

  /** Once an entry has raised, the loop never completes. */
  lemma {:induction false} PyScanStaysFailed(model: Model, mapping: map<int, VarInfo>, height: int, width: int, n: nat, n': nat)
    requires n <= n' <= |model| && PyScan(model, mapping, height, width, n).None?
    ensures PyScan(model, mapping, height, width, n').None?
    decreases n' - n
  {
    if n < n' {
      PyScanStaysFailed(model, mapping, height, width, n + 1, n');
    }
  }

  /** With every cell entry inside the grid, nothing is raised and no index wraps round. */
  lemma {:induction false} PyScanInGrid(model: Model, mapping: map<int, VarInfo>, height: int, width: int, n: nat)
    requires n <= |model| && CellsInGrid(mapping, height, width)
    ensures PyScan(model, mapping, height, width, n) == Some(Scan(model, mapping, height, width, n))
  {
    if n > 0 {
      PyScanInGrid(model, mapping, height, width, n - 1);
    }
  }

  /** extract_solution raises IndexError exactly when some true cell variable indexes outside the grid. */
  lemma {:induction false} PyScanFails(model: Model, mapping: map<int, VarInfo>, height: int, width: int, n: nat)
    requires n <= |model|
    ensures PyScan(model, mapping, height, width, n).None? <==>
      exists v :: 1 <= v <= n && !Indexable(model, mapping, height, width, v)
  {
    if n > 0 {
      PyScanFails(model, mapping, height, width, n - 1);
      if PyScan(model, mapping, height, width, n - 1).None? {
        var v :| 1 <= v <= n - 1 && !Indexable(model, mapping, height, width, v);
        assert 1 <= v <= n;
      }
    }
  }

  //////////////////////////////////////////////////////////////////////////
  // What each output cell is.

  /** Entry n leaves every cell it does not paint as it was. */
  lemma ScanOtherCell(model: Model, mapping: map<int, VarInfo>, height: int, width: int, n: nat, r: int, c: int)
    requires 1 <= n <= |model| && CellsInGrid(mapping, height, width)
    requires 0 <= r < height && 0 <= c < width && !PaintsAt(model, mapping, n, r, c)
    ensures Scan(model, mapping, height, width, n)[r][c] == Scan(model, mapping, height, width, n - 1)[r][c]
  {
    var g := Scan(model, mapping, height, width, n - 1);
    if Paints(model, mapping, n) {
      var t := mapping[n];
      var row := g[t.r][t.c := t.color];
      assert t.r != r ==> g[t.r := row][r] == g[r];
      assert t.r == r ==> row[c] == g[r][c];
    }
  }

  /** A cell no true cell variable names stays '-'. */
  lemma {:induction false} ScanUntouched(model: Model, mapping: map<int, VarInfo>, height: int, width: int, n: nat, r: int, c: int)
    requires n <= |model| && CellsInGrid(mapping, height, width)
    requires 0 <= r < height && 0 <= c < width
    requires forall v :: 1 <= v <= n ==> !PaintsAt(model, mapping, v, r, c)
    ensures Scan(model, mapping, height, width, n)[r][c] == "-"
  {
    if n > 0 {
      ScanUntouched(model, mapping, height, width, n - 1, r, c);
      ScanOtherCell(model, mapping, height, width, n, r, c);
    }
  }

  /** Among the true cell variables naming a cell, the one with the largest id sets its colour. */
  lemma {:induction false} ScanLastWriter(model: Model, mapping: map<int, VarInfo>, height: int, width: int, n: nat,
                                          v: int, r: int, c: int)
    requires n <= |model| && CellsInGrid(mapping, height, width)
    requires 1 <= v <= n && PaintsAt(model, mapping, v, r, c)
    requires forall v' :: v < v' <= n ==> !PaintsAt(model, mapping, v', r, c)
    ensures Scan(model, mapping, height, width, n)[r][c] == mapping[v].color
  {
    if n > v {
      ScanLastWriter(model, mapping, height, width, n - 1, v, r, c);
      ScanOtherCell(model, mapping, height, width, n, r, c);
    }
  }

  /** Every output cell is '-' or the colour of a true cell variable recorded for that very cell. */
  lemma {:induction false} ScanOrigin(model: Model, mapping: map<int, VarInfo>, height: int, width: int, n: nat, r: int, c: int)
    requires n <= |model| && CellsInGrid(mapping, height, width)
    requires 0 <= r < height && 0 <= c < width
    ensures Scan(model, mapping, height, width, n)[r][c] == "-" ||
      exists v :: 1 <= v <= n && PaintsAt(model, mapping, v, r, c) && mapping[v].color == Scan(model, mapping, height, width, n)[r][c]
  {
    if n > 0 {
      ScanOrigin(model, mapping, height, width, n - 1, r, c);
    }
  }

  /** The cell entries of a mapping: what is left once start variables are dropped. */
  function CellEntries(mapping: map<int, VarInfo>): map<int, VarInfo>
  {
    map v | v in mapping && mapping[v].Cell? :: mapping[v]
  }

  /**
   * The grid depends only on which variables paint which cells: false
   * variables, ids without an entry and start variables change nothing.
   */
  lemma {:induction false} ScanIgnoresNonCells(model: Model, mapping: map<int, VarInfo>, height: int, width: int, n: nat)
    requires n <= |model| && CellsInGrid(mapping, height, width)
    ensures CellsInGrid(CellEntries(mapping), height, width)
    ensures Scan(model, mapping, height, width, n) == Scan(model, CellEntries(mapping), height, width, n)
  {
    if n > 0 {
      ScanIgnoresNonCells(model, mapping, height, width, n - 1);
      assert Paints(model, mapping, n) <==> Paints(model, CellEntries(mapping), n);
    }
  }

  /** Two models that agree on which variables are true give the same grid. */
  lemma {:induction false} ScanSameTruth(m1: Model, m2: Model, mapping: map<int, VarInfo>, height: int, width: int, n: nat)
    requires n <= |m1| && n <= |m2| && CellsInGrid(mapping, height, width)
    requires forall k :: 0 <= k < n ==> (m1[k] > 0 <==> m2[k] > 0)
    ensures Scan(m1, mapping, height, width, n) == Scan(m2, mapping, height, width, n)
  {
    if n > 0 {
      ScanSameTruth(m1, m2, mapping, height, width, n - 1);
    }
  }

  //////////////////////////////////////////////////////////////////////////
  // Decoding a model of the encoder's formula.

  /** The encoder's mapping keeps every cell entry inside the grid. */
  lemma EncodedCellsInGrid(p: Nonogram, mapping: map<int, VarInfo>, counter: int)
    requires WellShaped(p) && MappingSpec(p, mapping, counter)
    ensures CellsInGrid(mapping, p.height, p.width)
  {
  }

  /** Under the encoder's mapping a true variable paints cell (r, c) exactly when it is a colour variable of that cell. */
  lemma PainterIsColorVar(p: Nonogram, m: Model, mapping: map<int, VarInfo>, v: int, r: int, c: int)
    requires WellShaped(p) && MappingSpec(p, mapping, 1 + VarCount(p))
    requires PaintsAt(m, mapping, v, r, c)
    ensures 1 <= CodeIndex(mapping[v].color) <= K(p) && HasCode(mapping[v].color, CodeIndex(mapping[v].color))
    ensures v == CellId(p.width, K(p), r, c, CodeIndex(mapping[v].color)) && VarTrue(m, v)
  {
  }

  /** Colour variable i of a grid cell has an id, and the mapping records it as that cell in that colour. */
  lemma ColorVarRecorded(p: Nonogram, mapping: map<int, VarInfo>, r: int, c: int, i: int)
    requires WellShaped(p) && MappingSpec(p, mapping, 1 + VarCount(p))
    requires 0 <= r < p.height && 0 <= c < p.width && 1 <= i <= K(p)
    ensures CellId(p.width, K(p), r, c, i) in mapping
    ensures mapping[CellId(p.width, K(p), r, c, i)] == Cell(r, c, Code(i))
  {
    var t := Cell(r, c, Code(i));
    assert ValidTag(p, t);
    CellIdRange(p.height, p.width, K(p), r, c, i);
    assert IdOf(p, t) == CellId(p.width, K(p), r, c, i);
  }

  /** The grid extract_solution returns for a model m. */
  function Decoded(m: Model, p: Nonogram, mapping: map<int, VarInfo>): Grid
    requires CellsInGrid(mapping, p.height, p.width)
  {
    Scan(m, mapping, p.height, p.width, |m|)
  }

  /** On the encoder's mapping, extract_solution raises nothing and returns the decoded grid. */
  lemma ExtractEncoded(p: Nonogram, m: Model, mapping: map<int, VarInfo>, counter: int)
    requires WellShaped(p) && MappingSpec(p, mapping, counter)
    ensures CellsInGrid(mapping, p.height, p.width)
    ensures PyScan(m, mapping, p.height, p.width, |m|) == Some(Decoded(m, p, mapping))
  {
    EncodedCellsInGrid(p, mapping, counter);
    PyScanInGrid(m, mapping, p.height, p.width, |m|);
  }

  /**
   * For a model of the encoder's formula, cell (r, c) of the decoded grid
   * holds the letter of colour i exactly when the model makes that cell's
   * colour-i variable true.
   */
  lemma DecodedColor(p: Nonogram, m: Model, mapping: map<int, VarInfo>, r: int, c: int, i: int)
    requires WellShaped(p) && MappingSpec(p, mapping, 1 + VarCount(p)) && Satisfies(m, EncodedClauses(p))
    requires 0 <= r < p.height && 0 <= c < p.width && 1 <= i <= K(p)
    ensures CellsInGrid(mapping, p.height, p.width)
    ensures Decoded(m, p, mapping)[r][c] == Code(i) <==> VarTrue(m, CellId(p.width, K(p), r, c, i))
  {
    EncodedCellsInGrid(p, mapping, 1 + VarCount(p));
    var x := CellId(p.width, K(p), r, c, i);
    var g := Decoded(m, p, mapping);
    ColorVarRecorded(p, mapping, r, c, i);
    if VarTrue(m, x) {
      forall v' | x < v' <= |m|
        ensures !PaintsAt(m, mapping, v', r, c)
      {
        if PaintsAt(m, mapping, v', r, c) {
          PainterIsColorVar(p, m, mapping, v', r, c);
          OneColorPerCell(p, m, r, c, i, CodeIndex(mapping[v'].color));
        }
      }
      ScanLastWriter(m, mapping, p.height, p.width, |m|, x, r, c);
    }
    if g[r][c] == Code(i) {
      ScanOrigin(m, mapping, p.height, p.width, |m|, r, c);
      assert g[r][c] != "-" by {
        assert Code(i)[0] != '-';
      }
      var v :| 1 <= v <= |m| && PaintsAt(m, mapping, v, r, c) && mapping[v].color == g[r][c];
      PainterIsColorVar(p, m, mapping, v, r, c);
      CodeMatches(mapping[v].color, i);
    }
  }

  /** For a model of the encoder's formula, a decoded cell is '-' exactly when none of its colour variables is true. */
  lemma DecodedBackground(p: Nonogram, m: Model, mapping: map<int, VarInfo>, r: int, c: int)
    requires WellShaped(p) && MappingSpec(p, mapping, 1 + VarCount(p)) && Satisfies(m, EncodedClauses(p))
    requires 0 <= r < p.height && 0 <= c < p.width
    ensures CellsInGrid(mapping, p.height, p.width)
    ensures Decoded(m, p, mapping)[r][c] == "-" <==> forall i :: 1 <= i <= K(p) ==> !VarTrue(m, CellId(p.width, K(p), r, c, i))
  {
    EncodedCellsInGrid(p, mapping, 1 + VarCount(p));
    if i :| 1 <= i <= K(p) && VarTrue(m, CellId(p.width, K(p), r, c, i)) {
      DecodedColor(p, m, mapping, r, c, i);
      assert Code(i)[0] != '-';
    } else {
      forall v | 1 <= v <= |m|
        ensures !PaintsAt(m, mapping, v, r, c)
      {
        if PaintsAt(m, mapping, v, r, c) {
          PainterIsColorVar(p, m, mapping, v, r, c);
        }
      }
      ScanUntouched(m, mapping, p.height, p.width, |m|, r, c);
    }
  }

  /**
   * For a model of the encoder's formula, a row with clues reads back as its
   * blocks: a cell that some block of colour i could cover holds colour i
   * exactly when the chosen start of such a block covers it.
   */
  lemma DecodedRow(p: Nonogram, m: Model, mapping: map<int, VarInfo>, ss: seq<int>, r: int, c: int, i: int)
    requires WellShaped(p) && MappingSpec(p, mapping, 1 + VarCount(p)) && Satisfies(m, EncodedClauses(p))
    requires 0 <= r < p.height && 0 <= c < p.width && 1 <= i <= K(p)
    requires p.rowClues[r] != [] && Chosen(RowLine(p, r), m, ss) && Cover(RowLine(p, r), c, i) != []
    ensures CellsInGrid(mapping, p.height, p.width)
    ensures Decoded(m, p, mapping)[r][c] == Code(i) <==>
      exists b :: 0 <= b < |ss| && HasCode(p.rowClues[r][b].color, i) && ss[b] <= c < ss[b] + p.rowClues[r][b].len
  {
    DecodedColor(p, m, mapping, r, c, i);
    ModelOfLines(p, m);
    RowFits(p, r);
    LinePainted(RowLine(p, r), m, ss, c, i);
  }

  /** The same for a column with clues and the cell at row r. */
  lemma DecodedColumn(p: Nonogram, m: Model, mapping: map<int, VarInfo>, ss: seq<int>, r: int, c: int, i: int)
    requires WellShaped(p) && MappingSpec(p, mapping, 1 + VarCount(p)) && Satisfies(m, EncodedClauses(p))
    requires 0 <= r < p.height && 0 <= c < p.width && 1 <= i <= K(p)
    requires p.colClues[c] != [] && Chosen(ColLine(p, c), m, ss) && Cover(ColLine(p, c), r, i) != []
    ensures CellsInGrid(mapping, p.height, p.width)
    ensures Decoded(m, p, mapping)[r][c] == Code(i) <==>
      exists b :: 0 <= b < |ss| && HasCode(p.colClues[c][b].color, i) && ss[b] <= r < ss[b] + p.colClues[c][b].len
  {
    DecodedColor(p, m, mapping, r, c, i);
    ModelOfLines(p, m);
    ColFits(p, c);
    LinePainted(ColLine(p, c), m, ss, r, i);
  }

  /** For a model of the encoder's formula, every cell of a row or a column without clues reads back as '-'. */
  lemma DecodedEmptyLines(p: Nonogram, m: Model, mapping: map<int, VarInfo>, r: int, c: int)
    requires WellShaped(p) && MappingSpec(p, mapping, 1 + VarCount(p)) && Satisfies(m, EncodedClauses(p))
    requires 0 <= r < p.height && 0 <= c < p.width
    requires p.rowClues[r] == [] || p.colClues[c] == []
    ensures CellsInGrid(mapping, p.height, p.width)
    ensures Decoded(m, p, mapping)[r][c] == "-"
  {
    ModelOfLines(p, m);
    forall i | 1 <= i <= K(p)
      ensures !VarTrue(m, CellId(p.width, K(p), r, c, i))
    {
      if p.rowClues[r] == [] {
        RowFits(p, r);
        EmptyLineBackground(RowLine(p, r), m, c, i);
      } else {
        ColFits(p, c);
        EmptyLineBackground(ColLine(p, c), m, r, i);
      }
    }
    DecodedBackground(p, m, mapping, r, c);
  }
}
