/**
 * Cells that no block of their own colour can cover. The linkage loop of
 * src/sat_encoder.py adds the clause [-cell_var] + block_starts only when
 * block_starts is non-empty (lines 145-146 for rows, 215-216 for columns).
 * On a line with clues, a cell variable that no block of its colour can
 * cover therefore gets no clause from that line at all, and the crossing
 * line may make it true: the decoded line then shows a colour that its
 * clue does not have.
 *
 * The first part exhibits this on a 1 x 3 puzzle. The second part drops the
 * guard, so that the clause is [-cell_var] whenever no start covers the
 * cell, and proves that the models of the corrected formula are exactly the
 * placements of the blocks, with every cell painted accordingly.
 */
module UncoveredCells {
  import opened Wrappers
  import opened Puzzle
  import opened Cnf
  import opened Encoding
  import opened Layout
  import opened LineFacts
  import opened LineSemantics
  import opened EncodingFacts
  import opened Solver

  //////////////////////////////////////////////////////////////////////////
  // As written: a model of the formula whose row breaks its clue.

  /**
   * One row of three cells, palette w (background), A (letter a) and
   * B (letter b); the row clue is 1a and the column clues are 1a, 1b and
   * nothing. No filling meets both the row clue and column 1.
   */
  function Witness(): Nonogram
  {
    Nonogram(Some("rect"), 1, 3, ["w", "A", "B"], [[Block(1, "a")]], [[Block(1, "a")], [Block(1, "b")], []])
  }

  /** Cell (0, 0) in a, cell (0, 1) in b, cell (0, 2) background; the row block at 0 and both column blocks at 0. */
  function WitnessModel(): Model
  {
    [1, -2, -3, 4, -5, -6, 7, -8, -9, 10, 11]
  }

  function WitnessRow(): Line
  {
    Line(Rows, 0, [Block(1, "a")], 3, 3, 2, 7)
  }

  function WitnessCol(c: int): Line
  {
    if c == 0 then Line(Cols, 0, [Block(1, "a")], 1, 3, 2, 10)
    else if c == 1 then Line(Cols, 1, [Block(1, "b")], 1, 3, 2, 11)
    else Line(Cols, 2, [], 1, 3, 2, 12)
  }

  /** The witness's lines, with the variable ids the encoder gives them: cells 1..6, row starts 7..9, column starts 10 and 11. */
  lemma WitnessLines()
    ensures WellShaped(Witness()) && K(Witness()) == 2 && VarCount(Witness()) == 11
    ensures RowLine(Witness(), 0) == WitnessRow()
    ensures forall c :: 0 <= c < 3 ==> ColLine(Witness(), c) == WitnessCol(c)
  {
    var p := Witness();
    assert LinesVars(p.rowClues, 3, 1) == 3;
    assert LinesVars(p.colClues, 1, 1) == 1;
    assert LinesVars(p.colClues, 1, 2) == 2;
    assert LinesVars(p.colClues, 1, 3) == 2;
  }

  /** A start covering a cell in colour i belongs to a block of colour i. */
  lemma CoveredHasColor(l: Line, p: int, i: int)
    ensures Cover(l, p, i) != [] ==> exists b :: 0 <= b < |l.clues| && HasCode(l.clues[b].color, i)
  {
    if Cover(l, p, i) != [] {
      CoverMembers(l, p, i, Cover(l, p, i)[0]);
    }
  }

  /** The start s of a block of colour i is in block_starts of every cell it covers. */
  lemma CoverHas(l: Line, p: int, i: int, b: nat, s: int)
    requires b < |l.clues| && HasCode(l.clues[b].color, i)
    ensures Covers(l, b, s, p) ==> StartVar(l, b, s) in Cover(l, p, i)
  {
    CoverMembers(l, p, i, StartVar(l, b, s));
  }

  lemma WitnessRowStarts()
    ensures StartsAt(WitnessRow(), WitnessModel(), [0])
  {
    var l, m, ss := WitnessRow(), WitnessModel(), [0];
    assert BlockPositions(l, 0) == 3;
    forall b, s | 0 <= b < 1 && 0 <= s < 3
      ensures VarTrue(m, StartVar(l, b, s)) <==> s == ss[b]
    {
      assert StartVar(l, b, s) == 7 + s;
      assert s == 0 || s == 1 || s == 2;
    }
  }

  lemma WitnessRowCell(p: int)
    requires 0 <= p < 3
    ensures CellPainted(WitnessRow(), WitnessModel(), [0], p, 1)
  {
    var l, ss := WitnessRow(), [0];
    assert CellVar(l, p, 1) == 1 + 2 * p;
    if p == 0 {
      assert HasCode(l.clues[0].color, 1) && ss[0] <= p < ss[0] + l.clues[0].len;
    } else {
      assert p == 1 || p == 2;
    }
  }

  lemma WitnessRowPlaced()
    ensures PlacedAs(WitnessRow(), WitnessModel(), [0])
  {
    var l := WitnessRow();
    WitnessRowStarts();
    forall p, i | Constrained(l, p, i)
      ensures CellPainted(l, WitnessModel(), [0], p, i)
    {
      CoveredHasColor(l, p, i);
      WitnessRowCell(p);
    }
  }

  /** Only the cell of colour c + 1 of column c < 2 can be covered; column 2 has no clue. */
  lemma WitnessColConstrained(c: int, p: int, i: int)
    requires 0 <= c < 3 && Constrained(WitnessCol(c), p, i)
    ensures p == 0 && 1 <= i <= 2 && (c < 2 ==> i == c + 1)
  {
    CoveredHasColor(WitnessCol(c), p, i);
  }

  lemma WitnessColCell(c: int, i: int)
    requires 0 <= c < 3 && 1 <= i <= 2 && (c < 2 ==> i == c + 1)
    ensures CellPainted(WitnessCol(c), WitnessModel(), if c == 2 then [] else [0], 0, i)
  {
    var l, ss := WitnessCol(c), if c == 2 then [] else [0];
    assert CellVar(l, 0, i) == 1 + 2 * c + (i - 1);
    if c < 2 {
      assert HasCode(l.clues[0].color, i) && ss[0] <= 0 < ss[0] + l.clues[0].len;
    }
  }

  lemma WitnessColStarts(c: int)
    requires 0 <= c < 3
    ensures StartsAt(WitnessCol(c), WitnessModel(), if c == 2 then [] else [0])
  {
    var l, m := WitnessCol(c), WitnessModel();
    var ss: seq<int> := if c == 2 then [] else [0];
    forall b, s | 0 <= b < |ss| && 0 <= s < BlockPositions(l, b)
      ensures VarTrue(m, StartVar(l, b, s)) <==> s == ss[b]
    {
      assert s == 0;
    }
  }

  lemma WitnessColPlaced(c: int)
    requires 0 <= c < 3
    ensures PlacedAs(WitnessCol(c), WitnessModel(), if c == 2 then [] else [0])
  {
    var l, m := WitnessCol(c), WitnessModel();
    var ss: seq<int> := if c == 2 then [] else [0];
    WitnessColStarts(c);
    forall p, i | Constrained(l, p, i)
      ensures CellPainted(l, m, ss, p, i)
    {
      WitnessColConstrained(c, p, i);
      WitnessColCell(c, i);
    }
  }

  lemma WitnessOneColor()
    ensures NoCellTwoColors(Witness(), WitnessModel())
  {
    WitnessLines();
    var p, m := Witness(), WitnessModel();
    forall r, c, i, j | 0 <= r < p.height && 0 <= c < p.width && 1 <= i < j <= K(p)
      ensures !(VarTrue(m, CellId(p.width, K(p), r, c, i)) && VarTrue(m, CellId(p.width, K(p), r, c, j)))
    {
      assert CellId(p.width, K(p), r, c, i) == 1 + 2 * c;
      assert c == 0 || c == 1 || c == 2;
    }
  }

  /**
   * The code as written: the formula encode_block_start builds for the
   * witness is satisfiable, and extract_solution reads cell (0, 1) of the
   * model as b although the row's only block has colour a.
   */
  lemma GuardCounterexample(mapping: map<int, VarInfo>)
    requires MappingSpec(Witness(), mapping, 1 + VarCount(Witness()))
    ensures Satisfies(WitnessModel(), EncodedClauses(Witness()))
    ensures CellsInGrid(mapping, 1, 3)
    ensures Decoded(WitnessModel(), Witness(), mapping)[0][1] == Code(2)
    ensures forall b :: 0 <= b < |Witness().rowClues[0]| ==> Witness().rowClues[0][b].color != Code(2)
  {
    WitnessSatisfies();
    WitnessDecodesB(mapping);
    WitnessRowHasNoB();
  }

  lemma WitnessDecodesB(mapping: map<int, VarInfo>)
    requires MappingSpec(Witness(), mapping, 1 + VarCount(Witness()))
    ensures CellsInGrid(mapping, 1, 3)
    ensures Decoded(WitnessModel(), Witness(), mapping)[0][1] == Code(2)
  {
    WitnessSatisfies();
    WitnessLines();
    WitnessPaintsB();
    DecodedColor(Witness(), WitnessModel(), mapping, 0, 1, 2);
  }

  lemma WitnessRowHasNoB()
    ensures forall b :: 0 <= b < |Witness().rowClues[0]| ==> Witness().rowClues[0][b].color != Code(2)
  {
    assert Code(2) == "b";
  }

  /** The model makes cell (0, 1) b: variable 4 is true. */
  lemma WitnessPaintsB()
    ensures VarTrue(WitnessModel(), CellId(Witness().width, K(Witness()), 0, 1, 2))
  {
    assert CellId(3, 2, 0, 1, 2) == 4;
  }

  lemma WitnessRowHolds()
    ensures Satisfies(WitnessModel(), LineClauses(RowLine(Witness(), 0)))
  {
    WitnessLines();
    WitnessRowPlaced();
    LineComplete(WitnessRow(), WitnessModel(), [0]);
  }

  lemma WitnessColHolds(c: int)
    requires 0 <= c < 3
    ensures Satisfies(WitnessModel(), LineClauses(ColLine(Witness(), c)))
  {
    WitnessLines();
    WitnessColPlaced(c);
    LineComplete(WitnessCol(c), WitnessModel(), if c == 2 then [] else [0]);
  }

  lemma WitnessLinesHold()
    ensures LinesHold(Witness(), WitnessModel())
  {
    WitnessLines();
    forall r | 0 <= r < 1
      ensures Satisfies(WitnessModel(), LineClauses(RowLine(Witness(), r)))
    {
      WitnessRowHolds();
    }
    forall c | 0 <= c < 3
      ensures Satisfies(WitnessModel(), LineClauses(ColLine(Witness(), c)))
    {
      WitnessColHolds(c);
    }
  }

  lemma WitnessSatisfies()
    ensures Satisfies(WitnessModel(), EncodedClauses(Witness()))
  {
    WitnessLines();
    WitnessLinesHold();
    WitnessOneColor();
    EncodedModels(Witness(), WitnessModel());
  }

  //////////////////////////////////////////////////////////////////////////
  // Corrected: the clause [-cell_var] + block_starts without the guard.

  /** The link clauses of position p and colour i with `if block_starts:` dropped. */
  function UnguardedCellLinks(l: Line, p: int, i: int): Formula
  {
    var cov := Cover(l, p, i);
    var x := CellVar(l, p, i);
    Implications(cov, x) + [[-x] + cov]
  }

  function UnguardedColorLinks(l: Line, p: int): seq<Formula>
  {
    seq(l.k, j requires 0 <= j < l.k => UnguardedCellLinks(l, p, j + 1))
  }

  function UnguardedPositionLinks(l: Line): seq<Formula>
  {
    seq(Dim(l.len), p requires 0 <= p < Dim(l.len) => Joined(UnguardedColorLinks(l, p), l.k))
  }

  /** One line of the corrected encoder: the same families in the same order, with the unguarded linkage. */
  function UnguardedLineClauses(l: Line): Formula
  {
    if l.clues == [] then EmptyLineUpTo(l, Dim(l.len))
    else StartClausesUpTo(l, |l.clues|) + Joined(UnguardedPositionLinks(l), Dim(l.len)) + OrderUpTo(l, |l.clues| - 1)
  }

  function UnguardedRows(p: Nonogram): seq<Formula>
  {
    seq(|p.rowClues|, r requires 0 <= r < |p.rowClues| => UnguardedLineClauses(RowLine(p, r)))
  }

  function UnguardedCols(p: Nonogram): seq<Formula>
    requires WellShaped(p)
  {
    seq(|p.colClues|, c requires 0 <= c < |p.colClues| => UnguardedLineClauses(ColLine(p, c)))
  }

  /** The formula of the corrected encoder: exclusion, then rows, then columns. */
  function UnguardedClauses(p: Nonogram): Formula
    requires WellShaped(p)
  {
    ExclusionUpTo(p, Dim(p.height)) + Joined(UnguardedRows(p), Dim(p.height)) + Joined(UnguardedCols(p), Dim(p.width))
  }

  /** `cl` is the unit [-x] of a cell variable x on a line with clues that no start of its colour covers. */
  predicate UncoveredUnit(l: Line, cl: Clause)
  {
    l.clues != [] &&
    exists p, i :: 0 <= p < l.len && 1 <= i <= l.k && Cover(l, p, i) == [] && cl == [-CellVar(l, p, i)]
  }

  /** Without the guard a cell gets the link clauses as written, plus [-x] when no start covers it. */
  lemma UnguardedCellLinksMembers(l: Line, p: int, i: int, cl: Clause)
    ensures cl in UnguardedCellLinks(l, p, i) <==>
      cl in CellLinks(l, p, i) || (Cover(l, p, i) == [] && cl == [-CellVar(l, p, i)])
  {
    var cov, x := Cover(l, p, i), CellVar(l, p, i);
    if cov == [] {
      assert [-x] + cov == [-x];
    }
  }

  lemma UnguardedColorLinksFrom(l: Line, p: int, cl: Clause)
    requires cl in Joined(UnguardedColorLinks(l, p), l.k)
    ensures exists i :: 1 <= i <= l.k && cl in UnguardedCellLinks(l, p, i)
  {
    JoinedFrom(UnguardedColorLinks(l, p), l.k, cl);
    var j :| 0 <= j < l.k && cl in UnguardedColorLinks(l, p)[j];
    assert cl in UnguardedCellLinks(l, p, j + 1);
  }

  lemma UnguardedLinksFrom(l: Line, cl: Clause)
    requires cl in Joined(UnguardedPositionLinks(l), Dim(l.len))
    ensures exists p, i :: 0 <= p < l.len && 1 <= i <= l.k && cl in UnguardedCellLinks(l, p, i)
  {
    JoinedFrom(UnguardedPositionLinks(l), Dim(l.len), cl);
    var p :| 0 <= p < Dim(l.len) && cl in UnguardedPositionLinks(l)[p];
    UnguardedColorLinksFrom(l, p, cl);
  }

  lemma UnguardedLinksHas(l: Line, p: int, i: int, cl: Clause)
    requires 0 <= p < l.len && 1 <= i <= l.k && cl in UnguardedCellLinks(l, p, i)
    ensures cl in Joined(UnguardedPositionLinks(l), Dim(l.len))
  {
    assert UnguardedColorLinks(l, p)[i - 1] == UnguardedCellLinks(l, p, i);
    JoinedHas(UnguardedColorLinks(l, p), l.k, i - 1, cl);
    assert UnguardedPositionLinks(l)[p] == Joined(UnguardedColorLinks(l, p), l.k);
    JoinedHas(UnguardedPositionLinks(l), Dim(l.len), p, cl);
  }

  lemma UnguardedLinksHave(l: Line, cl: Clause)
    requires l.clues != [] && cl in Joined(UnguardedPositionLinks(l), Dim(l.len))
    ensures cl in LineClauses(l) || UncoveredUnit(l, cl)
  {
    UnguardedLinksFrom(l, cl);
    var p, i :| 0 <= p < l.len && 1 <= i <= l.k && cl in UnguardedCellLinks(l, p, i);
    UnguardedCellLinksMembers(l, p, i, cl);
    if cl in CellLinks(l, p, i) {
      LinkClausesHas(l, Dim(l.len), p, i, cl);
    }
  }

  lemma GuardedLinksKept(l: Line, cl: Clause)
    requires l.clues != [] && cl in LinkClausesUpTo(l, Dim(l.len))
    ensures cl in Joined(UnguardedPositionLinks(l), Dim(l.len))
  {
    LinkClausesFrom(l, Dim(l.len), cl);
    var p, i :| 0 <= p < Dim(l.len) && 1 <= i <= l.k && cl in CellLinks(l, p, i);
    UnguardedCellLinksMembers(l, p, i, cl);
    UnguardedLinksHas(l, p, i, cl);
  }

  lemma UncoveredUnitKept(l: Line, cl: Clause)
    requires UncoveredUnit(l, cl)
    ensures cl in Joined(UnguardedPositionLinks(l), Dim(l.len))
  {
    var p, i :| 0 <= p < l.len && 1 <= i <= l.k && Cover(l, p, i) == [] && cl == [-CellVar(l, p, i)];
    UnguardedCellLinksMembers(l, p, i, cl);
    UnguardedLinksHas(l, p, i, cl);
  }

  /** A corrected line holds the clauses of the line as written and the units of its uncovered cell variables, and nothing else. */
  lemma UnguardedLineMembers(l: Line, cl: Clause)
    ensures cl in UnguardedLineClauses(l) <==> cl in LineClauses(l) || UncoveredUnit(l, cl)
  {
    if l.clues != [] {
      if cl in Joined(UnguardedPositionLinks(l), Dim(l.len)) {
        UnguardedLinksHave(l, cl);
      }
      if cl in LinkClausesUpTo(l, Dim(l.len)) {
        GuardedLinksKept(l, cl);
      }
      if UncoveredUnit(l, cl) {
        UncoveredUnitKept(l, cl);
      }
    }
  }

  /** `m` places the blocks at `ss` and paints every cell of the line to match. */
  ghost predicate PaintedExactly(l: Line, m: Model, ss: seq<int>)
  {
    && StartsAt(l, m, ss)
    && forall p, i :: 0 <= p < l.len && 1 <= i <= l.k ==> CellPainted(l, m, ss, p, i)
  }

  /** With the blocks placed at ss, no block of colour i spans a cell that no start of colour i covers. */
  lemma UncoveredUnpainted(l: Line, m: Model, ss: seq<int>, p: int, i: int)
    requires StartsAt(l, m, ss) && Cover(l, p, i) == []
    ensures forall b :: 0 <= b < |ss| && HasCode(l.clues[b].color, i) ==> !(ss[b] <= p < ss[b] + l.clues[b].len)
  {
    forall b | 0 <= b < |ss| && HasCode(l.clues[b].color, i)
      ensures !(ss[b] <= p < ss[b] + l.clues[b].len)
    {
      CoverHas(l, p, i, b, ss[b]);
    }
  }

  /** A model of a corrected line is a model of the line as written. */
  lemma UnguardedKeepsLine(l: Line, m: Model)
    requires Satisfies(m, UnguardedLineClauses(l))
    ensures Satisfies(m, LineClauses(l))
  {
    forall cl | cl in LineClauses(l)
      ensures ClauseTrue(m, cl)
    {
      UnguardedLineMembers(l, cl);
    }
  }

  /** Under a model of a corrected line, a cell variable that no start of its colour covers is false. */
  lemma UncoveredFalse(l: Line, m: Model, p: int, i: int)
    requires CellsFit(l) && Satisfies(m, UnguardedLineClauses(l))
    requires l.clues != [] && 0 <= p < l.len && 1 <= i <= l.k && Cover(l, p, i) == []
    ensures !VarTrue(m, CellVar(l, p, i))
  {
    var cl := [-CellVar(l, p, i)];
    assert UncoveredUnit(l, cl);
    UnguardedLineMembers(l, cl);
    CellVarFits(l, p, i);
    assert ClauseTrue(m, cl);
    assert LitTrue(m, cl[0]);
  }

  lemma UnguardedModelPainted(l: Line, m: Model)
    requires CellsFit(l) && Satisfies(m, UnguardedLineClauses(l))
    ensures exists ss :: PaintedExactly(l, m, ss)
  {
    UnguardedKeepsLine(l, m);
    ModelPlaced(l, m);
    var ss :| PlacedAs(l, m, ss);
    forall p, i | 0 <= p < l.len && 1 <= i <= l.k
      ensures CellPainted(l, m, ss, p, i)
    {
      if !Constrained(l, p, i) {
        UncoveredFalse(l, m, p, i);
        UncoveredUnpainted(l, m, ss, p, i);
      }
    }
    assert PaintedExactly(l, m, ss);
  }

  /** When every cell is painted to match the placed blocks, a cell variable that no start covers is false. */
  lemma UncoveredCellFalse(l: Line, m: Model, ss: seq<int>, p: int, i: int)
    requires PaintedExactly(l, m, ss) && 0 <= p < l.len && 1 <= i <= l.k && Cover(l, p, i) == []
    ensures !VarTrue(m, CellVar(l, p, i))
  {
    assert CellPainted(l, m, ss, p, i);
    UncoveredUnpainted(l, m, ss, p, i);
  }

  /** When the blocks are placed so that every cell is painted to match, an uncovered unit holds. */
  lemma UncoveredUnitTrue(l: Line, m: Model, ss: seq<int>, cl: Clause)
    requires CellsFit(l) && PaintedExactly(l, m, ss) && UncoveredUnit(l, cl)
    ensures ClauseTrue(m, cl)
  {
    var p, i :| 0 <= p < l.len && 1 <= i <= l.k && Cover(l, p, i) == [] && cl == [-CellVar(l, p, i)];
    UncoveredCellFalse(l, m, ss, p, i);
    CellVarFits(l, p, i);
    assert LitTrue(m, cl[0]);
  }

  lemma PaintedSatisfies(l: Line, m: Model, ss: seq<int>)
    requires CellsFit(l) && PaintedExactly(l, m, ss)
    ensures Satisfies(m, UnguardedLineClauses(l))
  {
    assert PlacedAs(l, m, ss);
    LineComplete(l, m, ss);
    forall cl | cl in UnguardedLineClauses(l)
      ensures ClauseTrue(m, cl)
    {
      UnguardedLineMembers(l, cl);
      if cl !in LineClauses(l) {
        UncoveredUnitTrue(l, m, ss, cl);
      }
    }
  }

  /**
   * The models of a corrected line are exactly the assignments that place
   * its blocks in order with gaps and paint every cell of the line to match:
   * a cell has colour i exactly when a block of colour i spans it.
   */
  lemma UnguardedLineModels(l: Line, m: Model)
    requires CellsFit(l)
    ensures Satisfies(m, UnguardedLineClauses(l)) <==> exists ss :: PaintedExactly(l, m, ss)
  {
    if Satisfies(m, UnguardedLineClauses(l)) {
      UnguardedModelPainted(l, m);
    }
    if ss :| PaintedExactly(l, m, ss) {
      PaintedSatisfies(l, m, ss);
    }
  }

  /** Under a model of a corrected line, every cell, covered or not, has colour i exactly when a chosen block of colour i spans it. */
  lemma UnguardedLinePainted(l: Line, m: Model, ss: seq<int>, p: int, i: int)
    requires CellsFit(l) && Satisfies(m, UnguardedLineClauses(l)) && Chosen(l, m, ss)
    requires 0 <= p < l.len && 1 <= i <= l.k
    ensures CellPainted(l, m, ss, p, i)
  {
    UnguardedModelPainted(l, m);
    var ss' :| PaintedExactly(l, m, ss');
    UnguardedKeepsLine(l, m);
    ChosenStarts(l, m);
    assert Chosen(l, m, ss');
  }

  lemma UnguardedRowsFrom(p: Nonogram, cl: Clause)
    requires WellShaped(p) && cl in Joined(UnguardedRows(p), Dim(p.height))
    ensures exists r :: 0 <= r < p.height && cl in UnguardedLineClauses(RowLine(p, r))
  {
    JoinedFrom(UnguardedRows(p), Dim(p.height), cl);
    var r :| 0 <= r < Dim(p.height) && cl in UnguardedRows(p)[r];
    assert UnguardedRows(p)[r] == UnguardedLineClauses(RowLine(p, r));
  }

  lemma UnguardedRowsHas(p: Nonogram, r: int, cl: Clause)
    requires WellShaped(p) && 0 <= r < p.height && cl in UnguardedLineClauses(RowLine(p, r))
    ensures cl in Joined(UnguardedRows(p), Dim(p.height))
  {
    assert UnguardedRows(p)[r] == UnguardedLineClauses(RowLine(p, r));
    JoinedHas(UnguardedRows(p), Dim(p.height), r, cl);
  }

  lemma UnguardedColsFrom(p: Nonogram, cl: Clause)
    requires WellShaped(p) && cl in Joined(UnguardedCols(p), Dim(p.width))
    ensures exists c :: 0 <= c < p.width && cl in UnguardedLineClauses(ColLine(p, c))
  {
    JoinedFrom(UnguardedCols(p), Dim(p.width), cl);
    var c :| 0 <= c < Dim(p.width) && cl in UnguardedCols(p)[c];
    assert UnguardedCols(p)[c] == UnguardedLineClauses(ColLine(p, c));
  }

  lemma UnguardedColsHas(p: Nonogram, c: int, cl: Clause)
    requires WellShaped(p) && 0 <= c < p.width && cl in UnguardedLineClauses(ColLine(p, c))
    ensures cl in Joined(UnguardedCols(p), Dim(p.width))
  {
    assert UnguardedCols(p)[c] == UnguardedLineClauses(ColLine(p, c));
    JoinedHas(UnguardedCols(p), Dim(p.width), c, cl);
  }

  /** The corrected formula holds the clauses as written and the uncovered units of every row and column, and nothing else. */
  lemma UnguardedMembers(p: Nonogram, cl: Clause)
    requires WellShaped(p)
    ensures cl in UnguardedClauses(p) <==>
      || cl in EncodedClauses(p)
      || (exists r :: 0 <= r < p.height && UncoveredUnit(RowLine(p, r), cl))
      || (exists c :: 0 <= c < p.width && UncoveredUnit(ColLine(p, c), cl))
  {
    EncodedMembers(p, cl);
    if cl in Joined(UnguardedRows(p), Dim(p.height)) {
      UnguardedRowsFrom(p, cl);
      var r :| 0 <= r < p.height && cl in UnguardedLineClauses(RowLine(p, r));
      UnguardedLineMembers(RowLine(p, r), cl);
    }
    if cl in Joined(UnguardedCols(p), Dim(p.width)) {
      UnguardedColsFrom(p, cl);
      var c :| 0 <= c < p.width && cl in UnguardedLineClauses(ColLine(p, c));
      UnguardedLineMembers(ColLine(p, c), cl);
    }
    if r :| 0 <= r < p.height && (cl in LineClauses(RowLine(p, r)) || UncoveredUnit(RowLine(p, r), cl)) {
      UnguardedLineMembers(RowLine(p, r), cl);
      UnguardedRowsHas(p, r, cl);
    }
    if c :| 0 <= c < p.width && (cl in LineClauses(ColLine(p, c)) || UncoveredUnit(ColLine(p, c), cl)) {
      UnguardedLineMembers(ColLine(p, c), cl);
      UnguardedColsHas(p, c, cl);
    }
  }

  /** A model of the corrected formula is a model of the formula as written and of every corrected row and column. */
  lemma UnguardedModelOfLines(p: Nonogram, m: Model)
    requires WellShaped(p) && Satisfies(m, UnguardedClauses(p))
    ensures Satisfies(m, EncodedClauses(p))
    ensures forall r :: 0 <= r < p.height ==> Satisfies(m, UnguardedLineClauses(RowLine(p, r)))
    ensures forall c :: 0 <= c < p.width ==> Satisfies(m, UnguardedLineClauses(ColLine(p, c)))
  {
    forall cl | cl in EncodedClauses(p)
      ensures ClauseTrue(m, cl)
    {
      UnguardedMembers(p, cl);
    }
    forall r, cl | 0 <= r < p.height && cl in UnguardedLineClauses(RowLine(p, r))
      ensures ClauseTrue(m, cl)
    {
      UnguardedRowsHas(p, r, cl);
    }
    forall c, cl | 0 <= c < p.width && cl in UnguardedLineClauses(ColLine(p, c))
      ensures ClauseTrue(m, cl)
    {
      UnguardedColsHas(p, c, cl);
    }
  }

  /**
   * For a model of the corrected formula, every cell of every row reads back
   * as its blocks: it holds colour i exactly when the chosen start of a block
   * of colour i covers it, and a row without clues reads '-' throughout.
   */
  lemma UnguardedDecodedRow(p: Nonogram, m: Model, mapping: map<int, VarInfo>, ss: seq<int>, r: int, c: int, i: int)
    requires WellShaped(p) && MappingSpec(p, mapping, 1 + VarCount(p)) && Satisfies(m, UnguardedClauses(p))
    requires 0 <= r < p.height && 0 <= c < p.width && 1 <= i <= K(p)
    requires Chosen(RowLine(p, r), m, ss)
    ensures CellsInGrid(mapping, p.height, p.width)
    ensures Decoded(m, p, mapping)[r][c] == Code(i) <==>
      exists b :: 0 <= b < |ss| && HasCode(p.rowClues[r][b].color, i) && ss[b] <= c < ss[b] + p.rowClues[r][b].len
  {
    UnguardedModelOfLines(p, m);
    DecodedColor(p, m, mapping, r, c, i);
    RowFits(p, r);
    UnguardedLinePainted(RowLine(p, r), m, ss, c, i);
  }

  /** The same for every cell of every column. */
  lemma UnguardedDecodedColumn(p: Nonogram, m: Model, mapping: map<int, VarInfo>, ss: seq<int>, r: int, c: int, i: int)
    requires WellShaped(p) && MappingSpec(p, mapping, 1 + VarCount(p)) && Satisfies(m, UnguardedClauses(p))
    requires 0 <= r < p.height && 0 <= c < p.width && 1 <= i <= K(p)
    requires Chosen(ColLine(p, c), m, ss)
    ensures CellsInGrid(mapping, p.height, p.width)
    ensures Decoded(m, p, mapping)[r][c] == Code(i) <==>
      exists b :: 0 <= b < |ss| && HasCode(p.colClues[c][b].color, i) && ss[b] <= r < ss[b] + p.colClues[c][b].len
  {
    UnguardedModelOfLines(p, m);
    DecodedColor(p, m, mapping, r, c, i);
    ColFits(p, c);
    UnguardedLinePainted(ColLine(p, c), m, ss, r, i);
  }

  /** Column 1 of the witness forces its only cell to b. */
  lemma WitnessColumnForcesB()
    ensures [11] in UnguardedClauses(Witness()) && [-11, 4] in UnguardedClauses(Witness())
  {
    WitnessLines();
    var p, l := Witness(), WitnessCol(1);
    assert Starts(l, 0) == [11];
    BlockClausesInLine(l, 0, [11]);
    assert Covers(l, 0, 0, 0) && HasCode(l.clues[0].color, 2) && StartVar(l, 0, 0) == 11;
    CoverHas(l, 0, 2, 0, 0);
    WitnessColLink();
    UnguardedLineMembers(l, [11]);
    UnguardedLineMembers(l, [-11, 4]);
    UnguardedColsHas(p, 1, [11]);
    UnguardedColsHas(p, 1, [-11, 4]);
    UnguardedMembers(p, [11]);
    UnguardedMembers(p, [-11, 4]);
  }

  lemma WitnessColLink()
    ensures [-11, 4] in LineClauses(WitnessCol(1))
  {
    var l := WitnessCol(1);
    assert Covers(l, 0, 0, 0) && HasCode(l.clues[0].color, 2) && StartVar(l, 0, 0) == 11;
    CoverHas(l, 0, 2, 0, 0);
    assert CellVar(l, 0, 2) == 4;
    CellLinksMembers(l, 0, 2, [-11, 4]);
    LinkClausesHas(l, Dim(l.len), 0, 2, [-11, 4]);
  }

  /** Row 0 of the witness has no block of colour b, so the corrected row forbids b at its middle cell. */
  lemma WitnessRowForbidsB()
    ensures [-4] in UnguardedClauses(Witness())
  {
    WitnessLines();
    var p, l := Witness(), WitnessRow();
    CoveredHasColor(l, 1, 2);
    assert Cover(l, 1, 2) == [];
    assert CellVar(l, 1, 2) == 4;
    assert UncoveredUnit(l, [-4]);
    UnguardedMembers(p, [-4]);
  }

  /** The units [a] and [-b] with the link [-a, b] leave a formula no model. */
  lemma UnitChainUnsat(m: Model, f: Formula, a: int, b: int)
    requires a >= 1 && b >= 1 && [a] in f && [-a, b] in f && [-b] in f
    ensures !Satisfies(m, f)
  {
    assert ClauseTrue(m, [a]) ==> VarTrue(m, a);
    assert ClauseTrue(m, [-b]) ==> !VarTrue(m, b);
  }

  /** The corrected formula of the witness has no model, as the puzzle has no solution. */
  lemma WitnessUnguardedUnsat(m: Model)
    ensures !Satisfies(m, UnguardedClauses(Witness()))
  {
    WitnessColumnForcesB();
    WitnessRowForbidsB();
    UnitChainUnsat(m, UnguardedClauses(Witness()), 11, 4);
  }
}
