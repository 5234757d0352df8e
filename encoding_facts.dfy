/**
 * Properties of the whole formula encode_block_start returns: which clauses
 * it holds, how many exclusion clauses there are, that every literal names an
 * issued variable, that rows and columns share one table of cell variables,
 * and what a satisfying assignment means for each cell and each line.
 */
module EncodingFacts {
  import opened Puzzle
  import opened Cnf
  import opened Encoding
  import opened Layout
  import opened LayoutIds
  import opened LineFacts
  import opened LineSemantics

  //////////////////////////////////////////////////////////////////////////
  // Rows and columns are the same line procedure over one cell table.

  /** Position c of row r and position r of column c are the same variable, cell (r, c). */
  lemma SharedCellTable(p: Nonogram, r: nat, c: nat, i: int)
    requires WellShaped(p) && r < p.height && c < p.width
    ensures CellVar(RowLine(p, r), c, i) == CellId(p.width, K(p), r, c, i)
    ensures CellVar(ColLine(p, c), r, i) == CellId(p.width, K(p), r, c, i)
  {
  }

  lemma RowFits(p: Nonogram, r: nat)
    requires WellShaped(p) && r < p.height
    ensures CellsFit(RowLine(p, r))
  {
    if p.width > 0 {
      MulMono(r + 1, p.height, p.width);
      MulMono((r + 1) * p.width, p.height * p.width, K(p));
    } else {
      assert (r + 1) * p.width <= 0;
      assert (r + 1) * p.width * K(p) <= 0;
    }
  }

  lemma ColFits(p: Nonogram, c: nat)
    requires WellShaped(p) && c < p.width
    ensures CellsFit(ColLine(p, c))
  {
    if p.height <= 0 {
      assert p.height * p.width <= 0;
      assert p.height * p.width * K(p) <= 0;
    }
  }

  //////////////////////////////////////////////////////////////////////////
  // Which clauses the formula holds.

  lemma RowsFrom(p: Nonogram, n: nat, cl: Clause)
    requires n <= |p.rowClues| && cl in RowsUpTo(p, n)
    ensures exists r :: 0 <= r < n && cl in LineClauses(RowLine(p, r))
  {
    JoinedFrom(RowFormulas(p), n, cl);
    var r :| 0 <= r < n && cl in RowFormulas(p)[r];
    assert RowFormulas(p)[r] == LineClauses(RowLine(p, r));
  }

  lemma RowsHas(p: Nonogram, n: nat, r: nat, cl: Clause)
    requires r < n <= |p.rowClues| && cl in LineClauses(RowLine(p, r))
    ensures cl in RowsUpTo(p, n)
  {
    assert RowFormulas(p)[r] == LineClauses(RowLine(p, r));
    JoinedHas(RowFormulas(p), n, r, cl);
  }

  lemma ColsFrom(p: Nonogram, n: nat, cl: Clause)
    requires WellShaped(p) && n <= |p.colClues| && cl in ColsUpTo(p, n)
    ensures exists c :: 0 <= c < n && cl in LineClauses(ColLine(p, c))
  {
    JoinedFrom(ColFormulas(p), n, cl);
    var c :| 0 <= c < n && cl in ColFormulas(p)[c];
    assert ColFormulas(p)[c] == LineClauses(ColLine(p, c));
  }

  lemma ColsHas(p: Nonogram, n: nat, c: nat, cl: Clause)
    requires WellShaped(p) && c < n <= |p.colClues| && cl in LineClauses(ColLine(p, c))
    ensures cl in ColsUpTo(p, n)
  {
    assert ColFormulas(p)[c] == LineClauses(ColLine(p, c));
    JoinedHas(ColFormulas(p), n, c, cl);
  }

  /** The formula is the exclusion clauses plus the clauses of every row and every column. */
  lemma EncodedMembers(p: Nonogram, cl: Clause)
    requires WellShaped(p)
    ensures cl in EncodedClauses(p) <==>
      || cl in ExclusionUpTo(p, Dim(p.height))
      || (exists r :: 0 <= r < p.height && cl in LineClauses(RowLine(p, r)))
      || (exists c :: 0 <= c < p.width && cl in LineClauses(ColLine(p, c)))
  {
    if cl in RowsUpTo(p, Dim(p.height)) {
      RowsFrom(p, Dim(p.height), cl);
    }
    if cl in ColsUpTo(p, Dim(p.width)) {
      ColsFrom(p, Dim(p.width), cl);
    }
    if r :| 0 <= r < p.height && cl in LineClauses(RowLine(p, r)) {
      RowsHas(p, Dim(p.height), r, cl);
    }
    if c :| 0 <= c < p.width && cl in LineClauses(ColLine(p, c)) {
      ColsHas(p, Dim(p.width), c, cl);
    }
  }

  //////////////////////////////////////////////////////////////////////////
  // The at-most-one-colour clauses.

  lemma ColorVarsAt(p: Nonogram, r: int, c: int, j: int)
    requires 0 <= j < K(p)
    ensures |ColorVars(p, r, c)| == K(p) && ColorVars(p, r, c)[j] == CellId(p.width, K(p), r, c, j + 1)
  {
  }

  lemma CellExclusionFrom(p: Nonogram, r: int, c: int, cl: Clause)
    requires cl in AtMostOne(ColorVars(p, r, c))
    ensures exists i, j :: 1 <= i < j <= K(p) && cl == [-CellId(p.width, K(p), r, c, i), -CellId(p.width, K(p), r, c, j)]
  {
    var xs := ColorVars(p, r, c);
    AtMostOneFrom(xs, cl);
    var a, b :| 0 <= a < b < |xs| && cl == [-xs[a], -xs[b]];
    ColorVarsAt(p, r, c, a);
    ColorVarsAt(p, r, c, b);
    assert cl == [-CellId(p.width, K(p), r, c, a + 1), -CellId(p.width, K(p), r, c, b + 1)];
  }

  lemma CellExclusionHas(p: Nonogram, r: int, c: int, i: int, j: int)
    requires 1 <= i < j <= K(p)
    ensures [-CellId(p.width, K(p), r, c, i), -CellId(p.width, K(p), r, c, j)] in AtMostOne(ColorVars(p, r, c))
  {
    var xs := ColorVars(p, r, c);
    ColorVarsAt(p, r, c, i - 1);
    ColorVarsAt(p, r, c, j - 1);
    AtMostOneMembers(xs, [-xs[i - 1], -xs[j - 1]]);
  }

  /** The exclusion clauses of one cell: [-x_i, -x_j] for every pair of palette indices i < j. */
  lemma CellExclusionMembers(p: Nonogram, r: int, c: int, cl: Clause)
    ensures cl in AtMostOne(ColorVars(p, r, c)) <==>
      exists i, j :: 1 <= i < j <= K(p) && cl == [-CellId(p.width, K(p), r, c, i), -CellId(p.width, K(p), r, c, j)]
  {
    if cl in AtMostOne(ColorVars(p, r, c)) {
      CellExclusionFrom(p, r, c, cl);
    }
    if i, j :| 1 <= i < j <= K(p) && cl == [-CellId(p.width, K(p), r, c, i), -CellId(p.width, K(p), r, c, j)] {
      CellExclusionHas(p, r, c, i, j);
    }
  }

  lemma ExclusionFrom(p: Nonogram, m: nat, cl: Clause)
    requires m <= Dim(p.height) && cl in ExclusionUpTo(p, m)
    ensures exists r, c :: 0 <= r < m && 0 <= c < Dim(p.width) && cl in AtMostOne(ColorVars(p, r, c))
  {
    JoinedFrom(RowExclusions(p), m, cl);
    var r :| 0 <= r < m && cl in RowExclusions(p)[r];
    assert RowExclusions(p)[r] == ExclusionRow(p, r, Dim(p.width));
    JoinedFrom(CellExclusions(p, r), Dim(p.width), cl);
    var c :| 0 <= c < Dim(p.width) && cl in CellExclusions(p, r)[c];
    assert CellExclusions(p, r)[c] == AtMostOne(ColorVars(p, r, c));
  }

  lemma ExclusionHas(p: Nonogram, m: nat, r: int, c: int, cl: Clause)
    requires 0 <= r < m <= Dim(p.height) && 0 <= c < Dim(p.width) && cl in AtMostOne(ColorVars(p, r, c))
    ensures cl in ExclusionUpTo(p, m)
  {
    assert CellExclusions(p, r)[c] == AtMostOne(ColorVars(p, r, c));
    JoinedHas(CellExclusions(p, r), Dim(p.width), c, cl);
    assert RowExclusions(p)[r] == ExclusionRow(p, r, Dim(p.width));
    JoinedHas(RowExclusions(p), m, r, cl);
  }

  /** The exclusion clauses are exactly the at-most-one clauses of every cell of the grid. */
  lemma ExclusionMembers(p: Nonogram, cl: Clause)
    ensures cl in ExclusionUpTo(p, Dim(p.height)) <==>
      exists r, c :: 0 <= r < p.height && 0 <= c < p.width && cl in AtMostOne(ColorVars(p, r, c))
  {
    if cl in ExclusionUpTo(p, Dim(p.height)) {
      ExclusionFrom(p, Dim(p.height), cl);
    }
    if r, c :| 0 <= r < p.height && 0 <= c < p.width && cl in AtMostOne(ColorVars(p, r, c)) {
      ExclusionHas(p, Dim(p.height), r, c, cl);
    }
  }

  /** Each of the height x width cells contributes K(K-1)/2 exclusion clauses. */
  lemma ExclusionCount(p: Nonogram)
    ensures |ExclusionUpTo(p, Dim(p.height))| == Dim(p.height) * Dim(p.width) * (K(p) * (K(p) - 1) / 2)
  {
    var pairs := K(p) * (K(p) - 1) / 2;
    forall c | 0 <= c < Dim(p.width)
      ensures |CellExclusions(p, 0)[c]| == pairs
    {
      AtMostOneCount(ColorVars(p, 0, c));
    }
    forall r | 0 <= r < Dim(p.height)
      ensures |RowExclusions(p)[r]| == Dim(p.width) * pairs
    {
      forall c | 0 <= c < Dim(p.width)
        ensures |CellExclusions(p, r)[c]| == pairs
      {
        AtMostOneCount(ColorVars(p, r, c));
      }
      JoinedCount(CellExclusions(p, r), Dim(p.width), pairs);
    }
    JoinedCount(RowExclusions(p), Dim(p.height), Dim(p.width) * pairs);
    MulAssoc(Dim(p.height), Dim(p.width), pairs);
  }

  //////////////////////////////////////////////////////////////////////////
  // Every literal names an issued variable.

  lemma RowLineEnd(p: Nonogram, r: nat)
    requires WellShaped(p) && r < p.height
    ensures RowBase(p, r) + StartCount(RowLine(p, r)) <= 1 + VarCount(p)
  {
    LinesVarsMono(p.rowClues, p.width, r + 1, Dim(p.height));
  }

  lemma ColLineEnd(p: Nonogram, c: nat)
    requires WellShaped(p) && c < p.width
    ensures ColBase(p, c) + StartCount(ColLine(p, c)) <= 1 + VarCount(p)
  {
    LinesVarsMono(p.colClues, p.height, c + 1, Dim(p.width));
  }

  lemma ExclusionClauseRange(p: Nonogram, cl: Clause)
    requires WellShaped(p) && cl in ExclusionUpTo(p, Dim(p.height))
    ensures ClauseInRange(cl, 1, 1 + VarCount(p))
  {
    ExclusionMembers(p, cl);
    var r, c :| 0 <= r < p.height && 0 <= c < p.width && cl in AtMostOne(ColorVars(p, r, c));
    CellExclusionFrom(p, r, c, cl);
    var i, j :| 1 <= i < j <= K(p) && cl == [-CellId(p.width, K(p), r, c, i), -CellId(p.width, K(p), r, c, j)];
    CellIdRange(p.height, p.width, K(p), r, c, i);
    CellIdRange(p.height, p.width, K(p), r, c, j);
  }

  lemma RowClauseRange(p: Nonogram, r: nat, cl: Clause)
    requires WellShaped(p) && r < p.height && cl in LineClauses(RowLine(p, r))
    ensures ClauseInRange(cl, 1, 1 + VarCount(p))
  {
    RowFits(p, r);
    LineLiteralsInRange(RowLine(p, r));
    RowLineEnd(p, r);
  }

  lemma ColClauseRange(p: Nonogram, c: nat, cl: Clause)
    requires WellShaped(p) && c < p.width && cl in LineClauses(ColLine(p, c))
    ensures ClauseInRange(cl, 1, 1 + VarCount(p))
  {
    ColFits(p, c);
    LineLiteralsInRange(ColLine(p, c));
    ColLineEnd(p, c);
  }

  /** Every literal of the formula refers to one of the ids 1..VarCount the encoder issued. */
  lemma AllLiteralsIssued(p: Nonogram)
    requires WellShaped(p)
    ensures FormulaInRange(EncodedClauses(p), 1, 1 + VarCount(p))
  {
    forall cl | cl in EncodedClauses(p)
      ensures ClauseInRange(cl, 1, 1 + VarCount(p))
    {
      EncodedMembers(p, cl);
      if cl in ExclusionUpTo(p, Dim(p.height)) {
        ExclusionClauseRange(p, cl);
      } else if r :| 0 <= r < p.height && cl in LineClauses(RowLine(p, r)) {
        RowClauseRange(p, r, cl);
      } else {
        var c :| 0 <= c < p.width && cl in LineClauses(ColLine(p, c));
        ColClauseRange(p, c, cl);
      }
    }
  }

  //////////////////////////////////////////////////////////////////////////
  // What a model of the formula means.

  /** A model of the formula is a model of every row's and every column's clauses. */
  lemma ModelOfLines(p: Nonogram, m: Model)
    requires WellShaped(p) && Satisfies(m, EncodedClauses(p))
    ensures forall r :: 0 <= r < p.height ==> Satisfies(m, LineClauses(RowLine(p, r)))
    ensures forall c :: 0 <= c < p.width ==> Satisfies(m, LineClauses(ColLine(p, c)))
  {
    forall r, cl | 0 <= r < p.height && cl in LineClauses(RowLine(p, r))
      ensures ClauseTrue(m, cl)
    {
      RowsHas(p, Dim(p.height), r, cl);
    }
    forall c, cl | 0 <= c < p.width && cl in LineClauses(ColLine(p, c))
      ensures ClauseTrue(m, cl)
    {
      ColsHas(p, Dim(p.width), c, cl);
    }
  }

  /** A model of the formula satisfies the exclusion clauses of every cell of the grid. */
  lemma CellExclusionHolds(p: Nonogram, m: Model, r: int, c: int)
    requires WellShaped(p) && Satisfies(m, EncodedClauses(p))
    requires 0 <= r < p.height && 0 <= c < p.width
    ensures Satisfies(m, AtMostOne(ColorVars(p, r, c)))
  {
    var ex := ExclusionUpTo(p, Dim(p.height));
    forall cl | cl in ex
      ensures ClauseTrue(m, cl)
    {
      assert cl in EncodedClauses(p);
    }
    forall cl | cl in AtMostOne(ColorVars(p, r, c))
      ensures ClauseTrue(m, cl)
    {
      ExclusionHas(p, Dim(p.height), r, c, cl);
    }
  }

  lemma ColorVarsPositive(p: Nonogram, r: int, c: int)
    requires 0 <= r && 0 <= c < p.width
    ensures AllPositive(ColorVars(p, r, c))
  {
    var xs := ColorVars(p, r, c);
    forall a | 0 <= a < |xs|
      ensures xs[a] > 0
    {
      ColorVarsAt(p, r, c, a);
      CellIdRange(r + 1, p.width, K(p), r, c, a + 1);
    }
  }

  /** Under a model of the formula, no cell takes two colours. */
  lemma OneColorPerCell(p: Nonogram, m: Model, r: int, c: int, i: int, j: int)
    requires WellShaped(p) && Satisfies(m, EncodedClauses(p))
    requires 0 <= r < p.height && 0 <= c < p.width && 1 <= i <= K(p) && 1 <= j <= K(p)
    requires VarTrue(m, CellId(p.width, K(p), r, c, i)) && VarTrue(m, CellId(p.width, K(p), r, c, j))
    ensures i == j
  {
    CellExclusionHolds(p, m, r, c);
    ColorVarsPositive(p, r, c);
    ColorVarsAt(p, r, c, i - 1);
    ColorVarsAt(p, r, c, j - 1);
    AtMostOneSound(m, ColorVars(p, r, c), i - 1, j - 1);
  }

  /**
   * Under a model of the formula, the blocks of every row have one list of
   * true starts, and only one, in increasing order with a gap of at least one cell.
   */
  lemma RowStartsOrdered(p: Nonogram, m: Model, r: nat)
    requires WellShaped(p) && Satisfies(m, EncodedClauses(p)) && r < p.height
    ensures exists ss :: Chosen(RowLine(p, r), m, ss)
    ensures forall ss, ss' :: Chosen(RowLine(p, r), m, ss) && Chosen(RowLine(p, r), m, ss') ==> ss == ss'
    ensures forall ss, b :: Chosen(RowLine(p, r), m, ss) && 0 <= b < |ss| - 1 ==>
      ss[b] + p.rowClues[r][b].len + 1 <= ss[b + 1]
  {
    ModelOfLines(p, m);
    RowFits(p, r);
    ChosenStarts(RowLine(p, r), m);
    forall ss | Chosen(RowLine(p, r), m, ss)
      ensures forall b :: 0 <= b < |ss| - 1 ==> ss[b] + p.rowClues[r][b].len + 1 <= ss[b + 1]
    {
      ChosenGaps(RowLine(p, r), m, ss);
    }
  }

  /** The same for every column with clues. */
  lemma ColStartsOrdered(p: Nonogram, m: Model, c: nat)
    requires WellShaped(p) && Satisfies(m, EncodedClauses(p)) && c < p.width
    ensures exists ss :: Chosen(ColLine(p, c), m, ss)
    ensures forall ss, ss' :: Chosen(ColLine(p, c), m, ss) && Chosen(ColLine(p, c), m, ss') ==> ss == ss'
    ensures forall ss, b :: Chosen(ColLine(p, c), m, ss) && 0 <= b < |ss| - 1 ==>
      ss[b] + p.colClues[c][b].len + 1 <= ss[b + 1]
  {
    ModelOfLines(p, m);
    ColFits(p, c);
    ChosenStarts(ColLine(p, c), m);
    forall ss | Chosen(ColLine(p, c), m, ss)
      ensures forall b :: 0 <= b < |ss| - 1 ==> ss[b] + p.colClues[c][b].len + 1 <= ss[b + 1]
    {
      ChosenGaps(ColLine(p, c), m, ss);
    }
  }

  //////////////////////////////////////////////////////////////////////////
  // The converse: exactly which assignments are models of the formula.

  /** No cell of the grid has two of its colour variables true. */
  predicate NoCellTwoColors(p: Nonogram, m: Model)
  {
    forall r, c, i, j :: 0 <= r < p.height && 0 <= c < p.width && 1 <= i < j <= K(p) ==>
      !(VarTrue(m, CellId(p.width, K(p), r, c, i)) && VarTrue(m, CellId(p.width, K(p), r, c, j)))
  }

  /** Every row and every column of the grid is satisfied on its own. */
  predicate LinesHold(p: Nonogram, m: Model)
    requires WellShaped(p)
  {
    && (forall r :: 0 <= r < p.height ==> Satisfies(m, LineClauses(RowLine(p, r))))
    && (forall c :: 0 <= c < p.width ==> Satisfies(m, LineClauses(ColLine(p, c))))
  }

  lemma ExclusionClauseTrue(p: Nonogram, m: Model, cl: Clause)
    requires NoCellTwoColors(p, m) && cl in ExclusionUpTo(p, Dim(p.height))
    ensures ClauseTrue(m, cl)
  {
    ExclusionMembers(p, cl);
    var r, c :| 0 <= r < p.height && 0 <= c < p.width && cl in AtMostOne(ColorVars(p, r, c));
    CellExclusionFrom(p, r, c, cl);
    var i, j :| 1 <= i < j <= K(p) && cl == [-CellId(p.width, K(p), r, c, i), -CellId(p.width, K(p), r, c, j)];
    CellIdRange(r + 1, p.width, K(p), r, c, i);
    CellIdRange(r + 1, p.width, K(p), r, c, j);
    PairClauseTrue(m, CellId(p.width, K(p), r, c, i), CellId(p.width, K(p), r, c, j));
  }

  /**
   * An assignment is a model of the whole formula exactly when no cell has
   * two colours and every row and every column is satisfied on its own.
   */
  lemma EncodedModels(p: Nonogram, m: Model)
    requires WellShaped(p)
    ensures Satisfies(m, EncodedClauses(p)) <==> NoCellTwoColors(p, m) && LinesHold(p, m)
  {
    if Satisfies(m, EncodedClauses(p)) {
      ModelOfLines(p, m);
      forall r, c, i, j | 0 <= r < p.height && 0 <= c < p.width && 1 <= i < j <= K(p)
        ensures !(VarTrue(m, CellId(p.width, K(p), r, c, i)) && VarTrue(m, CellId(p.width, K(p), r, c, j)))
      {
        if VarTrue(m, CellId(p.width, K(p), r, c, i)) && VarTrue(m, CellId(p.width, K(p), r, c, j)) {
          OneColorPerCell(p, m, r, c, i, j);
        }
      }
    }
    if NoCellTwoColors(p, m) && LinesHold(p, m) {
      forall cl | cl in EncodedClauses(p)
        ensures ClauseTrue(m, cl)
      {
        EncodedMembers(p, cl);
        if cl in ExclusionUpTo(p, Dim(p.height)) {
          ExclusionClauseTrue(p, m, cl);
        }
      }
    }
  }
}
