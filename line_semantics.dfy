/**
 * What an assignment that satisfies one line's clauses says about that line:
 * every block has exactly one start, consecutive starts leave at least one
 * gap cell, and a cell variable that some block of its colour could cover is
 * true exactly when a chosen start covers it. A cell variable no block of its
 * colour can cover is not mentioned by the line at all.
 */
module LineSemantics {
  import opened Puzzle
  import opened Cnf
  import opened Encoding
  import opened LayoutIds
  import opened LineFacts

  /**
   * The line lies inside the grid numbering: its cells are cells of the
   * width-wide grid and the highest cell id it can use is below `base`, the
   * line's first start variable.
   */
  predicate CellsFit(l: Line)
  {
    && l.base >= 1 && l.index >= 0
    && (l.axis == Rows ==> l.len <= l.width && (l.index + 1) * l.width * l.k < l.base)
    && (l.axis == Cols ==> l.index < l.width && l.len * l.width * l.k < l.base)
  }

  /** The cell variables of a fitting line are ids in [1, base). */
  lemma CellVarFits(l: Line, p: int, i: int)
    requires CellsFit(l) && 0 <= p < l.len && 1 <= i <= l.k
    ensures 1 <= CellVar(l, p, i) < l.base
  {
    if l.axis == Rows {
      CellIdRange(l.index + 1, l.width, l.k, l.index, p, i);
    } else {
      CellIdRange(l.len, l.width, l.k, p, l.index, i);
    }
  }

  /** Different (position, colour) pairs of a fitting line have different cell variables. */
  lemma CellVarInjective(l: Line, p: int, i: int, p': int, i': int)
    requires CellsFit(l) && 0 <= p < l.len && 1 <= i <= l.k && 0 <= p' < l.len && 1 <= i' <= l.k
    requires CellVar(l, p, i) == CellVar(l, p', i')
    ensures p == p' && i == i'
  {
    if l.axis == Rows {
      CellIdInjective(l.width, l.k, l.index, p, i, l.index, p', i');
    } else {
      CellIdInjective(l.width, l.k, p, l.index, i, p', l.index, i');
    }
  }

  /** Every block length is at least one, as parsed clues guarantee. */
  predicate PositiveLengths(clues: Clue)
  {
    forall b :: 0 <= b < |clues| ==> clues[b].len >= 1
  }

  //////////////////////////////////////////////////////////////////////////
  // Exactly one start per block.

  lemma BlockClausesInLine(l: Line, b: nat, cl: Clause)
    requires b < |l.clues| && (cl == Starts(l, b) || cl in AtMostOne(Starts(l, b)))
    ensures cl in LineClauses(l)
  {
    StartClausesHas(l, |l.clues|, b, cl);
  }

  /** Two different starts of one block are never both true. */
  lemma StartsExclusive(l: Line, m: Model, b: nat, s1: int, s2: int)
    requires b < |l.clues| && l.base >= 1 && Satisfies(m, LineClauses(l))
    requires 0 <= s1 < BlockPositions(l, b) && 0 <= s2 < BlockPositions(l, b)
    ensures s1 != s2 ==> !(VarTrue(m, StartVar(l, b, s1)) && VarTrue(m, StartVar(l, b, s2)))
  {
    StartVarRange(l, b, s1);
    StartVarRange(l, b, s2);
    if s1 < s2 {
      BlockAtMostOneHas(l, b, s1, s2);
      BlockClausesInLine(l, b, [-StartVar(l, b, s1), -StartVar(l, b, s2)]);
      PairClauseTrue(m, StartVar(l, b, s1), StartVar(l, b, s2));
    } else if s2 < s1 {
      BlockAtMostOneHas(l, b, s2, s1);
      BlockClausesInLine(l, b, [-StartVar(l, b, s2), -StartVar(l, b, s1)]);
      PairClauseTrue(m, StartVar(l, b, s2), StartVar(l, b, s1));
    }
  }

  /** Under a model of the line, each block has a true start, and only one. */
  lemma ExactlyOneStart(l: Line, m: Model, b: nat)
    requires b < |l.clues| && l.base >= 1 && Satisfies(m, LineClauses(l))
    ensures exists s :: 0 <= s < BlockPositions(l, b) && VarTrue(m, StartVar(l, b, s))
    ensures forall s1, s2 ::
      (0 <= s1 < BlockPositions(l, b) && 0 <= s2 < BlockPositions(l, b) &&
       VarTrue(m, StartVar(l, b, s1)) && VarTrue(m, StartVar(l, b, s2))) ==> s1 == s2
  {
    var xs := Starts(l, b);
    BlockClausesInLine(l, b, xs);
    forall j | 0 <= j < |xs|
      ensures xs[j] > 0
    {
      StartVarRange(l, b, j);
    }
    AtLeastOneTrue(m, xs);
    var j :| 0 <= j < |xs| && VarTrue(m, xs[j]);
    assert VarTrue(m, StartVar(l, b, j));
    forall s1, s2 | 0 <= s1 < BlockPositions(l, b) && 0 <= s2 < BlockPositions(l, b)
      ensures VarTrue(m, StartVar(l, b, s1)) && VarTrue(m, StartVar(l, b, s2)) ==> s1 == s2
    {
      StartsExclusive(l, m, b, s1, s2);
    }
  }

  /** `ss` lists, for every block, its true start. */
  ghost predicate Chosen(l: Line, m: Model, ss: seq<int>)
  {
    && |ss| == |l.clues|
    && forall b :: 0 <= b < |ss| ==> 0 <= ss[b] < BlockPositions(l, b) && VarTrue(m, StartVar(l, b, ss[b]))
  }

  ghost function PickStart(l: Line, m: Model, b: nat): (s: int)
    requires b < |l.clues| && l.base >= 1 && Satisfies(m, LineClauses(l))
    ensures 0 <= s < BlockPositions(l, b) && VarTrue(m, StartVar(l, b, s))
  {
    ExactlyOneStart(l, m, b);
    var s :| 0 <= s < BlockPositions(l, b) && VarTrue(m, StartVar(l, b, s));
    s
  }

  /** A model of the line determines one start per block, and only one such list. */
  lemma ChosenStarts(l: Line, m: Model)
    requires l.base >= 1 && Satisfies(m, LineClauses(l))
    ensures exists ss :: Chosen(l, m, ss)
    ensures forall ss, ss' :: Chosen(l, m, ss) && Chosen(l, m, ss') ==> ss == ss'
  {
    var ss := seq(|l.clues|, b requires 0 <= b < |l.clues| => PickStart(l, m, b));
    assert Chosen(l, m, ss);
    forall ss, ss' | Chosen(l, m, ss) && Chosen(l, m, ss')
      ensures ss == ss'
    {
      forall b | 0 <= b < |ss|
        ensures ss[b] == ss'[b]
      {
        StartsExclusive(l, m, b, ss[b], ss'[b]);
      }
    }
  }

  //////////////////////////////////////////////////////////////////////////
  // Ordering.

  /** Block b+1 starts at least one gap cell after block b ends. */
  lemma OrderingGap(l: Line, m: Model, b: nat, s1: int, s2: int)
    requires b + 1 < |l.clues| && l.base >= 1 && Satisfies(m, LineClauses(l))
    requires 0 <= s1 < BlockPositions(l, b) && 0 <= s2 < BlockPositions(l, b + 1)
    ensures VarTrue(m, StartVar(l, b, s1)) && VarTrue(m, StartVar(l, b + 1, s2)) ==>
      s1 + l.clues[b].len + 1 <= s2
  {
    var cl := OrderClause(l, b, s1, s2);
    OrderPairExactly(l, b, s1, s2);
    if s2 < s1 + l.clues[b].len + 1 {
      assert LineClauses(l) == StartClausesUpTo(l, |l.clues|) + LinkClausesUpTo(l, Dim(l.len)) + OrderUpTo(l, |l.clues| - 1);
      assert cl in LineClauses(l);
      StartVarRange(l, b, s1);
      StartVarRange(l, b + 1, s2);
      PairClauseTrue(m, StartVar(l, b, s1), StartVar(l, b + 1, s2));
    }
  }

  lemma ChosenGaps(l: Line, m: Model, ss: seq<int>)
    requires l.base >= 1 && Satisfies(m, LineClauses(l)) && Chosen(l, m, ss)
    ensures forall b :: 0 <= b < |ss| - 1 ==> ss[b] + l.clues[b].len + 1 <= ss[b + 1]
  {
    forall b | 0 <= b < |ss| - 1
      ensures ss[b] + l.clues[b].len + 1 <= ss[b + 1]
    {
      OrderingGap(l, m, b, ss[b], ss[b + 1]);
    }
  }

  /** Any earlier block ends, with a gap, before any later block starts. */
  lemma {:induction false} ChosenIncreasing(l: Line, m: Model, ss: seq<int>, b: nat, b': nat)
    requires l.base >= 1 && Satisfies(m, LineClauses(l)) && Chosen(l, m, ss)
    requires PositiveLengths(l.clues) && b < b' < |ss|
    ensures ss[b] + l.clues[b].len < ss[b']
  {
    ChosenGaps(l, m, ss);
    if b' > b + 1 {
      ChosenIncreasing(l, m, ss, b, b' - 1);
      assert ss[b' - 1] + l.clues[b' - 1].len + 1 <= ss[b'];
    }
  }

  //////////////////////////////////////////////////////////////////////////
  // Cell / block linkage.

  lemma LinkInLine(l: Line, p: int, i: int, cl: Clause)
    requires l.clues != [] && 0 <= p < l.len && 1 <= i <= l.k && cl in CellLinks(l, p, i)
    ensures cl in LineClauses(l)
  {
    LinkClausesHas(l, Dim(l.len), p, i, cl);
  }

  /** The implication "start of block b at s ==> cell p has colour i" is a clause of the line. */
  lemma StartLinkInLine(l: Line, p: int, i: int, b: nat, s: int)
    requires l.clues != [] && 0 <= p < l.len && 1 <= i <= l.k
    requires b < |l.clues| && HasCode(l.clues[b].color, i) && Covers(l, b, s, p)
    ensures [-StartVar(l, b, s), CellVar(l, p, i)] in LineClauses(l)
  {
    var v := StartVar(l, b, s);
    var cl := [-v, CellVar(l, p, i)];
    CoverMembers(l, p, i, v);
    assert v in Cover(l, p, i);
    CellLinksMembers(l, p, i, cl);
    assert cl in CellLinks(l, p, i);
    LinkInLine(l, p, i, cl);
  }

  /** A true start of a block of colour i paints every cell it covers in colour i. */
  lemma LinkForward(l: Line, m: Model, p: int, i: int, b: nat, s: int)
    requires l.clues != [] && 0 <= p < l.len && 1 <= i <= l.k
    requires CellsFit(l) && Satisfies(m, LineClauses(l))
    requires b < |l.clues| && HasCode(l.clues[b].color, i) && Covers(l, b, s, p)
    ensures VarTrue(m, StartVar(l, b, s)) ==> VarTrue(m, CellVar(l, p, i))
  {
    var x := CellVar(l, p, i);
    var v := StartVar(l, b, s);
    StartLinkInLine(l, p, i, b, s);
    CellVarFits(l, p, i);
    StartVarRange(l, b, s);
    assert ClauseTrue(m, [-v, x]);
    assert LitTrue(m, [-v, x][0]) || LitTrue(m, [-v, x][1]);
  }

  /** A true cell variable that some start could cover is covered by a true start of its colour. */
  lemma LinkBackward(l: Line, m: Model, p: int, i: int)
    requires l.clues != [] && 0 <= p < l.len && 1 <= i <= l.k
    requires CellsFit(l) && Satisfies(m, LineClauses(l))
    requires Cover(l, p, i) != [] && VarTrue(m, CellVar(l, p, i))
    ensures exists b: nat, s :: b < |l.clues| && HasCode(l.clues[b].color, i) && Covers(l, b, s, p) &&
              VarTrue(m, StartVar(l, b, s))
  {
    var x := CellVar(l, p, i);
    var cov := Cover(l, p, i);
    var cl := [-x] + cov;
    CellVarFits(l, p, i);
    CellLinksMembers(l, p, i, cl);
    LinkInLine(l, p, i, cl);
    var j :| 0 <= j < |cl| && LitTrue(m, cl[j]);
    assert j > 0;
    var v := cov[j - 1];
    assert cl[j] == v;
    CoverMembers(l, p, i, v);
    var b: nat, s :| b < |l.clues| && HasCode(l.clues[b].color, i) && Covers(l, b, s, p) && v == StartVar(l, b, s);
    StartVarRange(l, b, s);
    assert VarTrue(m, StartVar(l, b, s));
  }

  /**
   * With the chosen starts ss, a cell that some block of colour i could
   * cover is true in colour i exactly when a chosen block of colour i covers it.
   */
  lemma LinePainted(l: Line, m: Model, ss: seq<int>, p: int, i: int)
    requires l.clues != [] && 0 <= p < l.len && 1 <= i <= l.k
    requires CellsFit(l) && Satisfies(m, LineClauses(l)) && Chosen(l, m, ss)
    requires Cover(l, p, i) != []
    ensures VarTrue(m, CellVar(l, p, i)) <==>
      exists b :: 0 <= b < |ss| && HasCode(l.clues[b].color, i) && ss[b] <= p < ss[b] + l.clues[b].len
  {
    if b :| 0 <= b < |ss| && HasCode(l.clues[b].color, i) && ss[b] <= p < ss[b] + l.clues[b].len {
      assert Covers(l, b, ss[b], p);
      LinkForward(l, m, p, i, b, ss[b]);
    }
    if VarTrue(m, CellVar(l, p, i)) {
      LinkBackward(l, m, p, i);
      var b: nat, s :| b < |l.clues| && HasCode(l.clues[b].color, i) && Covers(l, b, s, p) &&
        VarTrue(m, StartVar(l, b, s));
      StartsExclusive(l, m, b, s, ss[b]);
      assert s == ss[b];
    }
  }

  /** Under a model of a line without clues, every cell on it is background. */
  lemma EmptyLineBackground(l: Line, m: Model, p: int, i: int)
    requires l.clues == [] && CellsFit(l) && Satisfies(m, LineClauses(l))
    requires 0 <= p < l.len && 1 <= i <= l.k
    ensures !VarTrue(m, CellVar(l, p, i))
  {
    var cl := [-CellVar(l, p, i)];
    EmptyLineClauses(l, cl);
    CellVarFits(l, p, i);
    assert ClauseTrue(m, cl);
    assert LitTrue(m, cl[0]);
  }

  //////////////////////////////////////////////////////////////////////////
  // Which variables a line's clauses mention.

  lemma StartsRange(l: Line, b: nat)
    requires b < |l.clues| && l.base >= 1
    ensures ClauseInRange(Starts(l, b), l.base, l.base + StartCount(l))
  {
    forall lit | lit in Starts(l, b)
      ensures l.base <= Var(lit) < l.base + StartCount(l)
    {
      var s :| 0 <= s < BlockPositions(l, b) && Starts(l, b)[s] == lit;
      StartVarRange(l, b, s);
    }
  }

  lemma PairRange(l: Line, b: nat, cl: Clause)
    requires b < |l.clues| && l.base >= 1 && cl in AtMostOne(Starts(l, b))
    ensures ClauseInRange(cl, l.base, l.base + StartCount(l))
  {
    BlockAtMostOneFrom(l, b, cl);
    var s1, s2 :| 0 <= s1 < s2 < BlockPositions(l, b) && cl == [-StartVar(l, b, s1), -StartVar(l, b, s2)];
    StartVarRange(l, b, s1);
    StartVarRange(l, b, s2);
  }

  lemma StartClauseRange(l: Line, cl: Clause)
    requires l.clues != [] && l.base >= 1 && cl in StartClausesUpTo(l, |l.clues|)
    ensures ClauseInRange(cl, l.base, l.base + StartCount(l))
  {
    StartClausesFrom(l, |l.clues|, cl);
    var b: nat :| b < |l.clues| && (cl == Starts(l, b) || cl in AtMostOne(Starts(l, b)));
    if cl == Starts(l, b) {
      StartsRange(l, b);
    } else {
      PairRange(l, b, cl);
    }
  }

  lemma OrderClauseRange(l: Line, cl: Clause)
    requires l.clues != [] && l.base >= 1 && cl in OrderUpTo(l, |l.clues| - 1)
    ensures ClauseInRange(cl, l.base, l.base + StartCount(l))
  {
    OrderUpToFrom(l, |l.clues| - 1, cl);
    var b: nat, c1, c2 :| b < |l.clues| - 1 && TooClose(l, b, c1, c2) && cl == OrderClause(l, b, c1, c2);
    StartVarRange(l, b, c1);
    StartVarRange(l, b + 1, c2);
  }

  /** A start variable covering some cell lies among the line's start variables. */
  lemma CoverRange(l: Line, p: int, i: int, v: int)
    requires v in Cover(l, p, i)
    ensures l.base <= v < l.base + StartCount(l)
  {
    CoverMembers(l, p, i, v);
    var b: nat, s :| b < |l.clues| && HasCode(l.clues[b].color, i) && Covers(l, b, s, p) && v == StartVar(l, b, s);
    StartVarRange(l, b, s);
  }

  /** The literals of CellLinks(l, p, i) are -s for covering starts s and ±CellVar(l, p, i). */
  lemma CellLinksLiterals(l: Line, p: int, i: int, cl: Clause, lit: int)
    requires cl in CellLinks(l, p, i) && lit in cl
    ensures lit == CellVar(l, p, i) || lit == -CellVar(l, p, i) || lit in Cover(l, p, i) || -lit in Cover(l, p, i)
    ensures Cover(l, p, i) != []
  {
    CellLinksMembers(l, p, i, cl);
  }

  lemma LinkLiteralRange(l: Line, p: int, i: int, cl: Clause, lit: int)
    requires CellsFit(l) && 0 <= p < l.len && 1 <= i <= l.k && cl in CellLinks(l, p, i) && lit in cl
    ensures 1 <= Var(lit) < l.base + StartCount(l)
  {
    CellLinksLiterals(l, p, i, cl, lit);
    CellVarFits(l, p, i);
    if lit in Cover(l, p, i) {
      CoverRange(l, p, i, lit);
    } else if -lit in Cover(l, p, i) {
      CoverRange(l, p, i, -lit);
    }
  }

  lemma LinkClauseRange(l: Line, cl: Clause)
    requires l.clues != [] && CellsFit(l) && cl in LinkClausesUpTo(l, Dim(l.len))
    ensures ClauseInRange(cl, 1, l.base + StartCount(l))
  {
    LinkClausesFrom(l, Dim(l.len), cl);
    var p, i :| 0 <= p < Dim(l.len) && 1 <= i <= l.k && cl in CellLinks(l, p, i);
    forall lit | lit in cl
      ensures 1 <= Var(lit) < l.base + StartCount(l)
    {
      LinkLiteralRange(l, p, i, cl, lit);
    }
  }

  /** Every literal of a line's clauses names a cell variable or one of the line's start variables. */
  lemma LineLiteralsInRange(l: Line)
    requires CellsFit(l)
    ensures FormulaInRange(LineClauses(l), 1, l.base + StartCount(l))
  {
    forall cl | cl in LineClauses(l)
      ensures ClauseInRange(cl, 1, l.base + StartCount(l))
    {
      if l.clues == [] {
        EmptyLineClauses(l, cl);
        var p, i :| 0 <= p < l.len && 1 <= i <= l.k && cl == [-CellVar(l, p, i)];
        CellVarFits(l, p, i);
      } else if cl in StartClausesUpTo(l, |l.clues|) {
        StartClauseRange(l, cl);
      } else if cl in LinkClausesUpTo(l, Dim(l.len)) {
        LinkClauseRange(l, cl);
      } else {
        OrderClauseRange(l, cl);
      }
    }
  }

  /** A literal of another cell's link clauses never names an uncovered cell variable. */
  lemma LinkLiteralAvoids(l: Line, p: int, i: int, p': int, i': int, cl: Clause, lit: int)
    requires CellsFit(l) && 0 <= p < l.len && 1 <= i <= l.k && 0 <= p' < l.len && 1 <= i' <= l.k
    requires Cover(l, p, i) == [] && cl in CellLinks(l, p', i') && lit in cl
    ensures Var(lit) != CellVar(l, p, i)
  {
    CellLinksLiterals(l, p', i', cl, lit);
    CellVarFits(l, p, i);
    if lit in Cover(l, p', i') {
      CoverRange(l, p', i', lit);
    } else if -lit in Cover(l, p', i') {
      CoverRange(l, p', i', -lit);
    } else {
      CellVarFits(l, p', i');
      CoveredCellVarDiffers(l, p, i, p', i');
    }
  }

  /** A covered cell variable is not an uncovered one. */
  lemma CoveredCellVarDiffers(l: Line, p: int, i: int, p': int, i': int)
    requires CellsFit(l) && 0 <= p < l.len && 1 <= i <= l.k && 0 <= p' < l.len && 1 <= i' <= l.k
    requires Cover(l, p, i) == [] && Cover(l, p', i') != []
    ensures CellVar(l, p, i) != CellVar(l, p', i')
  {
    if CellVar(l, p, i) == CellVar(l, p', i') {
      CellVarInjective(l, p, i, p', i');
    }
  }

  lemma LinkClauseAvoids(l: Line, p: int, i: int, cl: Clause)
    requires CellsFit(l) && 0 <= p < l.len && 1 <= i <= l.k
    requires Cover(l, p, i) == [] && cl in LinkClausesUpTo(l, Dim(l.len))
    ensures CellVar(l, p, i) !in cl && -CellVar(l, p, i) !in cl
  {
    LinkClausesFrom(l, Dim(l.len), cl);
    var p', i' :| 0 <= p' < Dim(l.len) && 1 <= i' <= l.k && cl in CellLinks(l, p', i');
    CellVarFits(l, p, i);
    forall lit | lit in cl
      ensures Var(lit) != CellVar(l, p, i)
    {
      LinkLiteralAvoids(l, p, i, p', i', cl, lit);
    }
  }

  /** A clause whose literals lie in [lo, hi) mentions no variable below lo. */
  lemma RangeAvoids(cl: Clause, lo: int, hi: int, x: int)
    requires ClauseInRange(cl, lo, hi) && 1 <= x < lo
    ensures x !in cl && -x !in cl
  {
  }

  lemma ClauseAvoids(l: Line, p: int, i: int, cl: Clause)
    requires l.clues != [] && CellsFit(l) && 0 <= p < l.len && 1 <= i <= l.k
    requires Cover(l, p, i) == [] && cl in LineClauses(l)
    ensures CellVar(l, p, i) !in cl && -CellVar(l, p, i) !in cl
  {
    if cl in StartClausesUpTo(l, |l.clues|) {
      StartClauseRange(l, cl);
      CellVarFits(l, p, i);
      RangeAvoids(cl, l.base, l.base + StartCount(l), CellVar(l, p, i));
    } else if cl in OrderUpTo(l, |l.clues| - 1) {
      OrderClauseRange(l, cl);
      CellVarFits(l, p, i);
      RangeAvoids(cl, l.base, l.base + StartCount(l), CellVar(l, p, i));
    } else {
      LinkClauseAvoids(l, p, i, cl);
    }
  }

  /**
   * On a line with clues, a cell variable that no block of its colour can
   * cover appears in none of the line's clauses: the line leaves it free.
   */
  lemma UncoveredUnmentioned(l: Line, p: int, i: int)
    requires l.clues != [] && CellsFit(l) && 0 <= p < l.len && 1 <= i <= l.k
    requires Cover(l, p, i) == []
    ensures !Mentions(LineClauses(l), CellVar(l, p, i))
  {
    forall cl | cl in LineClauses(l)
      ensures CellVar(l, p, i) !in cl && -CellVar(l, p, i) !in cl
    {
      ClauseAvoids(l, p, i, cl);
    }
  }

  //////////////////////////////////////////////////////////////////////////
  // The converse: exactly which assignments satisfy a line.

  /** `ss` places every block inside the line with a gap cell after it, and `m` makes exactly those starts true. */
  ghost predicate StartsAt(l: Line, m: Model, ss: seq<int>)
  {
    && |ss| == |l.clues|
    && (forall b :: 0 <= b < |ss| ==> 0 <= ss[b] < BlockPositions(l, b))
    && (forall b {:trigger l.clues[b]} :: 0 <= b < |ss| - 1 ==> ss[b] + l.clues[b].len + 1 <= ss[b + 1])
    && (forall b, s :: 0 <= b < |ss| && 0 <= s < BlockPositions(l, b) ==>
          (VarTrue(m, StartVar(l, b, s)) <==> s == ss[b]))
  }

  /** With the blocks placed at `ss`, cell p has colour i exactly when a block of colour i spans it. */
  ghost predicate CellPainted(l: Line, m: Model, ss: seq<int>, p: int, i: int)
    requires |ss| == |l.clues|
  {
    VarTrue(m, CellVar(l, p, i)) <==>
      exists b :: 0 <= b < |ss| && HasCode(l.clues[b].color, i) && ss[b] <= p < ss[b] + l.clues[b].len
  }

  /**
   * The cell variables a line's clauses speak of: every one on a line without
   * clues, otherwise those that some block of their colour could cover.
   */
  predicate Constrained(l: Line, p: int, i: int)
  {
    0 <= p < l.len && 1 <= i <= l.k && (l.clues == [] || Cover(l, p, i) != [])
  }

  /** `m` places the blocks at `ss` and paints every constrained cell accordingly. */
  ghost predicate PlacedAs(l: Line, m: Model, ss: seq<int>)
  {
    && StartsAt(l, m, ss)
    && forall p, i :: Constrained(l, p, i) ==> CellPainted(l, m, ss, p, i)
  }

  /** A model of the line places its blocks and paints its constrained cells. */
  lemma ModelPlaced(l: Line, m: Model)
    requires CellsFit(l) && Satisfies(m, LineClauses(l))
    ensures exists ss :: PlacedAs(l, m, ss)
  {
    ChosenStarts(l, m);
    var ss :| Chosen(l, m, ss);
    ChosenGaps(l, m, ss);
    forall b, s | 0 <= b < |ss| && 0 <= s < BlockPositions(l, b)
      ensures VarTrue(m, StartVar(l, b, s)) <==> s == ss[b]
    {
      StartsExclusive(l, m, b, s, ss[b]);
    }
    forall p, i | Constrained(l, p, i)
      ensures CellPainted(l, m, ss, p, i)
    {
      if l.clues == [] {
        EmptyLineBackground(l, m, p, i);
      } else {
        LinePainted(l, m, ss, p, i);
      }
    }
    assert PlacedAs(l, m, ss);
  }

  lemma StartAtTrue(l: Line, m: Model, ss: seq<int>, b: nat, s: int)
    requires CellsFit(l) && StartsAt(l, m, ss) && b < |l.clues| && 0 <= s < BlockPositions(l, b)
    ensures StartVar(l, b, s) >= 1 && (VarTrue(m, StartVar(l, b, s)) <==> s == ss[b])
  {
    StartVarRange(l, b, s);
  }

  lemma StartListTrue(l: Line, m: Model, ss: seq<int>, b: nat)
    requires CellsFit(l) && StartsAt(l, m, ss) && b < |l.clues|
    ensures ClauseTrue(m, Starts(l, b))
  {
    var s := ss[b];
    StartAtTrue(l, m, ss, b, s);
    assert Starts(l, b)[s] == StartVar(l, b, s);
    assert LitTrue(m, Starts(l, b)[s]);
  }

  lemma StartPairTrue(l: Line, m: Model, ss: seq<int>, b: nat, cl: Clause)
    requires CellsFit(l) && StartsAt(l, m, ss) && b < |l.clues| && cl in AtMostOne(Starts(l, b))
    ensures ClauseTrue(m, cl)
  {
    BlockAtMostOneFrom(l, b, cl);
    var s1, s2 :| 0 <= s1 < s2 < BlockPositions(l, b) && cl == [-StartVar(l, b, s1), -StartVar(l, b, s2)];
    StartAtTrue(l, m, ss, b, s1);
    StartAtTrue(l, m, ss, b, s2);
    PairClauseTrue(m, StartVar(l, b, s1), StartVar(l, b, s2));
  }

  lemma StartClauseTrue(l: Line, m: Model, ss: seq<int>, cl: Clause)
    requires CellsFit(l) && StartsAt(l, m, ss) && cl in StartClausesUpTo(l, |l.clues|)
    ensures ClauseTrue(m, cl)
  {
    StartClausesFrom(l, |l.clues|, cl);
    var b: nat :| b < |l.clues| && (cl == Starts(l, b) || cl in AtMostOne(Starts(l, b)));
    if cl == Starts(l, b) {
      StartListTrue(l, m, ss, b);
    } else {
      StartPairTrue(l, m, ss, b, cl);
    }
  }

  lemma OrderPairTrue(l: Line, m: Model, ss: seq<int>, b: nat, c1: int, c2: int)
    requires CellsFit(l) && StartsAt(l, m, ss) && b + 1 < |l.clues| && TooClose(l, b, c1, c2)
    ensures ClauseTrue(m, OrderClause(l, b, c1, c2))
  {
    StartAtTrue(l, m, ss, b, c1);
    StartAtTrue(l, m, ss, b + 1, c2);
    assert ss[b] + l.clues[b].len + 1 <= ss[b + 1];
    PairClauseTrue(m, StartVar(l, b, c1), StartVar(l, b + 1, c2));
  }

  lemma OrderClauseTrue(l: Line, m: Model, ss: seq<int>, cl: Clause)
    requires l.clues != [] && CellsFit(l) && StartsAt(l, m, ss) && cl in OrderUpTo(l, |l.clues| - 1)
    ensures ClauseTrue(m, cl)
  {
    OrderUpToFrom(l, |l.clues| - 1, cl);
    var b: nat, c1, c2 :| b < |l.clues| - 1 && TooClose(l, b, c1, c2) && cl == OrderClause(l, b, c1, c2);
    OrderPairTrue(l, m, ss, b, c1, c2);
  }

  /** Under a placement, a true start of a colour-i block paints colour i on every cell it covers. */
  lemma PaintedByStart(l: Line, m: Model, ss: seq<int>, p: int, i: int, b: nat, t: int)
    requires PlacedAs(l, m, ss) && 0 <= p < l.len && 1 <= i <= l.k
    requires b < |l.clues| && HasCode(l.clues[b].color, i) && Covers(l, b, t, p) && VarTrue(m, StartVar(l, b, t))
    ensures VarTrue(m, CellVar(l, p, i))
  {
    CoverMembers(l, p, i, StartVar(l, b, t));
    assert Constrained(l, p, i);
    assert t == ss[b];
    assert CellPainted(l, m, ss, p, i);
  }

  /** A forward link [-s, x] holds: a true start s paints the cells it covers. */
  lemma ForwardLinkTrue(l: Line, m: Model, ss: seq<int>, p: int, i: int, s: int)
    requires CellsFit(l) && PlacedAs(l, m, ss) && 0 <= p < l.len && 1 <= i <= l.k && s in Cover(l, p, i)
    ensures ClauseTrue(m, [-s, CellVar(l, p, i)])
  {
    var cl := [-s, CellVar(l, p, i)];
    CellVarFits(l, p, i);
    CoverMembers(l, p, i, s);
    var b: nat, t :| b < |l.clues| && HasCode(l.clues[b].color, i) && Covers(l, b, t, p) && s == StartVar(l, b, t);
    StartVarRange(l, b, t);
    if VarTrue(m, s) {
      PaintedByStart(l, m, ss, p, i, b, t);
      assert LitTrue(m, cl[1]);
    } else {
      assert LitTrue(m, cl[0]);
    }
  }

  /** The backward link [-x] + cov holds: a painted cell is spanned by a chosen block of its colour. */
  lemma BackLinkTrue(l: Line, m: Model, ss: seq<int>, p: int, i: int)
    requires CellsFit(l) && PlacedAs(l, m, ss) && 0 <= p < l.len && 1 <= i <= l.k && Cover(l, p, i) != []
    ensures ClauseTrue(m, [-CellVar(l, p, i)] + Cover(l, p, i))
  {
    var x := CellVar(l, p, i);
    var cov := Cover(l, p, i);
    var cl := [-x] + cov;
    CellVarFits(l, p, i);
    if VarTrue(m, x) {
      assert Constrained(l, p, i);
      var b :| 0 <= b < |ss| && HasCode(l.clues[b].color, i) && ss[b] <= p < ss[b] + l.clues[b].len;
      var s := StartVar(l, b, ss[b]);
      assert Covers(l, b, ss[b], p);
      CoverMembers(l, p, i, s);
      var j :| 0 <= j < |cov| && cov[j] == s;
      StartVarRange(l, b, ss[b]);
      assert cl[j + 1] == s;
      assert LitTrue(m, cl[j + 1]);
    } else {
      assert LitTrue(m, cl[0]);
    }
  }

  lemma CellLinkTrue(l: Line, m: Model, ss: seq<int>, p: int, i: int, cl: Clause)
    requires CellsFit(l) && PlacedAs(l, m, ss) && 0 <= p < l.len && 1 <= i <= l.k && cl in CellLinks(l, p, i)
    ensures ClauseTrue(m, cl)
  {
    CellLinksMembers(l, p, i, cl);
    if s :| s in Cover(l, p, i) && cl == [-s, CellVar(l, p, i)] {
      ForwardLinkTrue(l, m, ss, p, i, s);
    } else {
      BackLinkTrue(l, m, ss, p, i);
    }
  }

  lemma LinkClauseTrue(l: Line, m: Model, ss: seq<int>, cl: Clause)
    requires CellsFit(l) && PlacedAs(l, m, ss) && cl in LinkClausesUpTo(l, Dim(l.len))
    ensures ClauseTrue(m, cl)
  {
    LinkClausesFrom(l, Dim(l.len), cl);
    var p, i :| 0 <= p < Dim(l.len) && 1 <= i <= l.k && cl in CellLinks(l, p, i);
    CellLinkTrue(l, m, ss, p, i, cl);
  }

  lemma EmptyUnitTrue(l: Line, m: Model, ss: seq<int>, cl: Clause)
    requires l.clues == [] && CellsFit(l) && PlacedAs(l, m, ss) && cl in LineClauses(l)
    ensures ClauseTrue(m, cl)
  {
    EmptyLineClauses(l, cl);
    var p, i :| 0 <= p < l.len && 1 <= i <= l.k && cl == [-CellVar(l, p, i)];
    CellVarFits(l, p, i);
    assert Constrained(l, p, i);
    assert LitTrue(m, cl[0]);
  }

  /** Placing the blocks with gaps and painting the constrained cells accordingly satisfies the line. */
  lemma LineComplete(l: Line, m: Model, ss: seq<int>)
    requires CellsFit(l) && PlacedAs(l, m, ss)
    ensures Satisfies(m, LineClauses(l))
  {
    forall cl | cl in LineClauses(l)
      ensures ClauseTrue(m, cl)
    {
      if l.clues == [] {
        EmptyUnitTrue(l, m, ss, cl);
      } else if cl in StartClausesUpTo(l, |l.clues|) {
        StartClauseTrue(l, m, ss, cl);
      } else if cl in LinkClausesUpTo(l, Dim(l.len)) {
        LinkClauseTrue(l, m, ss, cl);
      } else {
        OrderClauseTrue(l, m, ss, cl);
      }
    }
  }

  /**
   * The models of a line's clauses are exactly the assignments that place
   * its blocks in order with gaps and paint its constrained cells to match;
   * the other cell variables are left free.
   */
  lemma LineModels(l: Line, m: Model)
    requires CellsFit(l)
    ensures Satisfies(m, LineClauses(l)) <==> exists ss :: PlacedAs(l, m, ss)
  {
    if Satisfies(m, LineClauses(l)) {
      ModelPlaced(l, m);
    }
    if ss :| PlacedAs(l, m, ss) {
      LineComplete(l, m, ss);
    }
  }
}
