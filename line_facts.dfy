/**
 * Properties of the clauses one line contributes (module Encoding): which
 * clauses each family holds, the edge cases of blocks that fill or overflow
 * the line, and what a satisfying assignment of a line's clauses means for
 * its block starts and cells.
 */
module LineFacts {
  import opened Puzzle
  import opened Cnf
  import opened Encoding
  import opened LayoutIds

  /** Block b started at s paints position p. */
  predicate Covers(l: Line, b: nat, s: int, p: int)
    requires b < |l.clues|
  {
    0 <= s <= l.len - l.clues[b].len && s <= p < s + l.clues[b].len
  }

  //////////////////////////////////////////////////////////////////////////
  // Linkage: which starts cover a cell, and the clauses built from them.

  lemma {:induction false} CoverOffsetsMembers(l: Line, b: nat, p: int, n: nat, x: int)
    requires b < |l.clues|
    ensures x in CoverOffsets(l, b, p, n) <==>
            exists s :: p - n < s <= p && 0 <= s <= l.len - l.clues[b].len && x == StartVar(l, b, s)
  {
    if n > 0 {
      CoverOffsetsMembers(l, b, p, n - 1, x);
    }
  }

  lemma {:induction false} CoverUpToMembers(l: Line, p: int, i: int, n: nat, x: int)
    requires n <= |l.clues|
    ensures x in CoverUpTo(l, p, i, n) <==>
            exists b: nat, s :: b < n && HasCode(l.clues[b].color, i) && Covers(l, b, s, p) && x == StartVar(l, b, s)
  {
    if n > 0 {
      var b := n - 1;
      CoverUpToMembers(l, p, i, b, x);
      CoverOffsetsMembers(l, b, p, Dim(l.clues[b].len), x);
      if x in CoverUpTo(l, p, i, n) && x !in CoverUpTo(l, p, i, b) {
        var s :| p - Dim(l.clues[b].len) < s <= p && 0 <= s <= l.len - l.clues[b].len && x == StartVar(l, b, s);
        assert Covers(l, b, s, p);
      }
      if exists b': nat, s :: b' < n && HasCode(l.clues[b'].color, i) && Covers(l, b', s, p) && x == StartVar(l, b', s) {
        var b': nat, s :| b' < n && HasCode(l.clues[b'].color, i) && Covers(l, b', s, p) && x == StartVar(l, b', s);
        if b' == b {
          assert x in BlockCover(l, b, p, i);
        }
      }
    }
  }

  /** `block_starts` of position p and colour i: the starts of the blocks of colour i that cover p. */
  lemma CoverMembers(l: Line, p: int, i: int, x: int)
    ensures x in Cover(l, p, i) <==>
            exists b: nat, s :: b < |l.clues| && HasCode(l.clues[b].color, i) && Covers(l, b, s, p) && x == StartVar(l, b, s)
  {
    CoverUpToMembers(l, p, i, |l.clues|, x);
  }

  lemma ImplicationsMembers(starts: seq<int>, x: int, cl: Clause)
    ensures cl in Implications(starts, x) <==> exists s :: s in starts && cl == [-s, x]
  {
    if cl in Implications(starts, x) {
      var j :| 0 <= j < |starts| && Implications(starts, x)[j] == cl;
      assert starts[j] in starts;
    }
    if exists s :: s in starts && cl == [-s, x] {
      var s :| s in starts && cl == [-s, x];
      var j :| 0 <= j < |starts| && starts[j] == s;
      assert Implications(starts, x)[j] == cl;
    }
  }

  /**
   * The link clauses of position p and colour i: start => cell for every
   * covering start, and the clause cell => (some covering start) exactly when
   * there is a covering start.
   */
  lemma CellLinksMembers(l: Line, p: int, i: int, cl: Clause)
    ensures cl in CellLinks(l, p, i) <==>
            (exists s :: s in Cover(l, p, i) && cl == [-s, CellVar(l, p, i)]) ||
            (Cover(l, p, i) != [] && cl == [-CellVar(l, p, i)] + Cover(l, p, i))
  {
    ImplicationsMembers(Cover(l, p, i), CellVar(l, p, i), cl);
  }

  lemma ColorLinksFrom(l: Line, p: int, n: nat, cl: Clause)
    requires n <= l.k && cl in ColorLinksUpTo(l, p, n)
    ensures exists i :: 1 <= i <= n && cl in CellLinks(l, p, i)
  {
    JoinedFrom(ColorLinks(l, p), n, cl);
    var j :| 0 <= j < n && cl in ColorLinks(l, p)[j];
    assert ColorLinks(l, p)[j] == CellLinks(l, p, j + 1);
  }

  lemma ColorLinksHas(l: Line, p: int, n: nat, i: int, cl: Clause)
    requires 1 <= i <= n <= l.k && cl in CellLinks(l, p, i)
    ensures cl in ColorLinksUpTo(l, p, n)
  {
    assert ColorLinks(l, p)[i - 1] == CellLinks(l, p, i);
    JoinedHas(ColorLinks(l, p), n, i - 1, cl);
  }

  lemma LinkClausesFrom(l: Line, m: nat, cl: Clause)
    requires m <= Dim(l.len) && cl in LinkClausesUpTo(l, m)
    ensures exists p, i :: 0 <= p < m && 1 <= i <= l.k && cl in CellLinks(l, p, i)
  {
    JoinedFrom(PositionLinks(l), m, cl);
    var p :| 0 <= p < m && cl in PositionLinks(l)[p];
    assert PositionLinks(l)[p] == ColorLinksUpTo(l, p, l.k);
    ColorLinksFrom(l, p, l.k, cl);
  }

  lemma LinkClausesHas(l: Line, m: nat, p: int, i: int, cl: Clause)
    requires 0 <= p < m <= Dim(l.len) && 1 <= i <= l.k && cl in CellLinks(l, p, i)
    ensures cl in LinkClausesUpTo(l, m)
  {
    ColorLinksHas(l, p, l.k, i, cl);
    assert PositionLinks(l)[p] == ColorLinksUpTo(l, p, l.k);
    JoinedHas(PositionLinks(l), m, p, cl);
  }

  /** The linkage family of a line: the link clauses of every position and colour. */
  lemma LinkClausesMembers(l: Line, m: nat, cl: Clause)
    requires m <= Dim(l.len)
    ensures cl in LinkClausesUpTo(l, m) <==>
            exists p, i :: 0 <= p < m && 1 <= i <= l.k && cl in CellLinks(l, p, i)
  {
    if cl in LinkClausesUpTo(l, m) {
      LinkClausesFrom(l, m, cl);
    }
    if exists p, i :: 0 <= p < m && 1 <= i <= l.k && cl in CellLinks(l, p, i) {
      var p, i :| 0 <= p < m && 1 <= i <= l.k && cl in CellLinks(l, p, i);
      LinkClausesHas(l, m, p, i, cl);
    }
  }

  //////////////////////////////////////////////////////////////////////////
  // Exactly one start per block.

  lemma BlockAtMostOneFrom(l: Line, b: nat, cl: Clause)
    requires b < |l.clues| && cl in AtMostOne(Starts(l, b))
    ensures exists s1, s2 :: 0 <= s1 < s2 < BlockPositions(l, b) && cl == [-StartVar(l, b, s1), -StartVar(l, b, s2)]
  {
    var xs := Starts(l, b);
    AtMostOneFrom(xs, cl);
    var s1, s2 :| 0 <= s1 < s2 < |xs| && cl == [-xs[s1], -xs[s2]];
    assert xs[s1] == StartVar(l, b, s1) && xs[s2] == StartVar(l, b, s2);
    assert cl == [-StartVar(l, b, s1), -StartVar(l, b, s2)];
  }

  lemma BlockAtMostOneHas(l: Line, b: nat, s1: int, s2: int)
    requires b < |l.clues| && 0 <= s1 < s2 < BlockPositions(l, b)
    ensures [-StartVar(l, b, s1), -StartVar(l, b, s2)] in AtMostOne(Starts(l, b))
  {
    var xs := Starts(l, b);
    assert xs[s1] == StartVar(l, b, s1) && xs[s2] == StartVar(l, b, s2);
    AtMostOneMembers(xs, [-xs[s1], -xs[s2]]);
  }

  /** The at-most-one clauses of block b: [-start(s1), -start(s2)] for every s1 < s2. */
  lemma BlockAtMostOneMembers(l: Line, b: nat, cl: Clause)
    requires b < |l.clues|
    ensures cl in AtMostOne(Starts(l, b)) <==>
            exists s1, s2 :: 0 <= s1 < s2 < BlockPositions(l, b) && cl == [-StartVar(l, b, s1), -StartVar(l, b, s2)]
  {
    if cl in AtMostOne(Starts(l, b)) {
      BlockAtMostOneFrom(l, b, cl);
    }
    if exists s1, s2 :: 0 <= s1 < s2 < BlockPositions(l, b) && cl == [-StartVar(l, b, s1), -StartVar(l, b, s2)] {
      var s1, s2 :| 0 <= s1 < s2 < BlockPositions(l, b) && cl == [-StartVar(l, b, s1), -StartVar(l, b, s2)];
      BlockAtMostOneHas(l, b, s1, s2);
    }
  }

  lemma {:induction false} StartClausesFrom(l: Line, n: nat, cl: Clause)
    requires n <= |l.clues| && cl in StartClausesUpTo(l, n)
    ensures exists b: nat :: b < n && (cl == Starts(l, b) || cl in AtMostOne(Starts(l, b)))
  {
    if cl !in BlockStartClauses(l, n - 1) {
      StartClausesFrom(l, n - 1, cl);
    } else if cl != Starts(l, n - 1) {
      assert cl in AtMostOne(Starts(l, n - 1));
    }
  }

  lemma {:induction false} StartClausesHas(l: Line, n: nat, b: nat, cl: Clause)
    requires b < n <= |l.clues| && (cl == Starts(l, b) || cl in AtMostOne(Starts(l, b)))
    ensures cl in StartClausesUpTo(l, n)
  {
    if b < n - 1 {
      StartClausesHas(l, n - 1, b, cl);
    } else {
      assert cl in BlockStartClauses(l, b);
    }
  }

  lemma StartClausesMembers(l: Line, n: nat, cl: Clause)
    requires n <= |l.clues|
    ensures cl in StartClausesUpTo(l, n) <==>
            exists b: nat :: b < n && (cl == Starts(l, b) || cl in AtMostOne(Starts(l, b)))
  {
    if cl in StartClausesUpTo(l, n) {
      StartClausesFrom(l, n, cl);
    }
    if exists b: nat :: b < n && (cl == Starts(l, b) || cl in AtMostOne(Starts(l, b))) {
      var b: nat :| b < n && (cl == Starts(l, b) || cl in AtMostOne(Starts(l, b)));
      StartClausesHas(l, n, b, cl);
    }
  }

  /** A block as long as the line has the single start 0: its at-least-one clause is a unit and it has no pairs. */
  lemma FullLengthBlock(l: Line, b: nat)
    requires b < |l.clues| && l.clues[b].len == l.len
    ensures Starts(l, b) == [StartVar(l, b, 0)] && AtMostOne(Starts(l, b)) == []
  {
    assert |Starts(l, b)| == 1;
    assert |AtMostOne(Starts(l, b))| == 0 by {
      AtMostOneCount(Starts(l, b));
    }
  }

  /** A block longer than the line has no start: its at-least-one clause is empty and no model satisfies the line. */
  lemma OverlongBlockUnsat(l: Line, b: nat, m: Model)
    requires b < |l.clues| && l.clues[b].len > l.len
    ensures Starts(l, b) == [] && [] in LineClauses(l)
    ensures !Satisfies(m, LineClauses(l))
  {
    assert Starts(l, b) == [];
    StartClausesMembers(l, |l.clues|, []);
    assert [] in StartClausesUpTo(l, |l.clues|);
    EmptyClauseUnsat(m, LineClauses(l));
  }

  //////////////////////////////////////////////////////////////////////////
  // Ordering of consecutive blocks.

  /** c1 of block b and c2 of block b+1 are start positions too close for the gap. */
  predicate TooClose(l: Line, b: nat, c1: int, c2: int)
    requires b + 1 < |l.clues|
  {
    0 <= c1 < BlockPositions(l, b) && 0 <= c2 < BlockPositions(l, b + 1) && c2 < c1 + l.clues[b].len + 1
  }

  function OrderClause(l: Line, b: nat, c1: int, c2: int): Clause
    requires b + 1 < |l.clues|
  {
    [-StartVar(l, b, c1), -StartVar(l, b + 1, c2)]
  }

  lemma OrderPairsMembers(l: Line, b: nat, c1: int, cl: Clause)
    requires b + 1 < |l.clues| && 0 <= c1 < BlockPositions(l, b)
    ensures cl in OrderPairs(l, b, c1) <==> exists c2 :: TooClose(l, b, c1, c2) && cl == OrderClause(l, b, c1, c2)
  {
    var f := OrderPairs(l, b, c1);
    if cl in f {
      var c2 :| 0 <= c2 < |f| && f[c2] == cl;
      assert TooClose(l, b, c1, c2) && cl == OrderClause(l, b, c1, c2);
    }
    if exists c2 :: TooClose(l, b, c1, c2) && cl == OrderClause(l, b, c1, c2) {
      var c2 :| TooClose(l, b, c1, c2) && cl == OrderClause(l, b, c1, c2);
      assert f[c2] == cl;
    }
  }

  lemma {:induction false} OrderBlockFrom(l: Line, b: nat, n: nat, cl: Clause)
    requires b + 1 < |l.clues| && n <= BlockPositions(l, b) && cl in OrderBlockUpTo(l, b, n)
    ensures exists c1, c2 :: c1 < n && TooClose(l, b, c1, c2) && cl == OrderClause(l, b, c1, c2)
  {
    if cl in OrderBlockUpTo(l, b, n - 1) {
      OrderBlockFrom(l, b, n - 1, cl);
    } else {
      OrderPairsMembers(l, b, n - 1, cl);
    }
  }

  lemma {:induction false} OrderBlockHas(l: Line, b: nat, n: nat, c1: int, c2: int)
    requires b + 1 < |l.clues| && c1 < n <= BlockPositions(l, b) && TooClose(l, b, c1, c2)
    ensures OrderClause(l, b, c1, c2) in OrderBlockUpTo(l, b, n)
  {
    if c1 < n - 1 {
      OrderBlockHas(l, b, n - 1, c1, c2);
    } else {
      OrderPairsMembers(l, b, c1, OrderClause(l, b, c1, c2));
    }
  }

  lemma {:induction false} OrderUpToFrom(l: Line, m: nat, cl: Clause)
    requires m < |l.clues| && cl in OrderUpTo(l, m)
    ensures exists b: nat, c1, c2 :: b < m && TooClose(l, b, c1, c2) && cl == OrderClause(l, b, c1, c2)
  {
    if cl in OrderUpTo(l, m - 1) {
      OrderUpToFrom(l, m - 1, cl);
    } else {
      OrderBlockFrom(l, m - 1, BlockPositions(l, m - 1), cl);
    }
  }

  lemma {:induction false} OrderUpToHas(l: Line, m: nat, b: nat, c1: int, c2: int)
    requires m < |l.clues| && b < m && TooClose(l, b, c1, c2)
    ensures OrderClause(l, b, c1, c2) in OrderUpTo(l, m)
  {
    if b < m - 1 {
      OrderUpToHas(l, m - 1, b, c1, c2);
    } else {
      OrderBlockHas(l, b, BlockPositions(l, b), c1, c2);
    }
  }

  /** The ordering family of a line: one clause per pair of too-close starts of consecutive blocks. */
  lemma OrderUpToMembers(l: Line, m: nat, cl: Clause)
    requires m < |l.clues|
    ensures cl in OrderUpTo(l, m) <==>
            exists b: nat, c1, c2 :: b < m && TooClose(l, b, c1, c2) && cl == OrderClause(l, b, c1, c2)
  {
    if cl in OrderUpTo(l, m) {
      OrderUpToFrom(l, m, cl);
    }
    if exists b: nat, c1, c2 :: b < m && TooClose(l, b, c1, c2) && cl == OrderClause(l, b, c1, c2) {
      var b: nat, c1, c2 :| b < m && TooClose(l, b, c1, c2) && cl == OrderClause(l, b, c1, c2);
      OrderUpToHas(l, m, b, c1, c2);
    }
  }

  /**
   * For consecutive blocks b and b+1, whatever their colours, the pair
   * [-start_b(c1), -start_{b+1}(c2)] is an ordering clause exactly when
   * c2 < c1 + len_b + 1.
   */
  lemma OrderPairExactly(l: Line, b: nat, c1: int, c2: int)
    requires b + 1 < |l.clues| && 0 <= c1 < BlockPositions(l, b) && 0 <= c2 < BlockPositions(l, b + 1)
    ensures OrderClause(l, b, c1, c2) in OrderUpTo(l, |l.clues| - 1) <==> c2 < c1 + l.clues[b].len + 1
  {
    var cl := OrderClause(l, b, c1, c2);
    if cl in OrderUpTo(l, |l.clues| - 1) {
      OrderUpToFrom(l, |l.clues| - 1, cl);
      var b': nat, c1', c2' :| b' < |l.clues| - 1 && TooClose(l, b', c1', c2') && cl == OrderClause(l, b', c1', c2');
      assert cl[0] == -StartVar(l, b', c1') && cl[1] == -StartVar(l, b' + 1, c2');
      StartVarInjective(l, b, c1, b', c1');
      StartVarInjective(l, b + 1, c2, b' + 1, c2');
    }
    if c2 < c1 + l.clues[b].len + 1 {
      OrderUpToHas(l, |l.clues| - 1, b, c1, c2);
    }
  }

  //////////////////////////////////////////////////////////////////////////
  // A line without clues.

  lemma {:induction false} EmptyLineMembers(l: Line, m: nat, cl: Clause)
    ensures cl in EmptyLineUpTo(l, m) <==>
            exists p, i :: 0 <= p < m && 1 <= i <= l.k && cl == [-CellVar(l, p, i)]
  {
    if m > 0 {
      EmptyLineMembers(l, m - 1, cl);
      var u := UnitsFor(l, m - 1, l.k);
      if cl in u {
        var j :| 0 <= j < |u| && u[j] == cl;
        assert cl == [-CellVar(l, m - 1, j + 1)];
      }
      if exists p, i :: 0 <= p < m && 1 <= i <= l.k && cl == [-CellVar(l, p, i)] {
        var p, i :| 0 <= p < m && 1 <= i <= l.k && cl == [-CellVar(l, p, i)];
        if p == m - 1 {
          assert u[i - 1] == cl;
        } else {
          assert cl in EmptyLineUpTo(l, m - 1);
        }
      }
    }
  }

  lemma {:induction false} EmptyLineCount(l: Line, m: nat)
    ensures |EmptyLineUpTo(l, m)| == m * l.k
  {
    if m > 0 {
      EmptyLineCount(l, m - 1);
      MulSplit(m - 1, 1, l.k);
    }
  }

  /**
   * A line without clues allocates no start variable, and its clauses are
   * exactly one unit [-x] per cell variable x on it: len * k of them.
   */
  lemma EmptyLineClauses(l: Line, cl: Clause)
    requires l.clues == []
    ensures StartCount(l) == 0
    ensures |LineClauses(l)| == Dim(l.len) * l.k
    ensures cl in LineClauses(l) <==> exists p, i :: 0 <= p < l.len && 1 <= i <= l.k && cl == [-CellVar(l, p, i)]
  {
    EmptyLineMembers(l, Dim(l.len), cl);
    EmptyLineCount(l, Dim(l.len));
  }
}
