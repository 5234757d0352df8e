/**
 * The encoder object of src/sat_encoder.py. Its fields are the variable
 * counter, the variable-to-meaning map and the clause list; every method
 * states the new state in terms of the specification functions of modules
 * Encoding and Layout.
 */
module SatEncoding {
  import opened Puzzle
  import opened Cnf
  import opened Encoding
  import opened Layout
  import opened LayoutIds

  type CellKey = (int, int, string)
  type StartKey = (int, int, int)

  /** The cell variables issued so far: exactly the valid cell meanings with an id below `counter`. */
  ghost predicate CellsBelow(p: Nonogram, cellVars: map<CellKey, int>, counter: int)
    requires WellShaped(p)
  {
    && (forall key :: key in cellVars <==>
          ValidTag(p, Cell(key.0, key.1, key.2)) && IdOf(p, Cell(key.0, key.1, key.2)) < counter)
    && (forall key :: key in cellVars ==> cellVars[key] == IdOf(p, Cell(key.0, key.1, key.2)))
  }

  /** `cell_vars` once built: a key for every (cell, paintable colour), mapped to its id. */
  ghost predicate CellTable(p: Nonogram, cellVars: map<CellKey, int>)
    requires WellShaped(p)
  {
    && (forall key :: key in cellVars <==> ValidTag(p, Cell(key.0, key.1, key.2)))
    && (forall key :: key in cellVars ==> cellVars[key] == IdOf(p, Cell(key.0, key.1, key.2)))
  }

  /** `start_vars` of line l once built: every (block, position) of l mapped to its id. */
  ghost predicate StartTable(l: Line, startVars: map<StartKey, int>)
  {
    forall b: nat, s :: b < |l.clues| && 0 <= s < BlockPositions(l, b) ==>
      (l.index, b, s) in startVars && startVars[(l.index, b, s)] == StartVar(l, b, s)
  }

  /** The start table after the starts of blocks 0..b-1 and positions 0..s-1 of block b are issued. */
  ghost predicate StartsIssued(l: Line, startVars: map<StartKey, int>, b: nat, s: int)
  {
    forall b': nat, s' :: (b' < b || (b' == b && s' < s)) && b' < |l.clues| && 0 <= s' < BlockPositions(l, b') ==>
      (l.index, b', s') in startVars && startVars[(l.index, b', s')] == StartVar(l, b', s')
  }

  /** One more row's clauses extend the formula of the rows above it. */
  lemma RowsStep(p: Nonogram, r: nat, base: Formula, before: Formula, after: Formula)
    requires r < |p.rowClues|
    requires before == base + RowsUpTo(p, r) && after == before + LineClauses(RowLine(p, r))
    ensures after == base + RowsUpTo(p, r + 1)
  {
    assert RowFormulas(p)[r] == LineClauses(RowLine(p, r));
    AppendAssoc(base, RowsUpTo(p, r), LineClauses(RowLine(p, r)));
  }

  /** One more column's clauses extend the formula of the columns before it. */
  lemma ColsStep(p: Nonogram, c: nat, base: Formula, before: Formula, after: Formula)
    requires WellShaped(p) && c < |p.colClues|
    requires before == base + ColsUpTo(p, c) && after == before + LineClauses(ColLine(p, c))
    ensures after == base + ColsUpTo(p, c + 1)
  {
    assert ColFormulas(p)[c] == LineClauses(ColLine(p, c));
    AppendAssoc(base, ColsUpTo(p, c), LineClauses(ColLine(p, c)));
  }

  lemma AppendAssoc<T>(a: seq<T>, b: seq<T>, c: seq<T>)
    ensures a + (b + c) == (a + b) + c
  {
  }

  /** The three clause families of a line with clues, appended in turn, make up its clauses. */
  lemma LineClausesParts(l: Line, c0: Formula, c1: Formula, c2: Formula, c3: Formula)
    requires l.clues != []
    requires c1 == c0 + StartClausesUpTo(l, |l.clues|)
    requires c2 == c1 + LinkClausesUpTo(l, Dim(l.len))
    requires c3 == c2 + OrderUpTo(l, |l.clues| - 1)
    ensures c3 == c0 + LineClauses(l)
  {
    var a := StartClausesUpTo(l, |l.clues|);
    var b := LinkClausesUpTo(l, Dim(l.len));
    AppendAssoc(c0, a, b);
    AppendAssoc(c0, a + b, OrderUpTo(l, |l.clues| - 1));
  }

  lemma ImplicationsSnoc(starts: seq<int>, s: int, x: int)
    ensures Implications(starts + [s], x) == Implications(starts, x) + [[-s, x]]
  {
    assert forall j :: 0 <= j < |starts| ==> (starts + [s])[j] == starts[j];
  }

  lemma ImplicationsAppend(a: seq<int>, b: seq<int>, x: int)
    ensures Implications(a + b, x) == Implications(a, x) + Implications(b, x)
  {
    assert forall j :: 0 <= j < |a| ==> (a + b)[j] == a[j];
    assert forall j :: 0 <= j < |b| ==> (a + b)[|a| + j] == b[j];
  }

  /** Before any id is issued, the empty mapping and the empty cell table are in shape. */
  lemma NothingBelowOne(p: Nonogram, m: map<int, VarInfo>, cellVars: map<CellKey, int>)
    requires WellShaped(p) && m == map[] && cellVars == map[]
    ensures MappingSpec(p, m, 1) && CellsBelow(p, cellVars, 1)
  {
    forall t | ValidTag(p, t)
      ensures IdOf(p, t) >= 1
    {
      IdOfRange(p, t);
    }
  }

  /** Issuing the next id for a cell meaning keeps both the mapping and the cell table in shape. */
  lemma CellStep(p: Nonogram, cellVars: map<CellKey, int>, m: map<int, VarInfo>, counter: int,
                 r: int, c: int, color: string)
    requires WellShaped(p) && MappingSpec(p, m, counter) && CellsBelow(p, cellVars, counter)
    requires ValidTag(p, Cell(r, c, color)) && IdOf(p, Cell(r, c, color)) == counter
    ensures MappingSpec(p, m[counter := Cell(r, c, color)], counter + 1)
    ensures CellsBelow(p, cellVars[(r, c, color) := counter], counter + 1)
  {
    MappingSpecExtend(p, m, counter, Cell(r, c, color));
    forall key: CellKey | ValidTag(p, Cell(key.0, key.1, key.2)) && IdOf(p, Cell(key.0, key.1, key.2)) == counter
      ensures key == (r, c, color)
    {
      IdOfInjective(p, Cell(key.0, key.1, key.2), Cell(r, c, color));
    }
  }

  /** Once all cell ids are issued, the table holds every cell meaning. */
  lemma CellsComplete(p: Nonogram, cellVars: map<CellKey, int>)
    requires WellShaped(p) && CellsBelow(p, cellVars, 1 + NCells(p))
    ensures CellTable(p, cellVars)
  {
    forall key: CellKey | ValidTag(p, Cell(key.0, key.1, key.2))
      ensures IdOf(p, Cell(key.0, key.1, key.2)) < 1 + NCells(p)
    {
      IdOfRange(p, Cell(key.0, key.1, key.2));
    }
  }

  class SatEncoder {
    const nonogram: Nonogram
    var varCounter: int
    var varMapping: map<int, VarInfo>
    var cnf: Formula

    constructor (nonogram: Nonogram)
      ensures this.nonogram == nonogram
      ensures varCounter == 1 && varMapping == map[] && cnf == []
    {
      this.nonogram := nonogram;
      varCounter := 1;
      varMapping := map[];
      cnf := [];
    }

    /** Hands out the current counter value and advances the counter by one. */
    method GetFreshVar() returns (v: int)
      modifies this`varCounter
      ensures v == old(varCounter) && varCounter == old(varCounter) + 1
    {
      v := varCounter;
      varCounter := varCounter + 1;
    }

    /** Appends the pairwise at-most-one clauses of xs, as the double loops over (i, j > i) do. */
    method AppendAtMostOne(xs: seq<int>)
      modifies this`cnf
      ensures cnf == old(cnf) + AtMostOne(xs)
    {
      var i := 0;
      while i < |xs|
        invariant 0 <= i <= |xs|
        invariant cnf == old(cnf) + PairwiseUpTo(xs, i)
      {
        var j := i + 1;
        while j < |xs|
          invariant i + 1 <= j <= |xs|
          invariant cnf == old(cnf) + PairwiseUpTo(xs, i) + PairsFrom(xs, i)[..j - i - 1]
        {
          assert PairsFrom(xs, i)[..j - i] == PairsFrom(xs, i)[..j - i - 1] + [[-xs[i], -xs[j]]];
          cnf := cnf + [[-xs[i], -xs[j]]];
          j := j + 1;
        }
        assert PairsFrom(xs, i)[..j - i - 1] == PairsFrom(xs, i);
        i := i + 1;
      }
    }

    /** Issues the variables of the paintable colours of cell (r, c), in palette order. */
    method CreateColorVars(r: int, c: int, cellVars: map<CellKey, int>) returns (cellVars': map<CellKey, int>)
      requires WellShaped(nonogram) && 0 <= r < nonogram.height && 0 <= c < nonogram.width
      requires varCounter == CellId(nonogram.width, K(nonogram), r, c, 1)
      requires MappingSpec(nonogram, varMapping, varCounter) && CellsBelow(nonogram, cellVars, varCounter)
      modifies this`varCounter, this`varMapping
      ensures varCounter == old(varCounter) + K(nonogram)
      ensures MappingSpec(nonogram, varMapping, varCounter) && CellsBelow(nonogram, cellVars', varCounter)
    {
      ghost var p := nonogram;
      var k := Paintable(nonogram.colors);
      cellVars' := cellVars;
      var i := 1;
      while i <= k
        invariant 1 <= i <= k + 1
        invariant varCounter == CellId(p.width, k, r, c, i)
        invariant MappingSpec(p, varMapping, varCounter) && CellsBelow(p, cellVars', varCounter)
      {
        var color := Code(i);
        CellStep(p, cellVars', varMapping, varCounter, r, c, color);
        var v := GetFreshVar();
        cellVars' := cellVars'[(r, c, color) := v];
        varMapping := varMapping[v := Cell(r, c, color)];
        i := i + 1;
      }
    }

    /** Issues one variable per (cell, paintable colour), row by row, and records it as a cell. */
    method CreateCellVars() returns (cellVars: map<CellKey, int>)
      requires WellShaped(nonogram) && varCounter == 1 && varMapping == map[]
      modifies this`varCounter, this`varMapping
      ensures varCounter == 1 + NCells(nonogram)
      ensures MappingSpec(nonogram, varMapping, varCounter)
      ensures CellTable(nonogram, cellVars)
    {
      ghost var p := nonogram;
      ghost var k := K(p);
      ghost var w := Dim(p.width);
      cellVars := map[];
      NothingBelowOne(p, varMapping, cellVars);
      ghost var n := 0;
      var r := 0;
      while r < nonogram.height
        invariant 0 <= r <= Dim(p.height)
        invariant n == r * w && varCounter == 1 + n * k
        invariant MappingSpec(p, varMapping, varCounter) && CellsBelow(p, cellVars, varCounter)
      {
        var c := 0;
        while c < nonogram.width
          invariant 0 <= c <= w
          invariant n == r * w + c && varCounter == 1 + n * k
          invariant MappingSpec(p, varMapping, varCounter) && CellsBelow(p, cellVars, varCounter)
        {
          cellVars := CreateColorVars(r, c, cellVars);
          MulSplit(n, 1, k);
          n := n + 1;
          c := c + 1;
        }
        MulSplit(r, 1, w);
        r := r + 1;
      }
      MulSplit(0, Dim(p.height) * w, k);
      CellsComplete(p, cellVars);
    }

    /** `colors` of cell (r, c): its colour variables looked up in palette order. */
    method CollectColorVars(r: int, c: int, cellVars: map<CellKey, int>) returns (colors: seq<int>)
      requires WellShaped(nonogram) && CellTable(nonogram, cellVars)
      requires 0 <= r < nonogram.height && 0 <= c < nonogram.width
      ensures colors == ColorVars(nonogram, r, c)
    {
      var k := Paintable(nonogram.colors);
      colors := [];
      var i := 1;
      while i <= k
        invariant 1 <= i <= k + 1
        invariant colors == ColorVars(nonogram, r, c)[..i - 1]
      {
        var color := Code(i);
        assert ValidTag(nonogram, Cell(r, c, color));
        colors := colors + [cellVars[(r, c, color)]];
        i := i + 1;
      }
    }

    /** The at-most-one-colour clauses of the cells of row r, left to right. */
    method EncodeRowExclusion(r: int, cellVars: map<CellKey, int>)
      requires WellShaped(nonogram) && CellTable(nonogram, cellVars) && 0 <= r < nonogram.height
      modifies this`cnf
      ensures cnf == old(cnf) + ExclusionRow(nonogram, r, Dim(nonogram.width))
    {
      var c := 0;
      while c < nonogram.width
        invariant 0 <= c <= Dim(nonogram.width)
        invariant cnf == old(cnf) + ExclusionRow(nonogram, r, c)
      {
        var colors := CollectColorVars(r, c, cellVars);
        AppendAtMostOne(colors);
        assert CellExclusions(nonogram, r)[c] == AtMostOne(colors);
        AppendAssoc(old(cnf), ExclusionRow(nonogram, r, c), AtMostOne(colors));
        c := c + 1;
      }
    }

    /** For every cell, at most one of its colour variables may be true. */
    method EncodeCellExclusion(cellVars: map<CellKey, int>)
      requires WellShaped(nonogram) && CellTable(nonogram, cellVars)
      modifies this`cnf
      ensures cnf == old(cnf) + ExclusionUpTo(nonogram, Dim(nonogram.height))
    {
      var r := 0;
      while r < nonogram.height
        invariant 0 <= r <= Dim(nonogram.height)
        invariant cnf == old(cnf) + ExclusionUpTo(nonogram, r)
      {
        EncodeRowExclusion(r, cellVars);
        assert RowExclusions(nonogram)[r] == ExclusionRow(nonogram, r, Dim(nonogram.width));
        AppendAssoc(old(cnf), ExclusionUpTo(nonogram, r), ExclusionRow(nonogram, r, Dim(nonogram.width)));
        r := r + 1;
      }
    }

    /** Issues the start variables of block b of line li, one per position, in position order. */
    method AllocateBlockStarts(axis: Axis, li: int, b: nat, startVars: map<StartKey, int>)
      returns (startVars': map<StartKey, int>)
      requires WellShaped(nonogram) && LineIndexOk(nonogram, axis, li)
      requires b < |LineOf(nonogram, axis, li).clues|
      requires varCounter == StartVar(LineOf(nonogram, axis, li), b, 0)
      requires MappingSpec(nonogram, varMapping, varCounter)
      requires StartsIssued(LineOf(nonogram, axis, li), startVars, b, 0)
      modifies this`varCounter, this`varMapping
      ensures varCounter == old(varCounter) + BlockPositions(LineOf(nonogram, axis, li), b)
      ensures MappingSpec(nonogram, varMapping, varCounter)
      ensures StartsIssued(LineOf(nonogram, axis, li), startVars', b + 1, 0)
    {
      ghost var p := nonogram;
      ghost var l := LineOf(p, axis, li);
      var clues := if axis == Rows then nonogram.rowClues[li] else nonogram.colClues[li];
      var lineLen := if axis == Rows then nonogram.width else nonogram.height;
      assert clues == l.clues && lineLen == l.len && li == l.index;
      startVars' := startVars;
      var s := 0;
      while s < lineLen - clues[b].len + 1
        invariant 0 <= s <= BlockPositions(l, b)
        invariant varCounter == StartVar(l, b, s)
        invariant MappingSpec(p, varMapping, varCounter)
        invariant StartsIssued(l, startVars', b, s)
      {
        assert IdOf(p, StartTag(axis, li, b, s)) == varCounter;
        MappingSpecExtend(p, varMapping, varCounter, StartTag(axis, li, b, s));
        var v := GetFreshVar();
        startVars' := startVars'[(li, b, s) := v];
        varMapping := varMapping[v := if axis == Rows then RowStart(li, b, s) else ColStart(li, b, s)];
        s := s + 1;
      }
    }

    /** Issues the start variables of every block of line li, block by block, position by position. */
    method AllocateStarts(axis: Axis, li: int) returns (startVars: map<StartKey, int>)
      requires WellShaped(nonogram) && LineIndexOk(nonogram, axis, li)
      requires varCounter == LineOf(nonogram, axis, li).base
      requires MappingSpec(nonogram, varMapping, varCounter)
      modifies this`varCounter, this`varMapping
      ensures varCounter == old(varCounter) + StartCount(LineOf(nonogram, axis, li))
      ensures MappingSpec(nonogram, varMapping, varCounter)
      ensures StartTable(LineOf(nonogram, axis, li), startVars)
    {
      ghost var l := LineOf(nonogram, axis, li);
      var clues := if axis == Rows then nonogram.rowClues[li] else nonogram.colClues[li];
      assert clues == l.clues;
      startVars := map[];
      var b := 0;
      while b < |clues|
        invariant 0 <= b <= |clues|
        invariant varCounter == StartVar(l, b, 0)
        invariant MappingSpec(nonogram, varMapping, varCounter)
        invariant StartsIssued(l, startVars, b, 0)
      {
        startVars := AllocateBlockStarts(axis, li, b, startVars);
        b := b + 1;
      }
    }

    /** Block b: its start variables as one at-least-one clause, then their pairwise exclusions. */
    method EncodeBlockExactlyOne(axis: Axis, li: int, b: int, startVars: map<StartKey, int>)
      requires WellShaped(nonogram) && LineIndexOk(nonogram, axis, li)
      requires 0 <= b < |LineOf(nonogram, axis, li).clues|
      requires StartTable(LineOf(nonogram, axis, li), startVars)
      modifies this`cnf
      ensures cnf == old(cnf) + BlockStartClauses(LineOf(nonogram, axis, li), b)
    {
      ghost var l := LineOf(nonogram, axis, li);
      var clues := if axis == Rows then nonogram.rowClues[li] else nonogram.colClues[li];
      var lineLen := if axis == Rows then nonogram.width else nonogram.height;
      assert clues == l.clues && lineLen == l.len;
      var n := Dim(lineLen - clues[b].len + 1);
      var atLeastOne := seq(n, s requires 0 <= s < n && (li, b, s) in startVars => startVars[(li, b, s)]);
      assert atLeastOne == Starts(l, b);
      cnf := cnf + [atLeastOne];
      AppendAtMostOne(atLeastOne);
      AppendAssoc(old(cnf), [atLeastOne], AtMostOne(atLeastOne));
    }

    method EncodeExactlyOne(axis: Axis, li: int, startVars: map<StartKey, int>)
      requires WellShaped(nonogram) && LineIndexOk(nonogram, axis, li)
      requires StartTable(LineOf(nonogram, axis, li), startVars)
      modifies this`cnf
      ensures cnf == old(cnf) + StartClausesUpTo(LineOf(nonogram, axis, li), |LineOf(nonogram, axis, li).clues|)
    {
      ghost var l := LineOf(nonogram, axis, li);
      var clues := if axis == Rows then nonogram.rowClues[li] else nonogram.colClues[li];
      assert clues == l.clues;
      var b := 0;
      while b < |clues|
        invariant 0 <= b <= |clues|
        invariant cnf == old(cnf) + StartClausesUpTo(l, b)
      {
        EncodeBlockExactlyOne(axis, li, b, startVars);
        AppendAssoc(old(cnf), StartClausesUpTo(l, b), BlockStartClauses(l, b));
        b := b + 1;
      }
    }

    /** The offsets of block b that put a start covering pos: one implication start => cell for each. */
    method EncodeBlockCover(axis: Axis, li: int, pos: int, b: int, cellVar: int, startVars: map<StartKey, int>)
      returns (starts: seq<int>)
      requires WellShaped(nonogram) && LineIndexOk(nonogram, axis, li)
      requires 0 <= b < |LineOf(nonogram, axis, li).clues|
      requires StartTable(LineOf(nonogram, axis, li), startVars)
      modifies this`cnf
      ensures starts == CoverOffsets(LineOf(nonogram, axis, li), b, pos, Dim(LineOf(nonogram, axis, li).clues[b].len))
      ensures cnf == old(cnf) + Implications(starts, cellVar)
    {
      ghost var l := LineOf(nonogram, axis, li);
      var clues := if axis == Rows then nonogram.rowClues[li] else nonogram.colClues[li];
      var lineLen := if axis == Rows then nonogram.width else nonogram.height;
      assert clues == l.clues && lineLen == l.len;
      starts := [];
      var offset := 0;
      while offset < clues[b].len
        invariant 0 <= offset <= Dim(clues[b].len)
        invariant starts == CoverOffsets(l, b, pos, offset)
        invariant cnf == old(cnf) + Implications(starts, cellVar)
      {
        var startPos := pos - offset;
        if 0 <= startPos <= lineLen - clues[b].len {
          var s := startVars[(li, b, startPos)];
          ImplicationsSnoc(starts, s, cellVar);
          AppendAssoc(old(cnf), Implications(starts, cellVar), [[-s, cellVar]]);
          starts := starts + [s];
          cnf := cnf + [[-s, cellVar]];
        }
        offset := offset + 1;
      }
    }

    /** Both directions of the cell/start link for position pos and colour i of one line. */
    method EncodeCellLinks(axis: Axis, li: int, pos: int, i: int, cellVars: map<CellKey, int>, startVars: map<StartKey, int>)
      requires WellShaped(nonogram) && LineIndexOk(nonogram, axis, li)
      requires 0 <= pos < LineOf(nonogram, axis, li).len && 1 <= i <= K(nonogram)
      requires CellTable(nonogram, cellVars) && StartTable(LineOf(nonogram, axis, li), startVars)
      modifies this`cnf
      ensures cnf == old(cnf) + CellLinks(LineOf(nonogram, axis, li), pos, i)
    {
      ghost var l := LineOf(nonogram, axis, li);
      var clues := if axis == Rows then nonogram.rowClues[li] else nonogram.colClues[li];
      assert clues == l.clues;
      var colorName := Code(i);
      assert ValidTag(nonogram, Cell(CellKeyOf(axis, li, pos, colorName).0, CellKeyOf(axis, li, pos, colorName).1, colorName));
      var cellVar := cellVars[CellKeyOf(axis, li, pos, colorName)];
      assert cellVar == CellVar(l, pos, i);
      var blockStarts: seq<int> := [];
      var b := 0;
      while b < |clues|
        invariant 0 <= b <= |clues|
        invariant blockStarts == CoverUpTo(l, pos, i, b)
        invariant cnf == old(cnf) + Implications(blockStarts, cellVar)
      {
        CodeMatches(clues[b].color, i);
        if clues[b].color == colorName {
          ghost var before := cnf;
          var starts := EncodeBlockCover(axis, li, pos, b, cellVar, startVars);
          ImplicationsAppend(blockStarts, starts, cellVar);
          AppendAssoc(old(cnf), Implications(blockStarts, cellVar), Implications(starts, cellVar));
          blockStarts := blockStarts + starts;
        } else {
          assert CoverUpTo(l, pos, i, b + 1) == blockStarts + [];
        }
        b := b + 1;
      }
      assert blockStarts == Cover(l, pos, i);
      if |blockStarts| > 0 {
        AppendAssoc(old(cnf), Implications(blockStarts, cellVar), [[-cellVar] + blockStarts]);
        cnf := cnf + [[-cellVar] + blockStarts];
      } else {
        assert cnf == old(cnf) + Implications(blockStarts, cellVar) + [];
      }
    }

    /** The link clauses of position pos for every paintable colour, in palette order. */
    method EncodePositionLinks(axis: Axis, li: int, pos: int, cellVars: map<CellKey, int>, startVars: map<StartKey, int>)
      requires WellShaped(nonogram) && LineIndexOk(nonogram, axis, li)
      requires 0 <= pos < LineOf(nonogram, axis, li).len
      requires CellTable(nonogram, cellVars) && StartTable(LineOf(nonogram, axis, li), startVars)
      modifies this`cnf
      ensures cnf == old(cnf) + ColorLinksUpTo(LineOf(nonogram, axis, li), pos, K(nonogram))
    {
      ghost var l := LineOf(nonogram, axis, li);
      var k := Paintable(nonogram.colors);
      var i := 1;
      while i <= k
        invariant 1 <= i <= k + 1
        invariant cnf == old(cnf) + ColorLinksUpTo(l, pos, i - 1)
      {
        EncodeCellLinks(axis, li, pos, i, cellVars, startVars);
        assert ColorLinks(l, pos)[i - 1] == CellLinks(l, pos, i);
        AppendAssoc(old(cnf), ColorLinksUpTo(l, pos, i - 1), CellLinks(l, pos, i));
        i := i + 1;
      }
    }

    /** For every position and colour: start => cell for each covering start, and cell => some covering start. */
    method EncodeLinkage(axis: Axis, li: int, cellVars: map<CellKey, int>, startVars: map<StartKey, int>)
      requires WellShaped(nonogram) && LineIndexOk(nonogram, axis, li)
      requires CellTable(nonogram, cellVars) && StartTable(LineOf(nonogram, axis, li), startVars)
      modifies this`cnf
      ensures cnf == old(cnf) + LinkClausesUpTo(LineOf(nonogram, axis, li), Dim(LineOf(nonogram, axis, li).len))
    {
      ghost var l := LineOf(nonogram, axis, li);
      var lineLen := if axis == Rows then nonogram.width else nonogram.height;
      assert lineLen == l.len && K(nonogram) == l.k;
      var pos := 0;
      while pos < lineLen
        invariant 0 <= pos <= Dim(lineLen)
        invariant cnf == old(cnf) + LinkClausesUpTo(l, pos)
      {
        EncodePositionLinks(axis, li, pos, cellVars, startVars);
        assert PositionLinks(l)[pos] == ColorLinksUpTo(l, pos, l.k);
        AppendAssoc(old(cnf), LinkClausesUpTo(l, pos), ColorLinksUpTo(l, pos, l.k));
        pos := pos + 1;
      }
    }

    /** The ordering clauses of block b1 starting at c1 against every too-early start of block b1+1. */
    method EncodeOrderPairs(axis: Axis, li: int, b1: nat, c1: int, startVars: map<StartKey, int>)
      requires WellShaped(nonogram) && LineIndexOk(nonogram, axis, li)
      requires StartTable(LineOf(nonogram, axis, li), startVars)
      requires b1 + 1 < |LineOf(nonogram, axis, li).clues| && 0 <= c1 < BlockPositions(LineOf(nonogram, axis, li), b1)
      modifies this`cnf
      ensures cnf == old(cnf) + OrderPairs(LineOf(nonogram, axis, li), b1, c1)
    {
      ghost var l := LineOf(nonogram, axis, li);
      var clues := if axis == Rows then nonogram.rowClues[li] else nonogram.colClues[li];
      var lineLen := if axis == Rows then nonogram.width else nonogram.height;
      assert clues == l.clues && lineLen == l.len;
      var blockLen1 := clues[b1].len;
      var b2 := b1 + 1;
      var blockLen2 := clues[b2].len;
      var minPos := c1 + blockLen1 + 1;
      var c2 := 0;
      while c2 < lineLen - blockLen2 + 1
        invariant 0 <= c2 <= BlockPositions(l, b2)
        invariant cnf == old(cnf) + OrderPairsBelow(l, b1, c1, c2)
      {
        if c2 < minPos {
          assert OrderPairsBelow(l, b1, c1, c2 + 1) ==
                 OrderPairsBelow(l, b1, c1, c2) + [[-startVars[(li, b1, c1)], -startVars[(li, b2, c2)]]];
          cnf := cnf + [[-startVars[(li, b1, c1)], -startVars[(li, b2, c2)]]];
        } else {
          assert OrderPairsBelow(l, b1, c1, c2 + 1) == OrderPairsBelow(l, b1, c1, c2);
        }
        c2 := c2 + 1;
      }
    }

    /** The ordering clauses between every start of block b1 and the starts of block b1 + 1. */
    method EncodeOrderBlock(axis: Axis, li: int, b1: nat, startVars: map<StartKey, int>)
      requires WellShaped(nonogram) && LineIndexOk(nonogram, axis, li)
      requires StartTable(LineOf(nonogram, axis, li), startVars)
      requires b1 + 1 < |LineOf(nonogram, axis, li).clues|
      modifies this`cnf
      ensures cnf == old(cnf) + OrderBlockUpTo(LineOf(nonogram, axis, li), b1, BlockPositions(LineOf(nonogram, axis, li), b1))
    {
      ghost var l := LineOf(nonogram, axis, li);
      var clues := if axis == Rows then nonogram.rowClues[li] else nonogram.colClues[li];
      var lineLen := if axis == Rows then nonogram.width else nonogram.height;
      assert clues == l.clues && lineLen == l.len;
      var c1 := 0;
      while c1 < lineLen - clues[b1].len + 1
        invariant 0 <= c1 <= BlockPositions(l, b1)
        invariant cnf == old(cnf) + OrderBlockUpTo(l, b1, c1)
      {
        EncodeOrderPairs(axis, li, b1, c1, startVars);
        AppendAssoc(old(cnf), OrderBlockUpTo(l, b1, c1), OrderPairs(l, b1, c1));
        c1 := c1 + 1;
      }
    }

    /** For consecutive blocks, forbids every pair of starts that leaves no gap cell between them. */
    method EncodeOrdering(axis: Axis, li: int, startVars: map<StartKey, int>)
      requires WellShaped(nonogram) && LineIndexOk(nonogram, axis, li)
      requires StartTable(LineOf(nonogram, axis, li), startVars)
      requires |LineOf(nonogram, axis, li).clues| > 0
      modifies this`cnf
      ensures cnf == old(cnf) + OrderUpTo(LineOf(nonogram, axis, li), |LineOf(nonogram, axis, li).clues| - 1)
    {
      ghost var l := LineOf(nonogram, axis, li);
      var clues := if axis == Rows then nonogram.rowClues[li] else nonogram.colClues[li];
      assert clues == l.clues;
      var b1 := 0;
      while b1 < |clues| - 1
        invariant 0 <= b1 <= |clues| - 1
        invariant cnf == old(cnf) + OrderUpTo(l, b1)
      {
        EncodeOrderBlock(axis, li, b1, startVars);
        AppendAssoc(old(cnf), OrderUpTo(l, b1), OrderBlockUpTo(l, b1, BlockPositions(l, b1)));
        b1 := b1 + 1;
      }
    }

    /** The negative unit clauses of the cell variables at position pos of a line without clues. */
    method EncodeEmptyCell(axis: Axis, li: int, pos: int, cellVars: map<CellKey, int>)
      requires WellShaped(nonogram) && LineIndexOk(nonogram, axis, li)
      requires 0 <= pos < LineOf(nonogram, axis, li).len
      requires CellTable(nonogram, cellVars)
      modifies this`cnf
      ensures cnf == old(cnf) + UnitsFor(LineOf(nonogram, axis, li), pos, K(nonogram))
    {
      ghost var l := LineOf(nonogram, axis, li);
      var k := Paintable(nonogram.colors);
      var i := 1;
      while i <= k
        invariant 1 <= i <= k + 1
        invariant cnf == old(cnf) + UnitsFor(l, pos, i - 1)
      {
        var color := Code(i);
        assert ValidTag(nonogram, Cell(CellKeyOf(axis, li, pos, color).0, CellKeyOf(axis, li, pos, color).1, color));
        var cellVar := cellVars[CellKeyOf(axis, li, pos, color)];
        assert UnitsFor(l, pos, i) == UnitsFor(l, pos, i - 1) + [[-cellVar]];
        cnf := cnf + [[-cellVar]];
        i := i + 1;
      }
    }

    /** A line without clues: every cell variable on it gets a negative unit clause. */
    method EncodeEmptyLine(axis: Axis, li: int, cellVars: map<CellKey, int>)
      requires WellShaped(nonogram) && LineIndexOk(nonogram, axis, li)
      requires CellTable(nonogram, cellVars)
      modifies this`cnf
      ensures cnf == old(cnf) + EmptyLineUpTo(LineOf(nonogram, axis, li), Dim(LineOf(nonogram, axis, li).len))
    {
      ghost var l := LineOf(nonogram, axis, li);
      var lineLen := if axis == Rows then nonogram.width else nonogram.height;
      assert lineLen == l.len && K(nonogram) == l.k;
      var pos := 0;
      while pos < lineLen
        invariant 0 <= pos <= Dim(lineLen)
        invariant cnf == old(cnf) + EmptyLineUpTo(l, pos)
      {
        EncodeEmptyCell(axis, li, pos, cellVars);
        AppendAssoc(old(cnf), EmptyLineUpTo(l, pos), UnitsFor(l, pos, l.k));
        pos := pos + 1;
      }
    }

    /** One line: background units when it has no clues, otherwise starts, exactly-one, linkage and ordering. */
    method EncodeLine(axis: Axis, li: int, cellVars: map<CellKey, int>)
      requires WellShaped(nonogram) && LineIndexOk(nonogram, axis, li)
      requires varCounter == LineOf(nonogram, axis, li).base
      requires MappingSpec(nonogram, varMapping, varCounter) && CellTable(nonogram, cellVars)
      modifies this`varCounter, this`varMapping, this`cnf
      ensures cnf == old(cnf) + LineClauses(LineOf(nonogram, axis, li))
      ensures varCounter == old(varCounter) + StartCount(LineOf(nonogram, axis, li))
      ensures MappingSpec(nonogram, varMapping, varCounter)
    {
      ghost var l := LineOf(nonogram, axis, li);
      var clues := if axis == Rows then nonogram.rowClues[li] else nonogram.colClues[li];
      assert clues == l.clues;
      if |clues| == 0 {
        EncodeEmptyLine(axis, li, cellVars);
        return;
      }
      var startVars := AllocateStarts(axis, li);
      ghost var c0 := cnf;
      EncodeExactlyOne(axis, li, startVars);
      ghost var c1 := cnf;
      EncodeLinkage(axis, li, cellVars, startVars);
      ghost var c2 := cnf;
      EncodeOrdering(axis, li, startVars);
      LineClausesParts(l, c0, c1, c2, cnf);
    }

    /** `_encode_row_block_start`: the clauses of row `row`, whose start ids follow those of the rows above. */
    method EncodeRowBlockStart(row: int, cellVars: map<CellKey, int>)
      requires WellShaped(nonogram) && 0 <= row < nonogram.height
      requires varCounter == RowBase(nonogram, row)
      requires MappingSpec(nonogram, varMapping, varCounter) && CellTable(nonogram, cellVars)
      modifies this`varCounter, this`varMapping, this`cnf
      ensures cnf == old(cnf) + LineClauses(RowLine(nonogram, row))
      ensures varCounter == RowBase(nonogram, row + 1)
      ensures MappingSpec(nonogram, varMapping, varCounter)
    {
      EncodeLine(Rows, row, cellVars);
    }

    /** `_encode_column_block_start`: the same procedure on column `col`, with height for width. */
    method EncodeColumnBlockStart(col: int, cellVars: map<CellKey, int>)
      requires WellShaped(nonogram) && 0 <= col < nonogram.width
      requires varCounter == ColBase(nonogram, col)
      requires MappingSpec(nonogram, varMapping, varCounter) && CellTable(nonogram, cellVars)
      modifies this`varCounter, this`varMapping, this`cnf
      ensures cnf == old(cnf) + LineClauses(ColLine(nonogram, col))
      ensures varCounter == ColBase(nonogram, col + 1)
      ensures MappingSpec(nonogram, varMapping, varCounter)
    {
      EncodeLine(Cols, col, cellVars);
    }

    /** The row loop of `encode_block_start`: every row in order, after the cell variables. */
    method EncodeRows(cellVars: map<CellKey, int>)
      requires WellShaped(nonogram) && varCounter == RowBase(nonogram, 0)
      requires MappingSpec(nonogram, varMapping, varCounter) && CellTable(nonogram, cellVars)
      modifies this`varCounter, this`varMapping, this`cnf
      ensures cnf == old(cnf) + RowsUpTo(nonogram, Dim(nonogram.height))
      ensures varCounter == ColBase(nonogram, 0)
      ensures MappingSpec(nonogram, varMapping, varCounter)
    {
      ghost var p := nonogram;
      var r := 0;
      while r < nonogram.height
        invariant 0 <= r <= Dim(p.height)
        invariant cnf == old(cnf) + RowsUpTo(p, r)
        invariant varCounter == RowBase(p, r)
        invariant MappingSpec(p, varMapping, varCounter)
      {
        ghost var before := cnf;
        EncodeRowBlockStart(r, cellVars);
        RowsStep(p, r, old(cnf), before, cnf);
        r := r + 1;
      }
      assert r == Dim(p.height) && LinesVars(p.colClues, p.height, 0) == 0;
    }

    /** The column loop of `encode_block_start`: every column in order, after all rows. */
    method EncodeColumns(cellVars: map<CellKey, int>)
      requires WellShaped(nonogram) && varCounter == ColBase(nonogram, 0)
      requires MappingSpec(nonogram, varMapping, varCounter) && CellTable(nonogram, cellVars)
      modifies this`varCounter, this`varMapping, this`cnf
      ensures cnf == old(cnf) + ColsUpTo(nonogram, Dim(nonogram.width))
      ensures varCounter == ColBase(nonogram, Dim(nonogram.width))
      ensures MappingSpec(nonogram, varMapping, varCounter)
    {
      ghost var p := nonogram;
      var c := 0;
      while c < nonogram.width
        invariant 0 <= c <= Dim(p.width)
        invariant cnf == old(cnf) + ColsUpTo(p, c)
        invariant varCounter == ColBase(p, c)
        invariant MappingSpec(p, varMapping, varCounter)
      {
        ghost var before := cnf;
        EncodeColumnBlockStart(c, cellVars);
        ColsStep(p, c, old(cnf), before, cnf);
        c := c + 1;
      }
      assert c == Dim(p.width);
    }

    /**
     * `encode_block_start`: resets the state, issues the cell variables, the
     * per-cell exclusion, then every row and every column. The returned formula
     * and map are the object's final `cnf` and `varMapping`.
     */
    method EncodeBlockStart() returns (clauses: Formula, mapping: map<int, VarInfo>)
      requires WellShaped(nonogram)
      modifies this
      ensures clauses == cnf == EncodedClauses(nonogram)
      ensures mapping == varMapping
      ensures varCounter == 1 + VarCount(nonogram)
      ensures MappingSpec(nonogram, mapping, varCounter)
    {
      ghost var p := nonogram;
      varCounter := 1;
      varMapping := map[];
      cnf := [];
      var cellVars := CreateCellVars();
      EncodeCellExclusion(cellVars);
      ghost var excl := cnf;
      EncodeRows(cellVars);
      ghost var rows := cnf;
      EncodeColumns(cellVars);
      assert excl == ExclusionUpTo(p, Dim(p.height));
      assert cnf == EncodedClauses(p);
      assert varCounter == 1 + VarCount(p);
      clauses := cnf;
      mapping := varMapping;
    }
  }
}
