/**
 * Facts about the id layout of src/sat_encoder.py: every meaning gets an id in
 * 1..VarCount, and no id is given to two meanings.
 */
module LayoutIds {
  import opened Puzzle
  import opened Encoding
  import opened Layout

  lemma MulMono(a: int, b: int, c: int)
    requires 0 <= a <= b && c >= 0
    ensures a * c <= b * c
  {
    assert b * c == a * c + (b - a) * c;
  }

  lemma MulSplit(q: int, e: int, d: int)
    ensures (q + e) * d == q * d + e * d
  {
  }

  /** A value q * d + m with 0 <= m < d determines its quotient q and remainder m. */
  lemma DivModUnique(q: int, m: int, d: int, q': int, m': int)
    requires 0 <= m < d && 0 <= m' < d
    requires q * d + m == q' * d + m'
    ensures q == q' && m == m'
  {
    if q < q' {
      MulSplit(q, q' - q, d);
      MulMono(1, q' - q, d);
      assert false;
    } else if q > q' {
      MulSplit(q', q - q', d);
      MulMono(1, q - q', d);
      assert false;
    }
  }

  /** Cell ids run over 1..height*width*k. */
  lemma CellIdRange(h: int, w: int, k: int, r: int, c: int, i: int)
    requires 0 <= r < h && 0 <= c < w && 1 <= i <= k
    ensures 1 <= CellId(w, k, r, c, i) <= h * w * k
  {
    var n := r * w + c;
    MulMono(r, h - 1, w);
    assert (h - 1) * w == h * w - w;
    assert 0 <= n <= h * w - 1;
    MulMono(n, h * w - 1, k);
    assert (h * w - 1) * k == h * w * k - k;
    assert 0 <= n * k;
  }

  /** Distinct cells or colours get distinct ids. */
  lemma CellIdInjective(w: int, k: int, r: int, c: int, i: int, r': int, c': int, i': int)
    requires 0 <= r && 0 <= c < w && 1 <= i <= k
    requires 0 <= r' && 0 <= c' < w && 1 <= i' <= k
    requires CellId(w, k, r, c, i) == CellId(w, k, r', c', i')
    ensures r == r' && c == c' && i == i'
  {
    DivModUnique(r * w + c, i - 1, k, r' * w + c', i' - 1);
    DivModUnique(r, c, w, r', c');
  }

  lemma {:induction false} OffsetMono(clues: Clue, lineLen: int, a: nat, b: nat)
    requires a <= b <= |clues|
    ensures Offset(clues, lineLen, a) <= Offset(clues, lineLen, b)
  {
    if a < b {
      OffsetMono(clues, lineLen, a, b - 1);
    }
  }

  lemma {:induction false} LinesVarsMono(lines: seq<Clue>, lineLen: int, a: nat, b: nat)
    requires a <= b <= |lines|
    ensures LinesVars(lines, lineLen, a) <= LinesVars(lines, lineLen, b)
  {
    if a < b {
      LinesVarsMono(lines, lineLen, a, b - 1);
    }
  }

  /** A start variable of a line lies in [base, base + StartCount). */
  lemma StartVarRange(l: Line, b: nat, s: int)
    requires b < |l.clues| && 0 <= s < BlockPositions(l, b)
    ensures l.base <= StartVar(l, b, s) < l.base + StartCount(l)
  {
    OffsetMono(l.clues, l.len, b + 1, |l.clues|);
  }

  /** Different (block, position) pairs of one line have different start variables. */
  lemma StartVarInjective(l: Line, b: nat, s: int, b': nat, s': int)
    requires b < |l.clues| && 0 <= s < BlockPositions(l, b)
    requires b' < |l.clues| && 0 <= s' < BlockPositions(l, b')
    requires StartVar(l, b, s) == StartVar(l, b', s')
    ensures b == b' && s == s'
  {
    if b < b' {
      OffsetMono(l.clues, l.len, b + 1, b');
      assert false;
    } else if b' < b {
      OffsetMono(l.clues, l.len, b' + 1, b);
      assert false;
    }
  }

  /** Row r's start variables lie in [RowBase(r), RowBase(r+1)). */
  lemma RowStartRange(p: Nonogram, r: nat, b: nat, s: int)
    requires WellShaped(p) && ValidTag(p, RowStart(r, b, s))
    ensures RowBase(p, r) <= IdOf(p, RowStart(r, b, s)) < RowBase(p, r + 1)
  {
    StartVarRange(RowLine(p, r), b, s);
  }

  lemma ColStartRange(p: Nonogram, c: nat, b: nat, s: int)
    requires WellShaped(p) && ValidTag(p, ColStart(c, b, s))
    ensures ColBase(p, c) <= IdOf(p, ColStart(c, b, s)) < ColBase(p, c + 1)
  {
    StartVarRange(ColLine(p, c), b, s);
  }

  /** Every meaning's id lies in 1..VarCount, cell ids first, then row starts, then column starts. */
  lemma IdOfRange(p: Nonogram, t: VarInfo)
    requires WellShaped(p) && ValidTag(p, t)
    ensures 1 <= IdOf(p, t) <= VarCount(p)
    ensures t.Cell? <==> IdOf(p, t) <= NCells(p)
    ensures t.RowStart? ==> IdOf(p, t) < ColBase(p, 0)
    ensures t.ColStart? ==> IdOf(p, t) >= ColBase(p, 0)
  {
    match t
    case Cell(r, c, color) =>
      CellIdRange(Dim(p.height), Dim(p.width), K(p), r, c, CodeIndex(color));
    case RowStart(r, b, s) =>
      RowStartRange(p, r, b, s);
      LinesVarsMono(p.rowClues, p.width, r + 1, Dim(p.height));
    case ColStart(c, b, s) =>
      ColStartRange(p, c, b, s);
      LinesVarsMono(p.colClues, p.height, c + 1, Dim(p.width));
  }

  /** No id is issued for two meanings. */
  lemma IdOfInjective(p: Nonogram, t: VarInfo, t': VarInfo)
    requires WellShaped(p) && ValidTag(p, t) && ValidTag(p, t')
    requires IdOf(p, t) == IdOf(p, t')
    ensures t == t'
  {
    IdOfRange(p, t);
    IdOfRange(p, t');
    match t
    case Cell(r, c, color) =>
      var Cell(r', c', color') := t';
      CellIdInjective(p.width, K(p), r, c, CodeIndex(color), r', c', CodeIndex(color'));
      assert color == [color[0]] && color' == [color'[0]];
    case RowStart(r, b, s) =>
      var RowStart(r', b', s') := t';
      if r < r' {
        RowStartRange(p, r, b, s);
        RowStartRange(p, r', b', s');
        LinesVarsMono(p.rowClues, p.width, r + 1, r');
        assert false;
      } else if r' < r {
        RowStartRange(p, r, b, s);
        RowStartRange(p, r', b', s');
        LinesVarsMono(p.rowClues, p.width, r' + 1, r);
        assert false;
      } else {
        StartVarInjective(RowLine(p, r), b, s, b', s');
      }
    case ColStart(c, b, s) =>
      var ColStart(c', b', s') := t';
      if c < c' {
        ColStartRange(p, c, b, s);
        ColStartRange(p, c', b', s');
        LinesVarsMono(p.colClues, p.height, c + 1, c');
        assert false;
      } else if c' < c {
        ColStartRange(p, c, b, s);
        ColStartRange(p, c', b', s');
        LinesVarsMono(p.colClues, p.height, c' + 1, c);
        assert false;
      } else {
        StartVarInjective(ColLine(p, c), b, s, b', s');
      }
  }

  /** Recording one more meaning under the next id keeps the mapping in shape. */
  lemma MappingSpecExtend(p: Nonogram, m: map<int, VarInfo>, counter: int, t: VarInfo)
    requires WellShaped(p) && MappingSpec(p, m, counter)
    requires ValidTag(p, t) && IdOf(p, t) == counter
    ensures MappingSpec(p, m[counter := t], counter + 1)
  {
    forall t' | ValidTag(p, t') && IdOf(p, t') == counter
      ensures t' == t
    {
      IdOfInjective(p, t, t');
    }
  }

  /** Once every id is issued, every meaning is recorded under its id. */
  lemma MappingComplete(p: Nonogram, m: map<int, VarInfo>, t: VarInfo)
    requires WellShaped(p) && MappingSpec(p, m, 1 + VarCount(p)) && ValidTag(p, t)
    ensures IdOf(p, t) in m && m[IdOf(p, t)] == t
  {
    IdOfRange(p, t);
  }
}
