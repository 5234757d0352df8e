/**
 * The pieces of Python's string handling that src/nonogram.py relies on:
 * `str.strip()` and `str.split()` with no argument (both driven by
 * `str.isspace`), ASCII `str.isdigit`, and `int()` on a base-10 token.
 */
module Text {
  import opened Wrappers

  /** `ch.isspace()`: the characters Python's argument-less strip and split treat as whitespace. */
  predicate IsSpace(ch: char)
  {
    var c := ch as int;
    || (0x09 <= c <= 0x0D) || (0x1C <= c <= 0x20) || c == 0x85 || c == 0xA0 || c == 0x1680
    || (0x2000 <= c <= 0x200A) || c == 0x2028 || c == 0x2029 || c == 0x202F || c == 0x205F || c == 0x3000
  }

  /** ASCII `ch.isdigit()`. */
  predicate IsDigit(ch: char)
  {
    '0' <= ch <= '9'
  }

  predicate NoSpace(s: string)
  {
    forall k :: 0 <= k < |s| ==> !IsSpace(s[k])
  }

  predicate AllSpace(s: string)
  {
    forall k :: 0 <= k < |s| ==> IsSpace(s[k])
  }

  predicate AllDigits(s: string)
  {
    forall k :: 0 <= k < |s| ==> IsDigit(s[k])
  }

  //////////////////////////////////////////////////////////////////////////
  // strip

  function TrimStart(s: string): string
  {
    if s != [] && IsSpace(s[0]) then TrimStart(s[1..]) else s
  }

  function TrimEnd(s: string): string
  {
    if s != [] && IsSpace(s[|s| - 1]) then TrimEnd(s[..|s| - 1]) else s
  }

  /** lstrip() removes a whitespace prefix and stops at the first other character. */
  lemma {:induction false} TrimStartSlice(s: string)
    ensures |TrimStart(s)| <= |s| && TrimStart(s) == s[|s| - |TrimStart(s)|..]
    ensures AllSpace(s[..|s| - |TrimStart(s)|])
    ensures TrimStart(s) == [] || !IsSpace(TrimStart(s)[0])
  {
    if s != [] && IsSpace(s[0]) {
      TrimStartSlice(s[1..]);
      var t := TrimStart(s);
      assert s[..|s| - |t|] == [s[0]] + s[1..][..|s| - 1 - |t|];
    }
  }

  /** rstrip() removes a whitespace suffix and stops at the last other character. */
  lemma {:induction false} TrimEndSlice(s: string)
    ensures |TrimEnd(s)| <= |s| && TrimEnd(s) == s[..|TrimEnd(s)|]
    ensures AllSpace(s[|TrimEnd(s)|..])
    ensures TrimEnd(s) == [] || !IsSpace(TrimEnd(s)[|TrimEnd(s)| - 1])
  {
    if s != [] && IsSpace(s[|s| - 1]) {
      var u := s[..|s| - 1];
      TrimEndSlice(u);
      var t := TrimEnd(s);
      assert s[|t|..] == u[|t|..] + [s[|s| - 1]];
    }
  }

  /** `s.strip()`. */
  function Strip(s: string): string
  {
    TrimEnd(TrimStart(s))
  }

  /**
   * The stripped string is a slice of s that neither starts nor ends with
   * whitespace, and only whitespace lies outside it.
   */
  lemma StripSlice(s: string)
    ensures exists i, j :: 0 <= i <= j <= |s| && Strip(s) == s[i..j] && AllSpace(s[..i]) && AllSpace(s[j..])
    ensures Strip(s) == [] || (!IsSpace(Strip(s)[0]) && !IsSpace(Strip(s)[|Strip(s)| - 1]))
  {
    var u := TrimStart(s);
    var t := TrimEnd(u);
    TrimStartSlice(s);
    TrimEndSlice(u);
    var i := |s| - |u|;
    var j := i + |t|;
    assert t == u[..|t|] == s[i..j];
    assert s[j..] == u[|t|..];
    if t != [] {
      assert t[0] == u[0];
    }
  }

  /** `line.strip()` is falsy exactly when the line is all whitespace. */
  lemma StripEmpty(s: string)
    ensures Strip(s) == [] <==> AllSpace(s)
  {
    StripSlice(s);
    var i, j :| 0 <= i <= j <= |s| && Strip(s) == s[i..j] && AllSpace(s[..i]) && AllSpace(s[j..]);
    if Strip(s) == [] {
      forall k | 0 <= k < |s|
        ensures IsSpace(s[k])
      {
        if k < i {
          assert s[k] == s[..i][k];
        } else {
          assert s[k] == s[j..][k - j];
        }
      }
    } else {
      assert s[i] == Strip(s)[0];
    }
  }

  //////////////////////////////////////////////////////////////////////////
  // split

  /** The length of the longest whitespace-free prefix of s. */
  function WordLen(s: string): (n: nat)
    ensures n <= |s| && NoSpace(s[..n]) && (n == |s| || IsSpace(s[n]))
  {
    if s == [] || IsSpace(s[0]) then 0
    else
      var n := 1 + WordLen(s[1..]);
      assert s[..n] == [s[0]] + s[1..][..n - 1];
      n
  }

  /** `s.split()`: the maximal runs of non-whitespace characters, in order. */
  function Split(s: string): seq<string>
    decreases |s|
  {
    if s == [] then []
    else if IsSpace(s[0]) then Split(s[1..])
    else
      var n := WordLen(s);
      [s[..n]] + Split(s[n..])
  }

  /** A word: what split can return as one token. */
  predicate IsWord(w: string)
  {
    w != [] && NoSpace(w)
  }

  predicate AllWords(ws: seq<string>)
  {
    forall k :: 0 <= k < |ws| ==> IsWord(ws[k])
  }

  /** Every token of split is a non-empty whitespace-free string. */
  lemma {:induction false} SplitWords(s: string)
    ensures AllWords(Split(s))
    decreases |s|
  {
    if s == [] {
    } else if IsSpace(s[0]) {
      SplitWords(s[1..]);
    } else {
      var n := WordLen(s);
      SplitWords(s[n..]);
    }
  }

  /** The tokens joined by single spaces, as `' '.join(ws)` would write them. */
  function Join(ws: seq<string>): string
  {
    if ws == [] then [] else if |ws| == 1 then ws[0] else ws[0] + [' '] + Join(ws[1..])
  }

  lemma WordLenOfWord(w: string, rest: string)
    requires IsWord(w) && (rest == [] || IsSpace(rest[0]))
    ensures WordLen(w + rest) == |w|
  {
    var s := w + rest;
    var n := WordLen(s);
    assert forall k :: 0 <= k < |w| ==> s[k] == w[k];
    assert |s| > |w| ==> IsSpace(s[|w|]);
  }

  /** Splitting words joined by spaces gives the words back. */
  lemma {:induction false} SplitJoin(ws: seq<string>)
    requires AllWords(ws)
    ensures Split(Join(ws)) == ws
  {
    if ws == [] {
    } else if |ws| == 1 {
      var w := ws[0];
      WordLenOfWord(w, []);
      assert w + [] == w;
      assert w[|w|..] == [];
    } else {
      var w := ws[0];
      var rest := [' '] + Join(ws[1..]);
      var s := w + rest;
      assert Join(ws) == s;
      WordLenOfWord(w, rest);
      assert s[..|w|] == w;
      assert s[|w|..] == rest;
      assert rest[1..] == Join(ws[1..]);
      SplitJoin(ws[1..]);
      assert ws == [w] + ws[1..];
    }
  }

  //////////////////////////////////////////////////////////////////////////
  // Decimal digits and int()

  function DigitValue(ch: char): int
  {
    ch as int - '0' as int
  }

  /** The value of a string of ASCII digits read in base 10 (leading zeros allowed). */
  function DecimalValue(ds: string): nat
    requires AllDigits(ds)
  {
    if ds == [] then 0
    else DecimalValue(ds[..|ds| - 1]) * 10 + DigitValue(ds[|ds| - 1])
  }

  /** The shortest base-10 rendering of n, as `str(n)` writes it. */
  function Decimal(n: nat): (ds: string)
    ensures ds != [] && AllDigits(ds) && (|ds| > 1 ==> ds[0] != '0')
  {
    var last := ['0' + (n % 10) as char];
    if n < 10 then last
    else
      var front := Decimal(n / 10);
      assert (front + last)[0] == front[0];
      front + last
  }

  /** Reading back a rendered number gives the number. */
  lemma {:induction false} DecimalRoundTrip(n: nat)
    ensures DecimalValue(Decimal(n)) == n
  {
    var ds := Decimal(n);
    if n >= 10 {
      DecimalRoundTrip(n / 10);
      assert ds[..|ds| - 1] == Decimal(n / 10);
    }
  }

  /** A digit string has a positive value exactly when it has a non-zero digit. */
  lemma {:induction false} DecimalPositive(ds: string)
    requires AllDigits(ds)
    ensures DecimalValue(ds) > 0 <==> exists k :: 0 <= k < |ds| && ds[k] != '0'
  {
    if ds != [] {
      var front := ds[..|ds| - 1];
      DecimalPositive(front);
      if k :| 0 <= k < |front| && front[k] != '0' {
        assert ds[k] == front[k];
      }
      if k :| 0 <= k < |ds| && ds[k] != '0' {
        if k < |front| {
          assert front[k] == ds[k];
        }
      }
    }
  }

  /** The digits of a token with underscores removed. */
  function DropUnderscores(s: string): string
  {
    if s == [] then [] else DropUnderscores(s[..|s| - 1]) + (if s[|s| - 1] == '_' then [] else [s[|s| - 1]])
  }

  /**
   * The body int() accepts after an optional sign: ASCII digits, with single
   * underscores allowed between two digits.
   */
  predicate DigitGroups(s: string)
  {
    && s != [] && IsDigit(s[0]) && IsDigit(s[|s| - 1])
    && (forall k :: 0 <= k < |s| ==> IsDigit(s[k]) || s[k] == '_')
    && (forall k :: 0 <= k < |s| - 1 ==> s[k] == '_' ==> IsDigit(s[k + 1]))
  }

  lemma {:induction false} DropUnderscoresDigits(s: string)
    requires forall k :: 0 <= k < |s| ==> IsDigit(s[k]) || s[k] == '_'
    ensures AllDigits(DropUnderscores(s))
  {
    if s != [] {
      DropUnderscoresDigits(s[..|s| - 1]);
    }
  }

  lemma {:induction false} DropUnderscoresOfDigits(s: string)
    requires AllDigits(s)
    ensures DropUnderscores(s) == s
  {
    if s != [] {
      DropUnderscoresOfDigits(s[..|s| - 1]);
      assert s == s[..|s| - 1] + [s[|s| - 1]];
    }
  }

  function UnsignedInt(s: string): Option<nat>
  {
    if DigitGroups(s) then
      DropUnderscoresDigits(s);
      Some(DecimalValue(DropUnderscores(s)))
    else None
  }

  /**
   * `int(s)` for a whitespace-free token: None where Python raises ValueError
   * because of the token's characters. A digit string of any length is read:
   * CPython's limit on the number of digits of a base-10 conversion
   * (`sys.get_int_max_str_digits()`) is not modelled.
   */
  function PyInt(s: string): Option<int>
  {
    if s != [] && s[0] == '-' then
      match UnsignedInt(s[1..])
      case Some(v) => Some(0 - v as int)
      case None => None
    else if s != [] && s[0] == '+' then
      match UnsignedInt(s[1..])
      case Some(v) => Some(v)
      case None => None
    else UnsignedInt(s)
  }

  /** The digits str() writes for a natural number are read back by the unsigned part of int(). */
  lemma UnsignedRoundTrip(n: nat)
    ensures UnsignedInt(Decimal(n)) == Some(n)
  {
    var ds := Decimal(n);
    DropUnderscoresOfDigits(ds);
    DecimalRoundTrip(n);
    assert DigitGroups(ds);
  }

  /** int() reads back what str() writes, for every integer, with no limit on the number of digits. */
  lemma PyIntRoundTrip(n: int)
    ensures n >= 0 ==> PyInt(Decimal(n)) == Some(n)
    ensures n < 0 ==> PyInt(['-'] + Decimal(-n)) == Some(n)
  {
    if n >= 0 {
      UnsignedRoundTrip(n);
      assert IsDigit(Decimal(n)[0]);
    } else {
      var ds := Decimal(-n);
      UnsignedRoundTrip(-n);
      assert (['-'] + ds)[1..] == ds;
    }
  }

  /** int() rejects the empty token and any token holding a character other than a sign, digit or underscore. */
  lemma PyIntRejects(s: string)
    ensures s == [] ==> PyInt(s) == None
    ensures (exists k :: 0 <= k < |s| && !IsDigit(s[k]) && s[k] != '_' && s[k] != '-' && s[k] != '+') ==> PyInt(s) == None
  {
    if k :| 0 <= k < |s| && !IsDigit(s[k]) && s[k] != '_' && s[k] != '-' && s[k] != '+' {
      if s[0] == '-' || s[0] == '+' {
        assert s[1..][k - 1] == s[k];
      }
    }
  }
}
