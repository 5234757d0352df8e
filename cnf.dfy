/**
 * CNF formulas as the encoder builds them (a list of clauses, each a list of
 * signed variable ids) and SAT models as the solver returns them (a list
 * whose entry v-1 is positive exactly when variable v is true).
 */
module Cnf {

  type Clause = seq<int>
  type Formula = seq<Clause>
  type Model = seq<int>

  /** The variable a literal names. */
  function Var(lit: int): nat
  {
    if lit < 0 then -lit else lit
  }

  predicate VarTrue(m: Model, v: int)
  {
    1 <= v <= |m| && m[v - 1] > 0
  }

  predicate LitTrue(m: Model, lit: int)
  {
    if lit > 0 then VarTrue(m, lit) else !VarTrue(m, -lit)
  }

  predicate ClauseTrue(m: Model, cl: Clause)
  {
    exists k :: 0 <= k < |cl| && LitTrue(m, cl[k])
  }

  predicate Satisfies(m: Model, f: Formula)
  {
    forall cl :: cl in f ==> ClauseTrue(m, cl)
  }

  predicate AllPositive(xs: seq<int>)
  {
    forall k :: 0 <= k < |xs| ==> xs[k] > 0
  }

  /** An empty clause cannot be satisfied, so neither can a formula holding one. */
  lemma EmptyClauseUnsat(m: Model, f: Formula)
    requires [] in f
    ensures !Satisfies(m, f)
  {
    assert !ClauseTrue(m, []);
  }

  /** A clause listing positive literals holds exactly when one of its variables is true. */
  lemma AtLeastOneTrue(m: Model, xs: seq<int>)
    requires AllPositive(xs)
    ensures ClauseTrue(m, xs) <==> exists k :: 0 <= k < |xs| && VarTrue(m, xs[k])
  {
    if ClauseTrue(m, xs) {
      var k :| 0 <= k < |xs| && LitTrue(m, xs[k]);
      assert VarTrue(m, xs[k]);
    }
  }

  /** The clauses [-xs[i], -xs[j]] of one i, for every j > i in increasing order. */
  function PairsFrom(xs: seq<int>, i: nat): Formula
    requires i < |xs|
  {
    seq(|xs| - i - 1, j requires 0 <= j < |xs| - i - 1 => [-xs[i], -xs[i + 1 + j]])
  }

  /** The pairwise exclusion clauses of the first n values of i. */
  function PairwiseUpTo(xs: seq<int>, n: nat): Formula
    requires n <= |xs|
  {
    if n == 0 then [] else PairwiseUpTo(xs, n - 1) + PairsFrom(xs, n - 1)
  }

  /**
   * Pairwise at-most-one: the clause [-xs[i], -xs[j]] for all i < j, ordered by
   * i and then by j, as the double loops `for i ... for j in range(i+1, n)`
   * emit them.
   */
  function AtMostOne(xs: seq<int>): Formula
  {
    PairwiseUpTo(xs, |xs|)
  }

  lemma PairCountStep(n: int, len: int)
    ensures (n - 1) * (2 * len - n) + 2 * (len - n) == n * (2 * len - n - 1)
  {
  }

  lemma {:induction false} PairwiseUpToCount(xs: seq<int>, n: nat)
    requires n <= |xs|
    ensures 2 * |PairwiseUpTo(xs, n)| == n * (2 * |xs| - n - 1)
  {
    if n > 0 {
      PairwiseUpToCount(xs, n - 1);
      assert |PairwiseUpTo(xs, n)| == |PairwiseUpTo(xs, n - 1)| + (|xs| - n);
      PairCountStep(n, |xs|);
    }
  }

  /** k variables produce exactly k(k-1)/2 pairwise clauses. */
  lemma AtMostOneCount(xs: seq<int>)
    ensures |AtMostOne(xs)| == |xs| * (|xs| - 1) / 2
  {
    PairwiseUpToCount(xs, |xs|);
  }

  lemma {:induction false} PairwiseUpToFrom(xs: seq<int>, n: nat, cl: Clause)
    requires n <= |xs| && cl in PairwiseUpTo(xs, n)
    ensures exists i, j :: 0 <= i < n && i < j < |xs| && cl == [-xs[i], -xs[j]]
  {
    var tail := PairsFrom(xs, n - 1);
    if cl in tail {
      var j :| 0 <= j < |tail| && tail[j] == cl;
      assert cl == [-xs[n - 1], -xs[n + j]];
    } else {
      PairwiseUpToFrom(xs, n - 1, cl);
    }
  }

  lemma {:induction false} PairwiseUpToHas(xs: seq<int>, n: nat, i: int, j: int)
    requires 0 <= i < n <= |xs| && i < j < |xs|
    ensures [-xs[i], -xs[j]] in PairwiseUpTo(xs, n)
  {
    if i < n - 1 {
      PairwiseUpToHas(xs, n - 1, i, j);
    } else {
      assert PairsFrom(xs, n - 1)[j - n] == [-xs[i], -xs[j]];
    }
  }

  lemma PairwiseUpToMembers(xs: seq<int>, n: nat, cl: Clause)
    requires n <= |xs|
    ensures cl in PairwiseUpTo(xs, n) <==>
            exists i, j :: 0 <= i < n && i < j < |xs| && cl == [-xs[i], -xs[j]]
  {
    if cl in PairwiseUpTo(xs, n) {
      PairwiseUpToFrom(xs, n, cl);
    }
    if i, j :| 0 <= i < n && i < j < |xs| && cl == [-xs[i], -xs[j]] {
      PairwiseUpToHas(xs, n, i, j);
    }
  }

  /** The clauses of AtMostOne are exactly the negated pairs of distinct positions. */
  lemma AtMostOneMembers(xs: seq<int>, cl: Clause)
    ensures cl in AtMostOne(xs) <==>
            exists i, j :: 0 <= i < j < |xs| && cl == [-xs[i], -xs[j]]
  {
    PairwiseUpToMembers(xs, |xs|, cl);
  }

  /** A model of AtMostOne(xs) makes at most one of the (positive) xs true. */
  lemma AtMostOneSound(m: Model, xs: seq<int>, i: int, j: int)
    requires AllPositive(xs) && Satisfies(m, AtMostOne(xs))
    requires 0 <= i < |xs| && 0 <= j < |xs|
    requires VarTrue(m, xs[i]) && VarTrue(m, xs[j])
    ensures i == j
  {
    if i != j {
      var lo, hi := if i < j then i else j, if i < j then j else i;
      AtMostOneMembers(xs, [-xs[lo], -xs[hi]]);
      assert false;
    }
  }

  /** A clause [-a, -b] over two variables holds exactly when they are not both true. */
  lemma PairClauseTrue(m: Model, a: int, b: int)
    requires a >= 1 && b >= 1
    ensures ClauseTrue(m, [-a, -b]) <==> !(VarTrue(m, a) && VarTrue(m, b))
  {
    var cl := [-a, -b];
    if !VarTrue(m, a) {
      assert LitTrue(m, cl[0]);
    } else if !VarTrue(m, b) {
      assert LitTrue(m, cl[1]);
    }
  }

  /** Every literal of the clause names a variable in [lo, hi). */
  predicate ClauseInRange(cl: Clause, lo: int, hi: int)
  {
    forall lit :: lit in cl ==> lo <= Var(lit) < hi
  }

  predicate FormulaInRange(f: Formula, lo: int, hi: int)
  {
    forall cl :: cl in f ==> ClauseInRange(cl, lo, hi)
  }

  /** Some clause of f holds the literal v or -v. */
  predicate Mentions(f: Formula, v: int)
  {
    exists cl :: cl in f && (v in cl || -v in cl)
  }

  lemma AtMostOneFrom(xs: seq<int>, cl: Clause)
    requires cl in AtMostOne(xs)
    ensures exists i, j :: 0 <= i < j < |xs| && cl == [-xs[i], -xs[j]]
  {
    PairwiseUpToFrom(xs, |xs|, cl);
  }

  /** The formulas fs[0], ..., fs[n-1] one after the other. */
  function Joined(fs: seq<Formula>, n: nat): Formula
    requires n <= |fs|
  {
    if n == 0 then [] else Joined(fs, n - 1) + fs[n - 1]
  }

  lemma {:induction false} JoinedFrom(fs: seq<Formula>, n: nat, cl: Clause)
    requires n <= |fs| && cl in Joined(fs, n)
    ensures exists j :: 0 <= j < n && cl in fs[j]
  {
    if cl !in fs[n - 1] {
      JoinedFrom(fs, n - 1, cl);
    }
  }

  lemma {:induction false} JoinedHas(fs: seq<Formula>, n: nat, j: int, cl: Clause)
    requires 0 <= j < n <= |fs| && cl in fs[j]
    ensures cl in Joined(fs, n)
  {
    if j < n - 1 {
      JoinedHas(fs, n - 1, j, cl);
    }
  }

  /** Joining n formulas of `size` clauses each gives n * size clauses. */
  lemma {:induction false} JoinedCount(fs: seq<Formula>, n: nat, size: int)
    requires n <= |fs| && forall j :: 0 <= j < |fs| ==> |fs[j]| == size
    ensures |Joined(fs, n)| == n * size
  {
    if n > 0 {
      JoinedCount(fs, n - 1, size);
      assert (n - 1) * size + size == n * size;
    }
  }

  lemma MulAssoc(a: int, b: int, c: int)
    ensures a * (b * c) == a * b * c
  {
  }
}
