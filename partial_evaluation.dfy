/**
 * The partial evaluator and the helpers around it: evaluating a monomial,
 * fixing every variable of a monomial or polynomial except the "missing
 * coordinate" (from a prefix list for the variables before it and a suffix
 * list for those after it) to obtain a univariate polynomial, the verifier's
 * degree heuristic, and the round sum p(0) + p(1).
 */
module PartialEvaluation {
  import opened Field
  import opened Polynomial

  /** monomial_evaluate: an accumulator starting at one, multiplied by each coordinate's power. */
  method MonomialEvaluate(monomial: Monomial, coordinates: seq<int>) returns (output: int)
    requires IndicesBelow(monomial, |coordinates|)
    ensures output == MonomialEval(monomial, coordinates)
  {
    output := 1;
    for i := 0 to |monomial|
      invariant output == MonomialEval(monomial[..i], coordinates)
    {
      assert monomial[..i + 1][..i] == monomial[..i];
      var p := RaiseToPower(coordinates[monomial[i].index], monomial[i].power);
      output := output * p;
    }
    assert monomial[..|monomial|] == monomial;
  }

  /**
   * The product, over the factors whose variable is not `missing`, of the
   * fixed value of that variable raised to its power: variables before
   * `missing` read `prefix`, variables after it read `suffix`.
   */
  function PartialCoefficient(m: Monomial, missing: nat, prefix: seq<int>, suffix: seq<int>): int
    requires |prefix| == missing && IndicesBelow(m, missing + 1 + |suffix|)
  {
    if |m| == 0 then 1
    else
      var c := PartialCoefficient(m[..|m| - 1], missing, prefix, suffix);
      var f := m[|m| - 1];
      if f.index < missing then c * Pow(prefix[f.index], f.power)
      else if f.index == missing then c
      else c * Pow(suffix[f.index - missing - 1], f.power)
  }

  /** The power of variable k in the monomial (the last pair for k wins), 0 if absent. */
  function ExponentOf(m: Monomial, k: nat): nat
  {
    if |m| == 0 then 0
    else if m[|m| - 1].index == k then m[|m| - 1].power
    else ExponentOf(m[..|m| - 1], k)
  }

  /**
   * monomial_partial_evaluate: scans the pairs, multiplying fixed values into
   * the coefficient and recording the power of the missing coordinate, and
   * returns the single-term polynomial coefficient * x^power.
   */
  method MonomialPartialEvaluate(monomial: Monomial, missing: nat, prefix: seq<int>, suffix: seq<int>)
    returns (g: UPoly)
    requires |prefix| == missing && IndicesBelow(monomial, missing + 1 + |suffix|)
    ensures g == Mono(PartialCoefficient(monomial, missing, prefix, suffix), ExponentOf(monomial, missing))
  {
    var coefficient := 1;
    var power: nat := 0;
    for i := 0 to |monomial|
      invariant coefficient == PartialCoefficient(monomial[..i], missing, prefix, suffix)
      invariant power == ExponentOf(monomial[..i], missing)
    {
      assert monomial[..i + 1][..i] == monomial[..i];
      var f := monomial[i];
      if f.index < missing {
        var p := RaiseToPower(prefix[f.index], f.power);
        coefficient := coefficient * p;
      } else if f.index == missing {
        power := f.power;
      } else {
        var p := RaiseToPower(suffix[f.index - missing - 1], f.power);
        coefficient := coefficient * p;
      }
    }
    assert monomial[..|monomial|] == monomial;
    g := Mono(coefficient, power);
  }

  lemma {:induction false} ExponentOfAbsent(m: Monomial, k: nat)
    requires forall i :: 0 <= i < |m| ==> m[i].index != k
    ensures ExponentOf(m, k) == 0
  {
    if |m| > 0 {
      ExponentOfAbsent(m[..|m| - 1], k);
    }
  }

  /** In a monomial with distinct indices, the power of a variable that occurs is its pair's power. */
  lemma {:induction false} ExponentOfPresent(m: Monomial, i: nat)
    requires DistinctIndices(m) && i < |m|
    ensures ExponentOf(m, m[i].index) == m[i].power
  {
    if i < |m| - 1 {
      var m' := m[..|m| - 1];
      assert m'[i] == m[i];
      ExponentOfPresent(m', i);
    }
  }

  /** The fixed part times x^power is the monomial's value at prefix ++ [x] ++ suffix. */
  lemma {:induction false} PartialCoefficientSplits(m: Monomial, missing: nat, prefix: seq<int>, suffix: seq<int>, x: int)
    requires |prefix| == missing && IndicesBelow(m, missing + 1 + |suffix|) && DistinctIndices(m)
    ensures PartialCoefficient(m, missing, prefix, suffix) * Pow(x, ExponentOf(m, missing))
         == MonomialEval(m, prefix + [x] + suffix)
  {
    if |m| > 0 {
      var m', f, pt := m[..|m| - 1], m[|m| - 1], prefix + [x] + suffix;
      var pc' := PartialCoefficient(m', missing, prefix, suffix);
      var e' := ExponentOf(m', missing);
      var me' := MonomialEval(m', pt);
      assert IndicesBelow(m', missing + 1 + |suffix|) && DistinctIndices(m');
      PartialCoefficientSplits(m', missing, prefix, suffix, x);
      assert pc' * Pow(x, e') == me';
      if f.index == missing {
        assert forall i :: 0 <= i < |m'| ==> m'[i].index != missing by {
          forall i | 0 <= i < |m'| ensures m'[i].index != missing {
            assert m'[i] == m[i];
          }
        }
        ExponentOfAbsent(m', missing);
        assert pt[f.index] == x;
        var y := Pow(x, f.power);
        assert me' == pc';
        assert MonomialEval(m, pt) == me' * y;
      } else {
        var y := Pow(pt[f.index], f.power);
        assert f.index < missing ==> pt[f.index] == prefix[f.index];
        assert f.index > missing ==> pt[f.index] == suffix[f.index - missing - 1];
        assert PartialCoefficient(m, missing, prefix, suffix) == pc' * y;
        assert ExponentOf(m, missing) == e';
        assert MonomialEval(m, pt) == me' * y;
        MulSwapRight(pc', y, Pow(x, e'));
      }
    }
  }

  /**
   * Per monomial, partial evaluation agrees with monomial_evaluate: the
   * univariate result evaluated at x is the monomial's value at
   * prefix ++ [x] ++ suffix.
   */
  lemma {:induction false} MonomialPartialAgrees(m: Monomial, missing: nat, prefix: seq<int>, suffix: seq<int>, x: int)
    requires |prefix| == missing && IndicesBelow(m, missing + 1 + |suffix|) && DistinctIndices(m)
    ensures Eval(Mono(PartialCoefficient(m, missing, prefix, suffix), ExponentOf(m, missing)), x)
         == MonomialEval(m, prefix + [x] + suffix)
  {
    EvalMono(PartialCoefficient(m, missing, prefix, suffix), ExponentOf(m, missing), x);
    PartialCoefficientSplits(m, missing, prefix, suffix, x);
  }

  /** The sum, over the terms, of coefficient times the monomial's partial evaluation. */
  function PartialEvalTerms(ts: seq<Term>, missing: nat, prefix: seq<int>, suffix: seq<int>): UPoly
    requires |prefix| == missing && ValidTerms(ts, missing + 1 + |suffix|)
  {
    if |ts| == 0 then []
    else
      var t := ts[|ts| - 1];
      Add(PartialEvalTerms(ts[..|ts| - 1], missing, prefix, suffix),
          Scale(Mono(PartialCoefficient(t.monomial, missing, prefix, suffix), ExponentOf(t.monomial, missing)), t.coeff))
  }

  /** The univariate polynomial in variable `missing` left by fixing all the others. */
  function PartialEval(p: MPoly, missing: nat, prefix: seq<int>, suffix: seq<int>): UPoly
    requires Valid(p) && |prefix| == missing && missing + 1 + |suffix| == p.numVars
  {
    PartialEvalTerms(p.terms, missing, prefix, suffix)
  }

  /**
   * polynomial_partial_evaluate: starts from the zero polynomial and adds,
   * term by term, the monomial's partial evaluation times the term's
   * coefficient.
   */
  method PolynomialPartialEvaluate(p: MPoly, missing: nat, prefix: seq<int>, suffix: seq<int>)
    returns (output: UPoly)
    requires Valid(p) && |prefix| == missing && missing + 1 + |suffix| == p.numVars
    ensures output == PartialEval(p, missing, prefix, suffix)
  {
    output := [];
    for i := 0 to |p.terms|
      invariant output == PartialEvalTerms(p.terms[..i], missing, prefix, suffix)
    {
      assert p.terms[..i + 1][..i] == p.terms[..i];
      var t := p.terms[i];
      var g := MonomialPartialEvaluate(t.monomial, missing, prefix, suffix);
      output := Add(output, Scale(g, t.coeff));
    }
    assert p.terms[..|p.terms|] == p.terms;
  }

  lemma {:induction false} PartialEvalTermsAgrees(ts: seq<Term>, missing: nat, prefix: seq<int>, suffix: seq<int>, x: int)
    requires |prefix| == missing && ValidTerms(ts, missing + 1 + |suffix|)
    ensures Eval(PartialEvalTerms(ts, missing, prefix, suffix), x) == TermsEval(ts, prefix + [x] + suffix)
  {
    if |ts| > 0 {
      var ts', t := ts[..|ts| - 1], ts[|ts| - 1];
      var mono := Mono(PartialCoefficient(t.monomial, missing, prefix, suffix), ExponentOf(t.monomial, missing));
      assert ValidTerms(ts', missing + 1 + |suffix|);
      PartialEvalTermsAgrees(ts', missing, prefix, suffix, x);
      EvalAdd(PartialEvalTerms(ts', missing, prefix, suffix), Scale(mono, t.coeff), x);
      EvalScale(mono, t.coeff, x);
      MonomialPartialAgrees(t.monomial, missing, prefix, suffix, x);
    }
  }

  /**
   * Partial evaluation is correct: with |prefix| = m and |suffix| = n-m-1,
   * the univariate result evaluated at x equals the polynomial evaluated at
   * prefix ++ [x] ++ suffix.
   */
  lemma {:induction false} PartialEvalAgrees(p: MPoly, missing: nat, prefix: seq<int>, suffix: seq<int>, x: int)
    requires Valid(p) && |prefix| == missing && missing + 1 + |suffix| == p.numVars
    ensures Eval(PartialEval(p, missing, prefix, suffix), x) == Evaluate(p, prefix + [x] + suffix)
  {
    PartialEvalTermsAgrees(p.terms, missing, prefix, suffix, x);
  }

  /** The largest power of variable k over the terms: the degree of the polynomial in x_k. */
  function MaxExponent(ts: seq<Term>, k: nat): (d: nat)
    ensures forall i :: 0 <= i < |ts| ==> ExponentOf(ts[i].monomial, k) <= d
    ensures |ts| > 0 ==> exists i :: 0 <= i < |ts| && ExponentOf(ts[i].monomial, k) == d
  {
    if |ts| == 0 then 0
    else
      var d' := MaxExponent(ts[..|ts| - 1], k);
      var e := ExponentOf(ts[|ts| - 1].monomial, k);
      assert forall i :: 0 <= i < |ts| - 1 ==> ts[..|ts| - 1][i] == ts[i];
      if e < d' then d' else e
  }

  function VariableDegree(p: MPoly, k: nat): nat
  {
    MaxExponent(p.terms, k)
  }

  /** Whatever the fixed values, partial evaluation leaves no power of x above MaxExponent. */
  lemma {:induction false} PartialEvalTermsLength(ts: seq<Term>, missing: nat, prefix: seq<int>, suffix: seq<int>)
    requires |prefix| == missing && ValidTerms(ts, missing + 1 + |suffix|)
    ensures |PartialEvalTerms(ts, missing, prefix, suffix)| <= MaxExponent(ts, missing) + 1
  {
    if |ts| > 0 {
      assert ValidTerms(ts[..|ts| - 1], missing + 1 + |suffix|);
      PartialEvalTermsLength(ts[..|ts| - 1], missing, prefix, suffix);
    }
  }

  lemma {:induction false} PartialEvalLength(p: MPoly, missing: nat, prefix: seq<int>, suffix: seq<int>)
    requires Valid(p) && |prefix| == missing && missing + 1 + |suffix| == p.numVars
    ensures |PartialEval(p, missing, prefix, suffix)| <= VariableDegree(p, missing) + 1
  {
    PartialEvalTermsLength(p.terms, missing, prefix, suffix);
  }

  function Ones(n: nat): (r: seq<int>)
    ensures |r| == n
  {
    seq(n, _ => 1)
  }

  /** The verifier's bound: the degree of the partial evaluation with every other variable set to 1. */
  function HeuristicDegree(p: MPoly, k: nat): nat
    requires Valid(p) && k < p.numVars
  {
    Degree(PartialEval(p, k, Ones(k), Ones(p.numVars - k - 1)))
  }

  /**
   * degree_in_one_variable: builds the all-ones prefix and suffix, partially
   * evaluates, and reads off the degree.
   */
  method DegreeInOneVariable(p: MPoly, missing: nat) returns (d: nat)
    requires Valid(p) && missing < p.numVars
    ensures d == Degree(PartialEval(p, missing, Ones(missing), Ones(p.numVars - missing - 1)))
    ensures d <= VariableDegree(p, missing)
  {
    var prefix: seq<int> := [];
    var suffix: seq<int> := [];
    for i := 0 to missing
      invariant prefix == Ones(i)
    {
      prefix := prefix + [1];
    }
    for i := missing + 1 to p.numVars
      invariant suffix == Ones(i - missing - 1)
    {
      suffix := suffix + [1];
    }
    var g := PolynomialPartialEvaluate(p, missing, prefix, suffix);
    PartialEvalLength(p, missing, prefix, suffix);
    DegreeAtMost(g, VariableDegree(p, missing));
    d := Degree(g);
  }

  /** The heuristic never exceeds the true degree in the variable. */
  lemma {:induction false} HeuristicAtMostVariableDegree(p: MPoly, k: nat)
    requires Valid(p) && k < p.numVars
    ensures HeuristicDegree(p, k) <= VariableDegree(p, k)
  {
    PartialEvalLength(p, k, Ones(k), Ones(p.numVars - k - 1));
  }

  /** The sum of the coefficients of the terms in which variable k has power e. */
  function CoeffAtExponent(ts: seq<Term>, k: nat, e: nat): int
  {
    if |ts| == 0 then 0
    else
      var t := ts[|ts| - 1];
      CoeffAtExponent(ts[..|ts| - 1], k, e) + (if ExponentOf(t.monomial, k) == e then t.coeff else 0)
  }

  lemma {:induction false} CoeffAtExponentNone(ts: seq<Term>, k: nat, e: nat)
    requires forall i :: 0 <= i < |ts| ==> ExponentOf(ts[i].monomial, k) != e
    ensures CoeffAtExponent(ts, k, e) == 0
  {
    if |ts| > 0 {
      CoeffAtExponentNone(ts[..|ts| - 1], k, e);
    }
  }

  /** When a single term has power e of x_k, the sum is that term's coefficient. */
  lemma {:induction false} CoeffAtExponentSingle(ts: seq<Term>, k: nat, e: nat, j: nat)
    requires j < |ts| && ExponentOf(ts[j].monomial, k) == e
    requires forall i :: 0 <= i < |ts| && i != j ==> ExponentOf(ts[i].monomial, k) != e
    ensures CoeffAtExponent(ts, k, e) == ts[j].coeff
  {
    var ts' := ts[..|ts| - 1];
    if j == |ts| - 1 {
      CoeffAtExponentNone(ts', k, e);
    } else {
      assert ts'[j] == ts[j];
      CoeffAtExponentSingle(ts', k, e, j);
    }
  }

  /**
   * When one term carries a strictly larger power of x_k than every other,
   * that power is the degree in x_k, and the heuristic is exact unless the
   * term's coefficient is zero in F_101.
   */
  lemma {:induction false} SingleLeadingTerm(p: MPoly, k: nat, j: nat)
    requires j < |p.terms|
    requires forall i :: 0 <= i < |p.terms| && i != j ==>
               ExponentOf(p.terms[i].monomial, k) < ExponentOf(p.terms[j].monomial, k)
    ensures VariableDegree(p, k) == ExponentOf(p.terms[j].monomial, k)
    ensures NoTopCancellation(p, k) <==> VariableDegree(p, k) == 0 || Fe(p.terms[j].coeff) != 0
  {
    var d := ExponentOf(p.terms[j].monomial, k);
    assert VariableDegree(p, k) == d;
    CoeffAtExponentSingle(p.terms, k, d, j);
  }

  /** With every other variable fixed to 1, a monomial leaves the coefficient 1. */
  lemma {:induction false} PartialCoefficientAtOnes(m: Monomial, k: nat, s: nat)
    requires IndicesBelow(m, k + 1 + s)
    ensures PartialCoefficient(m, k, Ones(k), Ones(s)) == 1
  {
    if |m| > 0 {
      PartialCoefficientAtOnes(m[..|m| - 1], k, s);
      PowOfOne(m[|m| - 1].power);
    }
  }

  /**
   * With every other variable fixed to 1, the coefficient of x_k^e left by
   * partial evaluation is the sum of the coefficients of the terms in which
   * x_k has power e.
   */
  lemma {:induction false} CoefAtOnes(ts: seq<Term>, k: nat, s: nat, e: nat)
    requires ValidTerms(ts, k + 1 + s)
    ensures Coef(PartialEvalTerms(ts, k, Ones(k), Ones(s)), e) == CoeffAtExponent(ts, k, e)
  {
    if |ts| > 0 {
      var ts', t := ts[..|ts| - 1], ts[|ts| - 1];
      var x := ExponentOf(t.monomial, k);
      assert ValidTerms(ts', k + 1 + s);
      CoefAtOnes(ts', k, s, e);
      PartialCoefficientAtOnes(t.monomial, k, s);
      AddCoef(PartialEvalTerms(ts', k, Ones(k), Ones(s)), Scale(Mono(1, x), t.coeff), e);
      ScaleCoef(Mono(1, x), t.coeff, e);
      MonoCoef(1, x, e);
    }
  }

  /**
   * The terms with the largest power of x_k do not cancel when every other
   * variable is 1 (trivially so when x_k does not occur).
   */
  predicate NoTopCancellation(p: MPoly, k: nat)
  {
    VariableDegree(p, k) == 0 || Fe(CoeffAtExponent(p.terms, k, VariableDegree(p, k))) != 0
  }

  /**
   * The heuristic is exact precisely when the coefficients of the terms with
   * the largest power of x_k do not sum to zero in F_101; otherwise it
   * reports a smaller degree.
   */
  lemma {:induction false} HeuristicExactIff(p: MPoly, k: nat)
    requires Valid(p) && k < p.numVars
    ensures HeuristicDegree(p, k) == VariableDegree(p, k) <==> NoTopCancellation(p, k)
  {
    var s := p.numVars - k - 1;
    var g := PartialEval(p, k, Ones(k), Ones(s));
    var d := VariableDegree(p, k);
    var top := CoeffAtExponent(p.terms, k, d);
    PartialEvalLength(p, k, Ones(k), Ones(s));
    CoefAtOnes(p.terms, k, s, d);
    assert Coef(g, d) == top;
    if d == 0 {
      DegreeAtMost(g, 0);
    } else if Fe(top) != 0 {
      assert |g| == d + 1 && g[d] == top;
    } else if |g| <= d {
      DegreeAtMost(g, d - 1);
    } else {
      assert g[d] == top && Degree(g) == Degree(g[..d]);
      DegreeAtMost(g[..d], d - 1);
    }
  }

  /** univariate_hypercube_evaluate: p(0) + p(1), the constant coefficient plus the sum of all coefficients. */
  function RoundSum(g: UPoly): (s: int)
    ensures s == Coef(g, 0) + CoeffSum(g)
  {
    EvalAtZero(g);
    EvalAtOne(g);
    Eval(g, 0) + Eval(g, 1)
  }

  /** The test case: for 5 + x^2 over F_101 the round sum is 11. */
  lemma {:induction false} RoundSumExample()
    ensures Fe(RoundSum([5, 0, 1])) == 11
  {
  }
}
