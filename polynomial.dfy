/**
 * The polynomial containers the protocol works on: a sparse multivariate
 * polynomial (a variable count and a list of (coefficient, monomial) terms,
 * a monomial being a list of (variable index, power) pairs) and a
 * univariate polynomial (here dense: the coefficient of x^i at index i),
 * with the evaluation, addition and degree operations the protocol calls.
 */
module Polynomial {
  import opened Field

  datatype Factor = Factor(index: nat, power: nat)

  /** A product of variables, each raised to a power; its coefficient is one. */
  type Monomial = seq<Factor>

  datatype Term = Term(coeff: int, monomial: Monomial)

  datatype MPoly = MPoly(numVars: nat, terms: seq<Term>)

  predicate IndicesBelow(m: Monomial, width: nat)
  {
    forall i :: 0 <= i < |m| ==> m[i].index < width
  }

  predicate DistinctIndices(m: Monomial)
  {
    forall i, j :: 0 <= i < j < |m| ==> m[i].index != m[j].index
  }

  /** Indices within [0, n), each power at least one, each index at most once. */
  predicate ValidMonomial(m: Monomial, n: nat)
  {
    IndicesBelow(m, n) && DistinctIndices(m) && forall i :: 0 <= i < |m| ==> m[i].power >= 1
  }

  predicate ValidTerms(ts: seq<Term>, n: nat)
  {
    forall i :: 0 <= i < |ts| ==> ValidMonomial(ts[i].monomial, n)
  }

  predicate Valid(p: MPoly)
  {
    ValidTerms(p.terms, p.numVars)
  }

  /** The product of pt[v]^e over the pairs (v, e) of the monomial. */
  function MonomialEval(m: Monomial, pt: seq<int>): int
    requires IndicesBelow(m, |pt|)
  {
    if |m| == 0 then 1
    else MonomialEval(m[..|m| - 1], pt) * Pow(pt[m[|m| - 1].index], m[|m| - 1].power)
  }

  function TermsEval(ts: seq<Term>, pt: seq<int>): int
    requires ValidTerms(ts, |pt|)
  {
    if |ts| == 0 then 0
    else TermsEval(ts[..|ts| - 1], pt) + ts[|ts| - 1].coeff * MonomialEval(ts[|ts| - 1].monomial, pt)
  }

  /** The value of the polynomial at a point of its own dimension. */
  function Evaluate(p: MPoly, pt: seq<int>): int
    requires Valid(p) && |pt| == p.numVars
  {
    TermsEval(p.terms, pt)
  }

  /** A univariate polynomial: g[i] is the coefficient of x^i. */
  type UPoly = seq<int>

  function Coef(g: UPoly, i: nat): int
  {
    if i < |g| then g[i] else 0
  }

  /** Horner evaluation. */
  function Eval(g: UPoly, x: int): int
  {
    if |g| == 0 then 0 else g[0] + x * Eval(g[1..], x)
  }

  function Max(a: nat, b: nat): nat
  {
    if a < b then b else a
  }

  /** Sum of two polynomials: the coefficient lists added position by position. */
  function Add(g: UPoly, h: UPoly): (r: UPoly)
    ensures |r| == Max(|g|, |h|)
  {
    if |g| == 0 then h
    else if |h| == 0 then g
    else [g[0] + h[0]] + Add(g[1..], h[1..])
  }

  /** Each coefficient of a sum is the sum of the coefficients. */
  lemma {:induction false} AddCoef(g: UPoly, h: UPoly, i: nat)
    ensures Coef(Add(g, h), i) == Coef(g, i) + Coef(h, i)
  {
    if |g| > 0 && |h| > 0 && i > 0 {
      AddCoef(g[1..], h[1..], i - 1);
    }
  }

  /** Adding to the zero polynomial (the empty coefficient list) changes nothing. */
  lemma {:induction false} AddToEmpty(g: UPoly)
    ensures Add([], g) == g
  {
  }

  /** The product of g with the constant polynomial c. */
  function Scale(g: UPoly, c: int): (r: UPoly)
    ensures |r| == |g|
  {
    if |g| == 0 then [] else [c * g[0]] + Scale(g[1..], c)
  }

  /** Each coefficient of c * g is c times the coefficient of g. */
  lemma {:induction false} ScaleCoef(g: UPoly, c: int, i: nat)
    ensures Coef(Scale(g, c), i) == c * Coef(g, i)
  {
    if |g| > 0 && i > 0 {
      ScaleCoef(g[1..], c, i - 1);
    }
  }

  /** The single-term polynomial c * x^e. */
  function Mono(c: int, e: nat): (r: UPoly)
    ensures |r| == e + 1
  {
    if e == 0 then [c] else [0] + Mono(c, e - 1)
  }

  /** The single-term polynomial has c at exponent e and zero elsewhere. */
  lemma {:induction false} MonoCoef(c: int, e: nat, i: nat)
    ensures Coef(Mono(c, e), i) == if i == e then c else 0
  {
    if e > 0 && i > 0 {
      MonoCoef(c, e - 1, i - 1);
    }
  }

  /**
   * Degree over the field: the highest exponent whose coefficient is not
   * zero in F_101; the zero polynomial has degree 0.
   */
  function Degree(g: UPoly): (d: nat)
    ensures d == 0 || d < |g|
  {
    if |g| == 0 then 0
    else if Fe(g[|g| - 1]) != 0 then |g| - 1
    else Degree(g[..|g| - 1])
  }

  /**
   * The degree is the highest exponent with a coefficient that is not zero
   * in F_101: every higher coefficient is zero, and the one at the degree is
   * not, unless the degree is 0.
   */
  lemma {:induction false} DegreeIsHighestNonzero(g: UPoly)
    ensures Degree(g) == 0 || Fe(g[Degree(g)]) != 0
    ensures forall j :: Degree(g) < j < |g| ==> Fe(g[j]) == 0
  {
    if |g| > 0 && Fe(g[|g| - 1]) == 0 {
      var init := g[..|g| - 1];
      DegreeIsHighestNonzero(init);
      assert forall j :: Degree(g) < j < |init| ==> g[j] == init[j];
    }
  }

  /** The sum of all coefficients. */
  function CoeffSum(g: UPoly): int
  {
    if |g| == 0 then 0 else g[0] + CoeffSum(g[1..])
  }

  lemma {:induction false} DegreeAtMost(g: UPoly, d: nat)
    requires |g| <= d + 1
    ensures Degree(g) <= d
  {
  }

  /** Evaluation is additive: (g + h)(x) = g(x) + h(x). */
  lemma {:induction false} EvalAdd(g: UPoly, h: UPoly, x: int)
    ensures Eval(Add(g, h), x) == Eval(g, x) + Eval(h, x)
    decreases |g| + |h|
  {
    var s := Add(g, h);
    if |g| == 0 {
      assert s == h;
    } else if |h| == 0 {
      assert s == g;
    } else {
      assert s[1..] == Add(g[1..], h[1..]);
      EvalAdd(g[1..], h[1..], x);
      calc {
        Eval(s, x);
        s[0] + x * Eval(Add(g[1..], h[1..]), x);
        (g[0] + h[0]) + x * (Eval(g[1..], x) + Eval(h[1..], x));
        (g[0] + x * Eval(g[1..], x)) + (h[0] + x * Eval(h[1..], x));
      }
    }
  }

  /** Scaling by a constant scales the value: (c*g)(x) = c * g(x). */
  lemma {:induction false} EvalScale(g: UPoly, c: int, x: int)
    ensures Eval(Scale(g, c), x) == c * Eval(g, x)
  {
    if |g| > 0 {
      assert Scale(g, c)[1..] == Scale(g[1..], c);
      EvalScale(g[1..], c, x);
      var a, t := g[0], Eval(g[1..], x);
      assert Eval(Scale(g, c), x) == c * a + x * (c * t);
      assert x * (c * t) == c * (x * t);
      assert Eval(g, x) == a + x * t;
    }
  }

  /** The single-term polynomial evaluates to c * x^e. */
  lemma {:induction false} EvalMono(c: int, e: nat, x: int)
    ensures Eval(Mono(c, e), x) == c * Pow(x, e)
  {
    if e == 0 {
      assert Mono(c, 0)[1..] == [];
    } else {
      assert Mono(c, e)[1..] == Mono(c, e - 1);
      EvalMono(c, e - 1, x);
      calc {
        Eval(Mono(c, e), x);
        0 + x * (c * Pow(x, e - 1));
        c * (x * Pow(x, e - 1));
      }
    }
  }

  /** g(0) is the constant coefficient. */
  lemma {:induction false} EvalAtZero(g: UPoly)
    ensures Eval(g, 0) == Coef(g, 0)
  {
  }

  /** g(1) is the sum of all coefficients. */
  lemma {:induction false} EvalAtOne(g: UPoly)
    ensures Eval(g, 1) == CoeffSum(g)
  {
    if |g| > 0 {
      EvalAtOne(g[1..]);
    }
  }
}
