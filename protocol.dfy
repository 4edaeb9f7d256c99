/**
 * The sum-check protocol (section 4.1 of Thaler's "Proofs, Arguments, and
 * Zero-Knowledge"): the claimed sum over the boolean hypercube, the honest
 * prover's round messages, the verifier's round checks and final check, and
 * the round loop that drives them.
 *
 * The verifier's random challenges are an input sequence (one value per
 * round) instead of draws from the operating system's entropy.
 */
module Protocol {
  import opened Field
  import opened BooleanHypercube
  import opened Polynomial
  import opened PartialEvaluation

  /** Every point of `pts`, appended to the fixed coordinates c, is a full point. */
  predicate PointsFit(c: seq<int>, pts: seq<Point>, n: nat)
  {
    forall j :: 0 <= j < |pts| ==> |c| + |pts[j]| == n
  }

  /** The sum of p over the points c ++ h, for h in pts. */
  function SumAt(p: MPoly, c: seq<int>, pts: seq<Point>): int
    requires Valid(p) && PointsFit(c, pts, p.numVars)
  {
    if |pts| == 0 then 0
    else SumAt(p, c, pts[..|pts| - 1]) + Evaluate(p, c + pts[|pts| - 1])
  }

  /** The claimed sum C: p summed over the list `hypercube(n)` gives. */
  function HypercubeSum(p: MPoly): int
    requires Valid(p)
  {
    SumAt(p, [], Cube(p.numVars))
  }

  /** hypercube_evaluation: adds up p at every point of hypercube(n). */
  method HypercubeEvaluation(p: MPoly) returns (output: int)
    requires Valid(p)
    ensures output == HypercubeSum(p)
  {
    output := 0;
    var points := Hypercube(p.numVars);
    for i := 0 to |points|
      invariant output == SumAt(p, [], points[..i])
    {
      assert points[..i + 1][..i] == points[..i];
      assert [] + points[i] == points[i];
      output := output + Evaluate(p, points[i]);
    }
    assert points[..|points|] == points;
  }

  /** The brute-force sum of p over the binary representations of 0 .. j-1. */
  function BruteForceSum(p: MPoly, j: nat): int
    requires Valid(p)
  {
    if j == 0 then 0 else BruteForceSum(p, j - 1) + Evaluate(p, Bits(j - 1, p.numVars))
  }

  lemma {:induction false} SumAtCubePrefix(p: MPoly, j: nat)
    requires Valid(p) && j <= |Cube(p.numVars)|
    ensures SumAt(p, [], Cube(p.numVars)[..j]) == BruteForceSum(p, j)
  {
    if j > 0 {
      var c := Cube(p.numVars);
      assert c[..j][..j - 1] == c[..j - 1];
      CubeBits(p.numVars, j - 1);
      assert [] + c[j - 1] == Bits(j - 1, p.numVars);
      SumAtCubePrefix(p, j - 1);
    }
  }

  /** For n >= 1, the hypercube sum is the brute-force sum over all 2^n bit patterns; for n = 0 it is 0. */
  lemma {:induction false} HypercubeSumIsBruteForce(p: MPoly)
    requires Valid(p)
    ensures p.numVars >= 1 ==> HypercubeSum(p) == BruteForceSum(p, Pow2(p.numVars))
    ensures p.numVars == 0 ==> HypercubeSum(p) == 0
  {
    var c := Cube(p.numVars);
    assert c[..|c|] == c;
    SumAtCubePrefix(p, |c|);
  }

  lemma {:induction false} SumAtAppend(p: MPoly, c: seq<int>, a: seq<Point>, b: seq<Point>)
    requires Valid(p) && PointsFit(c, a, p.numVars) && PointsFit(c, b, p.numVars)
    ensures PointsFit(c, a + b, p.numVars)
    ensures SumAt(p, c, a + b) == SumAt(p, c, a) + SumAt(p, c, b)
  {
    if |b| > 0 {
      assert (a + b)[..|a + b| - 1] == a + b[..|b| - 1];
      SumAtAppend(p, c, a, b[..|b| - 1]);
    } else {
      assert a + b == a;
    }
  }

  lemma {:induction false} SumAtPrepend(p: MPoly, c: seq<int>, b: int, pts: seq<Point>)
    requires Valid(p) && PointsFit(c + [b], pts, p.numVars)
    ensures PointsFit(c, Prepend(b, pts), p.numVars)
    ensures SumAt(p, c, Prepend(b, pts)) == SumAt(p, c + [b], pts)
  {
    if |pts| > 0 {
      var pre := pts[..|pts| - 1];
      assert Prepend(b, pts)[..|pts| - 1] == Prepend(b, pre);
      assert c + ([b] + pts[|pts| - 1]) == (c + [b]) + pts[|pts| - 1];
      SumAtPrepend(p, c, b, pre);
    }
  }

  /**
   * The completions of fixed coordinates by m free ones: the points of
   * hypercube(m), or the single empty completion when no coordinate is free.
   */
  function Completions(m: nat): (pts: seq<Point>)
    ensures |pts| >= 1
    ensures forall j :: 0 <= j < |pts| ==> |pts[j]| == m
  {
    if m == 0 then [[]] else Cube(m)
  }

  lemma {:induction false} CompletionsOfCube(m: nat)
    requires m >= 1
    ensures Completions(m) == Cube(m)
  {
  }

  /**
   * The sum of p over all completions of the fixed coordinates c; when c
   * already fixes every variable, p at c.
   */
  function PartialSum(p: MPoly, c: seq<int>): int
    requires Valid(p) && |c| <= p.numVars
  {
    SumAt(p, c, Completions(p.numVars - |c|))
  }

  /** The partial sum runs over the completions by the m variables c leaves free. */
  lemma {:induction false} PartialSumOver(p: MPoly, c: seq<int>, m: nat)
    requires Valid(p) && |c| + m == p.numVars
    ensures PointsFit(c, Completions(m), p.numVars)
    ensures PartialSum(p, c) == SumAt(p, c, Completions(m))
  {
  }

  /** With every variable fixed, the partial sum is p at c. */
  lemma {:induction false} PartialSumComplete(p: MPoly, c: seq<int>)
    requires Valid(p) && |c| == p.numVars
    ensures PartialSum(p, c) == Evaluate(p, c)
  {
    var pts: seq<Point> := [[]];
    assert Completions(p.numVars - |c|) == pts;
    assert PartialSum(p, c) == SumAt(p, c, pts);
    assert pts[..0] == [] && c + pts[0] == c;
    assert SumAt(p, c, pts) == SumAt(p, c, []) + Evaluate(p, c + pts[0]);
  }

  lemma {:induction false} SumAtPair(p: MPoly, c: seq<int>)
    requires Valid(p) && |c| + 1 == p.numVars
    ensures PartialSum(p, c) == Evaluate(p, c + [0]) + Evaluate(p, c + [1])
  {
    var cube := Cube(1);
    assert Completions(p.numVars - |c|) == cube;
    assert cube[..1] == [[0]] && cube[..1][..0] == [];
    assert SumAt(p, c, cube) == SumAt(p, c, [[0]]) + Evaluate(p, c + [1]);
    assert SumAt(p, c, [[0]]) == SumAt(p, c, []) + Evaluate(p, c + [0]);
  }

  /** Over hypercube(k+1), k >= 1, a sum splits by the value of the leading coordinate. */
  lemma {:induction false} SumAtCubeHalves(p: MPoly, c: seq<int>, k: nat)
    requires Valid(p) && k >= 1 && |c| + k + 1 == p.numVars
    ensures PointsFit(c, Cube(k + 1), p.numVars)
    ensures PointsFit(c + [0], Cube(k), p.numVars) && PointsFit(c + [1], Cube(k), p.numVars)
    ensures SumAt(p, c, Cube(k + 1)) == SumAt(p, c + [0], Cube(k)) + SumAt(p, c + [1], Cube(k))
  {
    var cube := Cube(k);
    SumAtPrepend(p, c, 0, cube);
    SumAtPrepend(p, c, 1, cube);
    SumAtAppend(p, c, Prepend(0, cube), Prepend(1, cube));
    CubeSplit(k);
  }

  /** For at least two free coordinates, the partial sum splits by the value of the first free one. */
  lemma {:induction false} PartialSumHalves(p: MPoly, c: seq<int>)
    requires Valid(p) && |c| + 1 < p.numVars
    ensures PointsFit(c + [0], Cube(p.numVars - |c| - 1), p.numVars)
    ensures PointsFit(c + [1], Cube(p.numVars - |c| - 1), p.numVars)
    ensures PartialSum(p, c)
         == SumAt(p, c + [0], Cube(p.numVars - |c| - 1)) + SumAt(p, c + [1], Cube(p.numVars - |c| - 1))
  {
    var m := p.numVars - |c| - 1;
    PartialSumOver(p, c, m + 1);
    CompletionsOfCube(m + 1);
    SumAtCubeHalves(p, c, m);
  }

  /** Summing over the next coordinate: S(c ++ [0]) + S(c ++ [1]) = S(c). */
  lemma {:induction false} PartialSumSplit(p: MPoly, c: seq<int>)
    requires Valid(p) && |c| < p.numVars
    ensures PartialSum(p, c + [0]) + PartialSum(p, c + [1]) == PartialSum(p, c)
  {
    if |c| + 1 == p.numVars {
      SumAtPair(p, c);
      PartialSumComplete(p, c + [0]);
      PartialSumComplete(p, c + [1]);
    } else {
      PartialSumInner(p, c, 0);
      PartialSumInner(p, c, 1);
      PartialSumHalves(p, c);
    }
  }

  /** The prover's sum of partial evaluations in variable k, one per point of pts. */
  function SumPartials(p: MPoly, k: nat, c: seq<int>, pts: seq<Point>): UPoly
    requires Valid(p) && |c| == k && PointsFit(c + [0], pts, p.numVars)
  {
    if |pts| == 0 then []
    else Add(SumPartials(p, k, c, pts[..|pts| - 1]), PartialEval(p, k, c, pts[|pts| - 1]))
  }

  /**
   * The honest prover's message after the challenges c: in the last round
   * the partial evaluation at c itself, before it the partial evaluations in
   * variable |c| summed over the points of hypercube(n - |c| - 1).
   */
  function Message(p: MPoly, c: seq<int>): UPoly
    requires Valid(p) && |c| < p.numVars
  {
    if |c| + 1 == p.numVars then PartialEval(p, |c|, c, [])
    else SumPartials(p, |c|, c, Cube(p.numVars - |c| - 1))
  }

  lemma {:induction false} SumPartialsStep(p: MPoly, k: nat, c: seq<int>, pts: seq<Point>, i: nat)
    requires Valid(p) && |c| == k && PointsFit(c + [0], pts, p.numVars) && i < |pts|
    ensures PointsFit(c + [0], pts[..i + 1], p.numVars) && PointsFit(c + [0], pts[..i], p.numVars)
    ensures SumPartials(p, k, c, pts[..i + 1]) == Add(SumPartials(p, k, c, pts[..i]), PartialEval(p, k, c, pts[i]))
  {
    assert pts[..i + 1][..i] == pts[..i];
  }

  /**
   * Prover::message: in the last round adds the direct partial evaluation to
   * the zero polynomial; otherwise adds the partial evaluation for each point
   * of hypercube(n - |c| - 1) in turn.
   */
  method ProverMessage(p: MPoly, challenges: seq<int>) returns (output: UPoly)
    requires Valid(p) && |challenges| < p.numVars
    ensures output == Message(p, challenges)
  {
    output := [];
    var k := |challenges|;
    if k == p.numVars - 1 {
      var g := PolynomialPartialEvaluate(p, k, challenges, []);
      AddToEmpty(g);
      output := Add(output, g);
    } else {
      var points := Hypercube(p.numVars - k - 1);
      for i := 0 to |points|
        invariant output == SumPartials(p, k, challenges, points[..i])
      {
        var g := PolynomialPartialEvaluate(p, k, challenges, points[i]);
        SumPartialsStep(p, k, challenges, points, i);
        output := Add(output, g);
      }
      assert points[..|points|] == points;
    }
  }

  lemma {:induction false} EvalSumPartials(p: MPoly, k: nat, c: seq<int>, pts: seq<Point>, x: int)
    requires Valid(p) && |c| == k && PointsFit(c + [0], pts, p.numVars)
    ensures PointsFit(c + [x], pts, p.numVars)
    ensures Eval(SumPartials(p, k, c, pts), x) == SumAt(p, c + [x], pts)
  {
    if |pts| > 0 {
      var pre, h := pts[..|pts| - 1], pts[|pts| - 1];
      EvalSumPartials(p, k, c, pre, x);
      EvalAdd(SumPartials(p, k, c, pre), PartialEval(p, k, c, h), x);
      PartialEvalAgrees(p, k, c, h, x);
    }
  }

  /** In the last round the honest message at x is p at c ++ [x]. */
  lemma {:induction false} MessageEvalLast(p: MPoly, c: seq<int>, x: int)
    requires Valid(p) && |c| + 1 == p.numVars
    ensures Eval(Message(p, c), x) == Evaluate(p, c + [x])
  {
    PartialEvalAgrees(p, |c|, c, [], x);
    assert c + [x] + [] == c + [x];
  }

  /** Before the last round the honest message at x sums p over c ++ [x] ++ h for h in hypercube(n - |c| - 1). */
  lemma {:induction false} MessageEvalInner(p: MPoly, c: seq<int>, x: int)
    requires Valid(p) && |c| + 1 < p.numVars
    ensures PointsFit(c + [x], Cube(p.numVars - |c| - 1), p.numVars)
    ensures Eval(Message(p, c), x) == SumAt(p, c + [x], Cube(p.numVars - |c| - 1))
  {
    EvalSumPartials(p, |c|, c, Cube(p.numVars - |c| - 1), x);
  }

  lemma {:induction false} PartialSumInner(p: MPoly, c: seq<int>, x: int)
    requires Valid(p) && |c| + 1 < p.numVars
    ensures PointsFit(c + [x], Cube(p.numVars - |c| - 1), p.numVars)
    ensures PartialSum(p, c + [x]) == SumAt(p, c + [x], Cube(p.numVars - |c| - 1))
  {
    var m := p.numVars - |c| - 1;
    assert p.numVars - |c + [x]| == m;
    CompletionsOfCube(m);
  }

  /** The honest message evaluated at x is the partial sum at c ++ [x]. */
  lemma {:induction false} MessageEval(p: MPoly, c: seq<int>, x: int)
    requires Valid(p) && |c| < p.numVars
    ensures Eval(Message(p, c), x) == PartialSum(p, c + [x])
  {
    if |c| + 1 == p.numVars {
      MessageEvalLast(p, c, x);
      PartialSumComplete(p, c + [x]);
    } else {
      MessageEvalInner(p, c, x);
      PartialSumInner(p, c, x);
    }
  }

  /** The honest message's round sum is the partial sum at the challenges so far. */
  lemma {:induction false} RoundSumIsPartialSum(p: MPoly, c: seq<int>)
    requires Valid(p) && |c| < p.numVars
    ensures RoundSum(Message(p, c)) == PartialSum(p, c)
  {
    var g := Message(p, c);
    assert RoundSum(g) == Eval(g, 0) + Eval(g, 1);
    MessageEval(p, c, 0);
    MessageEval(p, c, 1);
    PartialSumSplit(p, c);
  }

  /** Round 0 of an honest run: g_0(0) + g_0(1) equals the claimed hypercube sum. */
  lemma {:induction false} FirstRoundConsistent(p: MPoly)
    requires Valid(p) && p.numVars >= 1
    ensures RoundSum(Message(p, [])) == HypercubeSum(p)
  {
    RoundSumIsPartialSum(p, []);
    assert Completions(p.numVars) == Cube(p.numVars);
  }

  /** Round i >= 1 of an honest run: g_i(0) + g_i(1) equals g_{i-1}(r_{i-1}). */
  lemma {:induction false} LaterRoundConsistent(p: MPoly, r: seq<int>, i: nat)
    requires Valid(p) && |r| == p.numVars && 1 <= i < p.numVars
    ensures RoundSum(Message(p, r[..i])) == Eval(Message(p, r[..i - 1]), r[i - 1])
  {
    RoundSumIsPartialSum(p, r[..i]);
    MessageEval(p, r[..i - 1], r[i - 1]);
    TakeOneMore(r, i - 1);
  }

  /** The final check of an honest run: g_{n-1}(r_{n-1}) equals p(r). */
  lemma {:induction false} FinalRoundConsistent(p: MPoly, r: seq<int>)
    requires Valid(p) && |r| == p.numVars >= 1
    ensures Eval(Message(p, r[..|r| - 1]), r[|r| - 1]) == Evaluate(p, r)
  {
    MessageEval(p, r[..|r| - 1], r[|r| - 1]);
    assert r[..|r| - 1] + [r[|r| - 1]] == r;
    PartialSumComplete(p, r);
  }

  lemma {:induction false} SumPartialsLength(p: MPoly, k: nat, c: seq<int>, pts: seq<Point>)
    requires Valid(p) && |c| == k && PointsFit(c + [0], pts, p.numVars)
    ensures |SumPartials(p, k, c, pts)| <= VariableDegree(p, k) + 1
  {
    if |pts| > 0 {
      SumPartialsLength(p, k, c, pts[..|pts| - 1]);
      PartialEvalLength(p, k, c, pts[|pts| - 1]);
    }
  }

  /** The honest message never exceeds the polynomial's degree in the round's variable. */
  lemma {:induction false} HonestDegree(p: MPoly, c: seq<int>)
    requires Valid(p) && |c| < p.numVars
    ensures Degree(Message(p, c)) <= VariableDegree(p, |c|)
  {
    if |c| + 1 == p.numVars {
      PartialEvalLength(p, |c|, c, []);
    } else {
      SumPartialsLength(p, |c|, c, Cube(p.numVars - |c| - 1));
    }
    DegreeAtMost(Message(p, c), VariableDegree(p, |c|));
  }

  /** The check that failed in a rejected run. */
  datatype Check = SumMismatch | DegreeExceeded | FinalMismatch

  /**
   * The result of a run. `Stuck` is a polynomial without variables: there
   * is no round, so no message for the final check to read.
   */
  datatype Outcome = Accepted | Rejected(round: nat, failed: Check) | Stuck

  /**
   * The degree bound the verifier compares each message against: the
   * heuristic of degree_in_one_variable, or the polynomial's degree in the
   * round's variable.
   */
  datatype DegreeRule = Heuristic | Exact

  function RoundBound(p: MPoly, i: nat, rule: DegreeRule): nat
    requires Valid(p) && i < p.numVars
  {
    match rule
    case Heuristic => HeuristicDegree(p, i)
    case Exact => VariableDegree(p, i)
  }

  /** The verifier's degree bound for round i, computed as the rule says. */
  method DegreeBound(p: MPoly, i: nat, rule: DegreeRule) returns (bound: nat)
    requires Valid(p) && i < p.numVars
    ensures bound == RoundBound(p, i, rule)
    ensures bound <= VariableDegree(p, i)
  {
    match rule {
      case Heuristic => bound := DegreeInOneVariable(p, i);
      case Exact => bound := VariableDegree(p, i);
    }
  }

  /** The outcome of one round's checks. */
  datatype RoundResult = Pass | Fail(check: Check)

  /**
   * The value message i of a transcript must sum to over {0,1}: the claimed
   * sum c in round 0, otherwise the previous message at the previous
   * challenge.
   */
  function RoundTarget(c: int, ms: seq<UPoly>, r: seq<int>, i: nat): int
    requires i < |ms| && i <= |r|
  {
    if i == 0 then c else Eval(ms[i - 1], r[i - 1])
  }

  /**
   * The verifier's checks in round i of the transcript ms, r: the message's
   * round sum must equal the target in F_101, and then its degree must not
   * exceed the round's bound.
   */
  function RoundCheck(c: int, ms: seq<UPoly>, r: seq<int>, i: nat, bound: nat): RoundResult
    requires i < |ms| && i <= |r|
  {
    if Fe(RoundSum(ms[i])) != Fe(RoundTarget(c, ms, r, i)) then Fail(SumMismatch)
    else if Degree(ms[i]) > bound then Fail(DegreeExceeded)
    else Pass
  }

  /** The sum check of round |issued|, then (only if it passed) the degree check. */
  method VerifierRound(p: MPoly, c: int, messages: seq<UPoly>, issued: seq<int>, rule: DegreeRule)
    returns (result: RoundResult)
    requires Valid(p) && |issued| < p.numVars && |messages| == |issued| + 1
    ensures result == RoundCheck(c, messages, issued, |issued|, RoundBound(p, |issued|, rule))
  {
    var i := |issued|;
    var sum := RoundSum(messages[i]);
    var target := if i == 0 then c else Eval(messages[i - 1], issued[i - 1]);
    if Fe(sum) == Fe(target) {
      var bound := DegreeBound(p, i, rule);
      if Degree(messages[i]) <= bound {
        result := Pass;
      } else {
        result := Fail(DegreeExceeded);
      }
    } else {
      result := Fail(SumMismatch);
    }
  }

  /** The degree bound of every round, as the rule computes it. */
  function Bounds(p: MPoly, rule: DegreeRule): (bs: seq<nat>)
    requires Valid(p)
    ensures |bs| == p.numVars
  {
    seq(p.numVars, i requires 0 <= i < p.numVars => RoundBound(p, i, rule))
  }

  /** The final check: the last message at the last challenge equals p at all challenges, in F_101. */
  predicate FinalCheck(p: MPoly, ms: seq<UPoly>, r: seq<int>)
    requires Valid(p) && |ms| == |r| == p.numVars >= 1
  {
    Fe(Eval(ms[|ms| - 1], r[|r| - 1])) == Fe(Evaluate(p, r))
  }

  /**
   * The verdict on the transcript ms, r with the round bounds bs from round
   * i on: the first failing round check, else the final check.
   */
  function VerdictOn(p: MPoly, c: int, ms: seq<UPoly>, r: seq<int>, bs: seq<nat>, i: nat): Outcome
    requires Valid(p) && |ms| == |r| == |bs| == p.numVars >= 1 && i <= p.numVars
    decreases p.numVars - i
  {
    if i == p.numVars then (if FinalCheck(p, ms, r) then Accepted else Rejected(i, FinalMismatch))
    else match RoundCheck(c, ms, r, i, bs[i])
      case Fail(check) => Rejected(i, check)
      case Pass => VerdictOn(p, c, ms, r, bs, i + 1)
  }

  /**
   * The verifier accepts a transcript from round i on exactly when every
   * remaining round check and the final check pass.
   */
  lemma {:induction false} AcceptedExactly(p: MPoly, c: int, ms: seq<UPoly>, r: seq<int>, bs: seq<nat>, i: nat)
    requires Valid(p) && |ms| == |r| == |bs| == p.numVars >= 1 && i <= p.numVars
    ensures VerdictOn(p, c, ms, r, bs, i) == Accepted <==>
              (forall j :: i <= j < p.numVars ==> RoundCheck(c, ms, r, j, bs[j]) == Pass) && FinalCheck(p, ms, r)
    decreases p.numVars - i
  {
    if i < p.numVars {
      AcceptedExactly(p, c, ms, r, bs, i + 1);
    }
  }

  /** Every round sum of the transcript meets its target, and the final check passes. */
  predicate SumsHold(p: MPoly, c: int, ms: seq<UPoly>, r: seq<int>)
    requires Valid(p) && |ms| == |r| == p.numVars >= 1
  {
    (forall i :: 0 <= i < p.numVars ==> Fe(RoundSum(ms[i])) == Fe(RoundTarget(c, ms, r, i))) &&
    FinalCheck(p, ms, r)
  }

  /** The first round from i on whose message exceeds its bound, or |ms| if there is none. */
  function FirstDegreeFailure(ms: seq<UPoly>, bs: seq<nat>, i: nat): (f: nat)
    requires |ms| == |bs| && i <= |ms|
    ensures i <= f <= |ms|
    ensures f < |ms| ==> Degree(ms[f]) > bs[f]
    decreases |ms| - i
  {
    if i == |ms| || Degree(ms[i]) > bs[i] then i
    else FirstDegreeFailure(ms, bs, i + 1)
  }

  /** Every round from i up to the first failure is within its bound. */
  lemma {:induction false} BeforeFirstDegreeFailure(ms: seq<UPoly>, bs: seq<nat>, i: nat, j: nat)
    requires |ms| == |bs| && i <= j && i <= |ms|
    requires j < FirstDegreeFailure(ms, bs, i)
    ensures Degree(ms[j]) <= bs[j]
    decreases j - i
  {
    if i < j {
      BeforeFirstDegreeFailure(ms, bs, i + 1, j);
    }
  }

  /** Once a round's sum check passes, its outcome is the degree check's. */
  lemma {:induction false} RoundCheckWhenSumHolds(c: int, ms: seq<UPoly>, r: seq<int>, i: nat, bound: nat)
    requires i < |ms| && i <= |r|
    requires Fe(RoundSum(ms[i])) == Fe(RoundTarget(c, ms, r, i))
    ensures RoundCheck(c, ms, r, i, bound) == if Degree(ms[i]) > bound then Fail(DegreeExceeded) else Pass
  {
  }

  /**
   * On a transcript whose round sums and final check all hold, the verdict
   * from round i on is decided by the degree checks alone: rejected in the
   * first round that exceeds its bound, accepted if none does.
   */
  lemma {:induction false} VerdictBySumsHolding(p: MPoly, c: int, ms: seq<UPoly>, r: seq<int>, bs: seq<nat>, i: nat)
    requires Valid(p) && |ms| == |r| == |bs| == p.numVars >= 1 && i <= p.numVars
    requires SumsHold(p, c, ms, r)
    ensures VerdictOn(p, c, ms, r, bs, i) ==
              var f := FirstDegreeFailure(ms, bs, i);
              if f == p.numVars then Accepted else Rejected(f, DegreeExceeded)
    decreases p.numVars - i
  {
    if i < p.numVars {
      RoundCheckWhenSumHolds(c, ms, r, i, bs[i]);
      if Degree(ms[i]) <= bs[i] {
        VerdictBySumsHolding(p, c, ms, r, bs, i + 1);
      }
    }
  }

  /**
   * On a transcript whose round sums and final check all hold, the verifier
   * accepts exactly when every message is within its bound, and otherwise
   * rejects by the degree check of the first message that is not.
   */
  lemma {:induction false} OutcomeBySumsHolding(p: MPoly, c: int, ms: seq<UPoly>, r: seq<int>, bs: seq<nat>)
    requires Valid(p) && |ms| == |r| == |bs| == p.numVars >= 1
    requires SumsHold(p, c, ms, r)
    ensures VerdictOn(p, c, ms, r, bs, 0) == Accepted <==>
              forall j :: 0 <= j < p.numVars ==> Degree(ms[j]) <= bs[j]
    ensures VerdictOn(p, c, ms, r, bs, 0).Rejected? ==>
              var v := VerdictOn(p, c, ms, r, bs, 0);
              v.failed == DegreeExceeded && v.round < p.numVars && Degree(ms[v.round]) > bs[v.round] &&
              forall j :: 0 <= j < v.round ==> Degree(ms[j]) <= bs[j]
    ensures VerdictOn(p, c, ms, r, bs, 0) != Stuck
  {
    VerdictBySumsHolding(p, c, ms, r, bs, 0);
    forall j | 0 <= j < FirstDegreeFailure(ms, bs, 0)
      ensures Degree(ms[j]) <= bs[j]
    {
      BeforeFirstDegreeFailure(ms, bs, 0, j);
    }
  }

  /** The honest prover's first k messages against the challenges r. */
  function HonestMessages(p: MPoly, r: seq<int>, k: nat): (ms: seq<UPoly>)
    requires Valid(p) && |r| == p.numVars && k <= p.numVars
    ensures |ms| == k
  {
    if k == 0 then [] else HonestMessages(p, r, k - 1) + [Message(p, r[..k - 1])]
  }

  /** Entry j of the honest transcript is the honest message after the first j challenges. */
  lemma {:induction false} HonestMessageAt(p: MPoly, r: seq<int>, k: nat, j: nat)
    requires Valid(p) && |r| == p.numVars && j < k <= p.numVars
    ensures HonestMessages(p, r, k)[j] == Message(p, r[..j])
  {
    var prev, last := HonestMessages(p, r, k - 1), Message(p, r[..k - 1]);
    assert HonestMessages(p, r, k) == prev + [last];
    if j < k - 1 {
      HonestMessageAt(p, r, k - 1, j);
      assert (prev + [last])[j] == prev[j];
    } else {
      assert j == k - 1;
      assert (prev + [last])[j] == last;
    }
  }

  lemma {:induction false} TakeOneMore(s: seq<int>, i: nat)
    requires i < |s|
    ensures s[..i + 1] == s[..i] + [s[i]]
  {
  }

  /** The verdict of a run of the honest prover against the challenges r. */
  function Verdict(p: MPoly, r: seq<int>, rule: DegreeRule): Outcome
    requires Valid(p) && |r| == p.numVars
  {
    if p.numVars == 0 then Stuck
    else VerdictOn(p, HypercubeSum(p), HonestMessages(p, r, p.numVars), r, Bounds(p, rule), 0)
  }

  /** Round i's check reads the same on the honest transcript so far as on the whole honest transcript. */
  lemma {:induction false} HonestRoundCheck(p: MPoly, c: int, r: seq<int>, rule: DegreeRule, i: nat)
    requires Valid(p) && |r| == p.numVars && i < p.numVars
    ensures RoundCheck(c, HonestMessages(p, r, i + 1), r[..i], i, RoundBound(p, i, rule)) ==
            RoundCheck(c, HonestMessages(p, r, p.numVars), r, i, Bounds(p, rule)[i])
  {
    HonestMessageAt(p, r, i + 1, i);
    HonestMessageAt(p, r, p.numVars, i);
    if i > 0 {
      HonestMessageAt(p, r, i + 1, i - 1);
      HonestMessageAt(p, r, p.numVars, i - 1);
      assert r[..i][i - 1] == r[i - 1];
    }
  }

  /**
   * run_sumcheck_protocol: computes C, then for each round appends the
   * prover's message, checks its round sum against the target and its
   * degree against the bound, and issues the round's challenge only when
   * both pass; then the final check compares the last message at the last
   * challenge with p at all challenges. A failed check ends the run with
   * that round and check.
   */
  method RunSumcheckProtocol(p: MPoly, challenges: seq<int>, rule: DegreeRule)
    returns (outcome: Outcome, messages: seq<UPoly>, issued: seq<int>)
    requires Valid(p) && |challenges| == p.numVars
    ensures outcome == Verdict(p, challenges, rule)
    ensures |issued| <= |messages| <= p.numVars
    ensures messages == HonestMessages(p, challenges, |messages|)
    ensures issued == challenges[..|issued|]
    ensures outcome.Rejected? && outcome.round < p.numVars ==>
              |messages| == outcome.round + 1 && |issued| == outcome.round
    ensures !(outcome.Rejected? && outcome.round < p.numVars) ==>
              |messages| == |issued| == p.numVars
  {
    var n := p.numVars;
    var c := HypercubeEvaluation(p);
    ghost var transcript := HonestMessages(p, challenges, n);
    messages, issued := [], [];
    for i := 0 to n
      invariant messages == HonestMessages(p, challenges, i)
      invariant issued == challenges[..i]
      invariant n >= 1 ==> Verdict(p, challenges, rule) == VerdictOn(p, c, transcript, challenges, Bounds(p, rule), i)
    {
      var g := ProverMessage(p, issued);
      messages := messages + [g];
      var result := VerifierRound(p, c, messages, issued, rule);
      HonestRoundCheck(p, c, challenges, rule, i);
      if result.Fail? {
        outcome := Rejected(i, result.check);
        return;
      }
      TakeOneMore(challenges, i);
      issued := issued + [challenges[i]];
    }
    if n == 0 {
      outcome := Stuck;
      return;
    }
    assert issued == challenges;
    if Fe(Eval(messages[n - 1], issued[n - 1])) == Fe(Evaluate(p, issued)) {
      outcome := Accepted;
    } else {
      outcome := Rejected(n, FinalMismatch);
    }
  }

  /**
   * An honest message always passes its round's sum check: round 0 sums to
   * C and round i >= 1 to the previous message at the previous challenge.
   */
  lemma {:induction false} HonestRoundSum(p: MPoly, r: seq<int>, i: nat)
    requires Valid(p) && |r| == p.numVars && i < p.numVars
    ensures RoundSum(HonestMessages(p, r, p.numVars)[i]) ==
            RoundTarget(HypercubeSum(p), HonestMessages(p, r, p.numVars), r, i)
  {
    HonestMessageAt(p, r, p.numVars, i);
    if i == 0 {
      assert r[..0] == [];
      FirstRoundConsistent(p);
    } else {
      HonestMessageAt(p, r, p.numVars, i - 1);
      LaterRoundConsistent(p, r, i);
    }
  }

  /** The honest transcript passes every sum check and the final check. */
  lemma {:induction false} HonestSumsHold(p: MPoly, r: seq<int>)
    requires Valid(p) && |r| == p.numVars >= 1
    ensures SumsHold(p, HypercubeSum(p), HonestMessages(p, r, p.numVars), r)
  {
    var ms := HonestMessages(p, r, p.numVars);
    forall i | 0 <= i < p.numVars
      ensures Fe(RoundSum(ms[i])) == Fe(RoundTarget(HypercubeSum(p), ms, r, i))
    {
      HonestRoundSum(p, r, i);
    }
    HonestMessageAt(p, r, p.numVars, p.numVars - 1);
    FinalRoundConsistent(p, r);
  }

  /** The honest message of round i is within the round's degree bound. */
  predicate DegreeCheckPasses(p: MPoly, r: seq<int>, rule: DegreeRule, i: nat)
    requires Valid(p) && |r| == p.numVars && i < p.numVars
  {
    Degree(Message(p, r[..i])) <= RoundBound(p, i, rule)
  }

  /**
   * What an honest run ends in, for n >= 1: accepted exactly when every
   * message passes the degree bound; otherwise rejected by the degree check
   * of the first round whose message exceeds the bound, never by a sum
   * check or the final check.
   */
  lemma {:induction false} HonestOutcome(p: MPoly, r: seq<int>, rule: DegreeRule)
    requires Valid(p) && |r| == p.numVars >= 1
    ensures Verdict(p, r, rule) == Accepted <==>
              forall j :: 0 <= j < p.numVars ==> DegreeCheckPasses(p, r, rule, j)
    ensures Verdict(p, r, rule).Rejected? ==>
              var v := Verdict(p, r, rule);
              v.failed == DegreeExceeded && v.round < p.numVars &&
              !DegreeCheckPasses(p, r, rule, v.round) &&
              forall j :: 0 <= j < v.round ==> DegreeCheckPasses(p, r, rule, j)
    ensures Verdict(p, r, rule) != Stuck
  {
    var ms, bs := HonestMessages(p, r, p.numVars), Bounds(p, rule);
    HonestSumsHold(p, r);
    OutcomeBySumsHolding(p, HypercubeSum(p), ms, r, bs);
    HonestDegreeChecks(p, r, rule);
  }

  /** Round j's degree check on the honest transcript is DegreeCheckPasses. */
  lemma {:induction false} HonestDegreeChecks(p: MPoly, r: seq<int>, rule: DegreeRule)
    requires Valid(p) && |r| == p.numVars
    ensures forall j :: 0 <= j < p.numVars ==>
              (Degree(HonestMessages(p, r, p.numVars)[j]) <= Bounds(p, rule)[j]) == DegreeCheckPasses(p, r, rule, j)
  {
    forall j | 0 <= j < p.numVars
      ensures (Degree(HonestMessages(p, r, p.numVars)[j]) <= Bounds(p, rule)[j]) == DegreeCheckPasses(p, r, rule, j)
    {
      HonestMessageAt(p, r, p.numVars, j);
    }
  }

  /** An honest run whose round-0 message exceeds its bound is rejected there, whatever the challenges. */
  lemma {:induction false} FirstRoundOverBound(p: MPoly, r: seq<int>, rule: DegreeRule)
    requires Valid(p) && |r| == p.numVars >= 1
    requires !DegreeCheckPasses(p, r, rule, 0)
    ensures Verdict(p, r, rule) == Rejected(0, DegreeExceeded)
  {
    HonestOutcome(p, r, rule);
    var v := Verdict(p, r, rule);
    assert v != Accepted && v != Stuck;
    assert v.round == 0;
  }

  /**
   * Completeness: with the degree bound taken as the polynomial's degree in
   * each variable, the honest prover is accepted whatever the challenges.
   */
  lemma {:induction false} Completeness(p: MPoly, r: seq<int>)
    requires Valid(p) && |r| == p.numVars >= 1
    ensures Verdict(p, r, Exact) == Accepted
  {
    forall j | 0 <= j < p.numVars ensures DegreeCheckPasses(p, r, Exact, j) {
      HonestDegree(p, r[..j]);
    }
    HonestOutcome(p, r, Exact);
  }

  /**
   * Completeness of the run as written: when in no variable the terms with
   * the largest power cancel at 1, the heuristic bound is the exact degree
   * and the honest prover is accepted whatever the challenges.
   */
  lemma {:induction false} HeuristicCompleteness(p: MPoly, r: seq<int>)
    requires Valid(p) && |r| == p.numVars >= 1
    requires forall k :: 0 <= k < p.numVars ==> NoTopCancellation(p, k)
    ensures Verdict(p, r, Heuristic) == Accepted
  {
    forall j | 0 <= j < p.numVars ensures DegreeCheckPasses(p, r, Heuristic, j) {
      HeuristicExactIff(p, j);
      HonestDegree(p, r[..j]);
    }
    HonestOutcome(p, r, Heuristic);
  }

  /** The demo driver's polynomial 2x0^4 + 3x1^4 + 5x2^4 + 7x3^4 + 17x1 + 11x0x1x2x3. */
  function DemoPolynomial(): (p: MPoly)
    ensures Valid(p) && p.numVars == 4
  {
    MPoly(4, [Term(2, [Factor(0, 4)]), Term(3, [Factor(1, 4)]), Term(5, [Factor(2, 4)]), Term(7, [Factor(3, 4)]),
              Term(17, [Factor(1, 1)]), Term(11, [Factor(0, 1), Factor(1, 1), Factor(2, 1), Factor(3, 1)])])
  }

  /** The power of x_k in each term of the demo polynomial. */
  lemma {:induction false} DemoExponents(k: nat)
    requires k < 4
    ensures forall j :: 0 <= j < 4 ==> ExponentOf(DemoPolynomial().terms[j].monomial, k) == if j == k then 4 else 0
    ensures ExponentOf(DemoPolynomial().terms[4].monomial, k) <= 1
    ensures ExponentOf(DemoPolynomial().terms[5].monomial, k) == 1
  {
    var ts := DemoPolynomial().terms;
    forall j | 0 <= j < 4 ensures ExponentOf(ts[j].monomial, k) == if j == k then 4 else 0 {
      if j == k {
        ExponentOfPresent(ts[j].monomial, 0);
      } else {
        ExponentOfAbsent(ts[j].monomial, k);
      }
    }
    if k == 1 {
      ExponentOfPresent(ts[4].monomial, 0);
    } else {
      ExponentOfAbsent(ts[4].monomial, k);
    }
    ExponentOfPresent(ts[5].monomial, k);
  }

  /** Each variable of the demo polynomial has degree 4. */
  lemma {:induction false} DemoDegree(k: nat)
    requires k < 4
    ensures VariableDegree(DemoPolynomial(), k) == 4
  {
    DemoExponents(k);
    SingleLeadingTerm(DemoPolynomial(), k, k);
  }

  /** In each variable the power 4 comes from a single term, with a coefficient that is not zero. */
  lemma {:induction false} DemoLeadingCoefficient(k: nat)
    requires k < 4
    ensures Fe(CoeffAtExponent(DemoPolynomial().terms, k, 4)) != 0
  {
    DemoExponents(k);
    CoeffAtExponentSingle(DemoPolynomial().terms, k, 4, k);
  }

  /**
   * The demo run: the honest prover is accepted after exactly four rounds,
   * whatever the challenges.
   */
  lemma {:induction false} DemoAccepted(r: seq<int>)
    requires |r| == 4
    ensures Verdict(DemoPolynomial(), r, Heuristic) == Accepted
  {
    forall k | 0 <= k < 4 ensures NoTopCancellation(DemoPolynomial(), k) {
      DemoDegree(k);
      DemoLeadingCoefficient(k);
    }
    HeuristicCompleteness(DemoPolynomial(), r);
  }

  /** A polynomial without variables has no rounds: the run cannot reach a verdict. */
  lemma {:induction false} NoVariablesIsStuck(p: MPoly, rule: DegreeRule)
    requires Valid(p) && p.numVars == 0
    ensures Verdict(p, [], rule) == Stuck && HypercubeSum(p) == 0
  {
  }

  /** x0*x1 - x0 over F_101 (the coefficient -1 written as 100). */
  function CancellingExample(): (p: MPoly)
    ensures Valid(p) && p.numVars == 2
  {
    MPoly(2, [Term(1, [Factor(0, 1), Factor(1, 1)]), Term(100, [Factor(0, 1)])])
  }

  /** With x1 fixed to b, x0*x1 - x0 leaves (b + 100) * x0 (b - 1 modulo 101). */
  lemma {:induction false} CancellingExamplePartial(b: int)
    requires b == 0 || b == 1
    ensures PartialEval(CancellingExample(), 0, [], [b]) == [0, b + 100]
  {
    var p := CancellingExample();
    var t0, t1 := p.terms[0], p.terms[1];
    assert p.terms[..1] == [t0] && [t0][..0] == [];
    assert t0.monomial[..1] == [Factor(0, 1)] && [Factor(0, 1)][..0] == [];
    assert ExponentOf(t0.monomial, 0) == 1 && ExponentOf(t1.monomial, 0) == 1;
    assert PartialCoefficient([Factor(0, 1)], 0, [], [b]) == 1;
    assert Pow(b, 1) == b;
    assert PartialCoefficient(t0.monomial, 0, [], [b]) == b;
    assert PartialCoefficient(t1.monomial, 0, [], [b]) == 1;
    assert Scale(Mono(b, 1), 1) == [0, b];
    assert Scale(Mono(1, 1), 100) == [0, 100];
    assert Add([], [0, b]) == [0, b];
    assert PartialEvalTerms([t0], 0, [], [b]) == [0, b];
    assert Add([0, b], [0, 100]) == [0, b + 100];
  }

  /** The honest round-0 message for x0*x1 - x0 is 201 * x0, that is -x0 modulo 101. */
  lemma {:induction false} CancellingExampleMessage()
    ensures Message(CancellingExample(), []) == [0, 201]
  {
    var p := CancellingExample();
    CancellingExamplePartial(0);
    CancellingExamplePartial(1);
    var cube := Cube(1);
    assert cube[..1] == [[0]] && cube[..1][..0] == [];
    assert Add([], [0, 100]) == [0, 100];
    assert SumPartials(p, 0, [], [[0]]) == [0, 100];
    assert Add([0, 100], [0, 101]) == [0, 201];
    assert SumPartials(p, 0, [], cube) == Add(SumPartials(p, 0, [], [[0]]), [0, 101]);
  }

  /**
   * The degree heuristic understates the degree of x0*x1 - x0 in x0: setting
   * x1 to 1 cancels both terms, so it reports 0, while the honest round-0
   * message is -x0, of degree 1. The as-written run therefore rejects the
   * honest prover in round 0, whatever the challenges.
   */
  lemma {:induction false} HeuristicRejectsHonestProver(r: seq<int>)
    requires |r| == 2
    ensures HeuristicDegree(CancellingExample(), 0) == 0
    ensures Degree(Message(CancellingExample(), [])) == 1 == VariableDegree(CancellingExample(), 0)
    ensures Verdict(CancellingExample(), r, Heuristic) == Rejected(0, DegreeExceeded)
  {
    var p := CancellingExample();
    CancellingExampleDegrees();
    assert r[..0] == [];
    FirstRoundOverBound(p, r, Heuristic);
  }

  lemma {:induction false} CancellingExampleDegrees()
    ensures HeuristicDegree(CancellingExample(), 0) == 0
    ensures Degree(Message(CancellingExample(), [])) == 1 == VariableDegree(CancellingExample(), 0)
  {
    var p := CancellingExample();
    assert p.terms[..1] == [p.terms[0]] && [p.terms[0]][..0] == [];
    assert p.terms[0].monomial[..1] == [Factor(0, 1)];
    assert VariableDegree(p, 0) == 1;
    CancellingExamplePartial(1);
    assert Ones(0) == [] && Ones(1) == [1];
    assert HeuristicDegree(p, 0) == Degree([0, 101]);
    assert Degree([0, 101]) == 0;
    CancellingExampleMessage();
    assert Degree([0, 201]) == 1;
  }
}
