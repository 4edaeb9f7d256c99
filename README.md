# Sum-check protocol, modelled in Dafny

This project models the core of a small Rust implementation of the
interactive sum-check protocol (section 4.1 of Thaler's *Proofs, Arguments,
and Zero-Knowledge*). A prover claims the sum C of a multivariate polynomial
P over the boolean hypercube {0,1}^n. The verifier checks the claim in n
rounds. In round i the prover sends a univariate polynomial g_i. The verifier
checks g_i(0) + g_i(1) against the previous round's value and checks the
degree of g_i against a bound. It then issues a challenge r_i. A final check
compares g_{n-1}(r_{n-1}) with P(r_0, …, r_{n-1}).

Modules, leaves first:

- `Field` (`field.dfy`): the prime field F_101 of the demo and the tests, and
  `raise_to_power`. A field element is an integer representative, and `Fe`
  reduces it modulo 101. The core only adds and multiplies, and reduction
  modulo a prime respects both, so the model reduces only where the source
  compares two elements or asks whether a coefficient is zero.
- `BooleanHypercube` (`hypercube.dfy`): `hypercube(k)` by the same doubling
  recursion, characterised by binary counting.
- `Polynomial` (`polynomial.dfy`): sparse multivariate polynomials (a variable
  count and a list of (coefficient, monomial) terms) and univariate polynomials
  (a dense coefficient list), with evaluation, addition, scaling and degree.
- `PartialEvaluation` (`partial_evaluation.dfy`): `monomial_evaluate`,
  `monomial_partial_evaluate`, `polynomial_partial_evaluate`,
  `degree_in_one_variable` and `univariate_hypercube_evaluate`.
- `Protocol` (`protocol.dfy`): `hypercube_evaluation`, `Prover::message`, the
  verifier's checks and the round loop of `run_sumcheck_protocol`, with the
  completeness argument.

Each routine that loops in the source is a `method` with the same loop. It is
proved equal to a recursive specification function, and the properties are
lemmas about those functions.

The random challenges are an input sequence with one value per round. The run
returns an `Outcome`: `Accepted`, `Rejected(round, check)` or `Stuck`. It also
returns the transcript (the prover's messages and the challenges issued).
The source crashes on several of its failure paths. The model turns each of
them into an outcome:

- A sum mismatch `break`s out of the loop (src/protocol.rs:268-270, 282-284).
  The final check then reads `provers_messages[n-1]` and
  `random_challenges[n-1]`, which do not exist yet. The model returns
  `Rejected(i, SumMismatch)`.
- A failed degree check neither rejects nor issues a challenge
  (src/protocol.rs:262-267, 276-281). The next round, or the final check,
  then reads a challenge that was never issued. The model returns
  `Rejected(i, DegreeExceeded)`.
- With n = 0 the loop never runs, and `num_vars - 1` underflows at the final
  check. The model returns `Stuck`.
- A final mismatch prints a rejection. The model returns
  `Rejected(n, FinalMismatch)`.

The degree bound is a parameter of the run. `Heuristic` is
`degree_in_one_variable` as written. `Exact` is the polynomial's largest
power of the round's variable (see Findings).

## Model

| member | source | states |
|---|---|---|
| `Field.Fe` | src/main.rs:27-32 | the canonical representative of a field element lies in [0, 101) and is congruent to it |
| `Field.RaiseToPower` | src/protocol.rs:101-113 | the result is input^power for every power ≥ 0, through the power-0, power-1 and loop branches |
| `Field.PowBaseCases` | src/protocol.rs:102-105 | power 0 gives one for every base, zero included; power 1 gives the base |
| `Field.PowAdd` | src/protocol.rs:101-113 | x^(a+b) = x^a · x^b for all a, b ≥ 0 |
| `Field.RaiseToPowerExample` | src/tests.rs:32-35 | 2^5 = 32 in F_101 |
| `BooleanHypercube.Hypercube` | src/protocol.rs:71-85 | the loop builds the list of the doubling recursion: empty for size 0, [[0],[1]] for size 1, each smaller point extended by 0 and then by 1 |
| `BooleanHypercube.CubeBits` | src/protocol.rs:75-83 | point j of hypercube(k) is the k-bit binary representation of j, so points come in counting order with the last coordinate varying fastest |
| `BooleanHypercube.CubeIsHypercube` | src/protocol.rs:71-85 | for k ≥ 1: exactly 2^k points, pairwise distinct, each of length k with 0/1 coordinates, and every 0/1 point of length k occurs |
| `BooleanHypercube.CubeZeroIsEmpty` | src/protocol.rs:72-74 | hypercube(0) is the empty list, not the list holding the empty point |
| `BooleanHypercube.CubeSplit` | src/protocol.rs:78-83 | the points of size k+1 are those of size k with a leading 0, followed by those with a leading 1 |
| `Polynomial.DegreeIsHighestNonzero` | src/protocol.rs:202-208 | the degree of a univariate message is its highest exponent with a coefficient that is nonzero in F_101, and 0 for the zero polynomial |
| `Polynomial.EvalAdd` | src/protocol.rs:170-184 | adding two univariate polynomials adds their values at every point |
| `PartialEvaluation.MonomialEvaluate` | src/protocol.rs:117-126 | the accumulator loop returns the product of coordinate^power over the monomial's pairs |
| `PartialEvaluation.MonomialPartialEvaluate` | src/protocol.rs:133-160 | the loop returns coefficient · x^power: the fixed values of the other variables (prefix before the missing coordinate, suffix after it) raised to their powers, and the power of the missing coordinate (0 if absent) |
| `PartialEvaluation.MonomialPartialAgrees` | src/protocol.rs:117-160 | per monomial, the partial evaluation at x agrees with monomial_evaluate at prefix ++ [x] ++ suffix |
| `PartialEvaluation.PolynomialPartialEvaluate` | src/protocol.rs:164-186 | the loop adds, term by term, coefficient times the monomial's partial evaluation, starting from zero |
| `PartialEvaluation.PartialEvalAgrees` | src/protocol.rs:164-186 | with a prefix of length m and a suffix of length n−m−1, the partial evaluation at x equals P at prefix ++ [x] ++ suffix |
| `PartialEvaluation.PartialEvalLength` | src/protocol.rs:164-186 | whatever the fixed values, the partial evaluation has no power of x above P's degree in that variable |
| `PartialEvaluation.DegreeInOneVariable` | src/protocol.rs:189-209 | the result is the degree of the partial evaluation with every other variable set to 1, and is at most P's degree in the variable |
| `PartialEvaluation.HeuristicAtMostVariableDegree` | src/protocol.rs:189-209 | the heuristic never exceeds the largest power of the variable in any term |
| `PartialEvaluation.CoefAtOnes` | src/protocol.rs:193-207 | with every other variable at 1, the coefficient of x^e is the sum of the coefficients of the terms in which the variable has power e |
| `PartialEvaluation.HeuristicExactIff` | src/protocol.rs:189-209 | the heuristic equals the true degree in the variable if and only if the terms with the largest power do not cancel in F_101 (or the variable is absent) |
| `PartialEvaluation.SingleLeadingTerm` | src/protocol.rs:189-209 | when one term has a strictly largest power of the variable, that power is the degree and the heuristic is exact unless the term's coefficient is zero |
| `PartialEvaluation.RoundSum` | src/protocol.rs:211-215 | p(0) + p(1) is the constant coefficient plus the sum of all coefficients |
| `PartialEvaluation.RoundSumExample` | src/tests.rs:37-44 | for 5 + x² over F_101 the round sum is 11 |
| `Protocol.HypercubeEvaluation` | src/protocol.rs:88-96 | the loop sums P over every point of hypercube(n) |
| `Protocol.HypercubeSumIsBruteForce` | src/protocol.rs:88-96 | for n ≥ 1 that sum equals an independent sum over the binary representations of 0 … 2^n − 1; for n = 0 it is 0 |
| `Protocol.ProverMessage` | src/protocol.rs:33-60 | the last round returns the direct partial evaluation at the challenges; an earlier round sums the partial evaluations over hypercube(n−k−1) |
| `Protocol.MessageEval` | src/protocol.rs:33-60 | the honest message after challenges c, evaluated at x, is the sum of P over every 0/1 completion of c ++ [x] (P at c ++ [x] in the last round) |
| `Protocol.RoundSumIsPartialSum` | src/protocol.rs:33-60 | the honest message's p(0) + p(1) is the sum of P over every 0/1 completion of the challenges so far |
| `Protocol.FirstRoundConsistent` | src/protocol.rs:258-261 | for n ≥ 1, the honest round-0 message sums over {0,1} to the claimed C |
| `Protocol.LaterRoundConsistent` | src/protocol.rs:272-274 | for 1 ≤ i < n, the honest message of round i sums over {0,1} to the previous message at the previous challenge |
| `Protocol.FinalRoundConsistent` | src/protocol.rs:293-295 | the honest last message at the last challenge equals P at all the challenges |
| `Protocol.HonestDegree` | src/protocol.rs:33-60 | the honest message's degree is at most P's degree in the round's variable |
| `Protocol.DegreeBound` | src/protocol.rs:262-263 | the bound a round uses is the rule's bound, and never exceeds P's degree in the round's variable |
| `Protocol.VerifierRound` | src/protocol.rs:258-286 | a round fails on a sum mismatch; only when the sum matches does it compare the degree with the bound |
| `Protocol.AcceptedExactly` | src/protocol.rs:244-300 | the verdict on a transcript is Accepted if and only if every round check and the final check pass |
| `Protocol.OutcomeBySumsHolding` | src/protocol.rs:244-300 | when every sum check and the final check hold, the run is accepted exactly when every message is within its bound, and is otherwise rejected by the first message over its bound |
| `Protocol.RunSumcheckProtocol` | src/protocol.rs:217-301 | the loop runs at most n rounds and appends one honest message per round; it issues that round's challenge only when both checks pass and stops at the first failure; the outcome is the verdict on the honest transcript |
| `Protocol.HonestOutcome` | src/protocol.rs:217-301 | an honest run with n ≥ 1 is never rejected by a sum check or the final check; it is accepted exactly when every message passes the degree bound |
| `Protocol.Completeness` | src/protocol.rs:217-301 | with the exact degree bound, the honest prover is accepted for every choice of challenges |
| `Protocol.HeuristicCompleteness` | src/protocol.rs:189-209 | with the bound as written, the honest prover is accepted for every choice of challenges when no variable's top-power terms cancel at 1 |
| `Protocol.DemoAccepted` | src/main.rs:45-71 | the demo polynomial 2x0⁴+3x1⁴+5x2⁴+7x3⁴+17x1+11x0x1x2x3 is accepted after four rounds for every choice of challenges |
| `Protocol.FirstRoundOverBound` | src/protocol.rs:258-267 | an honest run whose round-0 message exceeds its bound is rejected in round 0 by the degree check |
| `Protocol.HeuristicRejectsHonestProver` | src/protocol.rs:262-267 | for x0·x1 − x0 the heuristic reports 0, the honest round-0 message −x0 has degree 1, and the run as written rejects it |
| `Protocol.NoVariablesIsStuck` | src/protocol.rs:293-295 | a polynomial without variables has C = 0 and no round, so the run cannot reach a verdict |

## Left out

- `Verifier::message` draws each challenge from operating-system entropy through ChaCha20. The model takes the challenges as an input sequence, one per round.
- All console output is left out: the verbose transcript dump and the accept/reject messages. The outcome value carries the same information.
- The arkworks field `Fp64` is not part of this model. The modulus is fixed at 101, as in the demo and the tests. Elements are integer representatives reduced with `Fe` where the source compares them or tests a coefficient for zero.
- The normalisation done by the arkworks polynomial containers (sorting, merging duplicates, dropping zeros) is not modelled. Monomials are assumed well-formed: distinct variable indices, each below n, each power at least 1. Univariate polynomials are dense coefficient lists, and degree ignores coefficients that are zero in F_101.
- The negative-size assertion in `hypercube` is left out. Its size is a `nat`, because every caller derives it from an unsigned count.
- The `i32` conversions that panic for counts of 2^31 or more are left out, as are `usize` wrap-around and the cost of cloning.
- Soundness bounds are left out. They are probabilities over random challenges, and only completeness and the deterministic checks are modelled.
- The verifier's full copy of the polynomial is shared with the prover as one value. No oracle or commitment is modelled.
- The demo driver (src/main.rs) and the test harness (src/tests.rs) are not modelled. Their concrete cases appear as `Protocol.DemoAccepted`, `Field.RaiseToPowerExample` and `PartialEvaluation.RoundSumExample`.

## Findings

| source | as written | input that shows it | evidently intended | confidence | as-written member | corrected member |
|---|---|---|---|---|---|---|
| src/protocol.rs:189-209, 262-267 | the degree bound is the degree left after setting every other variable to 1, which can cancel the top-power terms | P = x0·x1 − x0 over F_101, n = 2, any challenges: the bound for round 0 is 0, and the honest message −x0 has degree 1, so the honest prover is rejected in round 0 | the bound is P's degree in the round's variable, so an honest prover passes every round | high, not executed | `Protocol.HeuristicRejectsHonestProver` | `Protocol.Completeness` |
