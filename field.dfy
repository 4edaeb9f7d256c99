/**
 * The prime field F_101 that the demo and the tests instantiate, and
 * exponentiation by a non-negative power.
 *
 * A field element is represented by any integer; `Fe` gives its canonical
 * representative in [0, 101). Every operation of the sum-check core is a
 * ring operation (addition and multiplication, no inverses), and reduction
 * modulo a prime is a ring homomorphism, so computing on integer
 * representatives and reducing wherever the protocol compares two elements
 * (or asks whether a coefficient is zero) gives exactly the answers the
 * field computation gives.
 */
module Field {

  /**
   * Canonical representative of a field element of F_101, the field used by
   * the demo driver and the tests. The modulus is written as a literal so
   * that reduction stays linear arithmetic for the verifier.
   */
  function Fe(x: int): (r: int)
    ensures 0 <= r < 101
    ensures (x - r) % 101 == 0
  {
    x % 101
  }

  /** x raised to the k-th power, the mathematical definition. */
  function Pow(x: int, k: nat): int
  {
    if k == 0 then 1 else x * Pow(x, k - 1)
  }

  /** Exponents add: x^(a+b) = x^a * x^b. */
  lemma {:induction false} PowAdd(x: int, a: nat, b: nat)
    ensures Pow(x, a + b) == Pow(x, a) * Pow(x, b)
  {
    if a > 0 {
      PowAdd(x, a - 1, b);
      var u, v := Pow(x, a - 1), Pow(x, b);
      assert Pow(x, a + b) == x * (u * v);
      assert x * (u * v) == (x * u) * v;
    }
  }

  /** Power 0 gives one for every base, zero included; power 1 gives the base. */
  lemma {:induction false} PowBaseCases(x: int)
    ensures Pow(x, 0) == 1 && Pow(0, 0) == 1
    ensures Pow(x, 1) == x
  {
  }

  /** Every power of one is one. */
  lemma {:induction false} PowOfOne(k: nat)
    ensures Pow(1, k) == 1
  {
    if k > 0 {
      PowOfOne(k - 1);
    }
  }

  /** The two right-hand factors of a product can be swapped. */
  lemma {:induction false} MulSwapRight(a: int, b: int, c: int)
    ensures (a * b) * c == (a * c) * b
  {
  }

  /**
   * raise_to_power: power 0 yields one, power 1 returns the input, any
   * larger power multiplies an accumulator that starts at one by the input
   * `power` times.
   */
  method RaiseToPower(input: int, power: nat) returns (output: int)
    ensures output == Pow(input, power)
  {
    if power == 0 {
      output := 1;
    } else if power == 1 {
      output := input;
    } else {
      output := 1;
      for i := 0 to power
        invariant output == Pow(input, i)
      {
        output := output * input;
      }
    }
  }

  /** The test case: 2^5 = 32 in F_101. */
  lemma {:induction false} RaiseToPowerExample()
    ensures Fe(Pow(2, 5)) == 32
  {
  }
}
