/**
 * Enumeration of the boolean hypercube {0,1}^k by the doubling recursion
 * of `hypercube`: every point of size k-1 is extended once with 0 and once
 * with 1, keeping the order, so the last coordinate varies fastest and the
 * points come in binary-counting order. Size 0 gives the empty list (not
 * the list holding the single empty point).
 */
module BooleanHypercube {

  type Point = seq<int>

  /** Power of two, used for the number of points. */
  function Pow2(k: nat): (r: nat)
    ensures r >= 1
  {
    if k == 0 then 1 else 2 * Pow2(k - 1)
  }

  /** The k-bit big-endian binary representation of j, as 0/1 values. */
  function Bits(j: nat, k: nat): (r: Point)
    ensures |r| == k
  {
    if k == 0 then [] else Bits(j / 2, k - 1) + [j % 2]
  }

  /** The number whose big-endian binary representation is v. */
  function FromBits(v: Point): int
  {
    if |v| == 0 then 0 else 2 * FromBits(v[..|v| - 1]) + v[|v| - 1]
  }

  predicate IsBoolean(v: Point)
  {
    forall t :: 0 <= t < |v| ==> v[t] == 0 || v[t] == 1
  }

  /** One doubling step: point i of `prev` yields points 2i (…,0) and 2i+1 (…,1). */
  function Extend(prev: seq<Point>): (r: seq<Point>)
    ensures |r| == 2 * |prev|
  {
    seq(2 * |prev|, j requires 0 <= j < 2 * |prev| => prev[j / 2] + [j % 2])
  }

  /** The list `hypercube(k)` builds. */
  function Cube(k: nat): (r: seq<Point>)
    ensures |r| == if k == 0 then 0 else Pow2(k)
    ensures forall j :: 0 <= j < |r| ==> |r[j]| == k
  {
    if k == 0 then []
    else if k == 1 then [[0], [1]]
    else Extend(Cube(k - 1))
  }

  /** Point j of hypercube(k) is the k-bit binary representation of j. */
  lemma {:induction false} CubeBits(k: nat, j: nat)
    requires j < |Cube(k)|
    ensures Cube(k)[j] == Bits(j, k)
  {
    if k == 1 {
      assert Bits(j, 1) == Bits(j / 2, 0) + [j % 2];
    } else if k > 1 {
      var prev := Cube(k - 1);
      var h := j / 2;
      assert |Cube(k)| == 2 * |prev|;
      assert h < |prev|;
      CubeBits(k - 1, h);
      assert Cube(k)[j] == Extend(prev)[j] == prev[h] + [j % 2];
      assert Bits(j, k) == Bits(h, k - 1) + [j % 2];
    }
  }

  /**
   * hypercube: size 0 gives the empty list, size 1 the two one-coordinate
   * points, a larger size pushes each point of the size-1 list extended by 0
   * and then by 1.
   */
  method Hypercube(size: nat) returns (output: seq<Point>)
    ensures output == Cube(size)
    decreases size
  {
    if size == 0 {
      output := [];
    } else if size == 1 {
      output := [[0], [1]];
    } else {
      var prev := Hypercube(size - 1);
      output := [];
      for i := 0 to |prev|
        invariant output == Extend(prev[..i])
      {
        ExtendStep(prev, i);
        output := output + [prev[i] + [0]];
        output := output + [prev[i] + [1]];
      }
      assert prev[..|prev|] == prev;
    }
  }

  /** Every point of Cube(k) has k coordinates, each 0 or 1. */
  lemma {:induction false} BitsBoolean(j: nat, k: nat)
    ensures IsBoolean(Bits(j, k))
  {
    if k > 0 {
      BitsBoolean(j / 2, k - 1);
    }
  }

  lemma {:induction false} BitsInjective(i: nat, j: nat, k: nat)
    requires i < Pow2(k) && j < Pow2(k)
    requires Bits(i, k) == Bits(j, k)
    ensures i == j
  {
    if k > 0 {
      var bi, bj := Bits(i, k), Bits(j, k);
      assert bi[..k - 1] == Bits(i / 2, k - 1);
      assert bj[..k - 1] == Bits(j / 2, k - 1);
      assert bi[k - 1] == i % 2 && bj[k - 1] == j % 2;
      BitsInjective(i / 2, j / 2, k - 1);
    }
  }

  lemma {:induction false} BitsOfFromBits(v: Point)
    requires IsBoolean(v)
    ensures 0 <= FromBits(v) < Pow2(|v|)
    ensures Bits(FromBits(v), |v|) == v
  {
    if |v| > 0 {
      var w := v[..|v| - 1];
      BitsOfFromBits(w);
      assert v == w + [v[|v| - 1]];
    }
  }

  /**
   * Shape of hypercube(k) for k >= 1: exactly 2^k points, pairwise distinct,
   * each of length k with 0/1 coordinates, and every 0/1 point of length k
   * occurs, at the index its binary value gives.
   */
  lemma {:induction false} CubeIsHypercube(k: nat)
    requires k >= 1
    ensures |Cube(k)| == Pow2(k)
    ensures forall j :: 0 <= j < |Cube(k)| ==> |Cube(k)[j]| == k && IsBoolean(Cube(k)[j])
    ensures forall i, j :: 0 <= i < j < |Cube(k)| ==> Cube(k)[i] != Cube(k)[j]
    ensures forall v: Point :: |v| == k && IsBoolean(v) ==>
              0 <= FromBits(v) < |Cube(k)| && Cube(k)[FromBits(v)] == v
  {
    var c := Cube(k);
    forall j | 0 <= j < |c| ensures |c[j]| == k && IsBoolean(c[j]) {
      CubeBits(k, j);
      BitsBoolean(j, k);
    }
    forall i, j | 0 <= i < j < |c| ensures c[i] != c[j] {
      CubeBits(k, i);
      CubeBits(k, j);
      if c[i] == c[j] {
        BitsInjective(i, j, k);
      }
    }
    forall v: Point | |v| == k && IsBoolean(v)
      ensures 0 <= FromBits(v) < |c| && c[FromBits(v)] == v
    {
      BitsOfFromBits(v);
      CubeBits(k, FromBits(v));
    }
  }

  /** Size 0 gives no points at all, so a fold over it yields its start value. */
  lemma {:induction false} CubeZeroIsEmpty()
    ensures Cube(0) == []
  {
  }

  /** The list with b put in front of every point. */
  function Prepend(b: int, pts: seq<Point>): (r: seq<Point>)
    ensures |r| == |pts|
  {
    seq(|pts|, j requires 0 <= j < |pts| => [b] + pts[j])
  }

  lemma {:induction false} ExtendAppend(a: seq<Point>, b: seq<Point>)
    ensures Extend(a + b) == Extend(a) + Extend(b)
  {
    var l, r := Extend(a + b), Extend(a) + Extend(b);
    forall j | 0 <= j < |l| ensures l[j] == r[j] {
      if j >= 2 * |a| {
        var j' := j - 2 * |a|;
        assert j' / 2 == j / 2 - |a| && j' % 2 == j % 2;
        assert r[j] == Extend(b)[j'];
      }
    }
  }

  /** Extending one more point appends its two extensions. */
  lemma {:induction false} ExtendStep(prev: seq<Point>, i: nat)
    requires i < |prev|
    ensures Extend(prev[..i + 1]) == Extend(prev[..i]) + [prev[i] + [0], prev[i] + [1]]
  {
    assert prev[..i + 1] == prev[..i] + [prev[i]];
    ExtendAppend(prev[..i], [prev[i]]);
    assert Extend([prev[i]]) == [prev[i] + [0], prev[i] + [1]];
  }

  lemma {:induction false} ExtendPrepend(b: int, pts: seq<Point>)
    ensures Extend(Prepend(b, pts)) == Prepend(b, Extend(pts))
  {
    var l, r := Extend(Prepend(b, pts)), Prepend(b, Extend(pts));
    forall j | 0 <= j < |l| ensures l[j] == r[j] {
      assert l[j] == ([b] + pts[j / 2]) + [j % 2];
      assert r[j] == [b] + (pts[j / 2] + [j % 2]);
    }
  }

  /**
   * For k >= 1 the points of size k+1 are those of size k with a leading 0,
   * followed by those with a leading 1: the first coordinate varies slowest.
   */
  lemma {:induction false} CubeSplit(k: nat)
    requires k >= 1
    ensures Cube(k + 1) == Prepend(0, Cube(k)) + Prepend(1, Cube(k))
  {
    if k == 1 {
      var l, r := Cube(2), Prepend(0, Cube(1)) + Prepend(1, Cube(1));
      assert |l| == 4 == |r|;
      forall j | 0 <= j < 4 ensures l[j] == r[j] {
        CubeBits(2, j);
      }
    } else {
      var c := Cube(k - 1);
      CubeSplit(k - 1);
      calc {
        Cube(k + 1);
        Extend(Cube(k));
        Extend(Prepend(0, c) + Prepend(1, c));
        { ExtendAppend(Prepend(0, c), Prepend(1, c)); }
        Extend(Prepend(0, c)) + Extend(Prepend(1, c));
        { ExtendPrepend(0, c); ExtendPrepend(1, c); }
        Prepend(0, Extend(c)) + Prepend(1, Extend(c));
      }
    }
  }
}
