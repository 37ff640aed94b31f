/** Python's built-in `round` applied to a non-negative quotient `n / d`:
    the nearest integer, with a tie going to the even neighbour. The
    quotient is kept as the exact pair of integers rather than a float. */
module Rounding {

  function Abs(x: int): nat {
    if x < 0 then -x else x
  }

  /** `k` is a round-half-to-even of `n / d`: it lies within one half of the
      quotient, and exactly one half away only when `k` is even. */
  predicate IsHalfEvenRounding(n: int, d: int, k: int)
    requires d > 0
  {
    2 * Abs(d * k - n) < d || (2 * Abs(d * k - n) == d && k % 2 == 0)
  }

  /** `round(n / d)` for a non-negative numerator and positive denominator. */
  function RoundHalfEven(n: nat, d: nat): (k: nat)
    requires d > 0
    ensures IsHalfEvenRounding(n, d, k)
  {
    var q, rem := n / d, n % d;
    QuotientErrors(n, d);
    if 2 * rem < d then q
    else if 2 * rem > d then q + 1
    else if q % 2 == 0 then q
    else q + 1
  }

  /** The truncated quotient lies `n % d` below `n / d`, and the next
      integer `d - n % d` above it (both scaled by `d`). */
  lemma QuotientErrors(n: nat, d: nat)
    requires d > 0
    ensures d * (n / d) - n == -(n % d)
    ensures d * (n / d + 1) - n == d - n % d
  {
    assert d * (n / d + 1) == d * (n / d) + d;
  }

  /** Two integers one apart cannot both lie within one half of `n / d`
      unless both are exactly one half away. */
  lemma NeighboursClose(n: int, d: int, k: int)
    requires d > 0
    requires 2 * Abs(d * k - n) <= d && 2 * Abs(d * (k + 1) - n) <= d
    ensures 2 * Abs(d * k - n) == d && 2 * Abs(d * (k + 1) - n) == d
  {
    assert d * (k + 1) == d * k + d;
  }

  /** Integers two or more apart cannot both lie within one half of `n / d`. */
  lemma FarApart(n: int, d: int, j: int, k: int)
    requires d > 0 && j + 2 <= k
    requires 2 * Abs(d * j - n) <= d
    ensures 2 * Abs(d * k - n) > d
  {
    MulMonotone(d, j + 2, k);
    assert d * (j + 2) == d * j + 2 * d;
  }

  /** Multiplying by a non-negative factor keeps the order. */
  lemma MulMonotone(d: nat, a: int, b: int)
    requires a <= b
    ensures d * a <= d * b
  {
    assert d * b == d * a + d * (b - a);
  }

  /** The rounding is unique: any round-half-to-even of `n / d` is the one
      `RoundHalfEven` computes. Together with the ensures of `RoundHalfEven`
      this makes `IsHalfEvenRounding` and `RoundHalfEven` agree exactly. */
  lemma RoundHalfEvenUnique(n: nat, d: nat, k: int)
    requires d > 0
    ensures IsHalfEvenRounding(n, d, k) <==> k == RoundHalfEven(n, d)
  {
    var r := RoundHalfEven(n, d);
    if IsHalfEvenRounding(n, d, k) && k != r {
      if k + 2 <= r {
        FarApart(n, d, k, r);
      } else if r + 2 <= k {
        FarApart(n, d, r, k);
      } else if k + 1 == r {
        NeighboursClose(n, d, k);
        assert false;
      } else {
        NeighboursClose(n, d, r);
        assert false;
      }
    }
  }

  /** Rounding does not reverse the order of quotients over one denominator. */
  lemma RoundMonotone(n1: nat, n2: nat, d: nat)
    requires d > 0 && n1 <= n2
    ensures RoundHalfEven(n1, d) <= RoundHalfEven(n2, d)
  {
    var q1, q2 := n1 / d, n2 / d;
    assert d * q1 + n1 % d == n1 && d * q2 + n2 % d == n2;
    if q2 < q1 {
      MulMonotone(d, q2 + 1, q1);
      assert false;
    }
  }

  /** An exact multiple rounds to its quotient. */
  lemma RoundExact(m: nat, d: nat)
    requires d > 0
    ensures RoundHalfEven(d * m, d) == m
  {
    RoundHalfEvenUnique(d * m, d, m);
  }

  /** A proportion of `d` scaled to a percentage rounds into 0..100. */
  lemma RoundPercentBounds(m: nat, d: nat)
    requires d > 0 && m <= d
    ensures RoundHalfEven(100 * m, d) <= 100
  {
    RoundMonotone(100 * m, d * 100, d);
    RoundExact(100, d);
  }
}
