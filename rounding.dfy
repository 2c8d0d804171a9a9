/** Exact integer arithmetic standing in for PHP's float `round`. */
module Rounding {

  function Abs(x: int): nat {
    if x < 0 then -x else x
  }

  /** Multiplying by a positive number keeps a strict order, both ways. */
  lemma MulStrict(a: int, b: int, c: int)
    requires c > 0
    ensures a < b <==> a * c < b * c
  {
    assert b * c - a * c == (b - a) * c;
  }

  /** `round(a / b)` for `a >= 0`, `b > 0`: the nearest integer, a half
      rounded up: `m * b - a`, doubled, lies in (-b, b]. */
  function RoundNonNegative(a: nat, b: nat): (m: nat)
    requires b > 0
    ensures 0 < b + 2 * (m * b - a) <= 2 * b
  {
    var q := (2 * a + b) / (2 * b);
    var r := (2 * a + b) % (2 * b);
    assert 2 * a + b == 2 * b * q + r && 0 <= r < 2 * b;
    assert 2 * (q * b - a) == b - r;
    q
  }

  /** Only one integer lies that near to `a / b` with a half rounded up. */
  lemma RoundNonNegativeUnique(a: nat, b: nat, m1: int)
    requires b > 0 && 0 < b + 2 * (m1 * b - a) <= 2 * b
    ensures m1 == RoundNonNegative(a, b)
  {
    var m := RoundNonNegative(a, b);
    MulStrict(m, m1 + 1, b);
    MulStrict(m1, m + 1, b);
  }

  /** Rounding a larger quotient never gives a smaller integer. */
  lemma RoundNonNegativeMonotone(a1: nat, a2: nat, b: nat)
    requires a1 <= a2 && b > 0
    ensures RoundNonNegative(a1, b) <= RoundNonNegative(a2, b)
  {
    var m1, m2 := RoundNonNegative(a1, b), RoundNonNegative(a2, b);
    MulStrict(m2, m1, b);
    MulStrict(m2 + 1, m1, b);
  }

  /** PHP's `round` applied to the exact quotient `n / d`: the integer
      nearest to it, a half rounded away from zero. Its magnitude is
      `|n| / |d|` rounded half up, its sign that of `n / d`. */
  function RoundHalfAway(n: int, d: int): (q: int)
    requires d != 0
    ensures 0 < Abs(d) + 2 * (Abs(q) * Abs(d) - Abs(n)) <= 2 * Abs(d)
    ensures q == 0 || (q < 0 <==> (n < 0) != (d < 0))
  {
    var m := RoundNonNegative(Abs(n), Abs(d));
    if (n < 0) == (d < 0) then m else -(m as int)
  }

  /** The contract of RoundHalfAway singles out its result. */
  lemma RoundHalfAwayUnique(n: int, d: int, q1: int)
    requires d != 0
    requires 0 < Abs(d) + 2 * (Abs(q1) * Abs(d) - Abs(n)) <= 2 * Abs(d)
    requires q1 == 0 || (q1 < 0 <==> (n < 0) != (d < 0))
    ensures q1 == RoundHalfAway(n, d)
  {
    RoundNonNegativeUnique(Abs(n), Abs(d), Abs(q1));
  }

  /** For a positive divisor, a larger dividend never rounds lower. */
  lemma RoundHalfAwayMonotone(n1: int, n2: int, d: int)
    requires 0 <= n1 <= n2 && d > 0
    ensures RoundHalfAway(n1, d) <= RoundHalfAway(n2, d)
  {
    RoundNonNegativeMonotone(n1, n2, d);
  }
}
