/** Integer facts the timecode arithmetic rests on, and Python's `round` on an exact quotient. */
module Arith {

  function Abs(x: int): (r: nat)
    ensures r == x || r == -x
  {
    if x < 0 then -x else x
  }

  function Max(a: int, b: int): (r: int)
    ensures r >= a && r >= b && (r == a || r == b)
  {
    if a < b then b else a
  }

  lemma MulAtLeast(k: int, d: int)
    requires k >= 1 && d > 0
    ensures k * d >= d
  {
    assert k * d == (k - 1) * d + d;
  }

  lemma ZeroOrAtLeast(k: nat, d: int)
    requires d > 0
    ensures k == 0 || k * d >= d
  {
    if k != 0 {
      MulAtLeast(k, d);
    }
  }

  /** Euclidean quotient and remainder are determined by the defining equation. */
  lemma DivModUnique(x: int, d: int, q: int, r: int)
    requires d > 0 && 0 <= r < d && x == q * d + r
    ensures x / d == q && x % d == r
  {
    var q', r' := x / d, x % d;
    assert x == q' * d + r';
    if q' < q {
      assert (q - q') * d == r' - r;
      MulAtLeast(q - q', d);
    } else if q' > q {
      assert (q' - q) * d == r - r';
      MulAtLeast(q' - q, d);
    }
  }

  /** Dividing by `a` and then by `b` is dividing by `a * b`. */
  lemma DivDiv(x: int, a: int, b: int)
    requires a > 0 && b > 0
    ensures x / a / b == x / (a * b)
    ensures (x / a) % b == (x % (a * b)) / a
  {
    var q1, r1 := x / a, x % a;
    var q2, r2 := q1 / b, q1 % b;
    NestedQuotient(x, a, b, q1, r1, q2, r2);
    DivModUnique(x, a * b, q2, a * r2 + r1);
    DivModUnique(a * r2 + r1, a, r2, r1);
  }

  /** Two divisions in turn leave a remainder below `a * b` of the form `a * r2 + r1`. */
  lemma NestedQuotient(x: int, a: int, b: int, q1: int, r1: int, q2: int, r2: int)
    requires a > 0 && b > 0 && 0 <= r1 < a && 0 <= r2 < b
    requires x == q1 * a + r1 && q1 == q2 * b + r2
    ensures x == q2 * (a * b) + (a * r2 + r1)
    ensures 0 <= a * r2 + r1 < a * b
  {
    assert q1 * a == q2 * (a * b) + a * r2;
    MulLe(a, 0, r2);
    MulLe(a, r2, b - 1);
  }

  lemma MulLe(a: int, x: int, y: int)
    requires a >= 0 && x <= y
    ensures a * x <= a * y
  {
    assert a * y - a * x == a * (y - x);
  }

  /** A non-negative number has a non-negative quotient. */
  lemma DivNonNegative(x: int, d: int)
    requires x >= 0 && d > 0
    ensures x / d >= 0
  {
    var q := x / d;
    assert x == q * d + x % d;
    if q < 0 {
      MulLe(d, q, -1);
    }
  }

  /** `q * d + r` divided by `d`, for any remainder-like `r`. */
  lemma DivAddMultiple(x: int, q: int, d: int)
    requires d > 0
    ensures (x + q * d) / d == x / d + q
    ensures (x + q * d) % d == x % d
  {
    DivModUnique(x + q * d, d, x / d + q, x % d);
  }

  /**
   * Python's `round` applied to the exact quotient `n / d`: the nearest integer,
   * ties going to the even neighbour.
   */
  function RoundHalfEven(n: int, d: int): (r: int)
    requires d > 0
    ensures 2 * Abs(n - r * d) <= d
    ensures 2 * Abs(n - r * d) == d ==> r % 2 == 0
  {
    var q, rem := n / d, n % d;
    assert n - q * d == rem;
    assert n - (q + 1) * d == rem - d;
    if 2 * rem < d then q
    else if 2 * rem > d then q + 1
    else if q % 2 == 0 then q
    else q + 1
  }

  /** Two integers both within half a unit of `n / d`, one strictly, are equal. */
  lemma NearestUnique(n: int, d: int, a: int, b: int)
    requires d > 0
    requires 2 * Abs(n - a * d) < d && 2 * Abs(n - b * d) <= d
    ensures a == b
  {
    var k := Abs(a - b);
    assert k * d == Abs(a * d - b * d);
    ZeroOrAtLeast(k, d);
  }

  lemma {:induction false} RoundHalfEvenUnique(n: int, d: int, a: int)
    requires d > 0 && 2 * Abs(n - a * d) < d
    ensures RoundHalfEven(n, d) == a
  {
    NearestUnique(n, d, a, RoundHalfEven(n, d));
  }

  lemma {:induction false} RoundHalfEvenExact(k: int, d: int)
    requires d > 0
    ensures RoundHalfEven(k * d, d) == k
  {
    RoundHalfEvenUnique(k * d, d, k);
  }
}
