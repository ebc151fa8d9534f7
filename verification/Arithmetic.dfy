/** The little non-linear arithmetic the project needs. */
module Arithmetic {
  lemma Multiple(k: int, d: int)
    requires d > 0
    ensures k >= 1 ==> k * d >= d
    ensures k <= -1 ==> k * d <= -d
  {}

  /** A number is below the next multiple. */
  lemma Below(a: int, d: int)
    requires d > 0
    ensures a < a / d * d + d
  {
    assert a == a / d * d + a % d;
  }

  /** A quotient is the only number that leaves a remainder in range. */
  lemma Quotient(a: int, d: int, q: int, r: int)
    requires 0 <= r < d && a == q * d + r
    ensures a / d == q
  {
    var p := a / d;
    assert a == p * d + a % d;
    assert (p - q) * d == r - a % d;
    Multiple(p - q, d);
  }

  /** Two numbers have the same quotient exactly when one lies in the aligned block of the other. */
  lemma SameBlock(a: nat, b: nat, d: nat)
    requires d > 0
    ensures a / d == b / d <==> b / d * d <= a < b / d * d + d
  {
    assert a == a / d * d + a % d;
    if b / d * d <= a < b / d * d + d {
      Quotient(a, d, b / d, a - b / d * d);
    }
  }

  /** Halving a quotient doubles the divisor. */
  lemma HalfQuotient(a: nat, d: nat)
    requires d > 0
    ensures a / (2 * d) == a / d / 2
  {
    var q := a / d;
    assert a == q * d + a % d;
    assert q == 2 * (q / 2) + q % 2;
    assert q * d == q / 2 * (2 * d) + q % 2 * d;
    Quotient(a, 2 * d, q / 2, q % 2 * d + a % d);
  }
}
