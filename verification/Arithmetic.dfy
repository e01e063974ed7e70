/** Facts about products and quotients that the other modules share. */
module Arithmetic {
  lemma Division(n: nat, d: nat)
    requires d > 0
    ensures n == n / d * d + n % d
    ensures n / d * d <= n < (n / d + 1) * d
  {
    assert n == n / d * d + n % d;
  }

  /** Only one quotient and remainder fit. */
  lemma Quotient(n: nat, d: nat, q: nat, r: nat)
    requires n == q * d + r && r < d
    ensures n / d == q && n % d == r
  {
    var p, s := n / d, n % d;
    Division(n, d);
    if p < q {
      Product(p + 1, q, d);
    } else if q < p {
      Product(q + 1, p, d);
    }
  }

  lemma Product(a: nat, b: nat, c: nat)
    requires a <= b
    ensures a * c <= b * c
  {
  }

  /** a and b differ by a multiple of m. */
  ghost predicate Congruent(a: int, b: int, m: nat) {
    exists k: int :: DifferBy(a, b, k, m)
  }

  predicate DifferBy(a: int, b: int, k: int, m: nat) {
    a - b == k * m
  }

  lemma CongruentTimes(a: int, b: int, c: int, m: nat)
    requires Congruent(a, b, m)
    ensures Congruent(a * c, b * c, m)
  {
    var k: int :| DifferBy(a, b, k, m);
    Reordered(a, b, c, k, m);
    assert DifferBy(a * c, b * c, k * c, m);
  }

  lemma Reordered(a: int, b: int, c: int, k: int, m: nat)
    requires a - b == k * m
    ensures a * c - b * c == k * c * m
  {
    assert a * c - b * c == (a - b) * c;
  }

  lemma CongruentThrough(a: int, b: int, c: int, m: nat)
    requires Congruent(a, b, m) && Congruent(b, c, m)
    ensures Congruent(a, c, m)
  {
    var j: int :| DifferBy(a, b, j, m);
    var k: int :| DifferBy(b, c, k, m);
    assert (j + k) * m == j * m + k * m;
    assert DifferBy(a, c, j + k, m);
  }

  /** Of the numbers in a range of m only one is congruent to a given one. */
  lemma OneInRange(a: int, b: int, low: int, m: nat)
    requires low <= a < low + m && low <= b < low + m && Congruent(a, b, m)
    ensures a == b
  {
    var k: int :| DifferBy(a, b, k, m);
    if k > 0 {
      Product(1, k, m);
    } else if k < 0 {
      Product(1, -k, m);
    }
  }

  lemma NextMultiple(k: nat, m: nat)
    ensures (k + 1) * m == k * m + m
  {
  }
}
