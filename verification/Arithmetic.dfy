/** Products, quotients and remainders of natural numbers. */
module Arithmetic {

  lemma MulMonotone(p: int, q: int, d: nat)
    requires p <= q
    ensures p * d <= q * d
  {
  }

  lemma NextMultiple(n: nat, p: nat, q: nat)
    ensures p < q ==> n * p + n <= n * q
  {
    if p < q {
      assert n * (p + 1) <= n * q;
    }
  }

  lemma DivisionIsUnique(x: nat, n: nat, q: nat, r: nat)
    requires x == n * q + r && r < n
    ensures x % n == r && x / n == q
  {
    var p, m := x / n, x % n;
    assert n * p + m == n * q + r;
    NextMultiple(n, p, q);
    NextMultiple(n, q, p);
  }

  lemma DivMonotone(a: nat, b: nat, n: nat)
    requires a <= b && n > 0
    ensures a / n <= b / n
  {
    NextMultiple(n, b / n, a / n);
  }

  lemma MulDiv(t: nat, n: nat)
    requires n > 0
    ensures (n * t) / n == t
  {
    DivisionIsUnique(n * t, n, t, 0);
  }

  lemma QuotientAndRemainder(a: nat, n: nat)
    requires n > 0
    ensures a == (a / n) * n + a % n
  {
  }

  /** `y` is the part of `rise` that `e` is of `run`, rounded down. */
  predicate IsShare(y: int, e: int, rise: int, run: int) {
    y * run <= e * rise < y * run + run
  }

  lemma QuotientIsShare(e: nat, rise: nat, run: nat)
    requires run > 0
    ensures IsShare((e * rise) / run, e, rise, run)
  {
    QuotientAndRemainder(e * rise, run);
  }

  lemma SumOfMultiples(n: nat, p: nat, q: nat)
    ensures n * (p + q) == n * p + n * q
  {
  }

  lemma QuotientOfSum(a: nat, b: nat, n: nat)
    requires n > 0
    ensures if a % n + b % n >= n
            then (a + b) / n == a / n + b / n + 1 && (a + b) % n == a % n + b % n - n
            else (a + b) / n == a / n + b / n && (a + b) % n == a % n + b % n
  {
    var q, r, s, t := a / n, a % n, b / n, b % n;
    SumOfMultiples(n, q, s);
    if r + t >= n {
      SumOfMultiples(n, q + s, 1);
      DivisionIsUnique(a + b, n, q + s + 1, r + t - n);
    } else {
      DivisionIsUnique(a + b, n, q + s, r + t);
    }
  }
}
