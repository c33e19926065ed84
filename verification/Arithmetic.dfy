/** Products and quotients of numbers that are not constants. */
module Arithmetic {

  lemma MulMono(a: nat, b: nat, x: nat)
    requires a <= b
    ensures a * x <= b * x && x * a <= x * b
  {
  }

  /** A smaller multiple is smaller by one step at least. */
  lemma StepBelow(a: nat, b: nat, x: nat)
    requires a * x < b * x
    ensures a < b && a * x + x <= b * x
  {
    if a < b {
      MulMono(a + 1, b, x);
    } else {
      MulMono(b, a, x);
    }
  }

  lemma StepAbove(a: nat, b: nat, x: nat)
    requires a < b
    ensures a * x + x <= b * x
  {
    MulMono(a + 1, b, x);
  }

  lemma DivMod(x: nat, d: nat)
    requires d > 0
    ensures x == x / d * d + x % d
  {
  }

  /** Quotient and remainder are determined by what they add up to. */
  lemma QuotientUnique(n: nat, p: nat, q: nat, r: nat)
    requires r < p && n == q * p + r
    ensures n / p == q && n % p == r
  {
    var q' := n / p;
    DivMod(n, p);
    if q < q' {
      MulMono(q + 1, q', p);
    } else if q' < q {
      MulMono(q' + 1, q, p);
    }
  }

  lemma QuotientAtMost(n: nat, p: nat, q: nat)
    requires p > 0 && n < (q + 1) * p
    ensures n / p <= q
  {
    DivMod(n, p);
    if n / p > q {
      MulMono(q + 1, n / p, p);
    }
  }

  lemma QuotientAtLeast(n: nat, p: nat, q: nat)
    requires p > 0 && q * p <= n
    ensures n / p >= q
  {
    DivMod(n, p);
    if n / p < q {
      MulMono(n / p + 1, q, p);
    }
  }

  lemma MultipleMod(m: nat, p: nat)
    requires p > 0
    ensures (m * p) % p == 0
  {
    QuotientUnique(m * p, p, m, 0);
  }

  lemma SameRemainder(a: nat, b: nat, k: nat, p: nat)
    requires p > 0 && a == b + k * p
    ensures a % p == b % p
  {
    DivMod(b, p);
    assert (b / p + k) * p == b / p * p + k * p;
    QuotientUnique(a, p, b / p + k, b % p);
  }

  function Power(a: nat, n: nat): nat {
    if n == 0 then 1 else a * Power(a, n - 1)
  }

  /** The quotient grows at the multiples of p. */
  lemma NextQuotient(n: nat, p: nat)
    requires p > 0
    ensures (n + 1) / p == n / p + if (n + 1) % p == 0 then 1 else 0
  {
    var q, r := n / p, n % p;
    DivMod(n, p);
    if r + 1 < p {
      QuotientUnique(n + 1, p, q, r + 1);
    } else {
      assert (q + 1) * p == q * p + p;
      QuotientUnique(n + 1, p, q + 1, 0);
    }
  }
}
