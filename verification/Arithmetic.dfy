/** Facts about multiplication, division and remainder that the solver does not find by itself. */
module Arithmetic {
  lemma {:induction false} MulGap(n: nat, a: nat, b: nat)
    requires a < b
    ensures n * a + n <= n * b
    decreases b
  {
    assert n * b == n * (b - 1) + n;
    if a < b - 1 {
      MulGap(n, a, b - 1);
    }
  }

  /** Division with remainder is unique. */
  lemma DivUnique(x: nat, n: nat, q: nat, r: nat)
    requires n > 0 && r < n && x == n * q + r
    ensures x / n == q && x % n == r
  {
    var q', r' := x / n, x % n;
    assert x == n * q' + r';
    if q < q' {
      MulGap(n, q, q');
    } else if q' < q {
      MulGap(n, q', q);
    }
  }

  lemma ModStep(x: nat, d: nat, n: nat)
    requires n > 0 && x % n + d < n
    ensures (x + d) % n == x % n + d
  {
    DivUnique(x + d, n, x / n, x % n + d);
  }

  lemma DivMono(a: nat, b: nat, e: nat)
    requires e > 0 && a <= b
    ensures a / e <= b / e
  {
    assert a == e * (a / e) + a % e && b == e * (b / e) + b % e;
    if b / e < a / e {
      MulGap(e, b / e, a / e);
    }
  }

  lemma DivDrop(a: nat, c: nat, e: nat)
    requires e > 0 && e <= c <= a
    ensures (a - c) / e + 1 <= a / e
  {
    var q := (a - e) / e;
    assert a - e == e * q + (a - e) % e;
    assert e * (q + 1) == e * q + e;
    DivUnique(a, e, q + 1, (a - e) % e);
    DivMono(a - c, a - e, e);
  }

  lemma MulMono(a: nat, b: nat, n: nat)
    requires a <= b
    ensures a * n <= b * n
  {
    if a < b {
      MulGap(n, a, b);
    }
  }

  lemma DivSmaller(x: nat, n: nat)
    requires n > 0
    ensures x / n <= x
  {
    assert x == n * (x / n) + x % n;
    MulMono(1, n, x / n);
  }

  lemma DivBound(k: nat, p: nat, n: nat)
    requires p > 0 && k < p * n
    ensures k / p < n
  {
    assert k == p * (k / p) + k % p;
    if n <= k / p {
      MulMono(n, k / p, p);
    }
  }

  /** Quotient and remainder as repeated subtraction, for divisors that are not constants. */
  function Quot(k: nat, p: nat): nat
    requires p > 0
  {
    if k < p then 0 else 1 + Quot(k - p, p)
  }

  function Rem(k: nat, p: nat): (r: nat)
    requires p > 0
    ensures r < p
  {
    if k < p then k else Rem(k - p, p)
  }

  lemma {:induction false} QuotRem(k: nat, p: nat)
    requires p > 0
    ensures k == p * Quot(k, p) + Rem(k, p)
  {
    if k >= p {
      QuotRem(k - p, p);
      assert p * (1 + Quot(k - p, p)) == p + p * Quot(k - p, p);
    }
  }

  lemma QuotJoin(k: nat, p: nat)
    requires p > 0
    ensures Quot(k, p) * p + Rem(k, p) == k
  {
    QuotRem(k, p);
    assert p * Quot(k, p) == Quot(k, p) * p;
  }

  lemma QuotIs(k: nat, p: nat)
    requires p > 0
    ensures k / p == Quot(k, p) && k % p == Rem(k, p)
  {
    QuotRem(k, p);
    DivUnique(k, p, Quot(k, p), Rem(k, p));
  }

  lemma {:induction false} QuotOf(b: nat, p: nat, r: nat)
    requires r < p
    ensures Quot(b * p + r, p) == b && Rem(b * p + r, p) == r
    decreases b
  {
    if b > 0 {
      assert b * p + r == ((b - 1) * p + r) + p;
      QuotOf(b - 1, p, r);
    }
  }

  lemma {:induction false} QuotMono(a: nat, b: nat, p: nat)
    requires p > 0 && a <= b
    ensures Quot(a, p) <= Quot(b, p)
    decreases b
  {
    if a >= p {
      QuotMono(a - p, b - p, p);
    }
  }

  lemma QuotBound(k: nat, p: nat, n: nat)
    requires p > 0 && k < p * n
    ensures Quot(k, p) < n
  {
    QuotIs(k, p);
    DivBound(k, p, n);
  }
}
