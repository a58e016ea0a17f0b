/** Products, quotients and powers of two, proved once for the other modules. */
module Arithmetic {

  function Pow2(k: nat): (p: nat)
    ensures p > 0
  {
    if k == 0 then 1 else 2 * Pow2(k - 1)
  }

  lemma {:induction false} MulStep(a: int, b: int, n: nat)
    requires a < b
    ensures a * n + n <= b * n
    decreases b - a
  {
    assert (b - 1) * n + n == b * n;
    if a + 1 < b {
      MulStep(a, b - 1, n);
    }
  }

  lemma MulMonotone(a: int, b: int, n: nat)
    requires a <= b
    ensures a * n <= b * n
  {
    if a < b {
      MulStep(a, b, n);
    }
  }

  lemma MulAssociates(a: int, b: int, c: int)
    ensures (a * b) * c == a * (b * c)
  {
  }

  lemma MulDistributes(a: int, b: int, c: int)
    ensures (a + b) * c == a * c + b * c
    ensures (a - b) * c == a * c - b * c
  {
  }

  /** Quotient and remainder are determined by their equation; `/` rounds down. */
  lemma DivModUnique(x: int, q: int, m: nat, n: nat)
    requires m < n && x == q * n + m
    ensures x / n == q && x % n == m
  {
    var q' := x / n;
    assert x == q' * n + x % n;
    if q < q' {
      MulStep(q, q', n);
    } else if q' < q {
      MulStep(q', q, n);
    }
  }

  lemma ModPeriodic(y: int, q: int, n: nat)
    requires n > 0
    ensures (y + q * n) % n == y % n
  {
    MulDistributes(y / n, q, n);
    DivModUnique(y + q * n, y / n + q, y % n, n);
  }

  lemma {:induction false} PowAdd(a: nat, b: nat)
    ensures Pow2(a + b) == Pow2(a) * Pow2(b)
  {
    if a > 0 {
      PowAdd(a - 1, b);
      MulAssociates(2, Pow2(a - 1), Pow2(b));
    }
  }

  /** (v mod p) scaled by f is v * f modulo f * p. */
  lemma ModScales(v: nat, p: nat, f: nat)
    requires p > 0 && f > 0
    ensures f * p > 0 && f * (v % p) == v * f % (f * p)
  {
    var q, m := v / p, v % p;
    MulStep(m, p, f);
    MulDistributes(q * p, m, f);
    MulAssociates(q, p, f);
    DivModUnique(v * f, q, m * f, p * f);
  }

  /** Rounding down a value shifted by a multiple of the divisor. */
  lemma DivShifts(v: int, k: int, p: nat)
    requires p > 0
    ensures (v + k * p) / p == v / p + k
  {
    MulDistributes(v / p, k, p);
    DivModUnique(v + k * p, v / p + k, v % p, p);
  }

  lemma SmallMod(x: nat, n: nat)
    requires x < n
    ensures x % n == x
  {
    DivModUnique(x, 0, x, n);
  }

  /** (v - k p) / p, modulo k p. */
  lemma NegativeQuotient(v: nat, p: nat, k: nat, t: nat)
    requires p > 0 && t > 0 && t == k * p
    ensures (v - t) / p % t == (v / p + k * (p - 1)) % t
  {
    DivShifts(v - t, k, p);
    MulDistributes(p, 1, k);
    var x, y := (v - t) / p, v / p + k * (p - 1);
    assert y == x + 1 * t;
    ModPeriodic(x, 1, t);
  }

  lemma ModOfMod(x: int, k: nat, n: nat)
    requires k > 0 && n > 0
    ensures k * n > 0 && x % (k * n) % n == x % n
  {
    MulMonotone(1, k, n);
    var q := x / (k * n);
    assert x == q * (k * n) + x % (k * n);
    MulAssociates(q, k, n);
    ModPeriodic(x % (k * n), q * k, n);
  }

  function Quotient(v: nat, p: nat): (q: nat)
    requires p > 0
    ensures q == v / p
  {
    DivModUnique(v, v / p, v % p, p);
    v / p
  }
}
