/** Multiples and remainders, where the verifier needs a hand with products of variables. */
module Arith {

  lemma MulLess(m: nat, a: int, b: int)
    requires m > 0 && m * a < m * b
    ensures a < b
  {
    assert m * (b - a) > 0;
  }

  lemma MulDistributes(m: nat, k: nat)
    ensures m * (k + 1) == m * k + m
  {}

  lemma MulMonotone(m: nat, q: nat, k: nat)
    requires q <= k
    ensures m * q <= m * k
  {
    assert m * k == m * q + m * (k - q);
  }

  lemma DivModUnique(v: nat, m: nat, q: nat, r: nat)
    requires v == r + m * q && r < m
    ensures v / m == q && v % m == r
  {
    var d := q - v / m;
    assert v == m * (v / m) + v % m;
    assert m * d == v % m - r;
    MulLess(m, d, 1);
    MulLess(m, -1, d);
  }

  lemma MultipleMod(q: nat, m: nat)
    requires m > 0
    ensures (q * m) % m == 0
  {
    DivModUnique(q * m, m, q, 0);
  }

  lemma SumMod(a: nat, b: nat, m: nat)
    requires m > 0 && a % m == 0 && b % m == 0
    ensures (a + b) % m == 0
  {
    var p, q := a / m, b / m;
    assert a + b == (p + q) * m;
    MultipleMod(p + q, m);
  }

  /** Rounding up to a multiple adds less than one unit. */
  lemma RoundUp(len: nat, m: nat)
    requires m > 0
    ensures len <= ((len + m - 1) / m) * m < len + m
    ensures ((len + m - 1) / m) * m % m == 0
  {
    var q := (len + m - 1) / m;
    assert len + m - 1 == m * q + (len + m - 1) % m;
    MultipleMod(q, m);
  }

  /** There is no multiple strictly between a multiple and the next one. */
  lemma NextMultiple(p: nat, t: nat, m: nat)
    requires m > 0 && p % m == 0 && t % m == 0 && p < t + m
    ensures p <= t
  {
    var q, k := p / m, t / m;
    MulDistributes(m, k);
    MulLess(m, q, k + 1);
    MulMonotone(m, q, k);
  }

  lemma TimesMod(a: nat, k: nat, m: nat)
    requires m > 0 && a % m == 0
    ensures (a * k) % m == 0
  {
    var q := a / m;
    assert a == m * q;
    assert a * k == (q * k) * m;
    MultipleMod(q * k, m);
  }

  lemma MulPlus(m: nat, a: nat, b: nat)
    ensures m * (a + b) == m * a + m * b
  {}

  lemma MulPlusTimes(b: nat, k: nat, r: nat, m: nat)
    ensures (b * k + r) * m == b * m * k + r * m
  {
    assert (b * k + r) * m == b * k * m + r * m;
  }

  lemma QuotientOrder(m: nat, p: nat, q: nat)
    requires m > 0 && m * p <= m * q
    ensures p <= q
  {
    if q < p {
      MulMonotone(m, q + 1, p);
      MulDistributes(m, q);
    }
  }

  lemma DiffMod(a: nat, b: nat, m: nat)
    requires m > 0 && a % m == 0 && (a + b) % m == 0
    ensures b % m == 0
  {
    var p, q := a / m, (a + b) / m;
    assert a == m * p && a + b == m * q;
    QuotientOrder(m, p, q);
    DiffIsMultiple(m, p, q - p, b);
  }

  lemma DiffIsMultiple(m: nat, p: nat, d: nat, b: nat)
    requires m > 0 && m * p + b == m * (p + d)
    ensures b % m == 0
  {
    MulPlus(m, p, d);
    MultipleMod(d, m);
  }
}
