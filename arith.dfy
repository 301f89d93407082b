/** Powers of three and the facts about integer division the proofs rest on. */
module Arith {

  function Pow3(k: nat): (r: nat)
    ensures r >= 1
  {
    if k == 0 then 1 else 3 * Pow3(k - 1)
  }

  /** Quotient and remainder are determined by any decomposition x == d*q + r with r < d. */
  lemma DivModUnique(x: nat, d: nat, q: nat, r: nat)
    requires d > 0 && r < d && x == d * q + r
    ensures x / d == q && x % d == r
  {
    MulGap(d, x / d, q);
    MulGap(d, q, x / d);
  }

  /** Multiples of d that differ in the factor differ by at least d. */
  lemma {:induction false} MulGap(d: nat, a: nat, b: nat)
    ensures a < b ==> d * a + d <= d * b
    decreases b
  {
    if a < b {
      assert d * b == d * (b - 1) + d;
      MulGap(d, a, b - 1);
    }
  }

  /** Dividing by 3 and then by p is dividing by 3 * p. */
  lemma DivThreeThenDiv(x: nat, p: nat)
    requires p > 0
    ensures (x / 3) / p == x / (3 * p)
  {
    var q2, r2, r1 := (x / 3) / p, (x / 3) % p, x % 3;
    assert x / 3 == p * q2 + r2;
    assert x == 3 * (p * q2 + r2) + r1;
    assert x == (3 * p) * q2 + (3 * r2 + r1);
    DivModUnique(x, 3 * p, q2, 3 * r2 + r1);
  }

  /** Division by a positive number is monotone in the dividend. */
  lemma DivMonotone(a: nat, b: nat, d: nat)
    requires a <= b && d > 0
    ensures a / d <= b / d
  {
    MulGap(d, b / d, a / d);
  }

  /** A quotient is below q when the dividend is below d * q. */
  lemma DivBelow(x: nat, d: nat, q: nat)
    requires d > 0 && x < d * q
    ensures x / d < q
  {
    MulGap(d, q - 1, x / d);
  }

  /** A quotient is at least q when the dividend is at least d * q. */
  lemma DivAtLeast(x: nat, d: nat, q: nat)
    requires d > 0 && d * q <= x
    ensures q <= x / d
  {
    MulGap(d, x / d, q);
  }
}
