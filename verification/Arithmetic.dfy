/** Division by a variable, which the solver cannot be left alone with. */
module Arithmetic {
  lemma MulMonotone(d: nat, a: nat, b: nat)
    requires a <= b
    ensures d * a <= d * b
  {}

  lemma MulSuccessor(d: nat, a: int)
    ensures d * (a + 1) == d * a + d
  {}

  /** A product the solver need not look into. */
  function Times(d: nat, a: nat): nat { d * a }

  lemma TimesMonotone(d: nat, a: nat, b: nat)
    requires a <= b
    ensures Times(d, a) <= Times(d, b)
  {}

  lemma TimesSuccessor(d: nat, a: nat)
    ensures Times(d, a + 1) == Times(d, a) + d
    ensures Times(d + 1, a) == Times(d, a) + a
  {}

  lemma DivTimes(k: nat, d: nat)
    requires d > 0
    ensures k == Times(d, k / d) + k % d && k % d < d
  {}

  lemma TimesUnique(k: nat, d: nat, q: nat, r: nat)
    requires r < d && k == Times(d, q) + r
    ensures k / d == q && k % d == r
  {
    DivModUnique(k, d, q, r);
  }

  lemma DivModUnique(k: nat, d: nat, q: nat, r: nat)
    requires r < d && k == d * q + r
    ensures k / d == q && k % d == r
  {
    var q', r' := k / d, k % d;
    assert k == d * q' + r';
    MulSuccessor(d, q);
    MulSuccessor(d, q');
    if q < q' {
      MulMonotone(d, q + 1, q');
    } else if q' < q {
      MulMonotone(d, q' + 1, q);
    }
  }

  lemma DivMod(k: nat, d: nat)
    requires d > 0
    ensures k == d * (k / d) + k % d && k % d < d
  {}

  lemma ModMinus(k: nat, d: nat)
    requires 0 < d <= k
    ensures (k - d) % d == k % d
  {
    var q, r := k / d, k % d;
    DivMod(k, d);
    MulSuccessor(d, q - 1);
    assert q > 0;
    DivModUnique(k - d, d, q - 1, r);
  }

  function Quotient(k: nat, d: nat): nat
    requires d > 0
  {
    k / d
  }

  /** k is the least number of d things that make up n. */
  ghost predicate Least(k: nat, n: nat, d: nat) { k * d >= n && (k > 0 ==> (k - 1) * d < n) }

  lemma RoundedUp(n: nat, d: nat)
    requires d > 0
    ensures Least((n + d - 1) / d, n, d)
  {
    var k := (n + d - 1) / d;
    DivMod(n + d - 1, d);
    if k > 0 { MulSuccessor(d, k - 1); }
  }
}
