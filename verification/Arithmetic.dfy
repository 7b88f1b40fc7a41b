/** Facts about products and Euclidean quotients that the solver does not find unaided. */
module Arithmetic {

  lemma TimesMonotone(a: int, b: int, d: int)
    requires a <= b && 0 <= d
    ensures a * d <= b * d
  {
    assert (b - a) * d >= 0;
  }

  lemma QuotientUnique(q: int, r: int, q': int, r': int, d: int)
    requires 0 <= r < d && 0 <= r' < d && q * d + r == q' * d + r'
    ensures q == q' && r == r'
  {
    if q < q' {
      TimesMonotone(q + 1, q', d);
    } else if q' < q {
      TimesMonotone(q' + 1, q, d);
    }
  }

  lemma DivideUnique(q: nat, d: nat, r: nat)
    requires r < d
    ensures (q * d + r) / d == q && (q * d + r) % d == r
  {
    var x := q * d + r;
    QuotientUnique(q, r, x / d, x % d, d);
  }

  /** Quotient and remainder under names of their own, so that proofs can set their definitions aside. */
  function Quot(a: nat, d: nat): nat
    requires 0 < d
  {
    a / d
  }

  function Rem(a: nat, d: nat): (r: nat)
    requires 0 < d
    ensures r < d
  {
    a % d
  }

  lemma QuotRem(a: nat, d: nat)
    requires 0 < d
    ensures a == Quot(a, d) * d + Rem(a, d)
    ensures a < d ==> Quot(a, d) == 0 && Rem(a, d) == a
    ensures d <= a ==> 0 < Quot(a, d)
    ensures 2 <= d && 0 < a ==> Quot(a, d) < a && 2 * Quot(a, d) <= a
  {
    var q, r := a / d, a % d;
    assert a == q * d + r;
    if a < d {
      QuotientUnique(q, r, 0, a, d);
    } else if q == 0 {
      assert false;
    } else if 2 <= d {
      TimesMonotone(2, d, q);
    }
  }

  lemma QuotUnique(q: nat, d: nat, r: nat)
    requires r < d
    ensures Quot(q * d + r, d) == q && Rem(q * d + r, d) == r
  {
    DivideUnique(q, d, r);
  }
}
