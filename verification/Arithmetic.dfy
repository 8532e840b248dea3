/** Facts about squares and quotients that several modules need. */
module Arithmetic {
  lemma {:induction false} SquareMonotone(a: nat, b: nat)
    requires a <= b
    ensures a * a <= b * b
  {
    assert b * b == a * a + (b - a) * (b + a);
  }

  lemma {:induction false} DivBounds(a: nat, d: nat)
    requires 0 < d
    ensures a / d * d <= a < (a / d + 1) * d
  {
    assert a == a / d * d + a % d;
    assert (a / d + 1) * d == a / d * d + d;
  }

  lemma {:induction false} TimesAtLeast(d: nat, k: nat)
    requires 0 < k
    ensures d <= k * d
  {
    if k > 1 {
      TimesAtLeast(d, k - 1);
      assert k * d == (k - 1) * d + d;
    }
  }

  lemma {:induction false} MultiplesApart(d: nat, p: int, q: int)
    requires p < q
    ensures p * d + d <= q * d
  {
    TimesAtLeast(d, q - p);
    assert (q - p) * d == q * d - p * d;
  }

  lemma {:induction false} QuotientUnique(x: int, d: nat, q: int, r: nat)
    requires r < d && x == q * d + r
    ensures x / d == q && x % d == r
  {
    var p := x / d;
    assert x == p * d + x % d;
    if p < q {
      MultiplesApart(d, p, q);
      assert false;
    }
    if q < p {
      MultiplesApart(d, q, p);
      assert false;
    }
  }
}
