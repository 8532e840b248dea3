/** The integer square root by Newton's method on 64-bit numbers (common/src/statistics.rs). */
module Sqrt {
  import opened Prelude
  import opened Arithmetic

  const MAX: nat := 0xFFFF_FFFF_FFFF_FFFF

  ghost predicate IsRoot(n: nat, r: nat) { r * r <= n < (r + 1) * (r + 1) }

  lemma {:induction false} RootUnique(n: nat, r: nat, s: nat)
    requires IsRoot(n, r) && IsRoot(n, s)
    ensures r == s
  {
    if r < s {
      SquareMonotone(r + 1, s);
    } else if s < r {
      SquareMonotone(s + 1, r);
    }
  }

  lemma {:induction false} MeanSquare(a: nat, b: nat)
    ensures 4 * (a * b) <= (a + b) * (a + b)
  {
    assert (a + b) * (a + b) == 4 * (a * b) + (a - b) * (a - b);
    SquarePositive(a - b);
  }

  lemma {:induction false} SquarePositive(a: int)
    ensures 0 <= a * a
  {
  }

  /** A Newton step from anywhere does not fall below the root. */
  lemma {:induction false} StepAbove(n: nat, x: nat, y: nat)
    requires 0 < x && y == (n / x + x) / 2
    ensures n < (y + 1) * (y + 1)
  {
    DivBounds(n, x);
    HalfAbove(n / x + 1, x, y);
  }

  lemma {:induction false} HalfAbove(a: nat, x: nat, y: nat)
    requires a + x <= 2 * (y + 1)
    ensures a * x <= (y + 1) * (y + 1)
  {
    MeanSquare(a, x);
    SquareMonotone(a + x, 2 * (y + 1));
    Double(y + 1);
  }

  lemma {:induction false} Double(a: nat)
    ensures (2 * a) * (2 * a) == 4 * (a * a)
  {
  }

  lemma {:induction false} StopBelow(n: nat, x: nat)
    requires 0 < x <= (n / x + x) / 2
    ensures x * x <= n
  {
    DivBounds(n, x);
    assert x <= n / x;
    assert x * x <= n / x * x;
  }

  /** The quotient and the guess of a step fit the word together. */
  lemma {:induction false} StepFits(n: nat, x: nat)
    requires 0 < x < n
    ensures n / x + x <= n + 1
  {
    DivBounds(n, x);
    var q := n / x;
    if q > 0 {
      assert q * x == q + x - 1 + (q - 1) * (x - 1);
      ProductPositive(q - 1, x - 1);
    }
  }

  lemma {:induction false} ProductPositive(a: nat, b: nat)
    ensures 0 <= a * b
  {
  }

  /** `None` stands for the overflow of the first sum. */
  method Sqrt(n: nat) returns (r: Option<nat>)
    requires n <= MAX
    ensures r.None? <==> n == MAX
    ensures r.Some? ==> IsRoot(n, r.value)
  {
    if n == 0 {
      return Some(0);
    }
    var x := n;
    if x + 1 > MAX {
      return None;
    }
    var y := (x + 1) / 2;
    assert n / n == 1;
    SquareMonotone(1, n);
    while y < x
      invariant 0 < x <= n && y == (n / x + x) / 2 && n < (x + 1) * (x + 1)
      decreases x
    {
      StepAbove(n, x, y);
      assert 0 < y by {
        assert y == 0 ==> (y + 1) * (y + 1) == 1;
      }
      x := y;
      StepFits(n, x);
      assert n / x + x <= MAX;
      y := (n / x + x) / 2;
    }
    StopBelow(n, x);
    return Some(x);
  }
}
