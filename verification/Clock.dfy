/** Fixed-point conversion of time-stamp counts to nanoseconds (kernel/src/subsystem/clock/system_clock.rs). */
module Clock {
  import opened Arithmetic

  const SCALE: nat := 0x1_0000_0000
  const BILLION: nat := 1_000_000_000
  const WORD: nat := 0x1_0000_0000_0000_0000

  /** Nanoseconds per count for frequency `f`, rounded, with 32 binary places. */
  function Mult(f: nat): nat
    requires 0 < f < WORD
  {
    (BILLION * SCALE + f / 2) / f
  }

  /** The product is formed in 128 bits, and its upper part cut to 64. */
  function TscToNs(t: nat, mult: nat): nat {
    t * mult / SCALE % WORD
  }

  /** The multiplier is within half a unit of the exact one, and nothing overflows while it is computed. */
  lemma {:induction false} MultExact(f: nat)
    requires 0 < f < WORD
    ensures BILLION * SCALE + f / 2 < WORD && Mult(f) < WORD
    ensures -(f as int) <= 2 * (Mult(f) * f - BILLION * SCALE) <= f
  {
    var a := BILLION * SCALE + f / 2;
    DivBounds(a, f);
    var m := Mult(f);
    assert (m + 1) * f == m * f + f;
    if m >= WORD {
      Grows(m, f);
    }
  }

  lemma {:induction false} Grows(m: nat, f: nat)
    requires 0 < f
    ensures m <= m * f
  {
    assert m * f == m + m * (f - 1);
  }

  lemma {:induction false} ProductMonotone(a: nat, b: nat, m: nat)
    requires a <= b
    ensures a * m <= b * m
  {
    assert b * m == a * m + (b - a) * m;
  }

  /** Later counts give later times, as long as the time fits 64 bits; the product fits 128 bits always. */
  lemma {:induction false} Monotone(t: nat, u: nat, f: nat)
    requires 0 < f < WORD && t <= u < WORD && u * Mult(f) / SCALE < WORD
    ensures TscToNs(t, Mult(f)) <= TscToNs(u, Mult(f))
    ensures u * Mult(f) < WORD * WORD
  {
    var m := Mult(f);
    MultExact(f);
    ProductMonotone(t, u, m);
    QuotientMonotone(t * m, u * m, SCALE);
    DivBounds(u * m, SCALE);
  }

  lemma {:induction false} QuotientMonotone(a: nat, b: nat, n: nat)
    requires a <= b && 0 < n
    ensures a / n <= b / n
  {
    DivBounds(a, n);
    DivBounds(b, n);
    if b / n < a / n {
      ProductMonotone(b / n + 1, a / n, n);
    }
  }

  /** The time differs from `t` counts at `f` per second by less than one nanosecond and one part in 2^33 of `t`. */
  lemma {:induction false} Accurate(t: nat, f: nat)
    requires 0 < f < WORD && t * Mult(f) / SCALE < WORD
    ensures var error := TscToNs(t, Mult(f)) as real - t as real * 1000000000.0 / f as real;
            -(t as real / 8589934592.0) - 1.0 < error <= t as real / 8589934592.0
  {
    var ns := TscToNs(t, Mult(f));
    Counts(t, f, ns);
    Deviation(t, f, Mult(f), ns, t as real, f as real, ns as real);
  }

  lemma {:induction false} Counts(t: nat, f: nat, ns: nat)
    requires 0 < f < WORD && t * Mult(f) / SCALE < WORD && ns == TscToNs(t, Mult(f))
    ensures -(f as int) <= 2 * (Mult(f) * f - BILLION * SCALE) <= f
    ensures ns * SCALE <= t * Mult(f) < (ns + 1) * SCALE
  {
    var m := Mult(f);
    MultExact(f);
    DivBounds(t * m, SCALE);
    Fits(t * m / SCALE);
  }

  lemma {:induction false} Fits(n: nat)
    requires n < WORD
    ensures n % WORD == n
  {
  }

  lemma {:induction false} Deviation(t: nat, f: nat, m: nat, ns: nat, T: real, F: real, N: real)
    requires 0 < f && -(f as int) <= 2 * (m * f - BILLION * SCALE) <= f && ns * SCALE <= t * m < (ns + 1) * SCALE
    requires T == t as real && F == f as real && N == ns as real && 0.0 < F
    ensures -(T / 8589934592.0) - 1.0 < N - T * 1000000000.0 / F <= T / 8589934592.0
  {
    ScaledCast(t, f, m, ns, T, F, N);
    InReals(T, F, N);
  }

  lemma {:induction false} ScaledCast(t: nat, f: nat, m: nat, ns: nat, T: real, F: real, N: real)
    requires 0 < f && -(f as int) <= 2 * (m * f - BILLION * SCALE) <= f && ns * SCALE <= t * m < (ns + 1) * SCALE
    requires T == t as real && F == f as real && N == ns as real
    ensures -(T * F) - F * 8589934592.0 < (N * F - T * 1000000000.0) * 8589934592.0 <= T * F
  {
    Scaled(t, m, f, m * f - BILLION * SCALE, ns);
    Cast(t, f, ns);
  }

  /** The error, multiplied out. */
  lemma {:induction false} Scaled(t: nat, m: nat, f: nat, d: int, ns: nat)
    requires 0 < f && m * f == BILLION * SCALE + d && -(f as int) <= 2 * d <= f
    requires ns * SCALE <= t * m < ns * SCALE + SCALE
    ensures -(t * f) - f * 8589934592 < (ns * f - t * BILLION) * 8589934592 <= t * f
  {
    var low: nat := t * m - ns * SCALE;
    Remainder(t, m, f, d, ns, low);
    HalfBound(t, f, d);
    Below(low, SCALE, f);
  }

  lemma {:induction false} Remainder(t: nat, m: nat, f: nat, d: int, ns: nat, low: nat)
    requires m * f == BILLION * SCALE + d && t * m == ns * SCALE + low
    ensures low * f == BILLION * SCALE * t + t * d - SCALE * (ns * f)
  {
    calc {
      low * f;
      (t * m - ns * SCALE) * f;
      { Associate(t, m, f); Associate(SCALE, ns, f); }
      t * (m * f) - SCALE * (ns * f);
      { Distribute(t, BILLION * SCALE, d); }
      BILLION * SCALE * t + t * d - SCALE * (ns * f);
    }
  }

  lemma {:induction false} Associate(a: int, b: int, c: int)
    ensures a * b * c == a * (b * c)
  {
  }

  lemma {:induction false} Distribute(a: int, b: int, c: int)
    ensures a * (b + c) == a * b + a * c
  {
  }

  lemma {:induction false} HalfBound(t: nat, f: nat, d: int)
    requires -(f as int) <= 2 * d <= f
    ensures -(t * f) <= 2 * (t * d) <= t * f
  {
    Distribute(t, f, -2 * d);
    Distribute(t, f, 2 * d);
    ProductSign(t, f - 2 * d);
    ProductSign(t, f + 2 * d);
  }

  lemma {:induction false} Below(low: nat, n: nat, f: nat)
    requires low < n && 0 < f
    ensures low * f < n * f
  {
    ProductMonotone(low + 1, n, f);
  }

  lemma {:induction false} ProductSign(a: nat, b: nat)
    ensures 0 <= a * b
  {
  }

  lemma {:induction false} Cast(t: int, f: int, ns: int)
    requires -(t * f) - f * 8589934592 < (ns * f - t * BILLION) * 8589934592 <= t * f
    ensures var T, F, N := t as real, f as real, ns as real;
            -(T * F) - F * 8589934592.0 < (N * F - T * 1000000000.0) * 8589934592.0 <= T * F
  {
    CastProduct(t, f);
    CastProduct(ns, f);
  }

  lemma {:induction false} CastProduct(a: int, b: int)
    ensures (a * b) as real == a as real * b as real
  {
  }

  lemma {:induction false} InReals(t: real, f: real, ns: real)
    requires 0.0 < f && -(t * f) - f * 8589934592.0 < (ns * f - t * 1000000000.0) * 8589934592.0 <= t * f
    ensures -(t / 8589934592.0) - 1.0 < ns - t * 1000000000.0 / f <= t / 8589934592.0
  {
    var x := t * 1000000000.0 / f;
    assert x * f == t * 1000000000.0;
    var error := ns - x;
    assert error * f == ns * f - t * 1000000000.0;
    assert (error * 8589934592.0) * f == (error * f) * 8589934592.0;
    Cancel(error * 8589934592.0, t, f);
    Cancel(-t - 8589934592.0, error * 8589934592.0, f);
  }

  lemma {:induction false} Cancel(a: real, b: real, f: real)
    requires 0.0 < f
    ensures a * f <= b * f ==> a <= b
    ensures a * f < b * f ==> a < b
  {
    if b < a {
      Positive(a - b, f);
    }
  }

  lemma {:induction false} Positive(a: real, f: real)
    requires 0.0 < a && 0.0 < f
    ensures 0.0 < a * f
  {
  }
}
