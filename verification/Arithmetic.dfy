/** Integer facts shared by the hardware models: powers of two, quotients
    named by their bounds, and two's complement readings of a register. */
module Arithmetic {

  function Pow2(n: nat): (p: int)
    ensures p >= 1
  {
    if n == 0 then 1 else 2 * Pow2(n - 1)
  }

  lemma {:induction false} Pow2Sum(a: nat, b: nat)
    ensures Pow2(a + b) == Pow2(a) * Pow2(b)
  {
    if a == 0 {
    } else {
      Pow2Sum(a - 1, b);
      assert a + b - 1 == (a - 1) + b;
      calc {
        Pow2(a + b);
        2 * Pow2(a + b - 1);
        2 * (Pow2(a - 1) * Pow2(b));
        { Associate(2, Pow2(a - 1), Pow2(b)); }
        Pow2(a) * Pow2(b);
      }
    }
  }

  lemma Associate(a: int, b: int, c: int)
    ensures a * (b * c) == (a * b) * c
  {
  }

  lemma {:induction false} Pow2Monotone(a: nat, b: nat)
    requires a <= b
    ensures Pow2(a) <= Pow2(b)
  {
    if a < b {
      Pow2Monotone(a, b - 1);
    }
  }

  lemma MulMonotone(a: int, b: int, c: int)
    requires a <= b && 0 <= c
    ensures a * c <= b * c
  {
  }

  lemma MulCancel(a: int, b: int, c: int)
    requires 0 < c && a * c <= b * c
    ensures a <= b
  {
    if b < a {
      assert (b + 1) * c == b * c + c;
      MulMonotone(b + 1, a, c);
    }
  }

  lemma MulCancelStrict(a: int, b: int, c: int)
    requires 0 < c && a * c < b * c
    ensures a < b
  {
    if b <= a {
      MulMonotone(b, a, c);
    }
  }

  /** A quotient is pinned down by its two bounds. */
  lemma QuotientUnique(n: int, d: int, q: int)
    requires 0 < d && q * d <= n < q * d + d
    ensures n / d == q && n % d == n - q * d
  {
    var p := n / d;
    assert n == p * d + n % d;
    assert (q + 1) * d == q * d + d;
    assert (p + 1) * d == p * d + d;
    MulCancelStrict(q, p + 1, d);
    MulCancelStrict(p, q + 1, d);
  }

  /** Adding whole multiples of the modulus does not change the residue. */
  lemma ModShift(n: int, d: int, k: int)
    requires 0 < d
    ensures (n + k * d) % d == n % d
    ensures (n + k * d) / d == n / d + k
  {
    var q := n / d;
    assert (q + k) * d == q * d + k * d;
    QuotientUnique(n + k * d, d, q + k);
  }

  /** One step of a phase accumulator: it carries when the residue overflows. */
  lemma AdvanceQuotient(t: int, step: int, d: int)
    requires 0 < d && 0 <= step <= d
    ensures t % d + step < d ==> (t + step) / d == t / d && (t + step) % d == t % d + step
    ensures t % d + step >= d ==> (t + step) / d == t / d + 1 && (t + step) % d == t % d + step - d
  {
    var q := t / d;
    assert t == q * d + t % d;
    assert (q + 1) * d == q * d + d;
    QuotientUnique(t + step, d, if t % d + step < d then q else q + 1);
  }

  lemma DivNonNegative(n: int, d: int)
    requires 0 <= n && 0 < d
    ensures 0 <= n / d
  {
    assert n == n / d * d + n % d;
    MulCancelStrict(-1, n / d, d);
  }

  /** The signed number that `width` bits `v` denote in two's complement. */
  function ToSigned(v: int, width: nat): int
    requires width >= 1
  {
    if v < Pow2(width - 1) then v else v - Pow2(width)
  }

  /** A signed number in range survives being stored in a register. */
  lemma SignedRoundTrip(x: int, width: nat)
    requires width >= 1
    requires -Pow2(width - 1) <= x < Pow2(width - 1)
    ensures 0 <= x % Pow2(width) < Pow2(width)
    ensures ToSigned(x % Pow2(width), width) == x
    ensures x % Pow2(width) < Pow2(width - 1) <==> x >= 0
  {
    var m := Pow2(width);
    if x >= 0 {
      QuotientUnique(x, m, 0);
    } else {
      QuotientUnique(x, m, -1);
    }
  }

  /** Doubling commutes with taking a residue. */
  lemma DoubleMod(x: int, h: int)
    requires 0 < h
    ensures 2 * (x % h) == (2 * x) % (2 * h)
  {
    var q := x / h;
    assert x == q * h + x % h;
    assert 2 * x == q * (2 * h) + 2 * (x % h);
    QuotientUnique(2 * x, 2 * h, q);
  }
}
