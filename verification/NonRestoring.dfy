/** Non-restoring division: the recurrence that sys_udiv, the output line
    divider and the pixel pipeline divider all run, stated once over the
    integers.  Each step doubles the partial remainder and moves it towards
    zero by `v`; the recorded bit says which side of zero it was on. */
module NonRestoring {
  import opened Arithmetic

  /** Partial remainder after `i` steps. */
  function Partial(n: int, v: int, i: nat): int
  {
    if i == 0 then n
    else
      var x := Partial(n, v, i - 1);
      if x >= 0 then 2 * x - v else 2 * x + v
  }

  /** The `i` sign bits recorded so far, read as a binary number. */
  function Bits(n: int, v: int, i: nat): (q: nat)
    ensures q < Pow2(i)
  {
    if i == 0 then 0
    else 2 * Bits(n, v, i - 1) + (if Partial(n, v, i - 1) >= 0 then 1 else 0)
  }

  /** The partial remainder never leaves [-v, v). */
  lemma {:induction false} PartialRange(n: int, v: int, i: nat)
    requires 0 <= n < v
    ensures -v <= Partial(n, v, i) < v
  {
    if i > 0 {
      PartialRange(n, v, i - 1);
    }
  }

  /** Conservation: the partial remainder is what is left of 2^i * n. */
  lemma {:induction false} PartialClosedForm(n: int, v: int, i: nat)
    ensures Partial(n, v, i) == Pow2(i) * n - v * (2 * Bits(n, v, i) + 1 - Pow2(i))
  {
    if i == 0 {
    } else {
      PartialClosedForm(n, v, i - 1);
      var x, b, p := Partial(n, v, i - 1), Bits(n, v, i - 1), Pow2(i - 1);
      var c := if x >= 0 then 1 else 0;
      StepAlgebra(n, v, p, b, c, x);
    }
  }

  lemma StepAlgebra(n: int, v: int, p: int, b: int, c: int, x: int)
    requires x == p * n - v * (2 * b + 1 - p)
    ensures 2 * x - v * (2 * c - 1) == (2 * p) * n - v * (2 * (2 * b + c) + 1 - 2 * p)
  {
  }

  /** Main fact: the recorded bits are a leading one followed by the binary
      expansion of n / v. */
  lemma BitsAreQuotient(n: int, v: int, i: nat)
    requires 0 <= n < v
    ensures Bits(n, v, i + 1) == Pow2(i) + Pow2(i) * n / v
  {
    PartialClosedForm(n, v, i);
    PartialRange(n, v, i);
    var q := Bits(n, v, i + 1) - Pow2(i);
    BitsAlgebra(Pow2(i) * n, v, 2 * Bits(n, v, i) + 1 - Pow2(i), Partial(n, v, i));
    QuotientUnique(Pow2(i) * n, v, q);
  }

  lemma BitsAlgebra(m: int, v: int, k: int, x: int)
    requires x == m - v * k && -v <= x < v
    ensures x >= 0 ==> k * v <= m < k * v + v
    ensures x < 0 ==> (k - 1) * v <= m < (k - 1) * v + v
  {
    assert (k - 1) * v == k * v - v;
  }

  /** A dividend equal to the divisor saturates: every bit is one. */
  lemma {:induction false} BitsSaturate(v: int, i: nat)
    requires 0 < v
    ensures Partial(v, v, i) == v
    ensures Bits(v, v, i) == Pow2(i) - 1
  {
    if i > 0 {
      BitsSaturate(v, i - 1);
    }
  }
}
