/** Fixed-point bicubic interpolation of ascal.vhd (bic_calc0 to bic_calc3 and
    bound) for one colour channel.  Registers are signed numbers cut to their
    declared widths; `n` is 2 to the power of FRAC and `f` the FRAC-bit position
    between the two inner pixels. */
module Bicubic {
  import opened Arithmetic

  /** The low `width` bits of `v`, read as a signed number. */
  function Cut(v: int, width: nat): int
    requires width >= 1
  {
    ToSigned(v % Pow2(width), width)
  }

  predicate FracOk(frac: nat) { 4 <= frac <= 8 }

  predicate IsPixel(p: int) { 0 <= p <= 255 }

  datatype Abcd = Abcd(a: int, b: int, c: int, d: int, xx: int)
  datatype Tt1 = Tt1(bx: int, cxx: int, dxx: int)
  datatype Tt2 = Tt2(abxcxx: int, dxxx: int)

  function Calc0(frac: nat, f: int, pm: int, p0: int, p1: int, p2: int): Abcd
    requires FracOk(frac)
  {
    Abcd(
      p0,
      Cut(p1 - pm, 9),
      Cut(2 * pm - 4 * p0 - p0 + 4 * p1 - p2, 12),
      Cut(2 * p0 - 2 * p1 - p1 + p0 + p2 - pm, 11),
      Cut(f * f / Pow2(2 * frac - 8), 9))
  }

  function Calc1(frac: nat, f: int, t: Abcd): Tt1
    requires FracOk(frac)
  {
    Tt1(
      Cut(t.b * f / Pow2(frac + 1), 9),
      Cut(t.c * t.xx / 256, 12),
      Cut(t.d * t.xx / 256, 11))
  }

  function Calc2(frac: nat, f: int, t: Tt1, a: int): Tt2
    requires FracOk(frac)
  {
    Tt2(
      Cut(t.bx + a + Cut(t.cxx / 2, 10), 10),
      Cut(t.dxx * f / Pow2(frac + 1), 10))
  }

  /** bound(v, 8) on a ten-bit register: a set sign bit reads as negative. */
  function Bound(v: int): int {
    if v < 0 then 0 else if v >= 256 then 255 else v
  }

  function Calc3(t: Tt2): int {
    Bound(Cut(t.abxcxx + t.dxxx, 10))
  }

  /** The four pipeline stages together. */
  function Interpolate(frac: nat, f: int, pm: int, p0: int, p1: int, p2: int): int
    requires FracOk(frac)
  {
    var t0 := Calc0(frac, f, pm, p0, p1, p2);
    Calc3(Calc2(frac, f, Calc1(frac, f, t0), t0.a))
  }

  // ---- The sum over unbounded integers, with the code's truncations ----

  function Square(frac: nat, f: int): int
    requires FracOk(frac)
  {
    f * f / Pow2(2 * frac - 8)
  }

  /** How each coefficient enters the sum, with its truncations. */
  function Linear(frac: nat, f: int, b: int): int { b * f / Pow2(frac + 1) }
  function Quadratic(c: int, s: int): int { c * s / 256 / 2 }
  function Cubic(frac: nat, f: int, d: int, s: int): int { d * s / 256 * f / Pow2(frac + 1) }

  function LinearTerm(frac: nat, f: int, pm: int, p1: int): int { Linear(frac, f, p1 - pm) }

  function QuadraticTerm(frac: nat, f: int, pm: int, p0: int, p1: int, p2: int): int
    requires FracOk(frac)
  {
    Quadratic(2 * pm - 5 * p0 + 4 * p1 - p2, Square(frac, f))
  }

  function CubicTerm(frac: nat, f: int, pm: int, p0: int, p1: int, p2: int): int
    requires FracOk(frac)
  {
    Cubic(frac, f, 3 * p0 - 3 * p1 + p2 - pm, Square(frac, f))
  }

  function ExactSum(frac: nat, f: int, pm: int, p0: int, p1: int, p2: int): int
    requires FracOk(frac)
  {
    p0 + LinearTerm(frac, f, pm, p1) + QuadraticTerm(frac, f, pm, p0, p1, p2) + CubicTerm(frac, f, pm, p0, p1, p2)
  }

  /** A number in range is not changed by its register. */
  lemma CutFits(v: int, width: nat)
    requires width >= 1 && -Pow2(width - 1) <= v < Pow2(width - 1)
    ensures Cut(v, width) == v
  {
    SignedRoundTrip(v, width);
  }

  lemma Widths()
    ensures Pow2(8) == 256 && Pow2(9) == 512 && Pow2(10) == 1024 && Pow2(11) == 2048
  {
    assert Pow2(4) == 16;
    assert Pow2(8) == 256;
  }

  /** Only the residue of a register's inputs matters for its value. */
  lemma CutCongruent(a: int, b: int, width: nat)
    requires width >= 1 && a % Pow2(width) == b % Pow2(width)
    ensures Cut(a, width) == Cut(b, width)
  {
  }

  lemma CutResidue(v: int, width: nat)
    requires width >= 1
    ensures Cut(v, width) % Pow2(width) == v % Pow2(width)
  {
    var m := Pow2(width);
    var r := v % m;
    if r < Pow2(width - 1) {
      QuotientUnique(r, m, 0);
    } else {
      QuotientUnique(r - m, m, -1);
    }
  }

  lemma AddResidue(a: int, b: int, c: int, m: int)
    requires 0 < m && a % m == b % m
    ensures (a + c) % m == (b + c) % m
  {
    var q := a / m - b / m;
    assert a == a / m * m + a % m && b == b / m * m + b % m;
    assert a + c == (b + c) + q * m;
    ModShift(b + c, m, q);
  }

  /** Wraparound cancels: cutting a partial sum to ten bits cannot be seen after
      a later ten-bit addition. */
  lemma WrapCancels(bx: int, a: int, c: int, d: int)
    requires -512 <= bx + a + c + d < 512
    ensures Cut(Cut(bx + a + Cut(c, 10), 10) + d, 10) == bx + a + c + d
  {
    Widths();
    var m := Pow2(10);
    CutResidue(c, 10);
    AddResidue(Cut(c, 10), c, bx + a, m);
    CutResidue(bx + a + Cut(c, 10), 10);
    AddResidue(Cut(bx + a + Cut(c, 10), 10), bx + a + c, d, m);
    CutCongruent(Cut(bx + a + Cut(c, 10), 10) + d, bx + a + c + d, 10);
    CutFits(bx + a + c + d, 10);
  }

  // ---- Ranges ----

  /** A pixel times a weight lies between zero and 255 times the weight. */
  lemma Weigh(p: int, k: int)
    requires IsPixel(p)
    ensures k >= 0 ==> 0 <= p * k <= 255 * k
    ensures k <= 0 ==> 255 * k <= p * k <= 0
  {
    if k >= 0 {
      MulMonotone(0, p, k);
      MulMonotone(p, 255, k);
    } else {
      MulMonotone(0, p, -k);
      MulMonotone(p, 255, -k);
      assert p * -k == -(p * k);
    }
  }

  /** The four pixel weights, scaled by 2D: x stands for D times the position,
      y for D times its truncated square, z for D times their product.  They add
      up to 2D and no combination of pixels leaves the ten-bit range. */
  lemma WeightedSum(pm: int, p0: int, p1: int, p2: int, x: int, y: int, z: int, D: int)
    requires IsPixel(pm) && IsPixel(p0) && IsPixel(p1) && IsPixel(p2)
    requires 0 < D && 0 <= y <= x <= D && 0 <= z <= y && x + y - D <= z
    ensures -638 * D
            <= 2 * D * p0 + (p1 - pm) * x + (2 * pm - 5 * p0 + 4 * p1 - p2) * y + (3 * p0 - 3 * p1 + p2 - pm) * z
    ensures 2 * D * p0 + (p1 - pm) * x + (2 * pm - 5 * p0 + 4 * p1 - p2) * y + (3 * p0 - 3 * p1 + p2 - pm) * z
            <= 893 * D
  {
    var km, k0, k1, k2 := 2 * y - x - z, 2 * D - 5 * y + 3 * z, x + 4 * y - 3 * z, z - y;
    Weigh(pm, km);
    Weigh(p0, k0);
    Weigh(p1, k1);
    Weigh(p2, k2);
    Regroup(pm, p0, p1, p2, x, y, z, D);
    assert km <= D - x && km <= x;
    assert 2 * k0 >= -D && 0 <= k1;
  }

  lemma Regroup(pm: int, p0: int, p1: int, p2: int, x: int, y: int, z: int, D: int)
    ensures 2 * D * p0 + (p1 - pm) * x + (2 * pm - 5 * p0 + 4 * p1 - p2) * y + (3 * p0 - 3 * p1 + p2 - pm) * z
            == pm * (2 * y - x - z) + p0 * (2 * D - 5 * y + 3 * z) + p1 * (x + 4 * y - 3 * z) + p2 * (z - y)
  {
  }

  /** The truncated square of the position never exceeds the position. */
  lemma SquareBelow(frac: nat, f: int)
    requires FracOk(frac) && 0 <= f < Pow2(frac)
    ensures 0 <= Square(frac, f) <= 255
    ensures Square(frac, f) * Pow2(frac) <= 256 * f
  {
    var n, e, s := Pow2(frac), Pow2(2 * frac - 8), Square(frac, f);
    Widths();
    Pow2Sum(2 * frac - 8, 8);
    Pow2Sum(frac, frac);
    assert 2 * frac - 8 + 8 == frac + frac;
    assert e * 256 == n * n;
    SquareBounds(f, n, e, s);
  }

  lemma SquareBounds(f: int, n: int, e: int, s: int)
    requires 0 <= f < n && 0 < e && e * 256 == n * n && s == f * f / e
    ensures 0 <= s <= 255 && s * n <= 256 * f
  {
    QuotientScaled(f * f, e, s);
    MulMonotone(0, f, f);
    MulCancelStrict(-1, s, e);
    Rescale(s, e, n, f);
    MulCancel(s * n, 256 * f, n);
    MulMonotone(f + 1, n, 256);
    MulCancelStrict(s, 256, n);
  }

  lemma QuotientScaled(m: int, e: int, s: int)
    requires 0 < e && s == m / e
    ensures s * e <= m < (s + 1) * e
  {
    assert m == s * e + m % e;
    assert (s + 1) * e == s * e + e;
  }

  lemma Rescale(s: int, e: int, n: int, f: int)
    requires e * 256 == n * n && s * e <= f * f && 0 <= f < n
    ensures s * n * n <= 256 * f * n
  {
    Associate(s, n, n);
    Associate(s, e, 256);
    MulMonotone(f, n, f);
    assert n * f == f * n;
    Associate(256, f, n);
  }

  /** Truncated quotients of a bounded factor and a fraction below one. */
  lemma PartRange(k: int, bound: int, f: int, n: int)
    requires 0 <= f < n && -bound <= k <= bound
    ensures -(bound + 1) / 2 <= k * f / (2 * n) <= bound / 2
    ensures k * f - 2 * n < 2 * n * (k * f / (2 * n)) <= k * f
  {
    var q := k * f / (2 * n);
    assert k * f == q * (2 * n) + k * f % (2 * n);
    MulMonotone(k, bound, f);
    MulMonotone(-bound, k, f);
    MulMonotone(f, n, bound);
    assert bound * f == f * bound && -bound * f == -(f * bound);
    assert 2 * n * q == q * (2 * n);
    HalfRange(q, bound, n, k * f);
  }

  lemma HalfRange(q: int, bound: int, n: int, v: int)
    requires 0 < n && 0 <= bound && -(n * bound) <= v <= n * bound
    requires q * (2 * n) <= v < q * (2 * n) + 2 * n
    ensures -(bound + 1) / 2 <= q <= bound / 2
  {
    assert q * (2 * n) == (2 * q) * n && bound * n == n * bound;
    MulCancel(2 * q, bound, n);
    assert (2 * q + 2) * n == q * (2 * n) + 2 * n;
    assert (-bound) * n == -(n * bound);
    MulCancelStrict(-bound, 2 * q + 2, n);
  }

  /** The whole sum keeps clear of the ten-bit limits, for all four pixels,
      every FRAC and every position. */
  lemma SumInRange(frac: nat, f: int, pm: int, p0: int, p1: int, p2: int)
    requires FracOk(frac) && 0 <= f < Pow2(frac)
    requires IsPixel(pm) && IsPixel(p0) && IsPixel(p1) && IsPixel(p2)
    ensures -330 <= ExactSum(frac, f, pm, p0, p1, p2) <= 446
  {
    var n, s := Pow2(frac), Square(frac, f);
    var c, d := 2 * pm - 5 * p0 + 4 * p1 - p2, 3 * p0 - 3 * p1 + p2 - pm;
    SquareBelow(frac, f);
    Corner(f, s, n);
    WeightedSum(pm, p0, p1, p2, 256 * f, s * n, s * f, 256 * n);
    LinearBounds(p1 - pm, f, n);
    QuadraticBounds(c, s, n);
    CubicBounds(d, s, f, n);
    Collect(LinearTerm(frac, f, pm, p1), QuadraticTerm(frac, f, pm, p0, p1, p2), CubicTerm(frac, f, pm, p0, p1, p2),
            p0, (p1 - pm) * (256 * f), c * (s * n), d * (s * f), 256 * n);
  }

  /** Position, square and product satisfy the linear bounds of WeightedSum. */
  lemma Corner(f: int, s: int, n: int)
    requires 0 <= f < n && 0 <= s <= 255
    ensures 0 <= s * f <= s * n && 256 * f + s * n - 256 * n <= s * f
  {
    MulMonotone(0, s, f);
    MulMonotone(f, n, s);
    assert f * s == s * f && n * s == s * n;
    MulMonotone(0, n - f, 256 - s);
    assert (n - f) * (256 - s) == 256 * n - 256 * f - n * s + f * s;
  }

  /** Truncation moves each term down by less than the next unit. */
  lemma LinearBounds(b: int, f: int, n: int)
    requires 0 < n
    ensures b * (256 * f) - 512 * n < 512 * n * (b * f / (2 * n)) <= b * (256 * f)
  {
    var l := b * f / (2 * n);
    assert b * f == l * (2 * n) + b * f % (2 * n);
    assert b * (256 * f) == 256 * (b * f);
    assert 512 * n * l == 256 * (l * (2 * n));
  }

  lemma QuadraticBounds(c: int, s: int, n: int)
    requires 0 < n
    ensures c * (s * n) - 512 * n < 512 * n * (c * s / 256 / 2) <= c * (s * n)
  {
    var v := c * s;
    var q := v / 256 / 2;
    assert 512 * q <= v < 512 * q + 512;
    MulMonotone(512 * q, v, n);
    MulMonotone(v + 1, 512 * q + 512, n);
    Associate(c, s, n);
    assert 512 * n * q == 512 * q * n;
    assert (v + 1) * n == v * n + n && (512 * q + 512) * n == 512 * q * n + 512 * n;
  }

  lemma CubicBounds(d: int, s: int, f: int, n: int)
    requires 0 <= f < n
    ensures d * (s * f) - 768 * n < 512 * n * (d * s / 256 * f / (2 * n)) <= d * (s * f)
  {
    var v := d * s;
    var e := v / 256;
    LinearBounds(e, f, n);
    assert 256 * e <= v < 256 * e + 256;
    MulMonotone(256 * e, v, f);
    MulMonotone(v, 256 * e + 256, f);
    Associate(d, s, f);
    assert e * (256 * f) == 256 * e * f;
    assert (256 * e + 256) * f == 256 * e * f + 256 * f;
  }

  lemma Collect(l: int, q: int, r: int, p0: int, wl: int, wq: int, wr: int, D: int)
    requires 0 < D
    requires wl - 2 * D < 2 * D * l <= wl && wq - 2 * D < 2 * D * q <= wq && wr - 3 * D < 2 * D * r <= wr
    requires -638 * D <= 2 * D * p0 + wl + wq + wr <= 893 * D
    ensures -330 <= p0 + l + q + r <= 446
  {
    var t := p0 + l + q + r;
    assert 2 * D * t == 2 * D * p0 + 2 * D * l + 2 * D * q + 2 * D * r;
    assert (2 * t) * D == 2 * D * t;
    MulCancel(2 * t, 893, D);
    MulCancelStrict(-645, 2 * t, D);
  }

  // ---- Main result ----

  /** Every intermediate except the ten-bit partial sum fits its register. */
  lemma CoefficientsFit(frac: nat, f: int, pm: int, p0: int, p1: int, p2: int)
    requires FracOk(frac) && 0 <= f < Pow2(frac)
    requires IsPixel(pm) && IsPixel(p0) && IsPixel(p1) && IsPixel(p2)
    ensures Calc0(frac, f, pm, p0, p1, p2)
            == Abcd(p0, p1 - pm, 2 * pm - 5 * p0 + 4 * p1 - p2, 3 * p0 - 3 * p1 + p2 - pm, Square(frac, f))
    ensures 0 <= Square(frac, f) <= 255
  {
    Widths();
    SquareBelow(frac, f);
    hide Cut;
    CutFits(p1 - pm, 9);
    CutFits(2 * pm - 5 * p0 + 4 * p1 - p2, 12);
    CutFits(3 * p0 - 3 * p1 + p2 - pm, 11);
    CutFits(Square(frac, f), 9);
  }

  lemma ProductsFit(frac: nat, f: int, a: int, b: int, c: int, d: int, s: int)
    requires FracOk(frac) && 0 <= f < Pow2(frac)
    requires -255 <= b <= 255 && -1530 <= c <= 1530 && -1020 <= d <= 1020 && 0 <= s <= 255
    ensures Calc2(frac, f, Calc1(frac, f, Abcd(a, b, c, d, s)), a)
            == Tt2(Cut(Linear(frac, f, b) + a + Cut(Quadratic(c, s), 10), 10), Cubic(frac, f, d, s))
  {
    Widths();
    var n := Pow2(frac);
    PartRange(b, 255, f, n);
    CutFits(b * f / (2 * n), 9);
    ScaleRange(c, 1530, s);
    CutFits(c * s / 256, 12);
    ScaleRange(d, 1020, s);
    CutFits(d * s / 256, 11);
    PartRange(d * s / 256, 1020, f, n);
    CutFits(d * s / 256 * f / (2 * n), 10);
  }

  /** What the last stage adds: the wrapped partial sum and the cubic term. */
  lemma StagesFit(frac: nat, f: int, pm: int, p0: int, p1: int, p2: int)
    requires FracOk(frac) && 0 <= f < Pow2(frac)
    requires IsPixel(pm) && IsPixel(p0) && IsPixel(p1) && IsPixel(p2)
    ensures var t0 := Calc0(frac, f, pm, p0, p1, p2);
            Calc2(frac, f, Calc1(frac, f, t0), t0.a)
            == Tt2(Cut(LinearTerm(frac, f, pm, p1) + p0 + Cut(QuadraticTerm(frac, f, pm, p0, p1, p2), 10), 10),
                   CubicTerm(frac, f, pm, p0, p1, p2))
  {
    hide Linear, Quadratic, Cubic, Square, Cut;
    CoefficientsFit(frac, f, pm, p0, p1, p2);
    ProductsFit(frac, f, p0, p1 - pm, 2 * pm - 5 * p0 + 4 * p1 - p2, 3 * p0 - 3 * p1 + p2 - pm, Square(frac, f));
  }

  lemma ScaleRange(k: int, bound: int, s: int)
    requires -bound <= k <= bound && 0 <= s <= 255
    ensures -bound <= k * s / 256 <= bound
  {
    MulMonotone(k, bound, s);
    MulMonotone(-bound, k, s);
    MulMonotone(s, 255, bound);
    assert bound * s == s * bound && -bound * s == -(s * bound);
  }

  /** The interpolator returns the clamped sum over the integers: although the
      ten-bit partial sum may wrap, the addition that follows undoes it. */
  lemma InterpolationExact(frac: nat, f: int, pm: int, p0: int, p1: int, p2: int)
    requires FracOk(frac) && 0 <= f < Pow2(frac)
    requires IsPixel(pm) && IsPixel(p0) && IsPixel(p1) && IsPixel(p2)
    ensures Interpolate(frac, f, pm, p0, p1, p2) == Bound(ExactSum(frac, f, pm, p0, p1, p2))
    ensures IsPixel(Interpolate(frac, f, pm, p0, p1, p2))
  {
    StagesFit(frac, f, pm, p0, p1, p2);
    SumInRange(frac, f, pm, p0, p1, p2);
    LastStage(LinearTerm(frac, f, pm, p1), p0, QuadraticTerm(frac, f, pm, p0, p1, p2),
              CubicTerm(frac, f, pm, p0, p1, p2));
  }

  lemma LastStage(l: int, a: int, q: int, c: int)
    requires -512 <= a + l + q + c < 512
    ensures Calc3(Tt2(Cut(l + a + Cut(q, 10), 10), c)) == Bound(a + l + q + c)
    ensures IsPixel(Bound(a + l + q + c))
  {
    WrapCancels(l, a, q, c);
  }

  // ---- How close the sum is to the curve ----

  /** The squared position in units of 1/256, rounded down. */
  lemma SquareMeaning(frac: nat, f: int)
    requires FracOk(frac)
    ensures var n, s := Pow2(frac), Square(frac, f); n * n * s <= 256 * (f * f) < n * n * (s + 1)
  {
    var n, e, s := Pow2(frac), Pow2(2 * frac - 8), Square(frac, f);
    assert Pow2(8) == 256 by { Widths(); }
    Pow2Sum(2 * frac - 8, 8);
    Pow2Sum(frac, frac);
    assert 2 * frac - 8 + 8 == frac + frac;
    QuotientScaled(f * f, e, s);
    hide Pow2, Square;
    SquareScaled(n, e, s, f * f);
  }

  lemma SquareScaled(n: int, e: int, s: int, m: int)
    requires e * 256 == n * n && s * e <= m < (s + 1) * e
    ensures n * n * s <= 256 * m < n * n * (s + 1)
  {
    Associate(e, 256, s);
    Associate(e, 256, s + 1);
    assert n * n * s == 256 * (s * e) && n * n * (s + 1) == 256 * ((s + 1) * e);
  }

  /** Twice the cubic through the two inner pixels at x = f / n, times n cubed:
      2 p0 + (p1 - pm) x + (2 pm - 5 p0 + 4 p1 - p2) x^2 + (3 p0 - 3 p1 + p2 - pm) x^3. */
  function Curve(n: int, f: int, pm: int, p0: int, p1: int, p2: int): int {
    var nn, ff := n * n, f * f;
    2 * (nn * n) * p0 + (p1 - pm) * (f * nn) + (2 * pm - 5 * p0 + 4 * p1 - p2) * (ff * n)
    + (3 * p0 - 3 * p1 + p2 - pm) * (ff * f)
  }

  /** The sum is the cubic itself up to its truncations: between six and a half
      below and three above, for all pixels, every FRAC and every position. */
  lemma SumNearCurve(frac: nat, f: int, pm: int, p0: int, p1: int, p2: int)
    requires FracOk(frac) && 0 <= f < Pow2(frac)
    requires IsPixel(pm) && IsPixel(p0) && IsPixel(p1) && IsPixel(p2)
    ensures var n := Pow2(frac);
            var unit := n * n * n;
            -13 * unit < 2 * unit * ExactSum(frac, f, pm, p0, p1, p2) - Curve(n, f, pm, p0, p1, p2) < 6 * unit
  {
    hide Pow2, Square, Linear, Quadratic, Cubic;
    var n, s := Pow2(frac), Square(frac, f);
    var b, c, d := p1 - pm, 2 * pm - 5 * p0 + 4 * p1 - p2, 3 * p0 - 3 * p1 + p2 - pm;
    SquareMeaning(frac, f);
    SlopeRange(pm, p0, p1, p2, f, n);
    var t := Linear(frac, f, b) + Quadratic(c, s) + Cubic(frac, f, d, s);
    TermBounds(frac, f, b, c, d, s);
    Nearness(n, f, s, b, c, d, t);
    CurveSplit(n, f, p0, b, c, d, t);
    assert ExactSum(frac, f, pm, p0, p1, p2) == p0 + t;
  }

  /** Each truncation moves the sum down by less than its unit. */
  lemma TermBounds(frac: nat, f: int, b: int, c: int, d: int, s: int)
    requires 0 <= f < Pow2(frac)
    ensures var n, t := Pow2(frac), Linear(frac, f, b) + Quadratic(c, s) + Cubic(frac, f, d, s);
            b * (256 * f) + c * (s * n) + d * (s * f) - 1792 * n < 512 * n * t
            <= b * (256 * f) + c * (s * n) + d * (s * f)
  {
    var n := Pow2(frac);
    assert Pow2(frac + 1) == 2 * n;
    LinearBounds(b, f, n);
    QuadraticBounds(c, s, n);
    CubicBounds(d, s, f, n);
    var l, q, r := b * f / (2 * n), c * s / 256 / 2, d * s / 256 * f / (2 * n);
    assert Linear(frac, f, b) == l && Quadratic(c, s) == q && Cubic(frac, f, d, s) == r;
    hide Pow2, Linear, Quadratic, Cubic;
    assert 512 * n * (l + q + r) == 512 * n * l + 512 * n * q + 512 * n * r;
  }

  /** c + d x stays within 1530 for x between zero and one. */
  lemma SlopeRange(pm: int, p0: int, p1: int, p2: int, f: int, n: int)
    requires IsPixel(pm) && IsPixel(p0) && IsPixel(p1) && IsPixel(p2) && 0 <= f < n
    ensures var g := (2 * pm - 5 * p0 + 4 * p1 - p2) * n + (3 * p0 - 3 * p1 + p2 - pm) * f; -1530 * n <= g <= 1530 * n
  {
    var c, e := 2 * pm - 5 * p0 + 4 * p1 - p2, pm - 2 * p0 + p1;
    assert -1530 <= c <= 1530 && -1530 <= e <= 1530;
    assert c * n + (e - c) * f == c * (n - f) + e * f;
    MulMonotone(c, 1530, n - f);
    MulMonotone(-1530, c, n - f);
    MulMonotone(e, 1530, f);
    MulMonotone(-1530, e, f);
    assert 1530 * (n - f) + 1530 * f == 1530 * n && -1530 * (n - f) + -1530 * f == -1530 * n;
  }

  /** The sum of the truncated terms against the curve without its constant. */
  lemma Nearness(n: int, f: int, s: int, b: int, c: int, d: int, t: int)
    requires 0 < n && n * n * s <= 256 * (f * f) < n * n * (s + 1)
    requires -1530 * n <= c * n + d * f <= 1530 * n
    requires b * (256 * f) + c * (s * n) + d * (s * f) - 1792 * n < 512 * n * t
             <= b * (256 * f) + c * (s * n) + d * (s * f)
    ensures var unit, rest := n * n * n, b * (f * (n * n)) + f * f * (c * n + d * f);
            -3322 * unit < 512 * unit * t - 256 * rest <= 1530 * unit
  {
    var nn, g, u := n * n, c * n + d * f, b * (256 * f);
    var w := u + s * g;
    assert w == u + c * (s * n) + d * (s * f) by { Distributes(s, c, n, d, f); }
    var slack := 256 * (f * f) - nn * s;
    assert 0 <= slack < nn by { assert nn * (s + 1) == nn * s + nn; }
    SlackTimes(slack, nn, g, n);
    ScaleSum(nn, 512 * n * t, w, n);
    Regrouped(nn, n, t, b, f, s, g, slack);
  }

  lemma Distributes(s: int, c: int, n: int, d: int, f: int)
    ensures s * (c * n + d * f) == c * (s * n) + d * (s * f)
  {
    Associate(c, s, n);
    Associate(d, s, f);
    Associate(s, c, n);
    Associate(s, d, f);
    assert s * c == c * s && s * d == d * s;
  }

  lemma SlackTimes(slack: int, nn: int, g: int, n: int)
    requires 0 <= slack < nn && 0 < n && -1530 * n <= g <= 1530 * n
    ensures -1530 * (nn * n) <= slack * g <= 1530 * (nn * n)
  {
    MulMonotone(g, 1530 * n, slack);
    MulMonotone(-1530 * n, g, slack);
    MulMonotone(slack, nn, 1530 * n);
    assert g * slack == slack * g && 1530 * n * slack == slack * (1530 * n);
    assert -1530 * n * slack == -(slack * (1530 * n));
    assert nn * (1530 * n) == 1530 * (nn * n);
  }

  lemma ScaleSum(nn: int, x: int, w: int, n: int)
    requires 0 < nn && w - 1792 * n < x <= w
    ensures nn * w - 1792 * (nn * n) < nn * x <= nn * w
  {
    MulMonotone(x, w, nn);
    MulMonotone(w - 1792 * n + 1, x, nn);
    assert x * nn == nn * x && w * nn == nn * w;
    assert (w - 1792 * n + 1) * nn == nn * w - 1792 * (nn * n) + nn;
  }

  /** 512 n^3 t - 256 (b f n^2 + f^2 g) in terms of what is bounded. */
  lemma Regrouped(nn: int, n: int, t: int, b: int, f: int, s: int, g: int, slack: int)
    requires slack == 256 * (f * f) - nn * s
    ensures 512 * (nn * n) * t - 256 * (b * (f * nn) + f * f * g)
            == (nn * (512 * n * t) - nn * (b * (256 * f) + s * g)) - slack * g
  {
    assert 512 * (nn * n) * t == nn * (512 * n * t);
    assert 256 * (b * (f * nn)) == nn * (b * (256 * f));
    assert slack * g == 256 * (f * f * g) - nn * (s * g) by {
      assert slack * g == 256 * (f * f) * g - nn * s * g;
      Associate(nn, s, g);
      Associate(256, f * f, g);
    }
    assert nn * (b * (256 * f) + s * g) == nn * (b * (256 * f)) + nn * (s * g);
  }

  lemma CurveSplit(n: int, f: int, p0: int, b: int, c: int, d: int, t: int)
    requires 0 < n
    requires var unit, rest := n * n * n, b * (f * (n * n)) + f * f * (c * n + d * f);
             -3322 * unit < 512 * unit * t - 256 * rest <= 1530 * unit
    ensures var unit := n * n * n;
            var curve := 2 * unit * p0 + b * (f * (n * n)) + c * (f * f * n) + d * (f * f * f);
            -13 * unit < 2 * unit * (p0 + t) - curve < 6 * unit
  {
    var unit, ff := n * n * n, f * f;
    assert ff * (c * n + d * f) == c * (ff * n) + d * (ff * f) by { Distributes(ff, c, n, d, f); }
    MulMonotone(1, n, n);
    MulMonotone(1, n * n, n);
    assert 2 * unit * (p0 + t) == 2 * unit * p0 + 2 * unit * t;
    assert 512 * unit * t == 256 * (2 * unit * t);
  }

  function Distance(a: int, b: int): int { if a < b then b - a else a - b }

  /** The output is the pixel closest to the sum. */
  lemma OutputIsClosestPixel(frac: nat, f: int, pm: int, p0: int, p1: int, p2: int, q: int)
    requires FracOk(frac) && 0 <= f < Pow2(frac) && IsPixel(q)
    requires IsPixel(pm) && IsPixel(p0) && IsPixel(p1) && IsPixel(p2)
    ensures var out, sum := Interpolate(frac, f, pm, p0, p1, p2), ExactSum(frac, f, pm, p0, p1, p2);
            IsPixel(out) && Distance(out, sum) <= Distance(q, sum)
  {
    InterpolationExact(frac, f, pm, p0, p1, p2);
    hide Interpolate, ExactSum;
    ClosestPixel(ExactSum(frac, f, pm, p0, p1, p2), q);
  }

  lemma ClosestPixel(sum: int, q: int)
    requires IsPixel(q)
    ensures Distance(Bound(sum), sum) <= Distance(q, sum)
  {
  }

  /** On a source pixel the curve passes through it, and in a flat area it stays
      flat, for every build. */
  lemma InterpolationReproduces(frac: nat, f: int, p: int, pm: int, p1: int, p2: int)
    requires FracOk(frac) && 0 <= f < Pow2(frac)
    requires IsPixel(p) && IsPixel(pm) && IsPixel(p1) && IsPixel(p2)
    ensures Interpolate(frac, 0, pm, p, p1, p2) == p
    ensures Interpolate(frac, f, p, p, p, p) == p
  {
    InterpolationExact(frac, 0, pm, p, p1, p2);
    InterpolationExact(frac, f, p, p, p, p);
    SumOnPixel(frac, pm, p, p1, p2);
    SumFlat(frac, f, p);
  }

  lemma ZeroTerms(x: int, d: int)
    requires 0 < d
    ensures x * 0 / d == 0 && 0 * x / d == 0
  {
    QuotientUnique(0, d, 0);
  }

  lemma SumOnPixel(frac: nat, pm: int, p: int, p1: int, p2: int)
    requires FracOk(frac)
    ensures ExactSum(frac, 0, pm, p, p1, p2) == p
  {
    ZeroTerms(0, Pow2(2 * frac - 8));
    assert Square(frac, 0) == 0;
    ZeroTerms(p1 - pm, Pow2(frac + 1));
    ZeroTerms(2 * pm - 5 * p + 4 * p1 - p2, 256);
    ZeroTerms(3 * p - 3 * p1 + p2 - pm, 256);
    ZeroTerms(0, Pow2(frac + 1));
  }

  lemma SumFlat(frac: nat, f: int, p: int)
    requires FracOk(frac)
    ensures ExactSum(frac, f, p, p, p, p) == p
  {
    var s := Square(frac, f);
    assert 2 * p - 5 * p + 4 * p - p == 0 && 3 * p - 3 * p + p - p == 0 && p - p == 0;
    ZeroTerms(f, Pow2(frac + 1));
    ZeroTerms(s, 256);
  }

  /** The wrap does happen: close to the second of two extreme pixels the
      partial sum of 759 no longer fits ten bits and reads as negative. */
  lemma PartialSumWraps()
    ensures var t0 := Calc0(8, 255, 255, 0, 255, 0);
            Calc2(8, 255, Calc1(8, 255, t0), 0).abxcxx < 0
    ensures LinearTerm(8, 255, 255, 255) + QuadraticTerm(8, 255, 255, 0, 255, 0) > 511
  {
    Widths();
    StagesFit(8, 255, 255, 0, 255, 0);
    assert Square(8, 255) == 65025 / Pow2(8) == 254;
    assert Pow2(9) == 512;
    var q := 1530 * 254 / 256 / 2;
    assert q == 759;
    QuotientUnique(759, 1024, 0);
    assert Cut(759, 10) == -265;
    QuotientUnique(-265, 1024, -1);
  }
}
