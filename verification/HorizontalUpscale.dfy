/** The horizontal phase accumulator of ascal.vhd (states sWAIT and sCOPY of
    process Scalaire): which source pixel each output pixel falls on. */
module HorizontalUpscale {
  import opened Arithmetic
  import PixelDivider

  /** A build's line buffer size with the widths of the displayed window and of
      the stored image; all three are constant within a line. */
  datatype Geometry = Geometry(ohresh: nat, hsize: nat, ihsize: nat) {
    predicate Legal() {
      && 1 <= ihsize <= hsize <= 4095
      && hsize <= ohresh && hsize + ihsize < 2 * ohresh
    }
  }

  datatype Regs = Regs(hacc: int, haccNext: int, hacpt: int, dshi: nat)

  /** Carriage return: the first burst of a line is about to be copied. */
  function LineStart(g: Geometry): Regs {
    var ini := (g.hsize + g.ihsize + 8192) % 8192;
    Regs(ini, ini + 2 * g.ihsize, 0, 2)
  }

  /** One sCOPY clock.  The first clocks of a line only fill the pixel taps. */
  function Next(g: Geometry, r: Regs): Regs
    requires g.ohresh > 0
  {
    if r.dshi > 0 then r.(dshi := r.dshi - 1)
    else
      var dif := (r.haccNext - 2 * g.hsize + 8 * g.ohresh) % (8 * g.ohresh);
      if dif >= 4 * g.ohresh then
        r.(hacc := r.haccNext, haccNext := r.haccNext + 2 * g.ihsize)
      else
        r.(hacc := dif, haccNext := (dif + 2 * g.ihsize + 4 * g.ohresh) % (4 * g.ohresh),
           hacpt := (r.hacpt + 1) % 4096)
  }

  function Run(g: Geometry, clocks: nat): Regs
    requires g.ohresh > 0
  {
    if clocks == 0 then LineStart(g) else Next(g, Run(g, clocks - 1))
  }

  /** Twice the output width is one source pixel; `Total` is where output
      pixel `n` lies, in those units: ihsize * (2n + 1) + hsize. */
  function Total(g: Geometry, n: nat): int {
    g.hsize + g.ihsize + 2 * g.ihsize * n
  }

  /** Source pixels entered before output pixel `n`. */
  function Carries(g: Geometry, n: nat): int
    requires g.hsize > 0
  {
    if g.ihsize < g.hsize then Total(g, n) / (2 * g.hsize) else n
  }

  /** Conservation over a whole line, for every width: the accumulator and the
      carries together hold exactly the distance walked.  The accumulator stays
      below a full period exactly when the image is narrower than the window. */
  lemma {:induction false} Conservation(g: Geometry, n: nat)
    requires g.Legal()
    ensures Run(g, n + 2).hacc + 2 * g.hsize * Carries(g, n) == Total(g, n)
    ensures Run(g, n + 2).hacpt == Carries(g, n) % 4096
    ensures Run(g, n + 2).haccNext == Run(g, n + 2).hacc + 2 * g.ihsize && Run(g, n + 2).dshi == 0
    ensures 0 <= Run(g, n + 2).hacc <= 2 * g.hsize
    ensures Run(g, n + 2).hacc < 2 * g.hsize <==> g.ihsize < g.hsize
  {
    if n == 0 {
      FirstPixel(g);
    } else {
      Conservation(g, n - 1);
      var s := Run(g, n + 1);
      assert Run(g, n + 2) == Next(g, s);
      NextFolds(g, s);
      CountCarry(g, n, s.haccNext);
      CounterWraps(Carries(g, n - 1));
    }
  }

  lemma FirstPixel(g: Geometry)
    requires g.Legal()
    ensures Run(g, 2) == Regs(g.hsize + g.ihsize, g.hsize + 3 * g.ihsize, 0, 0)
    ensures Carries(g, 0) == 0 && Total(g, 0) == g.hsize + g.ihsize
  {
    assert Run(g, 0) == LineStart(g);
    assert Run(g, 1) == LineStart(g).(dshi := 1);
    assert Run(g, 2) == LineStart(g).(dshi := 0);
    if g.ihsize < g.hsize {
      QuotientUnique(Total(g, 0), 2 * g.hsize, 0);
    }
  }

  lemma NextFolds(g: Geometry, r: Regs)
    requires g.Legal() && r.dshi == 0 && 0 <= r.haccNext <= 2 * g.hsize + 2 * g.ihsize
    ensures r.haccNext < 2 * g.hsize ==>
              Next(g, r) == Regs(r.haccNext, r.haccNext + 2 * g.ihsize, r.hacpt, 0)
    ensures r.haccNext >= 2 * g.hsize ==>
              Next(g, r)
              == Regs(r.haccNext - 2 * g.hsize, r.haccNext - 2 * g.hsize + 2 * g.ihsize, (r.hacpt + 1) % 4096, 0)
  {
    Fold(r.haccNext, g.hsize, g.ihsize, 4 * g.ohresh);
  }

  lemma CounterWraps(c: int)
    ensures (c % 4096 + 1) % 4096 == (c + 1) % 4096
  {
  }

  /** The carry out of one step is the carry of the closed form. */
  lemma CountCarry(g: Geometry, n: nat, next: int)
    requires g.Legal() && n > 0
    requires next + 2 * g.hsize * Carries(g, n - 1) == Total(g, n)
    requires 0 <= next && (g.ihsize < g.hsize ==> next < 4 * g.hsize) && (g.ihsize == g.hsize ==> next == 4 * g.hsize)
    ensures Carries(g, n) == Carries(g, n - 1) + (if next < 2 * g.hsize then 0 else 1)
    ensures 2 * g.hsize * Carries(g, n)
            == 2 * g.hsize * Carries(g, n - 1) + (if next < 2 * g.hsize then 0 else 2 * g.hsize)
  {
    var c := Carries(g, n - 1);
    CarryOnce(Total(g, n), 2 * g.hsize, c, next);
    hide Total;
  }

  lemma CarryOnce(t: int, period: int, c: int, next: int)
    requires 0 < period && 0 <= next && next + period * c == t
    ensures next < 2 * period ==> t / period == if next < period then c else c + 1
    ensures period * (c + 1) == period * c + period
  {
    assert period * c == c * period;
    assert (c + 1) * period == c * period + period;
    if next < 2 * period {
      QuotientUnique(t, period, if next < period then c else c + 1);
    }
  }

  /** One folding step of the accumulator inside its declared range. */
  lemma Fold(next: int, hsize: int, ihsize: int, m: int)
    requires 1 <= ihsize <= hsize && 4 * hsize <= m && 2 * (hsize + ihsize) < m
    requires 0 <= next <= 2 * hsize + 2 * ihsize
    ensures next < 2 * hsize ==> (next - 2 * hsize + 2 * m) % (2 * m) >= m
    ensures next >= 2 * hsize ==> (next - 2 * hsize + 2 * m) % (2 * m) == next - 2 * hsize < m
    ensures next >= 2 * hsize ==> (next - 2 * hsize + 2 * ihsize + m) % m == next - 2 * hsize + 2 * ihsize
  {
    if next < 2 * hsize {
      QuotientUnique(next - 2 * hsize + 2 * m, 2 * m, 0);
    } else {
      QuotientUnique(next - 2 * hsize + 2 * m, 2 * m, 1);
      QuotientUnique(next - 2 * hsize + 2 * ihsize + m, m, 1);
    }
  }

  /** Source pixels shifted into the taps in the first `clocks` clocks of a line:
      two to fill them, then one for every carry. */
  function Entered(g: Geometry, clocks: nat): int
    requires g.hsize > 0
  {
    if clocks <= 2 then clocks else 2 + Carries(g, clocks - 2)
  }

  /** The accumulator as clocked.  The history of the line, `clocks` and the
      number of source pixels `entered`, is what its registers stand for. */
  class Accumulator {
    const g: Geometry
    var hacc: int
    var haccNext: int
    var hacpt: int
    var dshi: nat
    ghost var clocks: nat
    ghost var entered: int

    ghost function Value(): Regs
      reads this
    {
      Regs(hacc, haccNext, hacpt, dshi)
    }

    ghost predicate Valid()
      reads this
    {
      g.Legal() && Value() == Run(g, clocks) && entered == Entered(g, clocks)
    }

    constructor (g: Geometry)
      ensures this.g == g
    {
      this.g := g;
      hacc, haccNext, hacpt, dshi := 0, 0, 0, 0;
      clocks, entered := 0, 0;
    }

    /** Puts the accumulator on the first output pixel, whatever it held. */
    method CarriageReturn()
      modifies this
      ensures clocks == 0 && entered == 0
      ensures g.Legal() ==> Valid() && hacc == Total(g, 0) && haccNext == Total(g, 1)
    {
      hacc := (g.hsize + g.ihsize + 8192) % 8192;
      haccNext := hacc + 2 * g.ihsize;
      hacpt := 0;
      dshi := 2;
      clocks, entered := 0, 0;
    }

    /** `shift` is the carry: the next source pixel enters the taps.  Once they
        are full, accumulator and pixels entered add up to the exact position. */
    method Copy() returns (shift: bool)
      requires g.ohresh > 0
      modifies this
      ensures Value() == Next(g, old(Value()))
      ensures clocks == old(clocks) + 1 && entered == old(entered) + (if shift then 1 else 0)
      ensures old(Valid()) ==> Valid()
      ensures old(Valid()) && clocks >= 2 ==> hacc + 2 * g.hsize * (entered - 2) == Total(g, clocks - 2)
    {
      ghost var before := Value();
      shift := dshi > 0;
      if dshi == 0 {
        var dif_v := (haccNext - 2 * g.hsize + 8 * g.ohresh) % (8 * g.ohresh);
        shift := dif_v < 4 * g.ohresh;
        if dif_v >= 4 * g.ohresh {
          hacc := haccNext;
          haccNext := haccNext + 2 * g.ihsize;
        } else {
          hacc := dif_v;
          haccNext := (dif_v + 2 * g.ihsize + 4 * g.ohresh) % (4 * g.ohresh);
          hacpt := (hacpt + 1) % 4096;
        }
      } else {
        dshi := dshi - 1;
      }
      assert Value() == Next(g, before) && shift == Carry(g, before);
      hide Next, Carry, Run, Entered, Total;
      if g.Legal() {
        HistoryStep(g, clocks);
      }
      clocks := clocks + 1;
      entered := entered + (if shift then 1 else 0);
    }
  }

  /** The carry seen by the next clock. */
  predicate Carry(g: Geometry, r: Regs)
    requires g.ohresh > 0
  {
    r.dshi > 0 || (r.haccNext - 2 * g.hsize + 8 * g.ohresh) % (8 * g.ohresh) < 4 * g.ohresh
  }

  /** One clock more in the history of a line. */
  lemma HistoryStep(g: Geometry, clocks: nat)
    requires g.Legal()
    ensures Run(g, clocks + 1) == Next(g, Run(g, clocks))
    ensures Entered(g, clocks + 1) == Entered(g, clocks) + (if Carry(g, Run(g, clocks)) then 1 else 0)
    ensures clocks >= 1 ==>
              Run(g, clocks + 1).hacc + 2 * g.hsize * (Entered(g, clocks + 1) - 2) == Total(g, clocks - 1)
  {
    ShiftIsEntry(g, clocks);
    if clocks >= 1 {
      Conservation(g, clocks - 1);
      assert clocks - 1 + 2 == clocks + 1;
      EnteredIsCarries(g, clocks + 1);
    }
  }

  lemma EnteredIsCarries(g: Geometry, clocks: nat)
    requires g.Legal() && clocks >= 2
    ensures Entered(g, clocks) - 2 == Carries(g, clocks - 2)
  {
    FirstPixel(g);
  }

  lemma ShiftIsEntry(g: Geometry, clocks: nat)
    requires g.Legal()
    ensures Entered(g, clocks + 1) == Entered(g, clocks) + (if Carry(g, Run(g, clocks)) then 1 else 0)
  {
    if clocks < 2 {
      FirstPixel(g);
      assert Run(g, 1).dshi == 1;
    } else {
      var n := clocks - 2;
      Conservation(g, n);
      Fold(Run(g, clocks).haccNext, g.hsize, g.ihsize, 4 * g.ohresh);
      CountCarry(g, n + 1, Run(g, clocks).haccNext);
      FirstPixel(g);
    }
  }

  /** The position `t / period` lies within one `unit` above `q`, and meets the
      far end only where no scaling takes place. */
  ghost predicate Locates(period: int, q: int, unit: int, t: int, scaled: bool) {
    && period * q <= t <= period * (q + unit)
    && (t < period * (q + unit) <==> scaled)
  }

  /** Carries and the exact fraction of the accumulator together locate output
      pixel `n` to within one fraction step, and from below. */
  lemma FractionExact(g: Geometry, n: nat, k: nat)
    requires g.Legal()
    ensures Locates(2 * g.hsize, Pow2(k) * Carries(g, n) + PixelDivider.Fraction(Run(g, n + 2).hacc, g.hsize, k), 1,
                    Pow2(k) * Total(g, n), g.ihsize < g.hsize)
  {
    Conservation(g, n);
    var p, hacc := Pow2(k), Run(g, n + 2).hacc;
    var f := PixelDivider.Fraction(hacc, g.hsize, k);
    Distribute(p, hacc, 2 * g.hsize, Carries(g, n), f);
    FractionBounds(p, hacc, 2 * g.hsize, f);
  }

  /** Exactness of the scaled position as the hardware computes it: the carries
      before output pixel `n` and the twelve-bit fraction that leaves the divider
      pipeline four edges after its accumulator value locate it to within
      2^-4, 2^-6 or 2^-8 source pixel by FRAC, whatever the pipeline held. */
  lemma PositionExact(g: Geometry, n: nat, frac: nat, p: PixelDivider.Pipeline, h1: int, h2: int, h3: int)
    requires g.Legal() && 4 <= frac <= 8
    ensures var a := PixelDivider.Next(frac, p, Run(g, n + 2).hacc, g.hsize);
            var b := PixelDivider.Next(frac, PixelDivider.Next(frac, a, h1, g.hsize), h2, g.hsize);
            Locates(2 * g.hsize, 4096 * Carries(g, n) + PixelDivider.Next(frac, b, h3, g.hsize).hfrac,
                    Pow2(12 - PixelDivider.FractionBits(frac)), 4096 * Total(g, n), g.ihsize < g.hsize)
  {
    hide PixelDivider.Next, PixelDivider.Fraction, Run, Carries, Total, Pow2, Locates;
    var k := PixelDivider.FractionBits(frac);
    var hacc := Run(g, n + 2).hacc;
    Conservation(g, n);
    PixelDivider.HscalLatency(frac, p, hacc, h1, h2, h3, g.hsize);
    var c, f := Carries(g, n), PixelDivider.Fraction(hacc, g.hsize, k);
    FractionExact(g, n, k);
    FractionWidth(k);
    ScaleBounds(Pow2(k), Pow2(12 - k), c, f, Total(g, n), 2 * g.hsize, g.ihsize < g.hsize);
  }

  lemma FractionWidth(k: nat)
    requires k <= 12
    ensures Pow2(k) * Pow2(12 - k) == 4096
  {
    Pow2Sum(k, 12 - k);
    assert k + (12 - k) == 12 && Pow2(12) == 4096;
  }

  lemma ScaleBounds(p: int, unit: int, c: int, f: int, t: int, period: int, scaled: bool)
    requires 0 < unit && p * unit == 4096
    requires Locates(period, p * c + f, 1, p * t, scaled)
    ensures Locates(period, 4096 * c + f * unit, unit, 4096 * t, scaled)
  {
    var q, x := period * (p * c + f), p * t;
    assert period * (p * c + f + 1) == q + period;
    ScaledAlgebra(p, unit, c, f, t, period);
    Compare(q, x, unit);
    Compare(x, q + period, unit);
    Compare(q + period, x, unit);
  }

  lemma ScaledAlgebra(p: int, unit: int, c: int, f: int, t: int, period: int)
    requires p * unit == 4096
    ensures 4096 * t == p * t * unit
    ensures period * (4096 * c + f * unit) == period * (p * c + f) * unit
    ensures period * (4096 * c + f * unit + unit) == (period * (p * c + f) + period) * unit
  {
    Reorder(p, unit, t);
    Reorder(p, unit, c);
    Associate(period, p * c + f, unit);
    assert (p * c + f) * unit == p * c * unit + f * unit;
    var q, z := period * (p * c + f), 4096 * c + f * unit;
    assert period * (z + unit) == period * z + period * unit;
    assert (q + period) * unit == q * unit + period * unit;
  }

  lemma Reorder(p: int, unit: int, t: int)
    ensures p * t * unit == p * unit * t
  {
    Associate(p, t, unit);
    Associate(p, unit, t);
    assert t * unit == unit * t;
  }

  lemma Compare(a: int, b: int, unit: int)
    requires 0 < unit
    ensures a <= b <==> a * unit <= b * unit
  {
    if a <= b {
      MulMonotone(a, b, unit);
    } else {
      MulMonotone(b + 1, a, unit);
      assert (b + 1) * unit == b * unit + unit;
    }
  }

  lemma Distribute(p: int, hacc: int, period: int, c: int, f: int)
    ensures p * (hacc + period * c) == p * hacc + period * (p * c)
    ensures period * (p * c + f) == period * (p * c) + period * f
    ensures period * (p * c + f + 1) == period * (p * c) + period * f + period
  {
  }

  lemma FractionBounds(p: int, hacc: int, period: int, f: int)
    requires 0 < p && 0 < period && 0 <= hacc <= period
    requires f == if hacc < period then p * hacc / period else p - 1
    ensures period * f <= p * hacc <= period * f + period
    ensures p * hacc < period * f + period <==> hacc < period
  {
    assert period * f == f * period;
    if hacc < period {
      assert p * hacc == f * period + p * hacc % period;
    } else {
      assert period * (p - 1) == period * p - period;
      assert p * period == period * p;
    }
  }

  /** With an image as wide as the window the accumulator rests on a full
      period, which no register of the divider can represent as a fraction:
      all fraction bits are then set. */
  lemma UnscaledLineSaturates(g: Geometry, n: nat, k: nat)
    requires g.Legal() && g.ihsize == g.hsize
    ensures Run(g, n + 2).hacc == 2 * g.hsize
    ensures PixelDivider.Fraction(Run(g, n + 2).hacc, g.hsize, k) == Pow2(k) - 1
  {
    Conservation(g, n);
  }

  /** A line of `hsize` output pixels consumes exactly the image: the last one
      lies on source position ihsize, and none lies beyond it. */
  lemma LineCoversImage(g: Geometry, n: nat)
    requires g.Legal() && n < g.hsize
    ensures 0 <= Carries(g, n) <= g.ihsize
    ensures g.ihsize < g.hsize ==> Carries(g, g.hsize - 1) == g.ihsize
  {
    LastTotal(g.hsize, g.ihsize);
    MulMonotone(n, g.hsize - 1, 2 * g.ihsize);
    assert 2 * g.ihsize * n == n * (2 * g.ihsize) && 2 * g.ihsize * (g.hsize - 1) == (g.hsize - 1) * (2 * g.ihsize);
    if g.ihsize < g.hsize {
      QuotientUnique(Total(g, g.hsize - 1), 2 * g.hsize, g.ihsize);
      MulMonotone(0, n, 2 * g.ihsize);
      QuotientOrder(Total(g, n), Total(g, g.hsize - 1), 2 * g.hsize);
    }
  }

  lemma QuotientOrder(a: int, b: int, d: int)
    requires 0 < d && 0 <= a <= b
    ensures 0 <= a / d <= b / d
  {
    assert a == a / d * d + a % d && b == b / d * d + b % d;
    DivNonNegative(a, d);
    assert (b / d + 1) * d == b / d * d + d;
    MulCancelStrict(a / d, b / d + 1, d);
  }

  lemma LastTotal(h: int, i: int)
    ensures h + i + 2 * i * (h - 1) == i * (2 * h) + (h - i)
  {
  }
}
