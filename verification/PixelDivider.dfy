/** The pipelined dividers of ascal.vhd that turn a horizontal accumulator into
    a sub-pixel fraction: four stages of two bits on the output side (HSCAL),
    two stages on the input side.  Both keep the partial remainder in an
    unsigned register whose top bit is read as the sign. */
module PixelDivider {
  import opened Arithmetic
  import opened NonRestoring

  /** `scale` is 8 for HSCAL (21-bit register) and 4 for the input divider
      (17-bit register). */
  datatype Stage = Stage(div: int, dir: int)

  function Modulus(scale: nat): int { Pow2(scale + 13) }

  predicate Positive(scale: nat, div: int) { div < Pow2(scale + 12) }

  /** Bit `j` counted from the top of the 12-bit fraction. */
  function Weight(j: nat): int
    requires 1 <= j <= 12
  {
    Pow2(12 - j)
  }

  /** One division step: the first always subtracts, later ones follow the
      sign; then the fraction bit records the new sign. */
  function Step(scale: nat, s: Stage, hsize: int, j: nat): Stage
    requires 1 <= j <= scale <= 8
  {
    var amount := hsize * Pow2(scale + 1 - j);
    var div := if j == 1 || Positive(scale, s.div) then (s.div - amount) % Modulus(scale)
               else (s.div + amount) % Modulus(scale);
    Stage(div, s.dir + (if Positive(scale, div) then Weight(j) else 0))
  }

  function Load(scale: nat, hacc: int): Stage {
    Stage(hacc * Pow2(scale) % Modulus(scale), 0)
  }

  /** The stage contents after `j` steps on a given accumulator value. */
  function After(scale: nat, hacc: int, hsize: int, j: nat): Stage
    requires j <= scale <= 8
  {
    if j == 0 then Load(scale, hacc) else Step(scale, After(scale, hacc, hsize, j - 1), hsize, j)
  }

  /** Number of fraction bits HSCAL computes for a build's FRAC. */
  function FractionBits(frac: nat): nat
    requires 4 <= frac <= 8
  {
    if frac > 6 then 8 else if frac > 4 then 6 else 4
  }

  /** o_div, o_dir and o_hfrac(1). */
  datatype Pipeline = Pipeline(s0: Stage, s1: Stage, s2: Stage, hfrac: int)

  function Next(frac: nat, p: Pipeline, hacc: int, hsize: int): Pipeline
    requires 4 <= frac <= 8
  {
    Pipeline(
      Step(8, Step(8, Load(8, hacc), hsize, 1), hsize, 2),
      Step(8, Step(8, p.s0, hsize, 3), hsize, 4),
      if frac > 4 then Step(8, Step(8, p.s1, hsize, 5), hsize, 6) else p.s1,
      if frac > 6 then Step(8, Step(8, p.s2, hsize, 7), hsize, 8).dir else p.s2.dir)
  }

  /** The HSCAL process: variables div_v and dir_v, worked through in order. */
  class Hscal {
    const frac: nat
    var s0: Stage
    var s1: Stage
    var s2: Stage
    var hfrac: int

    ghost function Value(): Pipeline
      reads this
    {
      Pipeline(s0, s1, s2, hfrac)
    }

    constructor (frac: nat, powerUp: Pipeline)
      ensures this.frac == frac && Value() == powerUp
    {
      this.frac := frac;
      s0, s1, s2, hfrac := powerUp.s0, powerUp.s1, powerUp.s2, powerUp.hfrac;
    }

    method Bit(v: Stage, hsize: int, j: nat) returns (w: Stage)
      requires 2 <= j <= 8
      ensures w == Step(8, v, hsize, j)
    {
      hide Pow2;
      var div_v, dir_v := v.div, v.dir;
      if div_v < Pow2(20) {
        div_v := (div_v - hsize * Pow2(9 - j)) % Pow2(21);
      } else {
        div_v := (div_v + hsize * Pow2(9 - j)) % Pow2(21);
      }
      if div_v < Pow2(20) { dir_v := dir_v + Weight(j); }
      w := Stage(div_v, dir_v);
    }

    method Clock(hacc: int, hsize: int)
      requires 4 <= frac <= 8
      modifies this
      ensures Value() == Next(frac, old(Value()), hacc, hsize)
    {
      hide Pow2;
      var old0, old1, old2 := s0, s1, s2;
      // Cycle 1: the first bit compares without looking at a sign.
      var div_v := hacc * Pow2(8) % Pow2(21);
      div_v := (div_v - hsize * Pow2(8)) % Pow2(21);
      var dir_v := if div_v < Pow2(20) then Weight(1) else 0;
      s0 := Bit(Stage(div_v, dir_v), hsize, 2);
      // Cycle 2
      s1 := Bit(old0, hsize, 3);
      s1 := Bit(s1, hsize, 4);
      // Cycle 3
      s2 := old1;
      if frac > 4 {
        s2 := Bit(s2, hsize, 5);
        s2 := Bit(s2, hsize, 6);
      }
      // Cycle 4
      var last := old2;
      if frac > 6 {
        last := Bit(last, hsize, 7);
        last := Bit(last, hsize, 8);
      }
      hfrac := last.dir;
    }
  }

  /** The register after `j` steps is the non-restoring partial remainder,
      scaled down by the steps still to come; the fraction holds its bits. */
  ghost predicate Tracks(scale: nat, s: Stage, hacc: int, hsize: int, j: nat)
    requires 1 <= j <= scale <= 8
  {
    && s.div == (Pow2(scale - j) * Partial(hacc, 2 * hsize, j)) % Modulus(scale)
    && s.dir == (Bits(hacc, 2 * hsize, j + 1) - Pow2(j)) * Weight(j)
  }

  /** Widths suffice: the scaled partial remainder fits as a signed number, also
      for an accumulator equal to the full period. */
  lemma RegisterHolds(scale: nat, hacc: int, hsize: int, j: nat)
    requires 1 <= j <= scale <= 8
    requires 1 <= hsize <= 4095 && 0 <= hacc <= 2 * hsize
    ensures Positive(scale, (Pow2(scale - j) * Partial(hacc, 2 * hsize, j)) % Modulus(scale))
            <==> Partial(hacc, 2 * hsize, j) >= 0
  {
    hide Partial, Bits;
    var x, p := Partial(hacc, 2 * hsize, j), Pow2(scale - j);
    if hacc < 2 * hsize {
      PartialRange(hacc, 2 * hsize, j);
    } else {
      BitsSaturate(2 * hsize, j);
    }
    Pow2Monotone(scale - j, scale - 1);
    Pow2Sum(13, scale - 1);
    assert Pow2(13) == 8192;
    assert 13 + (scale - 1) == scale + 12;
    ScaledFits(x, p, Pow2(scale - 1));
    SignedRoundTrip(p * x, scale + 13);
  }

  lemma ScaledFits(x: int, p: int, top: int)
    requires 1 <= p <= top && -8190 <= x <= 8190
    ensures -8192 * top <= p * x < 8192 * top
    ensures p * x >= 0 <==> x >= 0
  {
    MulMonotone(x, 8190, p);
    MulMonotone(-8190, x, p);
    if x >= 0 {
      MulMonotone(0, x, p);
    } else {
      MulMonotone(x, -1, p);
    }
    assert x * p == p * x;
  }

  lemma FirstStep(scale: nat, hacc: int, hsize: int)
    requires 1 <= scale <= 8
    requires 1 <= hsize <= 4095 && 0 <= hacc <= 2 * hsize
    ensures Tracks(scale, After(scale, hacc, hsize, 1), hacc, hsize, 1)
  {
    RegisterHolds(scale, hacc, hsize, 1);
    var p := Pow2(scale - 1);
    assert Pow2(scale) == 2 * p;
    SubMod(hacc * Pow2(scale), hsize * Pow2(scale), Modulus(scale));
    FirstBits(hacc, hsize);
    FirstAlgebra(p, hacc, hsize);
    assert After(scale, hacc, hsize, 0) == Load(scale, hacc);
  }

  lemma FirstBits(hacc: int, hsize: int)
    requires 0 <= hacc
    ensures Partial(hacc, 2 * hsize, 1) == 2 * (hacc - hsize)
    ensures Bits(hacc, 2 * hsize, 2) - Pow2(1) == if hacc >= hsize then 1 else 0
  {
    assert Partial(hacc, 2 * hsize, 0) == hacc;
    assert Bits(hacc, 2 * hsize, 0) == 0;
    assert Bits(hacc, 2 * hsize, 1) == 1;
    assert Pow2(1) == 2 * Pow2(0) == 2;
  }

  lemma FirstAlgebra(p: int, hacc: int, hsize: int)
    ensures p * (2 * (hacc - hsize)) == hacc * (2 * p) - hsize * (2 * p)
  {
  }

  lemma SubMod(a: int, b: int, m: int)
    requires 0 < m
    ensures (a % m - b) % m == (a - b) % m
    ensures (a % m + b) % m == (a + b) % m
  {
    var q := a / m;
    assert a == q * m + a % m;
    ModShift(a % m - b, m, q);
    ModShift(a % m + b, m, q);
  }

  lemma NextStep(scale: nat, s: Stage, hacc: int, hsize: int, j: nat)
    requires 1 <= j < scale <= 8
    requires 1 <= hsize <= 4095 && 0 <= hacc <= 2 * hsize
    requires Tracks(scale, s, hacc, hsize, j)
    ensures Tracks(scale, Step(scale, s, hsize, j + 1), hacc, hsize, j + 1)
  {
    NextStepDiv(scale, s, hacc, hsize, j);
    NextStepDir(scale, s, hacc, hsize, j);
  }

  lemma NextStepDiv(scale: nat, s: Stage, hacc: int, hsize: int, j: nat)
    requires 1 <= j < scale <= 8
    requires 1 <= hsize <= 4095 && 0 <= hacc <= 2 * hsize
    requires Tracks(scale, s, hacc, hsize, j)
    ensures Step(scale, s, hsize, j + 1).div
            == (Pow2(scale - j - 1) * Partial(hacc, 2 * hsize, j + 1)) % Modulus(scale)
  {
    RegisterHolds(scale, hacc, hsize, j);
    assert Pow2(scale - j) == 2 * Pow2(scale - j - 1);
    hide Bits, Pow2, Positive, Weight;
    NextDiv(Partial(hacc, 2 * hsize, j), hsize, Pow2(scale - j - 1), Modulus(scale));
  }

  lemma NextStepDir(scale: nat, s: Stage, hacc: int, hsize: int, j: nat)
    requires 1 <= j < scale <= 8
    requires 1 <= hsize <= 4095 && 0 <= hacc <= 2 * hsize
    requires Tracks(scale, s, hacc, hsize, j)
    ensures Step(scale, s, hsize, j + 1).dir
            == (Bits(hacc, 2 * hsize, j + 2) - Pow2(j + 1)) * Weight(j + 1)
  {
    NextStepDiv(scale, s, hacc, hsize, j);
    RegisterHolds(scale, hacc, hsize, j + 1);
    assert Pow2(j + 1) == 2 * Pow2(j) && Weight(j) == 2 * Weight(j + 1);
    hide Pow2, Positive, Weight, Partial;
    BitStep(Bits(hacc, 2 * hsize, j + 1), Pow2(j), Weight(j + 1),
            if Partial(hacc, 2 * hsize, j + 1) >= 0 then 1 else 0);
  }

  lemma NextDiv(x: int, hsize: int, p: int, m: int)
    requires 0 < m
    ensures ((2 * p) * x % m - hsize * (2 * p)) % m == p * (2 * x - 2 * hsize) % m
    ensures ((2 * p) * x % m + hsize * (2 * p)) % m == p * (2 * x + 2 * hsize) % m
  {
    SubMod((2 * p) * x, hsize * (2 * p), m);
    assert p * (2 * x - 2 * hsize) == (2 * p) * x - hsize * (2 * p);
    assert p * (2 * x + 2 * hsize) == (2 * p) * x + hsize * (2 * p);
  }

  lemma BitStep(b: int, p: int, w: int, bit: int)
    requires 0 <= bit <= 1
    ensures (b - p) * (2 * w) + bit * w == (2 * b + bit - 2 * p) * w
  {
  }

  lemma {:induction false} Tracking(scale: nat, hacc: int, hsize: int, j: nat)
    requires 1 <= j <= scale <= 8
    requires 1 <= hsize <= 4095 && 0 <= hacc <= 2 * hsize
    ensures Tracks(scale, After(scale, hacc, hsize, j), hacc, hsize, j)
  {
    if j == 1 {
      FirstStep(scale, hacc, hsize);
    } else {
      Tracking(scale, hacc, hsize, j - 1);
      NextStep(scale, After(scale, hacc, hsize, j - 1), hacc, hsize, j - 1);
    }
  }

  /** The exact fraction in `k` bits, saturated at a full period. */
  function Fraction(hacc: int, hsize: int, k: nat): int
    requires 0 < hsize
  {
    if hacc < 2 * hsize then Pow2(k) * hacc / (2 * hsize) else Pow2(k) - 1
  }

  /** Both dividers compute the leading bits of hacc / (2 * hsize) exactly. */
  lemma StepsAreQuotient(scale: nat, hacc: int, hsize: int, j: nat)
    requires 1 <= j <= scale <= 8
    requires 1 <= hsize <= 4095 && 0 <= hacc <= 2 * hsize
    ensures After(scale, hacc, hsize, j).dir == Fraction(hacc, hsize, j) * Pow2(12 - j)
  {
    Tracking(scale, hacc, hsize, j);
    if hacc < 2 * hsize {
      BitsAreQuotient(hacc, 2 * hsize, j);
    } else {
      BitsSaturate(2 * hsize, j + 1);
      assert Pow2(j + 1) - 1 - Pow2(j) == Pow2(j) - 1;
    }
  }

  /** Four edges after an accumulator value is presented, its fraction leaves
      the pipeline, whatever the stages held before and whatever values follow. */
  lemma HscalLatency(frac: nat, p: Pipeline, hacc: int, h1: int, h2: int, h3: int, hsize: int)
    requires 4 <= frac <= 8
    requires 1 <= hsize <= 4095 && 0 <= hacc <= 2 * hsize
    ensures Next(frac, Next(frac, Next(frac, Next(frac, p, hacc, hsize), h1, hsize), h2, hsize), h3, hsize).hfrac
            == Fraction(hacc, hsize, FractionBits(frac)) * Pow2(12 - FractionBits(frac))
  {
    var a := Next(frac, p, hacc, hsize);
    assert a.s0 == After(8, hacc, hsize, 2) by {
      assert After(8, hacc, hsize, 1) == Step(8, After(8, hacc, hsize, 0), hsize, 1);
    }
    var b := Next(frac, a, h1, hsize);
    assert b.s1 == After(8, hacc, hsize, 4) by {
      assert After(8, hacc, hsize, 3) == Step(8, After(8, hacc, hsize, 2), hsize, 3);
    }
    var c := Next(frac, b, h2, hsize);
    if frac > 4 {
      assert c.s2 == After(8, hacc, hsize, 6) by {
        assert After(8, hacc, hsize, 5) == Step(8, After(8, hacc, hsize, 4), hsize, 5);
      }
    }
    var d := Next(frac, c, h3, hsize);
    if frac > 6 {
      assert d.hfrac == After(8, hacc, hsize, 8).dir by {
        assert After(8, hacc, hsize, 7) == Step(8, After(8, hacc, hsize, 6), hsize, 7);
      }
    }
    StepsAreQuotient(8, hacc, hsize, FractionBits(frac));
  }
}
