/** The line dividers of ascal.vhd (processes ODivider and IDividers): a
    25-bit register whose upper half is the signed partial remainder and whose
    lower half collects the quotient. */
module LineDivider {
  import opened Arithmetic
  import opened NonRestoring

  datatype Regs = Regs(vdivi: int, vdivr: int, divcpt: nat, divrun: bool, vfrac: int)

  datatype Input = Input(start: bool, vacc: int, vsize: int)

  predicate Negative(vdivr: int) { vdivr >= 0x100_0000 }

  /** The register after one step: the upper 13 bits take the doubled partial
      remainder moved towards zero, the quotient bit enters below. */
  function Shift(vdivr: int, vdivi: int): int {
    var doubled := vdivr / 2048 % 8192;
    if Negative(vdivr)
    then (doubled + vdivi) % 8192 * 4096 + vdivr % 2048 * 2
    else (doubled - vdivi) % 8192 * 4096 + vdivr % 2048 * 2 + 1
  }

  /** One clock; `last` is 12 on the output side and 6 on the input side. */
  function Next(last: nat, r: Regs, i: Input): Regs {
    var vdivi := 2 * i.vsize % 8192;
    var load := i.vacc * 4096 % 0x200_0000;
    if i.start then
      Regs(vdivi, load, 0, true, r.vfrac)
    else if r.divrun then
      var bit := if Negative(r.vdivr) then 0 else 1;
      Regs(
        vdivi,
        Shift(r.vdivr, r.vdivi),
        if r.divcpt == last then last else r.divcpt + 1,
        r.divcpt != last,
        if r.divcpt == last && 1 <= last <= 12
        then (r.vdivr % Pow2(last - 1) * 2 + bit) * Pow2(12 - last) else r.vfrac)
    else
      r.(vdivi := vdivi, vdivr := load)
  }

  function Run(last: nat, r: Regs, ins: seq<Input>): Regs
    decreases |ins|
  {
    if ins == [] then r
    else Next(last, Run(last, r, ins[..|ins| - 1]), ins[|ins| - 1])
  }

  class Divider {
    const last: nat
    var vdivi: int
    var vdivr: int
    var divcpt: nat
    var divrun: bool
    var vfrac: int

    ghost function Value(): Regs
      reads this
    {
      Regs(vdivi, vdivr, divcpt, divrun, vfrac)
    }

    constructor (last: nat, powerUp: Regs)
      requires last == 6 || last == 12
      ensures this.last == last && Value() == powerUp
    {
      this.last := last;
      vdivi, vdivr, divcpt := powerUp.vdivi, powerUp.vdivr, powerUp.divcpt;
      divrun, vfrac := powerUp.divrun, powerUp.vfrac;
    }

    method Clock(i: Input)
      requires last == 6 || last == 12
      modifies this
      ensures Value() == Next(last, old(Value()), i)
    {
      var oldDivi, oldDivr, oldRun := vdivi, vdivr, divrun;
      vdivi := 2 * i.vsize % 8192;
      vdivr := i.vacc * 4096 % 0x200_0000;
      if i.start {
        divcpt := 0;
        divrun := true;
      } else if oldRun {
        var bit := if Negative(oldDivr) then 0 else 1;
        if divcpt == last {
          divrun := false;
          vfrac := (oldDivr % Pow2(last - 1) * 2 + bit) * Pow2(12 - last);
        } else {
          divcpt := divcpt + 1;
        }
        var high;
        if !Negative(oldDivr) {
          high := (oldDivr / 2048 % 8192 - oldDivi) % 8192;
        } else {
          high := (oldDivr / 2048 % 8192 + oldDivi) % 8192;
        }
        vdivr := high * 4096 + (oldDivr % 2048 * 2 + bit);
      }
    }
  }

  predicate Held(ins: seq<Input>, vsize: int) {
    forall k | 0 <= k < |ins| :: !ins[k].start && ins[k].vsize == vsize
  }

  /** After `t` steps: partial remainder above, quotient bits below. */
  ghost predicate Tracks(r: Regs, vacc: int, vsize: int, t: nat) {
    && r.vdivi == 2 * vsize
    && r.divcpt == t
    && r.vdivr == Partial(vacc, 2 * vsize, t) % 8192 * 4096 + Bits(vacc, 2 * vsize, t)
  }

  lemma SignBit(vacc: int, vsize: int, t: nat)
    requires 1 <= vsize <= 2048 && 0 <= vacc < 2 * vsize && t <= 12
    ensures Bits(vacc, 2 * vsize, t) < 4096
    ensures Negative(Partial(vacc, 2 * vsize, t) % 8192 * 4096 + Bits(vacc, 2 * vsize, t))
            <==> Partial(vacc, 2 * vsize, t) < 0
  {
    hide Partial, Bits, Negative;
    PartialRange(vacc, 2 * vsize, t);
    Pow2Monotone(t, 12);
    assert Pow2(12) == 4096;
    HighHalf(Partial(vacc, 2 * vsize, t), Bits(vacc, 2 * vsize, t));
  }

  lemma HighHalf(x: int, b: int)
    requires -4096 <= x < 4096 && 0 <= b < 4096
    ensures 0 <= x % 8192 * 4096 + b < 0x200_0000
    ensures Negative(x % 8192 * 4096 + b) <==> x < 0
  {
    assert x % 8192 == if x >= 0 then x else x + 8192;
  }

  lemma ShiftStep(x: int, b: int, v: int)
    requires -4096 <= x < 4096 && 0 <= b < 2048 && 0 <= v <= 4096
    ensures ((x % 8192 * 4096 + b) / 2048 % 8192 - v) % 8192 == (2 * x - v) % 8192
    ensures ((x % 8192 * 4096 + b) / 2048 % 8192 + v) % 8192 == (2 * x + v) % 8192
    ensures (x % 8192 * 4096 + b) % 2048 == b
  {
    var h := x % 8192;
    QuotientUnique(h * 4096 + b, 2048, 2 * h);
    QuotientUnique(x, 8192, if x >= 0 then 0 else -1);
    var q := 2 * h / 8192 - (if x >= 0 then 0 else 2);
    assert 2 * x - v == (2 * h % 8192 - v) + q * 8192 && 2 * x + v == (2 * h % 8192 + v) + q * 8192;
    ModShift(2 * h % 8192 - v, 8192, q);
    ModShift(2 * h % 8192 + v, 8192, q);
  }

  lemma TrackStep(last: nat, r: Regs, vacc: int, vsize: int, t: nat, i: Input)
    requires 1 <= vsize <= 2048 && 0 <= vacc < 2 * vsize && t < 12 && t != last
    requires Tracks(r, vacc, vsize, t) && r.divrun && !i.start && i.vsize == vsize
    ensures Tracks(Next(last, r, i), vacc, vsize, t + 1) && Next(last, r, i).divrun
  {
    hide Shift, Next, Partial, Bits;
    ShiftTracks(vacc, vsize, t);
    NextShifts(last, r, i);
  }

  /** A clock in the middle of a division. */
  lemma NextShifts(last: nat, r: Regs, i: Input)
    requires r.divrun && !i.start && r.divcpt != last
    ensures Next(last, r, i) == Regs(2 * i.vsize % 8192, Shift(r.vdivr, r.vdivi), r.divcpt + 1, true, r.vfrac)
  {
  }

  lemma ShiftTracks(vacc: int, vsize: int, t: nat)
    requires 1 <= vsize <= 2048 && 0 <= vacc < 2 * vsize && t < 12
    ensures Shift(Partial(vacc, 2 * vsize, t) % 8192 * 4096 + Bits(vacc, 2 * vsize, t), 2 * vsize)
            == Partial(vacc, 2 * vsize, t + 1) % 8192 * 4096 + Bits(vacc, 2 * vsize, t + 1)
  {
    hide Shift;
    Pow2Monotone(t, 11);
    assert Pow2(11) == 2048;
    var x, b, v := Partial(vacc, 2 * vsize, t), Bits(vacc, 2 * vsize, t), 2 * vsize;
    assert Partial(vacc, v, t + 1) == if x >= 0 then 2 * x - v else 2 * x + v;
    assert Bits(vacc, v, t + 1) == 2 * b + (if x >= 0 then 1 else 0);
    PartialRange(vacc, v, t);
    hide Pow2, Partial, Bits;
    ShiftOnce(x, b, v);
  }

  lemma ShiftOnce(x: int, b: int, v: int)
    requires -4096 <= x < 4096 && 0 <= b < 2048 && 0 <= v <= 4096
    ensures x >= 0 ==> Shift(x % 8192 * 4096 + b, v) == (2 * x - v) % 8192 * 4096 + (2 * b + 1)
    ensures x < 0 ==> Shift(x % 8192 * 4096 + b, v) == (2 * x + v) % 8192 * 4096 + 2 * b
  {
    HighHalf(x, b);
    ShiftStep(x, b, v);
  }

  lemma {:induction false} Tracking(last: nat, r: Regs, vacc: int, vsize: int, ins: seq<Input>)
    requires last == 6 || last == 12
    requires 1 <= vsize <= 2048 && 0 <= vacc < 2 * vsize
    requires Held(ins, vsize) && |ins| <= last
    requires r.vdivi == 2 * vsize && r.vdivr == vacc * 4096 && r.divcpt == 0 && r.divrun
    ensures Tracks(Run(last, r, ins), vacc, vsize, |ins|) && Run(last, r, ins).divrun
    decreases |ins|
  {
    if ins != [] {
      var front := ins[..|ins| - 1];
      Tracking(last, r, vacc, vsize, front);
      TrackStep(last, Run(last, r, front), vacc, vsize, |front|, ins[|ins| - 1]);
    }
  }

  /** Correctness: pulsed once and then left alone with a window of at most
      2048 lines, the divider is busy for last + 1 clocks and ends with the
      leading `last` bits of vacc / (2 * vsize), whatever it held before and
      whatever the accumulator does meanwhile. */
  lemma DivisionCorrect(last: nat, r: Regs, start: Input, ins: seq<Input>)
    requires last == 6 || last == 12
    requires start.start && 1 <= start.vsize <= 2048 && 0 <= start.vacc < 2 * start.vsize
    requires Held(ins, start.vsize) && |ins| == last + 1
    ensures Run(last, Next(last, r, start), ins).vfrac
            == Pow2(last) * start.vacc / (2 * start.vsize) * Pow2(12 - last)
    ensures !Run(last, Next(last, r, start), ins).divrun
    ensures forall k | 0 <= k <= last :: Run(last, Next(last, r, start), ins[..k]).divrun
  {
    var s, vacc := Next(last, r, start), start.vacc;
    Loaded(last, r, start);
    forall k | 0 <= k <= last
      ensures Run(last, s, ins[..k]).divrun
    {
      Tracking(last, s, vacc, start.vsize, ins[..k]);
    }
    Tracking(last, s, vacc, start.vsize, ins[..last]);
    LastClock(last, Run(last, s, ins[..last]), vacc, start.vsize, ins[last]);
    assert ins[..|ins| - 1] == ins[..last];
  }

  predicate Quiet(ins: seq<Input>) {
    forall k | 0 <= k < |ins| :: !ins[k].start
  }

  lemma {:induction false} RunConcat(last: nat, r: Regs, a: seq<Input>, b: seq<Input>)
    ensures Run(last, r, a + b) == Run(last, Run(last, r, a), b)
    decreases |b|
  {
    if b == [] {
      assert a + b == a;
    } else {
      assert (a + b)[..|a + b| - 1] == a + b[..|b| - 1];
      RunConcat(last, r, a, b[..|b| - 1]);
    }
  }

  lemma {:induction false} IdleKeeps(last: nat, r: Regs, ins: seq<Input>)
    requires !r.divrun && Quiet(ins)
    ensures !Run(last, r, ins).divrun && Run(last, r, ins).vfrac == r.vfrac
    decreases |ins|
  {
    if ins != [] {
      IdleKeeps(last, r, ins[..|ins| - 1]);
    }
  }

  lemma {:induction false} BusyKeeps(last: nat, r: Regs, ins: seq<Input>)
    requires r.divrun && r.divcpt == 0 && Quiet(ins) && |ins| <= last
    ensures var s := Run(last, r, ins); s.divrun && s.divcpt == |ins| && s.vfrac == r.vfrac
    decreases |ins|
  {
    if ins != [] {
      BusyKeeps(last, r, ins[..|ins| - 1]);
    }
  }

  /** When the fraction changes: it keeps its old value until the division ends,
      and the new one from then on for any number of clocks, whatever the
      accumulator and the window do, and through the clock of the next start. */
  lemma FractionKept(last: nat, r: Regs, start: Input, ins: seq<Input>, next: Input)
    requires last == 6 || last == 12
    requires start.start && 1 <= start.vsize <= 2048 && 0 <= start.vacc < 2 * start.vsize
    requires Quiet(ins) && Held(ins[..if |ins| > last then last + 1 else |ins|], start.vsize)
    ensures var s := Run(last, Next(last, r, start), ins);
            && (|ins| <= last ==> s.vfrac == r.vfrac)
            && (|ins| > last ==> !s.divrun &&
                                 s.vfrac == Pow2(last) * start.vacc / (2 * start.vsize) * Pow2(12 - last))
            && (|ins| != last ==> Next(last, s, next).vfrac == s.vfrac)
  {
    if |ins| <= last {
      BusyKeeps(last, Next(last, r, start), ins);
    } else {
      var division, rest := ins[..last + 1], ins[last + 1..];
      DivisionCorrect(last, r, start, division);
      assert ins == division + rest;
      RunConcat(last, Next(last, r, start), division, rest);
      IdleKeeps(last, Run(last, Next(last, r, start), division), rest);
    }
  }

  lemma Loaded(last: nat, r: Regs, start: Input)
    requires start.start && 1 <= start.vsize <= 2048 && 0 <= start.vacc < 2 * start.vsize
    ensures Next(last, r, start)
            == Regs(2 * start.vsize, start.vacc * 4096, 0, true, r.vfrac)
  {
    QuotientUnique(start.vacc * 4096, 0x200_0000, 0);
  }

  lemma LastClock(last: nat, r: Regs, vacc: int, vsize: int, i: Input)
    requires last == 6 || last == 12
    requires 1 <= vsize <= 2048 && 0 <= vacc < 2 * vsize
    requires Tracks(r, vacc, vsize, last) && r.divrun && !i.start
    ensures Next(last, r, i).vfrac == Pow2(last) * vacc / (2 * vsize) * Pow2(12 - last)
    ensures !Next(last, r, i).divrun
  {
    SignBit(vacc, vsize, last);
    LastSlice(last, vacc, vsize);
  }

  /** The slice taken in the last clock, with the current sign appended. */
  lemma LastSlice(last: nat, vacc: int, vsize: int)
    requires last == 6 || last == 12
    requires 1 <= vsize <= 2048 && 0 <= vacc < 2 * vsize
    ensures (Partial(vacc, 2 * vsize, last) % 8192 * 4096 + Bits(vacc, 2 * vsize, last)) % Pow2(last - 1) * 2
            + (if Partial(vacc, 2 * vsize, last) >= 0 then 1 else 0)
            == Pow2(last) * vacc / (2 * vsize)
  {
    var v := 2 * vsize;
    BitsAreQuotient(vacc, v, last - 1);
    BitsAreQuotient(vacc, v, last);
    QuotientBelow(Pow2(last - 1), vacc, v);
    assert Pow2(last) == 2 * Pow2(last - 1);
    assert Bits(vacc, v, last + 1) == 2 * Bits(vacc, v, last) + if Partial(vacc, v, last) >= 0 then 1 else 0;
    hide Partial, Pow2, Bits;
    CutTop(Partial(vacc, v, last) % 8192, Bits(vacc, v, last), last);
  }

  lemma QuotientBelow(p: int, n: int, v: int)
    requires 0 < p && 0 <= n < v
    ensures 0 <= p * n / v < p
  {
    MulMonotone(n, v - 1, p);
    MulMonotone(0, n, p);
    var q := p * n / v;
    assert p * n == q * v + p * n % v;
    assert n * p == p * n && (v - 1) * p == p * v - p;
    MulCancelStrict(q, p, v);
    MulCancelStrict(-1, q, v);
  }

  /** The oldest recorded bit is the leading one; the slice drops it. */
  lemma CutTop(h: int, b: int, last: nat)
    requires last == 6 || last == 12
    requires Pow2(last - 1) <= b < Pow2(last)
    ensures (h * 4096 + b) % Pow2(last - 1) == b - Pow2(last - 1)
  {
    if last == 6 {
      assert Pow2(5) == 32 && Pow2(6) == 64;
      QuotientUnique(h * 4096 + b, 32, 128 * h + 1);
    } else {
      assert Pow2(11) == 2048 && Pow2(12) == 4096;
      QuotientUnique(h * 4096 + b, 2048, 2 * h + 1);
    }
  }

  /** The output side: twelve fraction bits, thirteen clocks. */
  lemma OutputFraction(r: Regs, start: Input, ins: seq<Input>)
    requires start.start && 1 <= start.vsize <= 2048 && 0 <= start.vacc < 2 * start.vsize
    requires Held(ins, start.vsize) && |ins| == 13
    ensures Run(12, Next(12, r, start), ins).vfrac == 4096 * start.vacc / (2 * start.vsize)
  {
    DivisionCorrect(12, r, start, ins);
    assert Pow2(12) == 4096 && Pow2(0) == 1;
  }

  // ---- Windows of more than 2048 lines ----

  /** The low `t` bits once `t` bits have been recorded; the second of them, the
      first that counts, is zero. */
  ghost predicate StartsWithZero(r: Regs, t: nat)
    requires t >= 2
  {
    r.divcpt == t && r.divrun && 0 <= r.vdivr && r.vdivr % Pow2(t) < Pow2(t - 2)
  }

  lemma ShiftBit(vdivr: int, vdivi: int, t: nat)
    requires 0 <= vdivr && t <= 11
    ensures Shift(vdivr, vdivi) % Pow2(t + 1) <= 2 * (vdivr % Pow2(t)) + 1 && 0 <= Shift(vdivr, vdivi)
  {
    var high := if Negative(vdivr) then (vdivr / 2048 % 8192 + vdivi) % 8192 else (vdivr / 2048 % 8192 - vdivi) % 8192;
    var bit := if Negative(vdivr) then 0 else 1;
    assert Shift(vdivr, vdivi) == high * 4096 + (vdivr % 2048 * 2 + bit);
    Pow2Sum(t, 11 - t);
    assert t + (11 - t) == 11 && Pow2(11) == 2048 && Pow2(t + 1) == 2 * Pow2(t);
    hide Shift, Negative;
    LowBits(high, vdivr, bit, Pow2(t), Pow2(11 - t));
  }

  lemma LowBits(high: int, x: int, bit: int, p: int, q: int)
    requires 0 < p && p * q == 2048 && 0 <= bit <= 1
    ensures (high * 4096 + (x % 2048 * 2 + bit)) % (2 * p) == 2 * (x % p) + bit
  {
    var a, b := x / 2048, x % 2048;
    var c := b / p;
    assert x == a * 2048 + b && b == c * p + b % p;
    assert a * 2048 == (a * q) * p by { Associate(a, q, p); assert q * p == p * q; }
    assert (a * q + c) * p == (a * q) * p + c * p;
    QuotientUnique(x, p, a * q + c);
    assert high * 4096 == (high * q) * (2 * p) by {
      Associate(high, q, 2 * p);
      assert q * (2 * p) == 2 * (p * q);
    }
    assert 2 * b == c * (2 * p) + 2 * (b % p);
    assert (high * q + c) * (2 * p) == (high * q) * (2 * p) + c * (2 * p);
    QuotientUnique(high * 4096 + (b * 2 + bit), 2 * p, high * q + c);
  }

  lemma {:induction false} ZeroKept(last: nat, r: Regs, vsize: int, ins: seq<Input>)
    requires last == 6 || last == 12
    requires 2048 < vsize <= 4095 && Held(ins, vsize) && 2 <= |ins| <= last
    requires r == Regs(2 * vsize, 0x100_0000, 0, true, r.vfrac)
    ensures StartsWithZero(Run(last, r, ins), |ins|)
    decreases |ins|
  {
    var front, i := ins[..|ins| - 1], ins[|ins| - 1];
    if |ins| == 2 {
      assert ins[..1] == [ins[0]] && [ins[0]][..0] == [];
      var s := Next(last, r, ins[0]);
      NextShifts(last, r, ins[0]);
      assert Shift(0x100_0000, 2 * vsize) == 2 * vsize * 4096;
      assert Run(last, r, ins[..1]) == s;
      NextShifts(last, s, i);
      assert Pow2(2) == 4 && Pow2(0) == 1;
      SecondBit(2 * vsize);
    } else {
      ZeroKept(last, r, vsize, front);
      var s := Run(last, r, front);
      NextShifts(last, s, i);
      ShiftBit(s.vdivr, s.vdivi, |front|);
      assert Pow2(|front| - 1) == 2 * Pow2(|front| - 2);
      hide Next, Shift;
    }
  }

  lemma SecondBit(v: int)
    requires 4096 < v <= 8190
    ensures Shift(v * 4096, v) % 4 == 0 && 0 <= Shift(v * 4096, v)
  {
    QuotientUnique(v * 4096, 2048, 2 * v);
    var high := (2 * v % 8192 + v) % 8192;
    assert Shift(v * 4096, v) == high * 4096;
    QuotientUnique(high * 4096, 4, high * 1024);
  }

  /** A larger window misreads an accumulator of 4096 as negative already when
      it is loaded: the leading fraction bit comes out zero although the phase is
      past the half. */
  lemma WideWindowMisdivides(last: nat, r: Regs, vsize: int, ins: seq<Input>)
    requires last == 6 || last == 12
    requires 2048 < vsize <= 4095 && Held(ins, vsize) && |ins| == last + 1
    ensures Run(last, Next(last, r, Input(true, 4096, vsize)), ins).vfrac < 2048
            <= Pow2(last) * 4096 / (2 * vsize) * Pow2(12 - last)
  {
    var s := Next(last, r, Input(true, 4096, vsize));
    QuotientUnique(2 * vsize, 8192, 0);
    assert 4096 * 4096 == 0x100_0000;
    QuotientUnique(0x100_0000, 0x200_0000, 0);
    assert s == Regs(2 * vsize, 0x100_0000, 0, true, r.vfrac);
    var front := ins[..last];
    assert ins[..|ins| - 1] == front;
    ZeroKept(last, s, vsize, front);
    var t := Run(last, s, front);
    assert Run(last, s, ins) == Next(last, t, ins[last]);
    LastZero(last, t, ins[last]);
    PastHalf(last, vsize);
  }

  lemma LastZero(last: nat, t: Regs, i: Input)
    requires last == 6 || last == 12
    requires StartsWithZero(t, last) && !i.start
    ensures Next(last, t, i).vfrac < 2048
  {
    var bit := if Negative(t.vdivr) then 0 else 1;
    assert Next(last, t, i).vfrac == (t.vdivr % Pow2(last - 1) * 2 + bit) * Pow2(12 - last);
    assert Pow2(last) == 4 * Pow2(last - 2) && Pow2(last - 1) == 2 * Pow2(last - 2);
    Pow2Sum(last - 1, 12 - last);
    assert last - 1 + (12 - last) == 11 && Pow2(11) == 2048;
    hide Next, Negative, Pow2;
    TopZero(t.vdivr, Pow2(last - 2), bit, Pow2(12 - last));
  }

  lemma TopZero(x: int, p: int, bit: int, unit: int)
    requires 0 < p && 0 < unit && 2 * p * unit == 2048 && 0 <= bit <= 1 && x % (4 * p) < p
    ensures (x % (2 * p) * 2 + bit) * unit < 2048
  {
    var q, y := x / (4 * p), x % (4 * p);
    assert x == q * (4 * p) + y == (2 * q) * (2 * p) + y;
    QuotientUnique(x, 2 * p, 2 * q);
    MulMonotone(y * 2 + bit, 2 * p - 1, unit);
    assert (2 * p - 1) * unit == 2 * p * unit - unit;
  }

  lemma PastHalf(last: nat, vsize: int)
    requires last == 6 || last == 12
    requires 2048 < vsize <= 4095
    ensures 2048 <= Pow2(last) * 4096 / (2 * vsize) * Pow2(12 - last)
  {
    if last == 6 {
      assert Pow2(6) == 64;
      AtLeast(64 * 4096, 2 * vsize, 32);
    } else {
      assert Pow2(12) == 4096 && Pow2(0) == 1;
      AtLeast(4096 * 4096, 2 * vsize, 2048);
    }
  }

  lemma AtLeast(n: int, d: int, q: int)
    requires 0 < d && q * d <= n
    ensures q <= n / d
  {
    assert n == n / d * d + n % d;
    assert (n / d + 1) * d == n / d * d + d;
    MulCancelStrict(q, n / d + 1, d);
  }

  /** Which windows the line dividers serve, over all their accumulator values:
      exactly those of at most 2048 lines. */
  lemma DivisionCorrectIff(last: nat, r: Regs, vsize: int, ins: seq<Input>)
    requires last == 6 || last == 12
    requires 1 <= vsize <= 4095 && Held(ins, vsize) && |ins| == last + 1
    ensures (forall vacc | 0 <= vacc < 2 * vsize ::
               Run(last, Next(last, r, Input(true, vacc, vsize)), ins).vfrac
               == Pow2(last) * vacc / (2 * vsize) * Pow2(12 - last))
            <==> vsize <= 2048
  {
    if vsize <= 2048 {
      forall vacc | 0 <= vacc < 2 * vsize
        ensures Run(last, Next(last, r, Input(true, vacc, vsize)), ins).vfrac
                == Pow2(last) * vacc / (2 * vsize) * Pow2(12 - last)
      {
        DivisionCorrect(last, r, Input(true, vacc, vsize), ins);
      }
    } else {
      WideWindowMisdivides(last, r, vsize, ins);
    }
  }
}
