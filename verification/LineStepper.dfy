/** The vertical phase accumulator of ascal.vhd (state sHSYNC of process
    Scalaire): which source line each output line is interpolated from. */
module LineStepper {
  import opened Arithmetic
  import LineDivider

  datatype Geometry = Geometry(vsize: nat, ivsize: nat) {
    /** The doubled sizes together fit the 13-bit accumulator. */
    predicate Legal() { 1 <= ivsize <= vsize && vsize + ivsize <= 4096 }
  }

  datatype Regs = Regs(vacc: int, vaccNext: int, vacpt: int, vacptl: int, prim: bool, vcarrym: bool)

  function Dif(g: Geometry, r: Regs): int { (r.vaccNext - 2 * g.vsize + 16384) % 16384 }

  /** One sHSYNC clock carries when a whole output period is left over; on the
      first line of the window the accumulator is reloaded instead. */
  predicate CarryOut(g: Geometry, r: Regs, first: bool) { !first && Dif(g, r) < 8192 }

  function Next(g: Geometry, r: Regs, first: bool): Regs {
    if first then
      var ini := (g.vsize - g.ivsize + 8192) % 8192;
      Regs(ini, ini + 2 * g.ivsize, 1, 1, false, r.vcarrym)
    else if CarryOut(g, r, first) then
      Regs(if r.prim then Dif(g, r) else r.vacc, Dif(g, r), (r.vacpt + 1) % 4096,
           if r.prim then (r.vacptl + 1) % 4 else r.vacptl, false, true)
    else
      Regs(if r.prim then r.vaccNext else r.vacc, (r.vaccNext + 2 * g.ivsize) % 8192,
           r.vacpt, r.vacptl, false, r.vcarrym)
  }

  /** sHSYNC repeats until the clock that does not carry.  A window has at
      most 4095 lines, so every carry takes a period off and the wait ends. */
  function Settle(g: Geometry, r: Regs, first: bool): Regs
    requires 1 <= g.vsize <= 4095 && 0 <= r.vaccNext < 16384
    decreases r.vaccNext
  {
    if CarryOut(g, r, first) then Settle(g, Next(g, r, first), first) else Next(g, r, first)
  }

  /** A whole line: sDISP arms the flags, then sHSYNC settles.  While the two
      lines at the top of the screen are preloaded (o_fload above zero) it takes
      one clock, carry or not. */
  function Line(g: Geometry, r: Regs, first: bool, preload: bool): Regs
    requires 1 <= g.vsize <= 4095 && 0 <= r.vaccNext < 16384
  {
    var armed := r.(prim := true, vcarrym := false);
    if preload then Next(g, armed, first) else Settle(g, armed, first)
  }

  /** The state machine reads a line or goes back to displaying. */
  predicate Fetches(vpe: bool, vcarrym: bool, preload: bool) { (vpe && vcarrym) || preload }

  class Stepper {
    const g: Geometry
    var vacc: int
    var vaccNext: int
    var vacpt: int
    var vacptl: int
    var prim: bool
    var vcarrym: bool

    ghost function Value(): Regs
      reads this
    {
      Regs(vacc, vaccNext, vacpt, vacptl, prim, vcarrym)
    }

    constructor (g: Geometry, powerUp: Regs)
      ensures this.g == g && Value() == powerUp
    {
      this.g := g;
      vacc, vaccNext, vacpt := powerUp.vacc, powerUp.vaccNext, powerUp.vacpt;
      vacptl, prim, vcarrym := powerUp.vacptl, powerUp.prim, powerUp.vcarrym;
    }

    /** One clock in sHSYNC; `carry` is vcarry_v. */
    method Clock(first: bool) returns (carry: bool)
      modifies this
      ensures Value() == Next(g, old(Value()), first) && carry == CarryOut(g, old(Value()), first)
      ensures vcarrym == (old(vcarrym) || carry)
    {
      var dif_v := (vaccNext - 2 * g.vsize + 16384) % 16384;
      if prim {
        if dif_v >= 8192 { vacc := vaccNext; } else { vacc := dif_v; }
      }
      if dif_v >= 8192 {
        vaccNext := (vaccNext + 2 * g.ivsize) % 8192;
        carry := false;
      } else {
        vaccNext := dif_v;
        carry := true;
      }
      if first {
        vacc := (g.vsize - g.ivsize + 8192) % 8192;
        vaccNext := vacc + 2 * g.ivsize;
        vacpt := 1;
        vacptl := 1;
        carry := false;
      }
      if carry { vacpt := (vacpt + 1) % 4096; }
      if carry && prim { vacptl := (vacptl + 1) % 4; }
      vcarrym := vcarrym || carry;
      prim := false;
    }

    /** The stay in sHSYNC at the start of one output line, and whether it leads
        to sREAD; the last clock tests the flag of the clocks before it. */
    method Hsync(first: bool, vpe: bool, fload: nat) returns (read: bool)
      requires 1 <= g.vsize <= 4095 && 0 <= vaccNext < 16384
      modifies this
      ensures Value() == Line(g, old(Value()), first, fload > 0)
      ensures read == Fetches(vpe, vcarrym, fload > 0)
    {
      hide Next, CarryOut;
      prim := true;
      vcarrym := false;
      CarryShrinks(g, Value(), first);
      ghost var armed := Value();
      var carried := vcarrym;
      var carry := Clock(first);
      while carry && fload == 0
        invariant 0 <= vaccNext < 16384 || !carry
        invariant carry ==> !first
        invariant if carry then Settle(g, Value(), first) == Settle(g, armed, first)
                  else Value() == Settle(g, armed, first) && vcarrym == carried
        invariant fload > 0 ==> Value() == Next(g, armed, first)
        decreases carry, vaccNext
      {
        CarryShrinks(g, Value(), first);
        carried := vcarrym;
        carry := Clock(first);
      }
      read := (vpe && carried) || fload > 0;
    }
  }

  /** A carry takes a whole output period off what is left. */
  lemma CarryShrinks(g: Geometry, r: Regs, first: bool)
    requires 1 <= g.vsize <= 4095 && 0 <= r.vaccNext < 16384
    ensures CarryOut(g, r, first) ==> !first && 0 <= Next(g, r, first).vaccNext < r.vaccNext
  {
  }

  /** `n` lines after the first line of the window.  The lines preloaded are the
      one before it, whose registers the first line reloads, and the first. */
  function Lines(g: Geometry, r: Regs, n: nat): Regs
    requires g.Legal() && 0 <= r.vaccNext < 16384
    ensures 0 <= Lines(g, r, n).vaccNext < 16384
  {
    if n == 0 then Line(g, r, true, true)
    else
      var s := Lines(g, r, n - 1);
      SettleRange(g, s.(prim := true, vcarrym := false));
      Line(g, s, false, false)
  }

  lemma {:induction false} SettleRange(g: Geometry, r: Regs)
    requires g.Legal() && 0 <= r.vaccNext < 16384
    ensures 0 <= Settle(g, r, false).vaccNext < 16384
    decreases r.vaccNext
  {
    if CarryOut(g, r, false) {
      SettleRange(g, Next(g, r, false));
    }
  }

  function Total(g: Geometry, n: nat): int { g.vsize - g.ivsize + 2 * g.ivsize * n }

  /** Conservation over the frame: line `n` lies Total / (2 * vsize) source
      lines below the first; the accumulator holds the residue and the line
      counters the quotient, the two-bit buffer selector in step with the
      address counter. */
  lemma {:induction false} LineConservation(g: Geometry, r: Regs, n: nat)
    requires g.Legal() && 0 <= r.vaccNext < 16384
    ensures AtLine(g, Lines(g, r, n), Whole(g, n), Residue(g, n))
  {
    if n == 0 {
      FirstLine(g, r);
    } else {
      LineConservation(g, r, n - 1);
      TotalNonNegative(g, n - 1);
      LineAdvance(g, Lines(g, r, n - 1), Whole(g, n - 1), Residue(g, n - 1));
      WholeStep(g, n);
    }
  }

  /** The first line reloads the registers, preloading or not. */
  lemma FirstLine(g: Geometry, r: Regs)
    requires g.Legal() && 0 <= r.vaccNext < 16384
    ensures AtLine(g, Line(g, r, true, true), Whole(g, 0), Residue(g, 0))
    ensures Line(g, r, true, false) == Line(g, r, true, true)
  {
    assert Total(g, 0) == g.vsize - g.ivsize;
    QuotientUnique(Total(g, 0), 2 * g.vsize, 0);
    assert (g.vsize - g.ivsize + 8192) % 8192 == g.vsize - g.ivsize;
  }

  lemma WholeStep(g: Geometry, n: nat)
    requires g.Legal() && n > 0
    ensures Residue(g, n - 1) + 2 * g.ivsize < 2 * g.vsize ==>
              Whole(g, n) == Whole(g, n - 1) && Residue(g, n) == Residue(g, n - 1) + 2 * g.ivsize
    ensures Residue(g, n - 1) + 2 * g.ivsize >= 2 * g.vsize ==>
              Whole(g, n) == Whole(g, n - 1) + 1 && Residue(g, n) == Residue(g, n - 1) + 2 * g.ivsize - 2 * g.vsize
  {
    TotalStep(g, n);
    AdvanceQuotient(Total(g, n - 1), 2 * g.ivsize, 2 * g.vsize);
  }

  /** Source lines wholly passed, and the phase within the next one. */
  function Whole(g: Geometry, n: nat): int
    requires g.vsize > 0
  {
    Total(g, n) / (2 * g.vsize)
  }

  function Residue(g: Geometry, n: nat): int
    requires g.vsize > 0
  {
    Total(g, n) % (2 * g.vsize)
  }

  ghost predicate AtLine(g: Geometry, s: Regs, whole: int, residue: int) {
    && s.vacc == residue
    && s.vaccNext == residue + 2 * g.ivsize
    && s.vacpt == (1 + whole) % 4096
    && s.vacptl == s.vacpt % 4
  }

  lemma LineAdvance(g: Geometry, s: Regs, whole: int, residue: int)
    requires g.Legal() && AtLine(g, s, whole, residue)
    requires 0 <= whole && 0 <= residue < 2 * g.vsize && 0 <= s.vaccNext < 16384
    ensures residue + 2 * g.ivsize < 2 * g.vsize ==>
              AtLine(g, Line(g, s, false, false), whole, residue + 2 * g.ivsize)
    ensures residue + 2 * g.ivsize >= 2 * g.vsize ==>
              AtLine(g, Line(g, s, false, false), whole + 1, residue + 2 * g.ivsize - 2 * g.vsize)
  {
    SettleOnce(g, s.(prim := true, vcarrym := false));
    CountersStep(whole + 1);
  }

  /** A new source line is fetched for output line `n` exactly when the exact
      position has entered one since the line before. */
  lemma FetchIffNewLine(g: Geometry, r: Regs, n: nat)
    requires g.Legal() && 0 <= r.vaccNext < 16384 && n > 0
    ensures Lines(g, r, n).vcarrym <==> Whole(g, n) != Whole(g, n - 1)
    ensures Lines(g, r, n).vcarrym <==> Whole(g, n) == Whole(g, n - 1) + 1
  {
    LineConservation(g, r, n - 1);
    WholeStep(g, n);
    SettleOnce(g, Lines(g, r, n - 1).(prim := true, vcarrym := false));
  }

  lemma TotalStep(g: Geometry, n: nat)
    requires n > 0
    ensures Total(g, n) == Total(g, n - 1) + 2 * g.ivsize
  {
  }

  lemma TotalNonNegative(g: Geometry, n: nat)
    requires g.Legal()
    ensures 0 <= Total(g, n) && 0 <= Total(g, n) / (2 * g.vsize)
  {
    MulMonotone(0, n, 2 * g.ivsize);
    DivNonNegative(Total(g, n), 2 * g.vsize);
  }

  lemma CountersStep(q: int)
    requires q >= 0
    ensures (q % 4096 + 1) % 4096 == (1 + q) % 4096
    ensures (q % 4096 % 4 + 1) % 4 == (1 + q) % 4096 % 4
  {
    ModShift(q % 4096 + 1, 4096, q / 4096);
    assert q + 1 == (q % 4096 + 1) + q / 4096 * 4096;
    NestedResidue(q);
    NestedResidue(q + 1);
    ModShift(q % 4 + 1, 4, q / 4);
    assert q + 1 == (q % 4 + 1) + q / 4 * 4;
  }

  lemma NestedResidue(q: int)
    ensures q % 4096 % 4 == q % 4
  {
    assert q == q % 4096 + 1024 * (q / 4096) * 4;
    ModShift(q % 4096, 4, 1024 * (q / 4096));
  }

  lemma NextOnce(g: Geometry, r: Regs)
    requires g.Legal() && 0 <= r.vaccNext < 2 * g.vsize + 2 * g.ivsize
    ensures CarryOut(g, r, false) <==> r.vaccNext >= 2 * g.vsize
    ensures r.vaccNext >= 2 * g.vsize ==>
              Next(g, r, false) == Regs(if r.prim then r.vaccNext - 2 * g.vsize else r.vacc, r.vaccNext - 2 * g.vsize,
                                        (r.vacpt + 1) % 4096, if r.prim then (r.vacptl + 1) % 4 else r.vacptl,
                                        false, true)
    ensures r.vaccNext < 2 * g.vsize ==>
              Next(g, r, false) == Regs(if r.prim then r.vaccNext else r.vacc, r.vaccNext + 2 * g.ivsize,
                                        r.vacpt, r.vacptl, false, r.vcarrym)
  {
    QuotientUnique(r.vaccNext - 2 * g.vsize + 16384, 16384, if r.vaccNext >= 2 * g.vsize then 1 else 0);
    if r.vaccNext < 2 * g.vsize {
      QuotientUnique(r.vaccNext + 2 * g.ivsize, 8192, 0);
    }
  }

  /** While preloading one clock is taken, and so at most one carry. */
  lemma PreloadOneClock(g: Geometry, r: Regs, first: bool)
    requires 1 <= g.vsize <= 4095 && 0 <= r.vaccNext < 16384
    ensures var s, carry := Line(g, r, first, true), CarryOut(g, r, first);
            && (!first ==> s.vacpt == if carry then (r.vacpt + 1) % 4096 else r.vacpt)
            && (!first ==> s.vacptl == if carry then (r.vacptl + 1) % 4 else r.vacptl)
            && (s.vcarrym <==> carry) && (first ==> !carry && s.vacpt == s.vacptl == 1)
  {
  }

  /** With no more source lines than output lines one carry is enough: sHSYNC
      takes one clock, or two when a new source line is reached. */
  lemma SettleOnce(g: Geometry, r: Regs)
    requires g.Legal() && r.prim
    requires 0 <= r.vaccNext < 2 * g.vsize + 2 * g.ivsize
    ensures r.vaccNext < 2 * g.vsize ==>
              Settle(g, r, false) == Regs(r.vaccNext, r.vaccNext + 2 * g.ivsize, r.vacpt, r.vacptl, false, r.vcarrym)
    ensures r.vaccNext >= 2 * g.vsize ==>
              Settle(g, r, false) == Regs(r.vaccNext - 2 * g.vsize, r.vaccNext - 2 * g.vsize + 2 * g.ivsize,
                                          (r.vacpt + 1) % 4096, (r.vacptl + 1) % 4, false, true)
  {
    NextOnce(g, r);
    if r.vaccNext >= 2 * g.vsize {
      var s := Next(g, r, false);
      NextOnce(g, s);
      hide Next, CarryOut;
      assert Settle(g, s, false) == Next(g, s, false);
    }
  }

  /** Exact line interpolation: the line counter and the fraction that the line
      divider makes of the accumulator are together the leading twelve
      fractional bits of the exact source position. */
  lemma LinePositionExact(g: Geometry, r: Regs, n: nat, d: LineDivider.Regs,
                          start: LineDivider.Input, ins: seq<LineDivider.Input>)
    requires g.Legal() && g.vsize <= 2048 && 0 <= r.vaccNext < 16384
    requires start == LineDivider.Input(true, Lines(g, r, n).vacc, g.vsize)
    requires LineDivider.Held(ins, g.vsize) && |ins| == 13
    ensures 4096 * Whole(g, n) + LineDivider.Run(12, LineDivider.Next(12, d, start), ins).vfrac
            == 4096 * Total(g, n) / (2 * g.vsize)
  {
    LineConservation(g, r, n);
    LineDivider.OutputFraction(d, start, ins);
    ScaledQuotient(Total(g, n), 2 * g.vsize);
  }

  lemma ScaledQuotient(t: int, period: int)
    requires 0 < period
    ensures 4096 * (t / period) + 4096 * (t % period) / period == 4096 * t / period
  {
    var q, a := t / period, t % period;
    assert t == q * period + a;
    assert 4096 * t == 4096 * a + (4096 * q) * period;
    ModShift(4096 * a, period, 4096 * q);
  }

  // ---- Which lines are read ----

  /** Lines read for the first `n` output lines behind the window's first. */
  function Reads(g: Geometry, r: Regs, n: nat): nat
    requires g.Legal() && 0 <= r.vaccNext < 16384
  {
    if n == 0 then 0
    else Reads(g, r, n - 1) + (if Fetches(true, Lines(g, r, n).vcarrym, false) then 1 else 0)
  }

  /** Every source line entered is read once and no other: after `n` lines as many
      have been read as the exact position has passed, and over the whole window
      all of them but one, or all for an enlargement of three and more; the lines
      preloaded come on top.  Outside the window nothing is read. */
  lemma {:induction false} ReadsAreLines(g: Geometry, r: Regs, n: nat)
    requires g.Legal() && 0 <= r.vaccNext < 16384
    ensures Reads(g, r, n) == Whole(g, n)
    ensures n == g.vsize - 1 ==> Reads(g, r, n) == if g.vsize >= 3 * g.ivsize then g.ivsize else g.ivsize - 1
    ensures Fetches(true, false, true) && !Fetches(false, Lines(g, r, n).vcarrym, false)
  {
    if n == 0 {
      QuotientUnique(Total(g, 0), 2 * g.vsize, 0);
    } else {
      ReadsAreLines(g, r, n - 1);
      FetchIffNewLine(g, r, n);
      WholeStep(g, n);
    }
    LastWhole(g);
  }

  lemma LastWhole(g: Geometry)
    requires g.Legal()
    ensures Whole(g, g.vsize - 1) == if g.vsize >= 3 * g.ivsize then g.ivsize else g.ivsize - 1
  {
    assert 2 * g.ivsize * (g.vsize - 1) == g.ivsize * (2 * g.vsize) - 2 * g.ivsize;
    assert (g.ivsize - 1) * (2 * g.vsize) == g.ivsize * (2 * g.vsize) - 2 * g.vsize;
    QuotientUnique(Total(g, g.vsize - 1), 2 * g.vsize, if g.vsize >= 3 * g.ivsize then g.ivsize else g.ivsize - 1);
  }
}
