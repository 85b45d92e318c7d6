/** The size measurement of screen_rotate in arcade_video.v: from the sync and
    display-enable signals of a video stream to picture size, row pitch and
    frame buffer size. */
module VideoMeter {
  import opened Arithmetic

  /** One enabled pixel clock. */
  datatype Input = Input(vs: bool, de: bool)

  /** The rotator's controls, constant over a run. */
  datatype Mode = Mode(noRotate: bool, flip: bool, ccw: bool) {
    predicate DoFlip() { noRotate && flip }
    predicate Enable() { !noRotate || flip }
  }

  const ADDRESSES := 0x80_0000

  datatype Sizes = Sizes(hsz: int, vsz: int, bwidth: int, bufsize: int)

  /** `fbEn` is the three-bit register that switches the frame buffer on. */
  datatype Meter = Meter(sizes: Sizes, hcnt: int, vcnt: int, fbEn: int, oldVs: bool, oldDe: bool) {
    predicate Clear() { !oldVs && !oldDe }
    predicate FbOn() { fbEn / 4 % 2 == 1 }
  }

  /** {bwidth[11:2], 4'd0} */
  function Stride(bwidth: int): int { bwidth / 4 % 1024 * 16 }

  function MeterNext(m: Meter, mode: Mode, i: Input): Meter {
    var rise, fall := !m.oldDe && i.de, m.oldDe && !i.de;
    var vsRise, vsFall := !m.oldVs && i.vs, m.oldVs && !i.vs;
    var flip := mode.DoFlip();
    Meter(
      Sizes(
        if fall then m.hcnt else m.sizes.hsz,
        if vsRise then m.vcnt else m.sizes.vsz,
        if vsRise && !flip then (m.vcnt + 3) % 4096
        else if fall && flip then (m.hcnt + 3) % 4096 else m.sizes.bwidth,
        if vsFall then (if flip then m.sizes.vsz else m.sizes.hsz) * Stride(m.sizes.bwidth) % ADDRESSES
        else m.sizes.bufsize),
      if rise then 1 else (m.hcnt + 1) % 4096,
      if vsRise then 0 else if rise then (m.vcnt + 1) % 4096 else m.vcnt,
      if vsRise then (2 * m.fbEn + (if mode.Enable() then 1 else 0)) % 8 else m.fbEn,
      i.vs, i.de)
  }

  class SizeMeter {
    var sizes: Sizes
    var hcnt: int
    var vcnt: int
    var fbEn: int
    var oldVs: bool
    var oldDe: bool

    function Value(): Meter
      reads this
    {
      Meter(sizes, hcnt, vcnt, fbEn, oldVs, oldDe)
    }

    constructor (powerUp: Meter)
      ensures Value() == powerUp
    {
      sizes, hcnt, vcnt, fbEn := powerUp.sizes, powerUp.hcnt, powerUp.vcnt, powerUp.fbEn;
      oldVs, oldDe := powerUp.oldVs, powerUp.oldDe;
    }

    method Clock(mode: Mode, i: Input)
      modifies this
      ensures Value() == MeterNext(old(Value()), mode, i)
    {
      var h, v, s := hcnt, vcnt, sizes;
      hcnt := (h + 1) % 4096;
      if !oldDe && i.de {
        hcnt := 1;
        vcnt := (v + 1) % 4096;
      }
      if oldDe && !i.de {
        sizes := sizes.(hsz := h);
        if mode.DoFlip() { sizes := sizes.(bwidth := (h + 3) % 4096); }
      }
      if !oldVs && i.vs {
        sizes := sizes.(vsz := v);
        if !mode.DoFlip() { sizes := sizes.(bwidth := (v + 3) % 4096); }
        vcnt := 0;
        fbEn := (2 * fbEn + (if mode.Enable() then 1 else 0)) % 8;
      }
      if oldVs && !i.vs {
        sizes := sizes.(bufsize := (if mode.DoFlip() then s.vsz else s.hsz) * Stride(s.bwidth) % ADDRESSES);
      }
      oldVs := i.vs;
      oldDe := i.de;
    }
  }

  function MeterRun(m: Meter, mode: Mode, ins: seq<Input>): Meter
    decreases |ins|
  {
    if ins == [] then m else MeterNext(MeterRun(m, mode, ins[..|ins| - 1]), mode, ins[|ins| - 1])
  }

  // ---- Pictures and the streams that carry them ----

  /** A picture of constant size, small enough for 12-bit counters, and the way
      it is turned.  The side that becomes the row pitch is rounded up. */
  datatype Picture = Picture(hsz: nat, vsz: nat, flip: bool, ccw: bool) {
    function Stride(): int { 16 * (((if flip then hsz else vsz) + 3) / 4) }
    function BufSize(): int { (if flip then vsz else hsz) * Stride() }
    predicate Legal() {
      1 <= hsz <= 4095 && 1 <= vsz <= 4095 && (if flip then hsz else vsz) <= 4092 && BufSize() < ADDRESSES
    }
    predicate Inside(x: int, y: int) { 0 <= x < hsz && 0 <= y < vsz }
    predicate TurnedBy(mode: Mode) { flip == mode.DoFlip() && ccw == mode.ccw && mode.Enable() }
  }

  const IDLE := Input(false, false)

  function Idle(n: nat): seq<Input> { seq(n, _ => IDLE) }
  function Sync(n: nat): seq<Input> { seq(n, _ => Input(true, false)) }
  function Shown(n: nat): seq<Input> { seq(n, _ => Input(false, true)) }

  /** One line after another, each with its own blanking. */
  function Lines(width: nat, blanks: seq<nat>): seq<Input>
    decreases |blanks|
  {
    if blanks == [] then []
    else Lines(width, blanks[..|blanks| - 1]) + (Shown(width) + Idle(blanks[|blanks| - 1]))
  }

  lemma LinesLast(width: nat, blanks: seq<nat>)
    requires blanks != []
    ensures Lines(width, blanks)
            == Lines(width, blanks[..|blanks| - 1]) + (Shown(width) + Idle(blanks[|blanks| - 1]))
  {
  }

  predicate Blanked(blanks: seq<nat>) { forall k | 0 <= k < |blanks| :: blanks[k] >= 1 }

  /** The blanking of one frame: before, during and after its vertical sync, and
      behind every line. */
  datatype Timing = Timing(front: nat, sync: nat, back: nat, blanks: seq<nat>) {
    predicate Fits(p: Picture) { sync >= 1 && |blanks| == p.vsz && Blanked(blanks) }
  }

  function FrameInput(p: Picture, t: Timing): seq<Input> {
    Idle(t.front) + (Sync(t.sync) + (Idle(t.back) + Lines(p.hsz, t.blanks)))
  }

  function FramesInput(p: Picture, ts: seq<Timing>): seq<Input>
    decreases |ts|
  {
    if ts == [] then [] else FramesInput(p, ts[..|ts| - 1]) + FrameInput(p, ts[|ts| - 1])
  }

  predicate AllFit(p: Picture, ts: seq<Timing>) { forall k | 0 <= k < |ts| :: ts[k].Fits(p) }

  // ---- Measuring ----

  /** A picture's lines have gone by: what they leave in the counters. */
  ghost predicate Lined(p: Picture, m: Meter) {
    && m.Clear() && m.vcnt == p.vsz && m.sizes.hsz == p.hsz
    && (p.flip ==> m.sizes.bwidth == (p.hsz + 3) % 4096)
  }

  /** The picture is measured. */
  ghost predicate Measured(p: Picture, m: Meter) {
    && m.sizes.hsz == p.hsz && m.sizes.vsz == p.vsz
    && Stride(m.sizes.bwidth) == p.Stride() && m.sizes.bufsize == p.BufSize()
  }

  ghost predicate Steady(p: Picture, m: Meter) { Measured(p, m) && m.fbEn == 7 }

  /** Measured and switched on before and after every clock of a stream. */
  ghost predicate Stays(p: Picture, m: Meter, mode: Mode, ins: seq<Input>)
    decreases |ins|
  {
    Steady(p, MeterRun(m, mode, ins)) && (ins != [] ==> Stays(p, m, mode, ins[..|ins| - 1]))
  }

  lemma {:induction false} MeterConcat(m: Meter, mode: Mode, a: seq<Input>, b: seq<Input>)
    ensures MeterRun(m, mode, a + b) == MeterRun(MeterRun(m, mode, a), mode, b)
    decreases |b|
  {
    if b == [] {
      assert a + b == a;
    } else {
      assert (a + b)[..|a + b| - 1] == a + b[..|b| - 1];
      MeterConcat(m, mode, a, b[..|b| - 1]);
    }
  }

  lemma {:induction false} StaysConcat(p: Picture, m: Meter, mode: Mode, a: seq<Input>, b: seq<Input>)
    requires Stays(p, m, mode, a) && Stays(p, MeterRun(m, mode, a), mode, b)
    ensures Stays(p, m, mode, a + b)
    decreases |b|
  {
    if b == [] {
      assert a + b == a;
    } else {
      assert (a + b)[..|a + b| - 1] == a + b[..|b| - 1];
      StaysConcat(p, m, mode, a, b[..|b| - 1]);
      MeterConcat(m, mode, a, b);
    }
  }

  lemma PitchFits(side: nat)
    requires side <= 4092
    ensures Stride((side + 3) % 4096) == 16 * ((side + 3) / 4)
  {
    QuotientUnique(side + 3, 4096, 0);
    QuotientUnique((side + 3) / 4, 1024, 0);
  }

  /** From 4093 on rounding up wraps the twelve-bit register, and the pitch is
      zero. */
  lemma PitchFitsIff(side: nat)
    requires 1 <= side <= 4095
    ensures Stride((side + 3) % 4096) == 16 * ((side + 3) / 4) <==> side <= 4092
    ensures side > 4092 ==> Stride((side + 3) % 4096) == 0
  {
    if side <= 4092 {
      PitchFits(side);
    } else {
      QuotientUnique(side + 3, 4096, 1);
      assert Stride(side + 3 - 4096) == 0;
    }
  }

  /** Blanking with nothing under way changes only the pixel counter. */
  lemma {:induction false} MeterIdle(p: Picture, m: Meter, mode: Mode, n: nat)
    requires m.Clear()
    ensures var t := MeterRun(m, mode, Idle(n)); t == m.(hcnt := t.hcnt)
    ensures Steady(p, m) ==> Stays(p, m, mode, Idle(n))
  {
    if n > 0 {
      assert Idle(n)[..n - 1] == Idle(n - 1);
      MeterIdle(p, m, mode, n - 1);
    }
  }

  /** The rise of a sync takes the line counter over. */
  lemma {:induction false} MeterSync(p: Picture, m: Meter, mode: Mode, n: nat)
    requires n >= 1 && m.Clear()
    ensures var t := MeterRun(m, mode, Sync(n));
            && t.sizes == m.sizes.(vsz := m.vcnt,
                                   bwidth := if mode.DoFlip() then m.sizes.bwidth else (m.vcnt + 3) % 4096)
            && t.vcnt == 0 && t.oldVs && !t.oldDe
            && t.fbEn == (2 * m.fbEn + (if mode.Enable() then 1 else 0)) % 8
    ensures p.Legal() && p.TurnedBy(mode) && Lined(p, m) && Steady(p, m) ==> Stays(p, m, mode, Sync(n))
  {
    PitchFits(if p.vsz <= 4092 then p.vsz else 0);
    assert Sync(n)[..n - 1] == Sync(n - 1);
    if n == 1 {
      assert Sync(0) == [];
    } else {
      MeterSync(p, m, mode, n - 1);
    }
  }

  /** The end of a sync only sets the buffer size, from registers that no other
      part of that clock's step uses: it may as well have come before. */
  function Fallen(m: Meter, mode: Mode): Meter {
    m.(oldVs := false,
       sizes := m.sizes.(bufsize := (if mode.DoFlip() then m.sizes.vsz else m.sizes.hsz)
                                    * Stride(m.sizes.bwidth) % ADDRESSES))
  }

  lemma {:induction false} MeterFall(p: Picture, m: Meter, mode: Mode, ins: seq<Input>)
    requires m.oldVs && ins != [] && !ins[0].vs
    ensures MeterRun(m, mode, ins) == MeterRun(Fallen(m, mode), mode, ins)
    ensures Steady(p, m) && Stays(p, Fallen(m, mode), mode, ins) ==> Stays(p, m, mode, ins)
    decreases |ins|
  {
    var front := ins[..|ins| - 1];
    if front == [] {
      assert ins == [ins[0]];
    } else {
      MeterFall(p, m, mode, front);
    }
  }

  lemma FallMeasures(p: Picture, m: Meter, mode: Mode)
    requires p.Legal() && p.TurnedBy(mode)
    requires m.sizes.hsz == p.hsz && m.sizes.vsz == p.vsz && Stride(m.sizes.bwidth) == p.Stride()
    ensures Measured(p, Fallen(m, mode))
  {
    MulMonotone(0, if p.flip then p.vsz else p.hsz, p.Stride());
    QuotientUnique(p.BufSize(), ADDRESSES, 0);
  }

  lemma {:induction false} MeterShown(p: Picture, m: Meter, mode: Mode, n: nat)
    requires 1 <= n <= 4095 && m.Clear()
    ensures MeterRun(m, mode, Shown(n)) == m.(hcnt := n, vcnt := (m.vcnt + 1) % 4096, oldDe := true)
    ensures Steady(p, m) ==> Stays(p, m, mode, Shown(n))
  {
    assert Shown(n)[..n - 1] == Shown(n - 1);
    if n == 1 {
      assert Shown(0) == [];
    } else {
      MeterShown(p, m, mode, n - 1);
    }
  }

  /** The first clock behind a line takes the pixel counter over. */
  lemma MeterLineEnd(p: Picture, m: Meter, mode: Mode, n: nat)
    requires n >= 1 && !m.oldVs && m.oldDe
    ensures var t := MeterRun(m, mode, Idle(n));
            && t.sizes == m.sizes.(hsz := m.hcnt,
                                   bwidth := if mode.DoFlip() then (m.hcnt + 3) % 4096 else m.sizes.bwidth)
            && t.vcnt == m.vcnt && t.fbEn == m.fbEn && t.Clear()
    ensures p.Legal() && p.TurnedBy(mode) && m.hcnt == p.hsz && Steady(p, m) ==> Stays(p, m, mode, Idle(n))
  {
    PitchFits(if p.hsz <= 4092 then p.hsz else 0);
    var first := Idle(1);
    assert first[..0] == [] && first == [IDLE];
    var s := MeterNext(m, mode, IDLE);
    assert MeterRun(m, mode, first) == s;
    MeterIdle(p, s, mode, n - 1);
    assert Idle(n) == first + Idle(n - 1);
    MeterConcat(m, mode, first, Idle(n - 1));
    if p.Legal() && p.TurnedBy(mode) && m.hcnt == p.hsz && Steady(p, m) {
      assert Steady(p, s);
      assert Stays(p, m, mode, first[..0]);
      StaysConcat(p, m, mode, first, Idle(n - 1));
    }
  }

  lemma {:induction false} MeterLines(p: Picture, m: Meter, mode: Mode, blanks: seq<nat>)
    requires p.Legal() && p.TurnedBy(mode) && |blanks| <= p.vsz && Blanked(blanks)
    requires m.Clear() && m.vcnt == 0
    ensures var t := MeterRun(m, mode, Lines(p.hsz, blanks));
            && t.vcnt == |blanks| && t.Clear() && t.fbEn == m.fbEn
            && t.sizes.vsz == m.sizes.vsz && t.sizes.bufsize == m.sizes.bufsize
            && (!p.flip ==> t.sizes.bwidth == m.sizes.bwidth)
            && (blanks != [] ==> t.sizes.hsz == p.hsz && (p.flip ==> t.sizes.bwidth == (p.hsz + 3) % 4096))
    ensures Steady(p, m) ==> Stays(p, m, mode, Lines(p.hsz, blanks))
    decreases |blanks|
  {
    if blanks != [] {
      LinesLast(p.hsz, blanks);
      hide MeterNext, MeterRun, Steady, Stays, Shown, Idle, Lines;
      var front, b := blanks[..|blanks| - 1], blanks[|blanks| - 1];
      MeterLines(p, m, mode, front);
      var s := MeterRun(m, mode, Lines(p.hsz, front));
      MeterShown(p, s, mode, p.hsz);
      MeterLineEnd(p, MeterRun(s, mode, Shown(p.hsz)), mode, b);
      MeterConcat(s, mode, Shown(p.hsz), Idle(b));
      MeterConcat(m, mode, Lines(p.hsz, front), Shown(p.hsz) + Idle(b));
      QuotientUnique(|front| + 1, 4096, 0);
      if Steady(p, m) {
        StaysEnd(p, m, mode, Lines(p.hsz, front));
        StaysEnd(p, s, mode, Shown(p.hsz));
        StaysConcat(p, s, mode, Shown(p.hsz), Idle(b));
        StaysConcat(p, m, mode, Lines(p.hsz, front), Shown(p.hsz) + Idle(b));
      }
    }
  }

  lemma StaysEnd(p: Picture, m: Meter, mode: Mode, ins: seq<Input>)
    requires Stays(p, m, mode, ins)
    ensures Steady(p, MeterRun(m, mode, ins))
  {
  }

  lemma LinesStart(p: Picture, blanks: seq<nat>)
    requires p.hsz >= 1 && blanks != []
    ensures Lines(p.hsz, blanks) != [] && Lines(p.hsz, blanks)[0] == Input(false, true)
    decreases |blanks|
  {
    if |blanks| > 1 {
      LinesStart(p, blanks[..|blanks| - 1]);
    }
  }

  /** Back porch and lines, once the sync has ended. */
  lemma MeterBehind(p: Picture, m: Meter, mode: Mode, back: nat, blanks: seq<nat>)
    requires p.Legal() && p.TurnedBy(mode) && |blanks| == p.vsz && Blanked(blanks)
    requires m.Clear() && m.vcnt == 0
    ensures var t := MeterRun(m, mode, Idle(back) + Lines(p.hsz, blanks));
            && Lined(p, t) && t.fbEn == m.fbEn && t.sizes.vsz == m.sizes.vsz
            && t.sizes.bufsize == m.sizes.bufsize && (!p.flip ==> t.sizes.bwidth == m.sizes.bwidth)
    ensures Steady(p, m) ==> Stays(p, m, mode, Idle(back) + Lines(p.hsz, blanks))
  {
    MeterIdle(p, m, mode, back);
    MeterConcat(m, mode, Idle(back), Lines(p.hsz, blanks));
    MeterLines(p, MeterRun(m, mode, Idle(back)), mode, blanks);
    if Steady(p, m) {
      StaysConcat(p, m, mode, Idle(back), Lines(p.hsz, blanks));
    }
  }

  /** Behind the sync: end of sync, back porch and the lines. */
  lemma MeterPicture(p: Picture, m: Meter, mode: Mode, back: nat, blanks: seq<nat>)
    requires p.Legal() && p.TurnedBy(mode) && |blanks| == p.vsz && Blanked(blanks)
    requires m.oldVs && !m.oldDe && m.vcnt == 0
    ensures var t := MeterRun(m, mode, Idle(back) + Lines(p.hsz, blanks));
            && Lined(p, t) && t.fbEn == m.fbEn && t.sizes.vsz == m.sizes.vsz
            && t.sizes.bufsize == Fallen(m, mode).sizes.bufsize
            && (!p.flip ==> t.sizes.bwidth == m.sizes.bwidth)
    ensures Steady(p, m) ==> Stays(p, m, mode, Idle(back) + Lines(p.hsz, blanks))
  {
    var ins := Idle(back) + Lines(p.hsz, blanks);
    BehindStarts(p, back, blanks);
    MeterFall(p, m, mode, ins);
    MeterBehind(p, Fallen(m, mode), mode, back, blanks);
    if Steady(p, m) {
      FallMeasures(p, m, mode);
    }
  }

  lemma BehindStarts(p: Picture, back: nat, blanks: seq<nat>)
    requires p.hsz >= 1 && blanks != []
    ensures var ins := Idle(back) + Lines(p.hsz, blanks); ins != [] && !ins[0].vs
  {
    LinesStart(p, blanks);
  }

  /** Further clocks of a sync change only the pixel counter. */
  lemma {:induction false} MeterHolds(p: Picture, m: Meter, mode: Mode, n: nat)
    requires m.oldVs && !m.oldDe
    ensures var t := MeterRun(m, mode, Sync(n)); t == m.(hcnt := t.hcnt)
    ensures Steady(p, m) ==> Stays(p, m, mode, Sync(n))
  {
    if n > 0 {
      assert Sync(n)[..n - 1] == Sync(n - 1);
      MeterHolds(p, m, mode, n - 1);
    }
  }

  /** One frame, whatever was measured before: its lines are counted; if those
      of the frame before were too, the picture is then measured; and if it was
      measured and the frame buffer on, they stay so on every clock. */
  lemma MeterFrame(p: Picture, m: Meter, mode: Mode, t: Timing)
    requires p.Legal() && p.TurnedBy(mode) && t.Fits(p) && m.Clear()
    ensures var s := MeterRun(m, mode, FrameInput(p, t));
            && Lined(p, s) && s.sizes.vsz == m.vcnt && s.fbEn == (2 * m.fbEn + 1) % 8
            && (Lined(p, m) ==> Measured(p, s))
    ensures Lined(p, m) && Steady(p, m) ==> Stays(p, m, mode, FrameInput(p, t))
  {
    var rest := Idle(t.back) + Lines(p.hsz, t.blanks);
    MeterIdle(p, m, mode, t.front);
    MeterConcat(m, mode, Idle(t.front), Sync(t.sync) + rest);
    var a := MeterRun(m, mode, Idle(t.front));
    MeterSync(p, a, mode, t.sync);
    MeterConcat(a, mode, Sync(t.sync), rest);
    var b := MeterRun(a, mode, Sync(t.sync));
    MeterPicture(p, b, mode, t.back, t.blanks);
    if Lined(p, m) {
      PitchFits(if p.flip then p.hsz else p.vsz);
      FallMeasures(p, b, mode);
      if Steady(p, m) {
        StaysEnd(p, a, mode, Sync(t.sync));
        StaysConcat(p, a, mode, Sync(t.sync), rest);
        StaysConcat(p, m, mode, Idle(t.front), Sync(t.sync) + rest);
      }
    }
  }

  /** Frames of constant size from any registers: from the second on the picture
      is measured, from the third on the frame buffer is on. */
  lemma {:induction false} MeterMeasures(p: Picture, m: Meter, mode: Mode, ts: seq<Timing>)
    requires p.Legal() && p.TurnedBy(mode) && AllFit(p, ts) && m.Clear()
    ensures var s := MeterRun(m, mode, FramesInput(p, ts));
            && s.Clear()
            && (|ts| >= 1 ==> Lined(p, s))
            && (|ts| >= 2 ==> Measured(p, s))
            && Switched(m.fbEn, |ts|, s.fbEn)
    decreases |ts|
  {
    if ts != [] {
      hide MeterNext, FrameInput, Measured, Switched;
      var front, t := ts[..|ts| - 1], ts[|ts| - 1];
      MeterMeasures(p, m, mode, front);
      var s := MeterRun(m, mode, FramesInput(p, front));
      MeterConcat(m, mode, FramesInput(p, front), FrameInput(p, t));
      MeterFrame(p, s, mode, t);
      SwitchStep(m.fbEn, |front|, s.fbEn);
    }
  }

  /** The frame buffer switch after `n` syncs: on after three, and after two if
      it was last switched on before. */
  predicate Switched(before: int, n: nat, after: int) {
    && (n == 0 ==> after == before)
    && (n >= 1 ==> after in {1, 3, 5, 7})
    && (n >= 2 || (n >= 1 && before % 2 == 1) ==> after in {3, 7})
    && (n >= 3 || (n >= 2 && before % 2 == 1) ==> after == 7)
  }

  lemma SwitchStep(before: int, n: nat, after: int)
    requires Switched(before, n, after)
    ensures Switched(before, n + 1, (2 * after + 1) % 8)
  {
    ShiftBits(after);
  }

  lemma ShiftBits(x: int)
    ensures (2 * x + 1) % 8 in {1, 3, 5, 7}
    ensures x % 2 == 1 ==> (2 * x + 1) % 8 in {3, 7}
    ensures x in {3, 7} ==> (2 * x + 1) % 8 == 7
  {
    var c := x % 4;
    assert x == 4 * (x / 4) + c;
    QuotientUnique(2 * x + 1, 8, x / 4);
    assert c == 0 || c == 1 || c == 2 || c == 3;
    QuotientUnique(x, 2, 2 * (x / 4) + c / 2);
  }
}
