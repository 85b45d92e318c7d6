/** Measurement and address walk of screen_rotate on whole video streams: from
    which frame on a picture is written turned, and exactly when earlier frames
    are. */
module RotateFrames {
  import opened Arithmetic
  import opened VideoMeter
  import opened ScreenRotate

  /** While the picture stays measured and the frame buffer on, the rotator walks
      as over a measured picture. */
  lemma {:induction false} WalkFollows(p: Picture, mode: Mode, r: Regs, ins: seq<Input>)
    requires p.TurnedBy(mode) && Stays(p, r.meter, mode, ins)
    ensures Run(mode, r, ins) == Regs(MeterRun(r.meter, mode, ins), WalkRun(p, r.walk, ins))
    ensures Written(mode, r, ins) == Writes(p, r.walk, ins)
    decreases |ins|
  {
    if ins != [] {
      var front := ins[..|ins| - 1];
      WalkFollows(p, mode, r, front);
      StaysEnd(p, r.meter, mode, front);
      SteadyStep(p, mode, Run(mode, r, front), ins[|ins| - 1]);
      hide WalkNext, MeterNext, Next, Steady;
    }
  }

  lemma SteadyStep(p: Picture, mode: Mode, r: Regs, i: Input)
    requires p.TurnedBy(mode) && Steady(p, r.meter)
    ensures r.meter.FbOn() && Next(mode, r, i) == Regs(MeterNext(r.meter, mode, i), WalkNext(p, r.walk, i))
  {
    hide MeterNext, WalkStep;
    assert WiresOf(r.meter.sizes) == TrueWires(p);
  }

  lemma {:induction false} MeterApart(mode: Mode, r: Regs, ins: seq<Input>)
    ensures Run(mode, r, ins).meter == MeterRun(r.meter, mode, ins)
    decreases |ins|
  {
    hide MeterNext, WalkStep;
    if ins != [] {
      MeterApart(mode, r, ins[..|ins| - 1]);
    }
  }

  lemma FramesEndIdle(p: Picture, ts: seq<Timing>)
    requires p.Legal() && AllFit(p, ts) && ts != []
    ensures var ins := FramesInput(p, ts); ins != [] && ins[|ins| - 1] == IDLE
  {
    var blanks := ts[|ts| - 1].blanks;
    assert Idle(blanks[|blanks| - 1]) != [];
    assert Lines(p.hsz, blanks)[|Lines(p.hsz, blanks)| - 1] == IDLE;
  }

  /** With the frame buffer on, the walk has seen the last clock. */
  lemma WalkSees(mode: Mode, r: Regs, ins: seq<Input>)
    requires ins != [] && ins[|ins| - 1] == IDLE && Run(mode, r, ins).meter.fbEn == 7
    ensures !Run(mode, r, ins).walk.oldVs && !Run(mode, r, ins).walk.oldDe
  {
  }

  lemma {:induction false} RunConcat(mode: Mode, r: Regs, a: seq<Input>, b: seq<Input>)
    ensures Run(mode, r, a + b) == Run(mode, Run(mode, r, a), b)
    ensures Written(mode, r, a + b) == Written(mode, r, a) + Written(mode, Run(mode, r, a), b)
    decreases |b|
  {
    hide Next;
    if b == [] {
      assert a + b == a;
    } else {
      assert (a + b)[..|a + b| - 1] == a + b[..|b| - 1];
      RunConcat(mode, r, a, b[..|b| - 1]);
    }
  }

  // ---- From where the lines come out right ----

  /** The registers fit their 23 and 14 bits. */
  predicate WalkFits(w: Walk) { 0 <= w.nextAddr < ADDRESSES && 0 <= w.hcnt < 0x4000 }

  predicate WalkClear(w: Walk) { !w.oldVs && !w.oldDe }

  /** The walk stands before the first pixel, with the second line's column at
      hand where there is one to turn to. */
  predicate StartsRight(p: Picture, w: Walk) {
    && w.nextAddr == Address(p, 0, 0)
    && (p.flip || p.vsz == 1 || w.hcnt == if p.ccw then 4 else 4 * (p.vsz - 2))
  }

  lemma {:induction false} LinesConcat(width: nat, a: seq<nat>, b: seq<nat>)
    ensures Lines(width, a + b) == Lines(width, a) + Lines(width, b)
    decreases |b|
  {
    hide Shown, Idle;
    if b == [] {
      assert a + b == a;
    } else {
      assert (a + b)[..|a + b| - 1] == a + b[..|b| - 1];
      LinesConcat(width, a, b[..|b| - 1]);
    }
  }

  lemma LinesSplit(width: nat, blanks: seq<nat>, k: nat)
    requires k <= |blanks|
    ensures Lines(width, blanks) == Lines(width, blanks[..k]) + Lines(width, blanks[k..])
  {
    assert blanks == blanks[..k] + blanks[k..];
    LinesConcat(width, blanks[..k], blanks[k..]);
  }

  lemma {:induction false} ShownWrites(p: Picture, w: Walk, n: nat)
    requires n >= 1 && WalkClear(w)
    ensures var t := WalkRun(p, w, Shown(n)); t.hcnt == w.hcnt && t.oldDe && !t.oldVs
    ensures |Writes(p, w, Shown(n))| == n && Writes(p, w, Shown(n))[0] == w.nextAddr
  {
    assert Shown(n)[..n - 1] == Shown(n - 1);
    if n == 1 {
      assert Shown(0) == [];
    } else {
      ShownWrites(p, w, n - 1);
    }
  }

  /** The column that the turn behind a line takes from its register. */
  function TurnsTo(p: Picture, w: Walk): int {
    if p.ccw then (p.BufSize() - p.Stride() + w.hcnt) % ADDRESSES else w.hcnt
  }

  lemma LineTurns(p: Picture, w: Walk, b: nat)
    requires b >= 1 && w.oldDe && !w.oldVs
    ensures var t := WalkRun(p, w, Idle(b)); WalkClear(t) && (!p.flip ==> t.nextAddr == TurnsTo(p, w))
    ensures Writes(p, w, Idle(b)) == []
  {
    var u := TurnClock(p, w);
    hide WalkNext, TurnsTo;
    assert [IDLE][..0] == [];
    assert WalkRun(p, w, []) == w && Writes(p, w, []) == [];
    assert WalkRun(p, w, [IDLE]) == u && Writes(p, w, [IDLE]) == [];
    assert Idle(b) == [IDLE] + Idle(b - 1);
    WalkConcat(p, w, [IDLE], Idle(b - 1));
    WalkIdles(p, u, b - 1);
  }

  lemma TurnClock(p: Picture, w: Walk) returns (u: Walk)
    requires w.oldDe && !w.oldVs
    ensures u == WalkNext(p, w, IDLE) && WalkClear(u) && (!p.flip ==> u.nextAddr == TurnsTo(p, w))
  {
    u := WalkNext(p, w, IDLE);
  }

  /** A first line of whatever start: its first address, and where it turns. */
  lemma FirstLine(p: Picture, w: Walk, b: nat)
    requires p.hsz >= 1 && b >= 1 && WalkClear(w)
    ensures var writes := Writes(p, w, Lines(p.hsz, [b])); |writes| == p.hsz && writes[0] == w.nextAddr
    ensures var t := WalkRun(p, w, Lines(p.hsz, [b])); WalkClear(t) && (!p.flip ==> t.nextAddr == TurnsTo(p, w))
  {
    OneLine(p.hsz, b);
    ShownWrites(p, w, p.hsz);
    WalkConcat(p, w, Shown(p.hsz), Idle(b));
    var v := WalkRun(p, w, Shown(p.hsz));
    LineTurns(p, v, b);
    assert TurnsTo(p, v) == TurnsTo(p, w);
    hide WalkRun, Writes, TurnsTo;
  }

  lemma OneLine(width: nat, b: nat)
    ensures Lines(width, [b]) == Shown(width) + Idle(b)
  {
    assert [b][..0] == [];
    assert Lines(width, []) == [];
  }

  /** The addresses at the start of the first two lines. */
  lemma TwoLines(p: Picture, w: Walk, blanks: seq<nat>)
    requires p.Legal() && |blanks| == p.vsz && Blanked(blanks) && WalkClear(w)
    ensures var writes := Writes(p, w, Lines(p.hsz, blanks));
            && |writes| >= 1 && writes[0] == w.nextAddr
            && (!p.flip && p.vsz >= 2 ==>
                  && |writes| > p.hsz
                  && writes[p.hsz] == TurnsTo(p, w))
  {
    hide Lines, Writes, WalkRun, TurnsTo;
    LinesSplit(p.hsz, blanks, 1);
    assert blanks[..1] == [blanks[0]];
    FirstLine(p, w, blanks[0]);
    WalkConcat(p, w, Lines(p.hsz, blanks[..1]), Lines(p.hsz, blanks[1..]));
    if p.vsz >= 2 {
      var t, rest := WalkRun(p, w, Lines(p.hsz, blanks[..1])), blanks[1..];
      LinesSplit(p.hsz, rest, 1);
      assert rest[..1] == [blanks[1]];
      FirstLine(p, t, blanks[1]);
      WalkConcat(p, t, Lines(p.hsz, rest[..1]), Lines(p.hsz, rest[1..]));
    }
  }

  lemma OffsetUnique(x: int, h: int)
    requires 0 <= x < ADDRESSES - 4 && 0 <= h < 0x4000 && (x + h) % ADDRESSES == x + 4
    ensures h == 4
  {
    QuotientUnique(x + h, ADDRESSES, if x + h < ADDRESSES then 0 else 1);
  }

  /** The lines of a measured picture are written at their places if and only if
      the walk starts right. */
  lemma LinesRightIff(p: Picture, w: Walk, back: nat, blanks: seq<nat>)
    requires p.Legal() && |blanks| == p.vsz && Blanked(blanks) && !w.oldDe && WalkFits(w)
    ensures Writes(p, w, Idle(back) + Lines(p.hsz, blanks)) == FrameAddresses(p, p.vsz) <==> StartsRight(p, w)
  {
    hide Writes, Lines, Address, FrameAddresses, WalkRun;
    var u, lines := w.(oldVs := false), Lines(p.hsz, blanks);
    BehindStarts(p, back, blanks);
    WalkFalls(p, w, Idle(back) + lines);
    WalkConcat(p, u, Idle(back), lines);
    WalkIdles(p, u, back);
    assert Writes(p, w, Idle(back) + lines) == Writes(p, u, lines);
    if StartsRight(p, u) {
      RightStart(p, u, blanks);
    } else if Writes(p, u, lines) == FrameAddresses(p, p.vsz) {
      StartNeeded(p, u, blanks);
    }
  }

  lemma RightStart(p: Picture, w: Walk, blanks: seq<nat>)
    requires p.Legal() && |blanks| == p.vsz && Blanked(blanks) && WalkClear(w) && StartsRight(p, w)
    ensures Writes(p, w, Lines(p.hsz, blanks)) == FrameAddresses(p, p.vsz)
  {
    hide Writes, Lines, Address, FrameAddresses, WalkRun;
    AddressInBuffer(p, 0, 0);
    QuotientUnique(Address(p, 0, 0), ADDRESSES, 0);
    LinesWritten(p, w, blanks);
  }

  lemma StartNeeded(p: Picture, w: Walk, blanks: seq<nat>)
    requires p.Legal() && |blanks| == p.vsz && Blanked(blanks) && WalkClear(w) && WalkFits(w)
    requires Writes(p, w, Lines(p.hsz, blanks)) == FrameAddresses(p, p.vsz)
    ensures StartsRight(p, w)
  {
    hide Writes, Lines, Address, FrameAddresses, StartsRight;
    TwoLines(p, w, blanks);
    StartsPlaced(p);
    StartDecides(p, w);
  }

  /** The first two starts of a line tell where the walk stood. */
  lemma StartDecides(p: Picture, w: Walk)
    requires p.Legal() && WalkFits(w) && w.nextAddr == Address(p, 0, 0)
    requires !p.flip && p.vsz >= 2 ==> TurnsTo(p, w) == Address(p, 0, 1)
    ensures StartsRight(p, w)
  {
    if !p.flip && p.vsz >= 2 {
      RowStart(p, 1);
      hide Address;
      if p.ccw {
        PitchRange(p);
        OffsetUnique(p.BufSize() - p.Stride(), w.hcnt);
      }
    }
  }

  lemma PitchRange(p: Picture)
    requires p.Legal() && !p.flip && p.vsz >= 2
    ensures 0 <= p.BufSize() - p.Stride() < ADDRESSES - 4
  {
    RoundedUp(p.vsz);
    MulMonotone(1, p.hsz, p.Stride());
  }

  /** Where the first two lines belong in the list of addresses. */
  lemma StartsPlaced(p: Picture)
    requires p.Legal()
    ensures var all := FrameAddresses(p, p.vsz);
            && |all| >= 1 && all[0] == Address(p, 0, 0)
            && (p.vsz >= 2 ==> |all| > p.hsz && all[p.hsz] == Address(p, 0, 1))
  {
    hide Address, FrameAddresses;
    FrameAddressAt(p, p.vsz, 0, 0);
    assert Place(p, 0, 0) == 0;
    if p.vsz >= 2 {
      FrameAddressAt(p, p.vsz, 0, 1);
      assert Place(p, 0, 1) == p.hsz;
    }
  }

  // ---- While the frame buffer is off ----

  ghost predicate StaysOff(m: Meter, mode: Mode, ins: seq<Input>)
    decreases |ins|
  {
    !MeterRun(m, mode, ins).FbOn() && (ins != [] ==> StaysOff(m, mode, ins[..|ins| - 1]))
  }

  lemma {:induction false} OffConcat(m: Meter, mode: Mode, a: seq<Input>, b: seq<Input>)
    requires StaysOff(m, mode, a) && StaysOff(MeterRun(m, mode, a), mode, b)
    ensures StaysOff(m, mode, a + b)
    decreases |b|
  {
    if b == [] {
      assert a + b == a;
    } else {
      assert (a + b)[..|a + b| - 1] == a + b[..|b| - 1];
      OffConcat(m, mode, a, b[..|b| - 1]);
      MeterConcat(m, mode, a, b);
    }
  }

  /** The walk stands still and nothing is written. */
  lemma {:induction false} OffRests(mode: Mode, r: Regs, ins: seq<Input>)
    requires StaysOff(r.meter, mode, ins)
    ensures Run(mode, r, ins) == Regs(MeterRun(r.meter, mode, ins), r.walk) && Written(mode, r, ins) == []
    decreases |ins|
  {
    hide MeterNext;
    if ins != [] {
      OffRests(mode, r, ins[..|ins| - 1]);
      OffBefore(r.meter, mode, ins);
    }
  }

  lemma OffBefore(m: Meter, mode: Mode, ins: seq<Input>)
    requires ins != [] && StaysOff(m, mode, ins)
    ensures !MeterRun(m, mode, ins[..|ins| - 1]).FbOn()
  {
  }

  predicate NoSync(ins: seq<Input>) { forall k | 0 <= k < |ins| :: !ins[k].vs }

  lemma {:induction false} NoSyncOff(m: Meter, mode: Mode, ins: seq<Input>)
    requires NoSync(ins) && 0 <= m.fbEn < 4
    ensures StaysOff(m, mode, ins) && MeterRun(m, mode, ins).fbEn == m.fbEn
    decreases |ins|
  {
    if ins != [] {
      NoSyncOff(m, mode, ins[..|ins| - 1]);
    }
  }

  lemma {:induction false} SyncOff(m: Meter, mode: Mode, n: nat)
    requires n >= 1 && m.Clear() && mode.Enable() && 0 <= m.fbEn < 2
    ensures StaysOff(m, mode, Sync(n))
  {
    assert Sync(n)[..n - 1] == Sync(n - 1);
    MeterSync(Picture(1, 1, false, false), m, mode, n);
    ShiftedOff(m.fbEn);
    if n == 1 {
      assert Sync(0) == [];
    } else {
      SyncOff(m, mode, n - 1);
    }
  }

  lemma ShiftedOff(x: int)
    requires 0 <= x < 2
    ensures (2 * x + 1) % 8 == 2 * x + 1 && (2 * x + 1) / 4 % 2 == 0 && x / 4 % 2 == 0
  {
  }

  lemma {:induction false} LinesNoSync(width: nat, blanks: seq<nat>)
    ensures NoSync(Lines(width, blanks))
    decreases |blanks|
  {
    if blanks != [] {
      LinesNoSync(width, blanks[..|blanks| - 1]);
    }
  }

  lemma FrameOff(p: Picture, m: Meter, mode: Mode, t: Timing)
    requires p.Legal() && p.TurnedBy(mode) && t.Fits(p) && m.Clear() && 0 <= m.fbEn < 2
    ensures StaysOff(m, mode, FrameInput(p, t))
    ensures MeterRun(m, mode, FrameInput(p, t)).fbEn == 2 * m.fbEn + 1
  {
    var rest := Idle(t.back) + Lines(p.hsz, t.blanks);
    MeterFrame(p, m, mode, t);
    ShiftedOff(m.fbEn);
    NoSyncOff(m, mode, Idle(t.front));
    MeterIdle(p, m, mode, t.front);
    var a := MeterRun(m, mode, Idle(t.front));
    SyncOff(a, mode, t.sync);
    MeterSync(p, a, mode, t.sync);
    LinesNoSync(p.hsz, t.blanks);
    NoSyncOff(MeterRun(a, mode, Sync(t.sync)), mode, rest);
    OffConcat(a, mode, Sync(t.sync), rest);
    OffConcat(m, mode, Idle(t.front), Sync(t.sync) + rest);
  }

  /** From power-up two frames go by unwritten; the picture is then measured. */
  lemma TwoFramesUnwritten(p: Picture, mode: Mode, r: Regs, t1: Timing, t2: Timing)
    requires p.Legal() && p.TurnedBy(mode) && t1.Fits(p) && t2.Fits(p)
    requires r.meter.Clear() && r.meter.fbEn == 0
    ensures var ins := FrameInput(p, t1) + FrameInput(p, t2);
            var s := Run(mode, r, ins);
            && Written(mode, r, ins) == [] && s.walk == r.walk
            && Lined(p, s.meter) && Measured(p, s.meter) && s.meter.fbEn == 3
  {
    hide MeterRun, MeterNext, Run, Written, Next, FrameInput, StaysOff;
    MeterFrame(p, r.meter, mode, t1);
    FrameOff(p, r.meter, mode, t1);
    var m := MeterRun(r.meter, mode, FrameInput(p, t1));
    MeterFrame(p, m, mode, t2);
    FrameOff(p, m, mode, t2);
    MeterConcat(r.meter, mode, FrameInput(p, t1), FrameInput(p, t2));
    OffConcat(r.meter, mode, FrameInput(p, t1), FrameInput(p, t2));
    OffRests(mode, r, FrameInput(p, t1) + FrameInput(p, t2));
  }

  // ---- The third frame from power-up ----

  /** The clock of the sync that switches the frame buffer on. */
  lemma SwitchingOn(p: Picture, mode: Mode, s: Regs, front: nat)
    requires p.Legal() && p.TurnedBy(mode) && Lined(p, s.meter) && Measured(p, s.meter) && s.meter.fbEn == 3
    ensures var ins := Idle(front) + Sync(1);
            var b := Run(mode, s, ins);
            && Written(mode, s, ins) == [] && b.walk == s.walk
            && Steady(p, b.meter) && b.meter.oldVs && !b.meter.oldDe && b.meter.vcnt == 0
  {
    hide MeterNext, MeterRun, Run, Written, Next, Lined, Measured, Steady, StaysOff;
    IdledLined(p, s.meter, s.meter);
    NoSyncOff(s.meter, mode, Idle(front));
    MeterIdle(p, s.meter, mode, front);
    OffRests(mode, s, Idle(front));
    var a := Run(mode, s, Idle(front));
    IdledLined(p, s.meter, a.meter);
    RunConcat(mode, s, Idle(front), Sync(1));
    OneSync(mode, a);
    SwitchClock(p, mode, a);
  }

  lemma SwitchClock(p: Picture, mode: Mode, a: Regs)
    requires p.Legal() && p.TurnedBy(mode) && Lined(p, a.meter) && Measured(p, a.meter) && a.meter.fbEn == 3
    ensures var b := Next(mode, a, Input(true, false));
            && b.walk == a.walk
            && Steady(p, b.meter) && b.meter.oldVs && !b.meter.oldDe && b.meter.vcnt == 0
  {
    hide WalkStep;
    PitchFits(if p.flip then p.hsz else p.vsz);
  }

  /** What follows it is written as by the walk over the measured picture. */
  lemma SwitchedOn(p: Picture, mode: Mode, b: Regs, n: nat, back: nat, blanks: seq<nat>)
    requires p.Legal() && p.TurnedBy(mode) && |blanks| == p.vsz && Blanked(blanks)
    requires Steady(p, b.meter) && b.meter.oldVs && !b.meter.oldDe && b.meter.vcnt == 0
    ensures Written(mode, b, Sync(n) + (Idle(back) + Lines(p.hsz, blanks)))
            == Writes(p, b.walk, Sync(n) + (Idle(back) + Lines(p.hsz, blanks)))
  {
    var rest := Idle(back) + Lines(p.hsz, blanks);
    MeterHolds(p, b.meter, mode, n);
    MeterPicture(p, MeterRun(b.meter, mode, Sync(n)), mode, back, blanks);
    StaysConcat(p, b.meter, mode, Sync(n), rest);
    WalkFollows(p, mode, b, Sync(n) + rest);
  }

  /** The first frame written after power-up, the third, comes out right if and
      only if its sync lasts two clocks, so that the walk still sees it after the
      frame buffer has been switched on, or the walk happens to start right. */
  lemma ThirdFrameRightIff(p: Picture, mode: Mode, r: Regs, t1: Timing, t2: Timing, t: Timing)
    requires p.Legal() && p.TurnedBy(mode) && t1.Fits(p) && t2.Fits(p) && t.Fits(p)
    requires r.meter.Clear() && r.meter.fbEn == 0 && WalkClear(r.walk) && WalkFits(r.walk)
    ensures var s := Run(mode, r, FrameInput(p, t1) + FrameInput(p, t2));
            Written(mode, s, FrameInput(p, t)) == FrameAddresses(p, p.vsz)
            <==> t.sync >= 2 || StartsRight(p, r.walk)
  {
    hide MeterRun, MeterNext, Run, Written, Next, WalkRun, Writes, Address, FrameAddresses, Lines, Steady, Measured;
    var s := Run(mode, r, FrameInput(p, t1) + FrameInput(p, t2));
    TwoFramesUnwritten(p, mode, r, t1, t2);
    SwitchingOn(p, mode, s, t.front);
    var head, n, rest := Idle(t.front) + Sync(1), t.sync - 1, Idle(t.back) + Lines(p.hsz, t.blanks);
    var b := Run(mode, s, head);
    assert FrameInput(p, t) == head + (Sync(n) + rest);
    RunConcat(mode, s, head, Sync(n) + rest);
    SwitchedOn(p, mode, b, n, t.back, t.blanks);
    if n == 0 {
      assert Sync(0) + rest == rest;
      LinesRightIff(p, r.walk, t.back, t.blanks);
    } else {
      var shorter := Timing(0, n, t.back, t.blanks);
      assert FrameInput(p, shorter) == Sync(n) + rest;
      FrameWritten(p, r.walk, shorter);
    }
  }

  // ---- The second frame with the frame buffer on ----

  /** The sizes left from before the first frame load the second one rightly. */
  predicate StaleSizesFit(p: Picture, m: Meter) {
    if p.flip then m.vcnt * Stride(m.sizes.bwidth) % ADDRESSES == p.BufSize()
    else if p.ccw then
      (m.sizes.hsz * Stride((m.vcnt + 3) % 4096) % ADDRESSES - Stride((m.vcnt + 3) % 4096)) % ADDRESSES
      == p.BufSize() - p.Stride()
    else m.vcnt == p.vsz
  }

  lemma {:induction false} OnIdles(mode: Mode, r: Regs, n: nat)
    requires r.meter.Clear() && r.meter.fbEn == 7 && WalkClear(r.walk)
    ensures Run(mode, r, Idle(n)) == Regs(MeterRun(r.meter, mode, Idle(n)), r.walk)
    ensures Written(mode, r, Idle(n)) == []
  {
    if n > 0 {
      assert Idle(n)[..n - 1] == Idle(n - 1);
      OnIdles(mode, r, n - 1);
      MeterIdle(Picture(1, 1, false, false), r.meter, mode, n - 1);
    }
  }

  lemma {:induction false} OnHolds(mode: Mode, r: Regs, n: nat)
    requires r.meter.oldVs && !r.meter.oldDe && r.meter.fbEn == 7 && r.walk.oldVs && !r.walk.oldDe
    ensures Run(mode, r, Sync(n)) == Regs(MeterRun(r.meter, mode, Sync(n)), r.walk)
    ensures Written(mode, r, Sync(n)) == []
  {
    if n > 0 {
      assert Sync(n)[..n - 1] == Sync(n - 1);
      OnHolds(mode, r, n - 1);
      MeterHolds(Picture(1, 1, false, false), r.meter, mode, n - 1);
    }
  }

  /** The end of the sync may as well have come before: the walk does not read
      the buffer size in that clock. */
  lemma {:induction false} RunFalls(mode: Mode, r: Regs, ins: seq<Input>)
    requires r.meter.oldVs && !r.walk.oldDe && ins != [] && !ins[0].vs
    ensures Run(mode, r, ins) == Run(mode, Regs(Fallen(r.meter, mode), r.walk), ins)
    ensures Written(mode, r, ins) == Written(mode, Regs(Fallen(r.meter, mode), r.walk), ins)
    decreases |ins|
  {
    var front, f := ins[..|ins| - 1], Regs(Fallen(r.meter, mode), r.walk);
    if front == [] {
      assert ins == [ins[0]];
      assert Run(mode, r, []) == r && Run(mode, f, []) == f;
    } else {
      RunFalls(mode, r, front);
    }
  }

  /** The first clock of the second frame's sync: the walk loads from sizes left
      over from before the first frame, while the right ones are taken over. */
  lemma StaleStart(p: Picture, mode: Mode, s: Regs, front: nat)
    requires p.Legal() && p.TurnedBy(mode) && Lined(p, s.meter) && s.meter.fbEn == 7 && WalkClear(s.walk)
    ensures var ins := Idle(front) + Sync(1);
            var b := Run(mode, s, ins);
            && Written(mode, s, ins) == []
            && b.walk == WalkStep(WiresOf(s.meter.sizes), p.flip, p.ccw, s.walk, Input(true, false))
            && b.meter.oldVs && !b.meter.oldDe && b.meter.vcnt == 0 && b.meter.fbEn == 7
            && Steady(p, Fallen(b.meter, mode))
  {
    hide MeterNext, MeterRun, Run, Written, Next, Lined, Steady, WalkStep, Fallen;
    IdledLined(p, s.meter, s.meter);
    OnIdles(mode, s, front);
    MeterIdle(p, s.meter, mode, front);
    var a := Run(mode, s, Idle(front));
    IdledLined(p, s.meter, a.meter);
    RunConcat(mode, s, Idle(front), Sync(1));
    OneSync(mode, a);
    StaleClock(p, mode, a);
  }

  lemma IdledLined(p: Picture, m: Meter, n: Meter)
    requires Lined(p, m) && n == m.(hcnt := n.hcnt)
    ensures Lined(p, n) && m.Clear()
    ensures Measured(p, m) ==> Measured(p, n)
  {
  }

  lemma OneSync(mode: Mode, r: Regs)
    ensures Run(mode, r, Sync(1)) == Next(mode, r, Input(true, false)) && Written(mode, r, Sync(1)) == []
  {
    hide Next;
    assert Sync(1) == [Input(true, false)] && [Input(true, false)][..0] == [];
    assert Run(mode, r, []) == r && Written(mode, r, []) == [];
  }

  lemma StaleClock(p: Picture, mode: Mode, a: Regs)
    requires p.Legal() && p.TurnedBy(mode) && Lined(p, a.meter) && a.meter.fbEn == 7
    ensures var b := Next(mode, a, Input(true, false));
            && b.walk == WalkStep(WiresOf(a.meter.sizes), p.flip, p.ccw, a.walk, Input(true, false))
            && b.meter.oldVs && !b.meter.oldDe && b.meter.vcnt == 0 && b.meter.fbEn == 7
            && Steady(p, Fallen(b.meter, mode))
  {
    hide WalkStep;
    PitchFits(if p.flip then p.hsz else p.vsz);
    FallMeasures(p, MeterNext(a.meter, mode, Input(true, false)), mode);
  }

  lemma StaleFrame(p: Picture, mode: Mode, s: Regs, t: Timing)
    requires p.Legal() && p.TurnedBy(mode) && Lined(p, s.meter) && s.meter.fbEn == 7 && WalkClear(s.walk)
    requires t.Fits(p)
    ensures var w := WalkStep(WiresOf(s.meter.sizes), p.flip, p.ccw, s.walk, Input(true, false));
            Written(mode, s, FrameInput(p, t)) == Writes(p, w, Idle(t.back) + Lines(p.hsz, t.blanks))
  {
    var head, n, rest := Idle(t.front) + Sync(1), t.sync - 1, Idle(t.back) + Lines(p.hsz, t.blanks);
    BehindStarts(p, t.back, t.blanks);
    SyncSeen(WiresOf(s.meter.sizes), p, s.walk);
    hide MeterRun, MeterNext, Run, Written, Next, WalkRun, Writes, Lines, Steady, WalkStep, Fallen;
    StaleStart(p, mode, s, t.front);
    var b := Run(mode, s, head);
    assert FrameInput(p, t) == head + (Sync(n) + rest);
    RunConcat(mode, s, head, Sync(n) + rest);
    OnHolds(mode, b, n);
    RunConcat(mode, b, Sync(n), rest);
    MeterHolds(p, b.meter, mode, n);
    var c := Run(mode, b, Sync(n));
    HeldFalls(p, b.meter, mode, c.meter);
    RunFalls(mode, c, rest);
    FallenClear(c.meter, mode);
    MeterBehind(p, Fallen(c.meter, mode), mode, t.back, t.blanks);
    WalkFollows(p, mode, Regs(Fallen(c.meter, mode), c.walk), rest);
  }

  lemma SyncSeen(g: Wires, p: Picture, w: Walk)
    ensures var v := WalkStep(g, p.flip, p.ccw, w, Input(true, false)); v.oldVs && !v.oldDe
  {
  }

  lemma FallenClear(m: Meter, mode: Mode)
    requires !m.oldDe
    ensures Fallen(m, mode).Clear() && Fallen(m, mode).vcnt == m.vcnt
  {
  }

  lemma HeldFalls(p: Picture, m: Meter, mode: Mode, n: Meter)
    requires n == m.(hcnt := n.hcnt) && Steady(p, Fallen(m, mode))
    ensures Steady(p, Fallen(n, mode))
  {
  }

  /** One frame of measuring is not enough: with the frame buffer on from the
      start the second frame of a stream is written rightly if and only if the
      sizes and counts left from before the first one fit, in all three modes. */
  lemma SecondFrameRightIff(p: Picture, mode: Mode, r: Regs, t1: Timing, t2: Timing)
    requires p.Legal() && p.TurnedBy(mode) && t1.Fits(p) && t2.Fits(p)
    requires r.meter.Clear() && r.meter.fbEn == 7 && 0 <= r.meter.vcnt < 4096
    ensures Written(mode, Run(mode, r, FrameInput(p, t1)), FrameInput(p, t2)) == FrameAddresses(p, p.vsz)
            <==> StaleSizesFit(p, r.meter)
  {
    hide MeterRun, MeterNext, Run, Written, Next, WalkRun, Writes, Lines, FrameInput, Address, FrameAddresses;
    MeterFrame(p, r.meter, mode, t1);
    MeterApart(mode, r, FrameInput(p, t1));
    OneFrame(p, t1);
    FramesEndIdle(p, [t1]);
    var s := Run(mode, r, FrameInput(p, t1));
    WalkSees(mode, r, FrameInput(p, t1));
    StaleSizes(p, mode, r.meter, t1);
    StaleFrame(p, mode, s, t2);
    var w := WalkStep(WiresOf(s.meter.sizes), p.flip, p.ccw, s.walk, Input(true, false));
    StaleLoad(p, r.meter, s.meter.sizes, s.walk);
    LinesRightIff(p, w, t2.back, t2.blanks);
  }

  /** What the first frame leaves in the registers its own sync has loaded. */
  ghost predicate StaleAfter(p: Picture, m: Meter, s: Sizes) {
    && s.vsz == m.vcnt
    && s.bufsize == (if p.flip then m.vcnt * Stride(m.sizes.bwidth)
                     else m.sizes.hsz * Stride((m.vcnt + 3) % 4096)) % ADDRESSES
    && (!p.flip ==> s.bwidth == (m.vcnt + 3) % 4096)
  }

  lemma StaleSizes(p: Picture, mode: Mode, m: Meter, t: Timing)
    requires p.Legal() && p.TurnedBy(mode) && t.Fits(p) && m.Clear()
    ensures StaleAfter(p, m, MeterRun(m, mode, FrameInput(p, t)).sizes)
  {
    var rest := Idle(t.back) + Lines(p.hsz, t.blanks);
    MeterIdle(p, m, mode, t.front);
    MeterConcat(m, mode, Idle(t.front), Sync(t.sync) + rest);
    var a := MeterRun(m, mode, Idle(t.front));
    MeterSync(p, a, mode, t.sync);
    MeterConcat(a, mode, Sync(t.sync), rest);
    MeterPicture(p, MeterRun(a, mode, Sync(t.sync)), mode, t.back, t.blanks);
  }

  /** Where a walk loaded from such sizes stands. */
  lemma StaleLoad(p: Picture, m: Meter, s: Sizes, w: Walk)
    requires p.Legal() && StaleAfter(p, m, s) && 0 <= m.vcnt < 4096 && WalkClear(w)
    ensures var v := WalkStep(WiresOf(s), p.flip, p.ccw, w, Input(true, false));
            && !v.oldDe && WalkFits(v) && (StartsRight(p, v) <==> StaleSizesFit(p, m))
  {
    LoadedBy(WiresOf(s), p, w);
    var v := WalkStep(WiresOf(s), p.flip, p.ccw, w, Input(true, false));
    hide WalkStep, Stride, Picture.BufSize, Picture.Stride, StartsRight, StaleSizesFit;
    StaleFits(p, m, s, v);
  }

  lemma StaleFits(p: Picture, m: Meter, s: Sizes, v: Walk)
    requires p.Legal() && StaleAfter(p, m, s) && 0 <= m.vcnt < 4096 && Loaded(WiresOf(s), p, v)
    ensures StartsRight(p, v) <==> StaleSizesFit(p, m)
  {
    SyncAddress(p);
    BufferHoldsPixel(p);
    hide Address, Stride, Picture.BufSize, Picture.Stride;
    if p.flip {
      AddressMod(s.bufsize, p.BufSize());
    } else if !p.ccw {
      Columns(m.vcnt, p.vsz);
    }
  }

  /** What one sync clock loads. */
  predicate Loaded(g: Wires, p: Picture, v: Walk) {
    && v.nextAddr == (if p.flip then (g.bufsize - 4) % ADDRESSES
                      else if p.ccw then (g.bufsize - g.stride) % ADDRESSES
                      else (g.vsz - 1) % 4096 * 4)
    && v.hcnt == (if p.ccw then 4 else (g.vsz - 2) % 4096 * 4)
  }

  lemma LoadedBy(g: Wires, p: Picture, w: Walk)
    requires WalkClear(w)
    ensures var v := WalkStep(g, p.flip, p.ccw, w, Input(true, false));
            Loaded(g, p, v) && v.oldVs && !v.oldDe
  {
  }

  lemma BufferHoldsPixel(p: Picture)
    requires p.Legal()
    ensures 4 <= p.BufSize() < ADDRESSES
  {
    MulMonotone(1, if p.flip then p.vsz else p.hsz, p.Stride());
  }

  lemma AddressMod(a: int, b: int)
    requires 0 <= a < ADDRESSES && 4 <= b < ADDRESSES
    ensures (a - 4) % ADDRESSES == b - 4 <==> a == b
  {
    QuotientUnique(a - 4, ADDRESSES, if a >= 4 then 0 else -1);
  }

  lemma Columns(v: int, vsz: int)
    requires 0 <= v < 4096 && 1 <= vsz <= 4095
    ensures (v - 1) % 4096 * 4 == (vsz - 1) % 4096 * 4 <==> v == vsz
    ensures v == vsz >= 2 ==> (v - 2) % 4096 * 4 == 4 * (vsz - 2)
  {
    QuotientUnique(v - 1, 4096, if v >= 1 then 0 else -1);
    QuotientUnique(vsz - 1, 4096, 0);
    if v >= 2 { QuotientUnique(v - 2, 4096, 0); }
  }

  lemma OneFrame(p: Picture, t: Timing)
    ensures FramesInput(p, [t]) == FrameInput(p, t)
  {
    hide FrameInput;
    assert [t][..0] == [];
    assert FramesInput(p, []) == [];
  }

  // ---- Every frame ----

  /** Enough frames have gone by for the next one to be written rightly: three
      from any register contents, two if the frame buffer had been switched on
      by the last sync before, and two from power-up for a sync of two clocks. */
  predicate Settled(powerUp: Regs, seen: nat, sync: nat) {
    || seen >= 3
    || (seen == 2 && powerUp.meter.fbEn % 2 == 1)
    || (seen == 2 && powerUp.meter.fbEn == 0 && WalkClear(powerUp.walk) && WalkFits(powerUp.walk) && sync >= 2)
  }

  /** The whole module over every stream of constant pictures: after one blank
      clock, every frame from then on is written pixel by pixel, in scan order,
      at its place in the turned picture.  Rotation turns it by ccw, whatever flip
      says; flip alone runs it backwards. */
  lemma EveryFrameWritten(p: Picture, mode: Mode, powerUp: Regs, ts: seq<Timing>, t: Timing)
    requires p.flip == (mode.noRotate && mode.flip) && p.ccw == mode.ccw && (mode.noRotate ==> mode.flip)
    requires p.Legal() && AllFit(p, ts) && t.Fits(p)
    requires Settled(powerUp, |ts|, t.sync)
    ensures var s := Run(mode, Next(mode, powerUp, IDLE), FramesInput(p, ts));
            Written(mode, s, FrameInput(p, t)) == FrameAddresses(p, p.vsz)
  {
    var r := Next(mode, powerUp, IDLE);
    if |ts| >= 3 || powerUp.meter.fbEn % 2 == 1 {
      RunningFrame(p, mode, r, ts, t);
    } else {
      TwoFrames(p, ts);
      ThirdFrameRightIff(p, mode, r, ts[0], ts[1], t);
    }
  }

  lemma RunningFrame(p: Picture, mode: Mode, r: Regs, ts: seq<Timing>, t: Timing)
    requires p.Legal() && p.TurnedBy(mode) && AllFit(p, ts) && t.Fits(p) && r.meter.Clear()
    requires |ts| >= 3 || (|ts| >= 2 && r.meter.fbEn % 2 == 1)
    ensures Written(mode, Run(mode, r, FramesInput(p, ts)), FrameInput(p, t)) == FrameAddresses(p, p.vsz)
  {
    hide MeterNext, Next, FramesInput, FrameInput, FrameAddresses, Run, MeterRun, Written;
    var s := Run(mode, r, FramesInput(p, ts));
    MeterMeasures(p, r.meter, mode, ts);
    MeterApart(mode, r, FramesInput(p, ts));
    FramesEndIdle(p, ts);
    WalkSees(mode, r, FramesInput(p, ts));
    MeterFrame(p, s.meter, mode, t);
    WalkFollows(p, mode, s, FrameInput(p, t));
    FrameWritten(p, s.walk, t);
  }

  lemma TwoFrames(p: Picture, ts: seq<Timing>)
    requires |ts| == 2
    ensures FramesInput(p, ts) == FrameInput(p, ts[0]) + FrameInput(p, ts[1])
  {
    hide FrameInput;
    assert ts[..1] == [ts[0]];
    OneFrame(p, ts[0]);
  }

  /** What the frame buffer then shows: the picture turned clockwise, turned
      counter-clockwise, or run backwards, with no pixel lost. */
  lemma PictureTurned<T>(p: Picture, mode: Mode, powerUp: Regs, ts: seq<Timing>, t: Timing, data: seq<T>,
                         x: nat, y: nat)
    requires p.flip == (mode.noRotate && mode.flip) && p.ccw == mode.ccw && (mode.noRotate ==> mode.flip)
    requires p.Legal() && AllFit(p, ts) && t.Fits(p)
    requires Settled(powerUp, |ts|, t.sync)
    requires |data| == Pixels(p, p.vsz) && p.Inside(x, y)
    ensures var s := Run(mode, Next(mode, powerUp, IDLE), FramesInput(p, ts));
            var writes := Written(mode, s, FrameInput(p, t));
            && |writes| == |data| && Place(p, x, y) < |data|
            && Address(p, x, y) in Store(writes, data)
            && Store(writes, data)[Address(p, x, y)] == data[Place(p, x, y)]
  {
    EveryFrameWritten(p, mode, powerUp, ts, t);
    FrameStored(p, data, x, y);
  }

  // ---- Rotation off ----

  /** Rising edges of the vertical sync. */
  function Rises(m: Meter, mode: Mode, ins: seq<Input>): nat
    decreases |ins|
  {
    if ins == [] then 0
    else
      var front, last := ins[..|ins| - 1], ins[|ins| - 1];
      Rises(m, mode, front) + (if last.vs && !MeterRun(m, mode, front).oldVs then 1 else 0)
  }

  lemma {:induction false} SwitchesOff(m: Meter, mode: Mode, ins: seq<Input>)
    requires mode.noRotate && !mode.flip
    ensures var s := MeterRun(m, mode, ins);
            && (Rises(m, mode, ins) == 0 ==> s.fbEn == m.fbEn)
            && (Rises(m, mode, ins) >= 1 ==> s.fbEn in {0, 2, 4, 6})
            && (Rises(m, mode, ins) >= 2 ==> s.fbEn in {0, 4})
            && (Rises(m, mode, ins) >= 3 ==> s.fbEn == 0)
    decreases |ins|
  {
    if ins != [] {
      SwitchesOff(m, mode, ins[..|ins| - 1]);
      DoubleBits(MeterRun(m, mode, ins[..|ins| - 1]).fbEn);
    }
  }

  lemma DoubleBits(x: int)
    ensures 2 * x % 8 in {0, 2, 4, 6}
    ensures x in {0, 2, 4, 6} ==> 2 * x % 8 in {0, 4}
    ensures x in {0, 4} ==> 2 * x % 8 == 0
  {
    QuotientUnique(2 * x, 8, x / 4);
  }

  /** With rotation off and no flip nothing is written any more after three syncs,
      whatever the registers held, over every video stream. */
  lemma {:induction false} UnturnedUnwritten(mode: Mode, r: Regs, before: seq<Input>, after: seq<Input>)
    requires mode.noRotate && !mode.flip && Rises(r.meter, mode, before) >= 3
    ensures Written(mode, Run(mode, r, before), after) == []
    decreases |after|
  {
    if after != [] {
      var front, s := after[..|after| - 1], Run(mode, r, before);
      UnturnedUnwritten(mode, r, before, front);
      SwitchesOff(r.meter, mode, before + front);
      RisesOn(r.meter, mode, before, front);
      RunConcat(mode, r, before, front);
      MeterApart(mode, r, before + front);
    }
  }

  lemma {:induction false} RisesOn(m: Meter, mode: Mode, a: seq<Input>, b: seq<Input>)
    ensures Rises(m, mode, a + b) >= Rises(m, mode, a)
    decreases |b|
  {
    if b == [] {
      assert a + b == a;
    } else {
      assert (a + b)[..|a + b| - 1] == a + b[..|b| - 1];
      RisesOn(m, mode, a, b[..|b| - 1]);
    }
  }
}
