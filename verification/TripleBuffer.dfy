/** Triple buffering in ascal.vhd (process Scalaire) and, with the same
    successor function, in screen_rotate of arcade_video.v. */
module TripleBuffer {

  predicate Buffer(b: int) { 0 <= b <= 2 }

  /** The next buffer for a side at `a` that must stay clear of `b`. */
  function BufNext(a: int, b: int, freeze: bool): int {
    if freeze then a
    else if (a == 0 && b == 1) || (a == 1 && b == 0) then 2
    else if (a == 1 && b == 2) || (a == 2 && b == 1) then 0
    else 1
  }

  /** One field's registers: buffer being written, buffer being shown, and
      whether a frame has ended since the last output swap. */
  datatype Field = Field(ibuf: int, obuf: int, bufup: bool) {
    predicate Valid() { Buffer(ibuf) && Buffer(obuf) }
    predicate Distinct() { Valid() && ibuf != obuf }
  }

  datatype Regs = Regs(f0: Field, f1: Field)

  /** Events of one output clock: end of an input field, falling edge of the
      output's vertical sync, and the sampled controls. */
  datatype Input = Input(end0: bool, end1: bool, vsync: bool, interlaced: bool, triple: bool, freeze: bool)

  function FieldNext(f: Field, end: bool, vsync: bool, freeze: bool): Field {
    if vsync && end then Field(BufNext(f.ibuf, f.obuf, freeze), f.ibuf, false)
    else if end then Field(BufNext(f.ibuf, f.obuf, freeze), f.obuf, true)
    else if vsync && f.bufup then Field(f.ibuf, BufNext(f.obuf, f.ibuf, freeze), false)
    else f
  }

  function Next(r: Regs, i: Input): Regs {
    var f0 := FieldNext(r.f0, i.end0, i.vsync, i.freeze);
    var f1 := FieldNext(r.f1, i.end1, i.vsync, i.freeze);
    var g1 := if i.interlaced then f1 else f1.(ibuf := r.f0.ibuf, obuf := r.f0.obuf);
    if i.triple then Regs(f0, g1) else Regs(f0.(ibuf := 0, obuf := 0), g1.(ibuf := 0, obuf := 0))
  }

  function Run(r: Regs, ins: seq<Input>): Regs
    decreases |ins|
  {
    if ins == [] then r else Next(Run(r, ins[..|ins| - 1]), ins[|ins| - 1])
  }

  /** The process as written: later assignments override earlier ones, and all
      right-hand sides read the values before the edge. */
  class Scalaire {
    var ibuf0: int
    var obuf0: int
    var bufup0: bool
    var ibuf1: int
    var obuf1: int
    var bufup1: bool

    ghost function Value(): Regs
      reads this
    {
      Regs(Field(ibuf0, obuf0, bufup0), Field(ibuf1, obuf1, bufup1))
    }

    constructor ()
      ensures Value() == Regs(Field(0, 0, false), Field(0, 0, false))
    {
      ibuf0, obuf0, bufup0 := 0, 0, false;
      ibuf1, obuf1, bufup1 := 0, 0, false;
    }

    method Clock(i: Input)
      modifies this
      ensures Value() == Next(old(Value()), i)
    {
      hide BufNext;
      var i0, o0, up0, i1, o1, up1 := ibuf0, obuf0, bufup0, ibuf1, obuf1, bufup1;
      // Input: toggle buffer at end of input frame.
      if i.end0 {
        ibuf0 := BufNext(i0, o0, i.freeze);
        bufup0 := true;
      }
      if i.end1 {
        ibuf1 := BufNext(i1, o1, i.freeze);
        bufup1 := true;
      }
      // Output: change framebuffer at the falling edge of vertical sync.
      if i.vsync && up0 {
        obuf0 := BufNext(o0, i0, i.freeze);
        bufup0 := false;
      }
      if i.vsync && up1 {
        obuf1 := BufNext(o1, i1, i.freeze);
        bufup1 := false;
      }
      // Simultaneous change of input and output framebuffers.
      if i.vsync && i.end0 {
        bufup0 := false;
        obuf0 := i0;
      }
      if i.vsync && i.end1 {
        bufup1 := false;
        obuf1 := i1;
      }
      if !i.interlaced {
        ibuf1 := i0;
        obuf1 := o0;
      }
      if !i.triple {
        obuf0, obuf1, ibuf0, ibuf1 := 0, 0, 0, 0;
      }
    }
  }

  /** Tearing is kept out of a step exactly when it is not a frozen clock in
      which input frame end and output sync coincide: that branch copies the
      buffer number without looking at the freeze control. */
  lemma FieldStaysDistinctIff(f: Field, end: bool, vsync: bool, freeze: bool)
    requires f.Distinct()
    ensures FieldNext(f, end, vsync, freeze).Distinct() <==> !(freeze && end && vsync)
  {
  }

  predicate FrozenCoincidence(i: Input) {
    i.freeze && i.vsync && (i.end0 || i.end1)
  }

  /** Triple buffering on, and no frozen coincidence of the first field. */
  predicate FirstEnabled(ins: seq<Input>) {
    forall k | 0 <= k < |ins| :: ins[k].triple && !(ins[k].freeze && ins[k].vsync && ins[k].end0)
  }

  predicate Enabled(ins: seq<Input>) {
    forall k | 0 <= k < |ins| :: ins[k].triple && !FrozenCoincidence(ins[k])
  }

  /** An unfrozen end of an input frame. */
  predicate FrameEnd(ins: seq<Input>) {
    exists k :: 0 <= k < |ins| && ins[k].end0 && !ins[k].freeze
  }

  /** Tear freedom over every run: with triple buffering on and no frozen
      coincidence, from the first unfrozen end of an input frame on the buffer
      shown is never the buffer being written.  The run may start from power-up
      or a disabled scaler (both sides at buffer 0). */
  lemma {:induction false} TearFree(r: Regs, ins: seq<Input>)
    requires r.f0.Distinct() || (r.f0.ibuf == 0 && r.f0.obuf == 0)
    requires FirstEnabled(ins)
    ensures var f := Run(r, ins).f0; f.Distinct() || (f.ibuf == 0 && f.obuf == 0)
    ensures r.f0.Distinct() || FrameEnd(ins) ==> Run(r, ins).f0.Distinct()
    decreases |ins|
  {
    if ins != [] {
      var front, last := ins[..|ins| - 1], ins[|ins| - 1];
      TearFree(r, front);
      var f := Run(r, front).f0;
      assert !(last.freeze && last.end0 && last.vsync);
      if f.Distinct() {
        FieldStaysDistinctIff(f, last.end0, last.vsync, last.freeze);
      } else if FrameEnd(ins) {
        var k :| 0 <= k < |ins| && ins[k].end0 && !ins[k].freeze;
        assert k == |front|;
      }
    }
  }

  predicate Idle(f: Field) { f.ibuf == 0 && f.obuf == 0 }

  /** An unfrozen end of a second field. */
  predicate SecondFrameEnd(ins: seq<Input>) {
    exists k :: 0 <= k < |ins| && ins[k].end1 && !ins[k].freeze
  }

  predicate Interlaced(ins: seq<Input>) {
    forall k | 0 <= k < |ins| :: ins[k].interlaced
  }

  /** The second field over every run from power-up.  In interlaced video it is
      tear free from its own first unfrozen field end on; a progressive clock
      copies the first field, so once that one is apart the second field is tear
      free from its own field end or from any progressive clock on. */
  lemma {:induction false} TearFreeSecondField(r: Regs, ins: seq<Input>)
    requires r.f0.Distinct() || Idle(r.f0)
    requires r.f1.Distinct() || Idle(r.f1)
    requires Enabled(ins)
    ensures Run(r, ins).f1.Distinct() || Idle(Run(r, ins).f1)
    ensures Interlaced(ins) && (r.f1.Distinct() || SecondFrameEnd(ins)) ==> Run(r, ins).f1.Distinct()
    ensures r.f0.Distinct() && (r.f1.Distinct() || SecondFrameEnd(ins) || !Interlaced(ins)) ==>
              Run(r, ins).f1.Distinct()
    decreases |ins|
  {
    if ins != [] {
      var front, last := ins[..|ins| - 1], ins[|ins| - 1];
      TearFree(r, front);
      TearFreeSecondField(r, front);
      assert !(last.freeze && last.end1 && last.vsync);
      SecondStep(Run(r, front), last);
      if SecondFrameEnd(ins) && !SecondFrameEnd(front) {
        var k :| 0 <= k < |ins| && ins[k].end1 && !ins[k].freeze;
        assert k == |front|;
      }
      if !Interlaced(ins) && Interlaced(front) {
        var k :| 0 <= k < |ins| && !ins[k].interlaced;
        assert k == |front|;
      }
    }
  }

  lemma SecondStep(r: Regs, i: Input)
    requires r.f0.Distinct() || Idle(r.f0)
    requires r.f1.Distinct() || Idle(r.f1)
    requires i.triple && !(i.freeze && i.end1 && i.vsync)
    ensures Next(r, i).f1.Distinct() || Idle(Next(r, i).f1)
    ensures i.interlaced && (r.f1.Distinct() || (i.end1 && !i.freeze)) ==> Next(r, i).f1.Distinct()
    ensures !i.interlaced && r.f0.Distinct() ==> Next(r, i).f1.Distinct()
  {
  }

  predicate Tripled(ins: seq<Input>) {
    forall k | 0 <= k < |ins| :: ins[k].triple
  }

  /** Once both sides have met on buffer 1 no run of events separates them while
      triple buffering stays on: the successor of 1 avoiding 1 is 1. */
  lemma {:induction false} MeetingOnOneIsPermanent(r: Regs, ins: seq<Input>)
    requires r.f0.ibuf == 1 && r.f0.obuf == 1 && Tripled(ins)
    ensures Run(r, ins).f0.ibuf == 1 && Run(r, ins).f0.obuf == 1
    decreases |ins|
  {
    if ins != [] {
      MeetingOnOneIsPermanent(r, ins[..|ins| - 1]);
    }
  }

  /** What a frozen coincidence does: both sides meet on the buffer that was
      being written, and they stay together over every further run exactly if
      that is buffer 1; otherwise the next unfrozen frame end separates them. */
  lemma FrozenCoincidenceIsPermanentIff(r: Regs, i: Input)
    requires r.f0.Distinct() && i.triple && i.freeze && i.end0 && i.vsync
    ensures Next(r, i).f0.ibuf == Next(r, i).f0.obuf == r.f0.ibuf
    ensures (forall ins :: Tripled(ins) ==> !Run(Next(r, i), ins).f0.Distinct()) <==> r.f0.ibuf == 1
    ensures r.f0.ibuf != 1 ==>
              forall j: Input | j.triple && j.end0 && !j.freeze :: Next(Next(r, i), j).f0.Distinct()
  {
    var hit := Next(r, i);
    if r.f0.ibuf == 1 {
      forall ins | Tripled(ins)
        ensures !Run(hit, ins).f0.Distinct()
      {
        MeetingOnOneIsPermanent(hit, ins);
      }
    } else {
      var frameEnd := Input(true, false, false, false, true, false);
      var ins := [frameEnd];
      assert ins[..0] == [];
      assert Run(hit, ins) == Next(hit, frameEnd);
      assert Tripled(ins) && Run(hit, ins).f0.Distinct();
    }
  }

  /** Two clocks from power-up lead there: the first frame end makes 1 the
      buffer written, and a frozen coincidence then joins both sides on it. */
  lemma PowerUpReachesMeeting(ins: seq<Input>)
    requires Tripled(ins)
    ensures var powerUp := Regs(Field(0, 0, false), Field(0, 0, false));
            var apart := Next(powerUp, Input(true, true, false, false, true, false));
            var met := Next(apart, Input(true, true, true, false, true, true));
            apart.f0.Distinct() && Run(met, ins).f0.ibuf == Run(met, ins).f0.obuf == 1
  {
    var apart := Next(Regs(Field(0, 0, false), Field(0, 0, false)), Input(true, true, false, false, true, false));
    MeetingOnOneIsPermanent(Next(apart, Input(true, true, true, false, true, true)), ins);
  }

  // ---- Freeze, triple buffering off, progressive video ----

  predicate Frozen(ins: seq<Input>) {
    forall k | 0 <= k < |ins| :: ins[k].triple && ins[k].freeze
  }

  predicate Coincides(ins: seq<Input>) {
    exists k :: 0 <= k < |ins| && ins[k].end0 && ins[k].vsync
  }

  /** What freeze holds still, over every frozen run: the buffer being written,
      and the buffer being shown unless a frame end meets an output sync, which
      brings it onto the one being written. */
  lemma {:induction false} FreezeHolds(r: Regs, ins: seq<Input>)
    requires Frozen(ins)
    ensures Run(r, ins).f0.ibuf == r.f0.ibuf
    ensures Run(r, ins).f0.obuf == if Coincides(ins) then r.f0.ibuf else r.f0.obuf
    decreases |ins|
  {
    if ins != [] {
      var front, last := ins[..|ins| - 1], ins[|ins| - 1];
      FreezeHolds(r, front);
      if Coincides(ins) && !Coincides(front) {
        var k :| 0 <= k < |ins| && ins[k].end0 && ins[k].vsync;
        assert k == |front|;
      }
      if Coincides(front) {
        var k :| 0 <= k < |front| && front[k].end0 && front[k].vsync;
        assert ins[k].end0 && ins[k].vsync;
      }
    }
  }

  /** A frame is written into one buffer and shown from one: over every run without
      an end of the field's input frames the buffer written stays, and over every
      run without an output sync the buffer shown. */
  lemma {:induction false} BuffersHold(r: Regs, ins: seq<Input>)
    requires Tripled(ins)
    ensures (forall k | 0 <= k < |ins| :: !ins[k].end0) ==> Run(r, ins).f0.ibuf == r.f0.ibuf
    ensures (forall k | 0 <= k < |ins| :: !ins[k].vsync) ==> Run(r, ins).f0.obuf == r.f0.obuf
    ensures Interlaced(ins) && (forall k | 0 <= k < |ins| :: !ins[k].end1) ==> Run(r, ins).f1.ibuf == r.f1.ibuf
    ensures Interlaced(ins) && (forall k | 0 <= k < |ins| :: !ins[k].vsync) ==> Run(r, ins).f1.obuf == r.f1.obuf
    decreases |ins|
  {
    if ins != [] {
      BuffersHold(r, ins[..|ins| - 1]);
    }
  }

  /** With triple buffering off everything is in buffer 0; in progressive video
      the second field follows the first one clock behind. */
  lemma ControlsMean(r: Regs, ins: seq<Input>, i: Input)
    ensures var s, t := Run(r, ins), Run(r, ins + [i]);
            && (!i.triple ==> Idle(t.f0) && Idle(t.f1))
            && (i.triple && !i.interlaced ==> t.f1.ibuf == s.f0.ibuf && t.f1.obuf == s.f0.obuf)
  {
    assert (ins + [i])[..|ins|] == ins;
  }

  // ---- Which frame is shown ----

  const PARTIAL := -1

  /** The first field's registers with the frame number each buffer holds, or
      PARTIAL while it is being overwritten; `writing` is the frame now being
      written. */
  datatype Frames = Frames(f: Field, held: seq<int>, writing: int) {
    predicate Valid() { f.Valid() && |held| == 3 }
    function Shown(): int
      requires Valid()
    {
      held[f.obuf]
    }
  }

  function FramesNext(t: Frames, end: bool, vsync: bool): (u: Frames)
    requires t.Valid()
    ensures u.Valid()
  {
    var f := FieldNext(t.f, end, vsync, false);
    if end then Frames(f, t.held[t.f.ibuf := t.writing][f.ibuf := PARTIAL], t.writing + 1)
    else t.(f := f)
  }

  /** An output swap is due exactly when the frame to swap to, the last one
      completed, waits in the third buffer; otherwise it is already shown. */
  ghost predicate UpToDate(t: Frames) {
    && t.Valid() && t.f.Distinct()
    && (if t.f.bufup then t.held[3 - t.f.ibuf - t.f.obuf] else t.held[t.f.obuf]) == t.writing - 1
    && 0 <= t.held[t.f.obuf] < t.writing
  }

  /** Only the frame on screen may still be garbage. */
  ghost predicate Waiting(t: Frames) {
    && t.Valid() && t.f.Distinct() && t.writing >= 1
    && (if t.f.bufup then t.held[3 - t.f.ibuf - t.f.obuf] else t.held[t.f.obuf]) == t.writing - 1
  }

  /** One further frame end after the buffers have parted is enough: whatever
      they held, the frame just completed is now waiting or shown. */
  lemma FrameEndSynchronizes(t: Frames, vsync: bool)
    requires t.Valid() && t.f.Distinct() && t.writing >= 0
    ensures Waiting(FramesNext(t, true, vsync))
    ensures vsync ==> UpToDate(FramesNext(t, true, vsync))
  {
  }

  /** Every output sync then shows the most recently completed frame. */
  lemma SyncShowsLatest(t: Frames, end: bool)
    requires Waiting(t)
    ensures UpToDate(FramesNext(t, end, true))
    ensures FramesNext(t, end, true).Shown() == FramesNext(t, end, true).writing - 1
  {
  }

  lemma UpToDateStep(t: Frames, end: bool, vsync: bool)
    requires UpToDate(t)
    ensures UpToDate(FramesNext(t, end, vsync))
    ensures FramesNext(t, end, vsync).Shown() >= t.Shown()
    ensures !vsync ==> FramesNext(t, end, vsync).Shown() == t.Shown()
    ensures vsync ==> FramesNext(t, end, vsync).Shown() == FramesNext(t, end, vsync).writing - 1
  {
  }

  datatype Event = Event(end: bool, vsync: bool)

  function FramesRun(t: Frames, events: seq<Event>): (u: Frames)
    requires t.Valid()
    ensures u.Valid()
    decreases |events|
  {
    if events == [] then t
    else FramesNext(FramesRun(t, events[..|events| - 1]), events[|events| - 1].end, events[|events| - 1].vsync)
  }

  /** What one field sees of a run. */
  function FirstEvents(ins: seq<Input>): seq<Event> {
    seq(|ins|, k requires 0 <= k < |ins| => Event(ins[k].end0, ins[k].vsync))
  }

  function SecondEvents(ins: seq<Input>): seq<Event> {
    seq(|ins|, k requires 0 <= k < |ins| => Event(ins[k].end1, ins[k].vsync))
  }

  /** The frames followed below are those of the scaler: over every unfrozen run
      its first field, and in interlaced video its second one too, moves through
      the buffers as they do. */
  lemma {:induction false} FramesAreTheScalers(t: Frames, u: Frames, r: Regs, ins: seq<Input>)
    requires t.Valid() && u.Valid() && t.f == r.f0 && u.f == r.f1
    requires forall k | 0 <= k < |ins| :: ins[k].triple && !ins[k].freeze
    ensures FramesRun(t, FirstEvents(ins)).f == Run(r, ins).f0
    ensures Interlaced(ins) ==> FramesRun(u, SecondEvents(ins)).f == Run(r, ins).f1
    decreases |ins|
  {
    if ins != [] {
      var front := ins[..|ins| - 1];
      FramesAreTheScalers(t, u, r, front);
      assert FirstEvents(ins)[..|ins| - 1] == FirstEvents(front);
      assert SecondEvents(ins)[..|ins| - 1] == SecondEvents(front);
      hide FieldNext;
    }
  }

  /** Over every run of frame ends and syncs, coinciding or not, the shown
      frame is complete, never one that is being overwritten, and its number
      never goes back. */
  lemma {:induction false} ShownFramesAdvance(t: Frames, events: seq<Event>, k: nat)
    requires UpToDate(t) && k <= |events|
    ensures UpToDate(FramesRun(t, events)) && UpToDate(FramesRun(t, events[..k]))
    ensures FramesRun(t, events).Shown() >= FramesRun(t, events[..k]).Shown() >= 0
    decreases |events|
  {
    if k == |events| {
      assert events[..k] == events;
      if events != [] {
        ShownFramesAdvance(t, events[..|events| - 1], 0);
        UpToDateStep(FramesRun(t, events[..|events| - 1]), events[|events| - 1].end, events[|events| - 1].vsync);
      }
    } else {
      var front := events[..|events| - 1];
      ShownFramesAdvance(t, front, k);
      assert front[..k] == events[..k];
      UpToDateStep(FramesRun(t, front), events[|events| - 1].end, events[|events| - 1].vsync);
    }
  }

  /** Frame ends in a run: the number of the frame now being written. */
  function Ends(events: seq<Event>): nat
    decreases |events|
  {
    if events == [] then 0 else Ends(events[..|events| - 1]) + (if events[|events| - 1].end then 1 else 0)
  }

  function PowerUp(held: seq<int>): Frames { Frames(Field(0, 0, false), held, 0) }

  /** Over every run from power-up, whatever memory holds: one frame end parts
      the buffers, and from the second on the completed frame waits or is shown. */
  lemma {:induction false} PowerUpSynchronizes(held: seq<int>, events: seq<Event>)
    requires |held| == 3
    ensures var t := FramesRun(PowerUp(held), events);
            && t.writing == Ends(events)
            && (Ends(events) == 0 ==> t.f == Field(0, 0, false))
            && (Ends(events) >= 1 ==> t.f.Distinct())
            && (Ends(events) >= 2 ==> Waiting(t))
    decreases |events|
  {
    if events != [] {
      var front, last := events[..|events| - 1], events[|events| - 1];
      PowerUpSynchronizes(held, front);
      var t := FramesRun(PowerUp(held), front);
      if Ends(front) >= 1 {
        FieldStaysDistinctIff(t.f, last.end, last.vsync, false);
        if last.end {
          FrameEndSynchronizes(t, last.vsync);
        }
      }
      if Ends(front) >= 2 && last.vsync {
        SyncShowsLatest(t, last.end);
      }
    }
  }

  /** The whole promise: in every run from power-up every output sync from the
      second frame end on shows the most recently completed frame, and after the
      first such sync the shown frame is complete and its number never goes
      back, at sync and between syncs. */
  lemma {:induction false} DisplayFollowsInput(held: seq<int>, events: seq<Event>, k: nat)
    requires |held| == 3 && k < |events|
    requires Ends(events[..k + 1]) >= 2 && events[k].vsync
    ensures var shown, later := FramesRun(PowerUp(held), events[..k + 1]), FramesRun(PowerUp(held), events);
            && shown.Shown() == Ends(events[..k + 1]) - 1
            && UpToDate(later)
            && shown.Shown() <= later.Shown() < Ends(events)
    decreases |events|
  {
    var front, last := events[..|events| - 1], events[|events| - 1];
    var t := FramesRun(PowerUp(held), front);
    PowerUpSynchronizes(held, front);
    PowerUpSynchronizes(held, events);
    if k == |front| {
      assert events[..k + 1] == events;
      if Ends(front) >= 2 {
        SyncShowsLatest(t, last.end);
      } else {
        FrameEndSynchronizes(t, true);
      }
    } else {
      assert front[..k + 1] == events[..k + 1];
      DisplayFollowsInput(held, front, k);
      UpToDateStep(t, last.end, last.vsync);
    }
  }

  // ---- screen_rotate ----

  /** The rotated frame buffer's switch: both edges use the old pair. */
  function RotateNext(ifb: int, ofb: int, vblEdge: bool, vsEdge: bool): (int, int) {
    (if vsEdge then BufNext(ifb, ofb, false) else ifb,
     if vblEdge then BufNext(ofb, ifb, false) else ofb)
  }

  /** Without a branch for coinciding edges the rotator keeps its buffers apart
      exactly while they do not coincide. */
  lemma RotateStaysDistinctIff(ifb: int, ofb: int, vblEdge: bool, vsEdge: bool)
    requires Buffer(ifb) && Buffer(ofb) && ifb != ofb
    ensures RotateNext(ifb, ofb, vblEdge, vsEdge).0 != RotateNext(ifb, ofb, vblEdge, vsEdge).1
            <==> !(vblEdge && vsEdge)
  {
  }

  datatype Edges = Edges(vbl: bool, vs: bool)

  function RotateRun(s: (int, int), ins: seq<Edges>): (int, int)
    decreases |ins|
  {
    if ins == [] then s
    else
      var t := RotateRun(s, ins[..|ins| - 1]);
      RotateNext(t.0, t.1, ins[|ins| - 1].vbl, ins[|ins| - 1].vs)
  }

  predicate Apart(s: (int, int)) { Buffer(s.0) && Buffer(s.1) && s.0 != s.1 }

  /** Over every run without coinciding edges the rotator is tear free. */
  lemma {:induction false} RotateRunApart(s: (int, int), ins: seq<Edges>)
    requires Apart(s) && forall k | 0 <= k < |ins| :: !(ins[k].vbl && ins[k].vs)
    ensures Apart(RotateRun(s, ins))
    decreases |ins|
  {
    if ins != [] {
      var front, last := ins[..|ins| - 1], ins[|ins| - 1];
      RotateRunApart(s, front);
      RotateStaysDistinctIff(RotateRun(s, front).0, RotateRun(s, front).1, last.vbl, last.vs);
    }
  }

  lemma {:induction false} RotateStuck(ins: seq<Edges>)
    ensures RotateRun((1, 1), ins) == (1, 1)
    decreases |ins|
  {
    if ins != [] {
      RotateStuck(ins[..|ins| - 1]);
    }
  }

  /** Coinciding edges make both sides meet on the third buffer, and they stay
      together over every further run exactly if that is buffer 1.  From power-up
      on buffer 0 a first coincidence is already of that kind. */
  lemma RotateMeetingIsPermanentIff(a: int, b: int)
    requires Apart((a, b))
    ensures var met := RotateNext(a, b, true, true);
            && met.0 == met.1 == 3 - a - b
            && ((forall ins :: !Apart(RotateRun(met, ins))) <==> a != 1 && b != 1)
    ensures RotateNext(0, 0, true, true) == (1, 1)
  {
    var met := RotateNext(a, b, true, true);
    if a != 1 && b != 1 {
      forall ins
        ensures !Apart(RotateRun(met, ins))
      {
        RotateStuck(ins);
      }
    } else {
      var ins := [Edges(true, false)];
      assert ins[..0] == [];
      assert RotateRun(met, ins) == RotateNext(met.0, met.1, true, false);
      assert Apart(RotateRun(met, ins));
    }
  }
}
