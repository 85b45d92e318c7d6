/** The burst read queue of ascal.vhd: process Scalaire issues burst reads
    (sREAD, sWAITREAD), process Avaloir fills the two halves of o_dpram, and the
    copy machine (sWAIT, sSHIFT, sCOPY) drains them into the line buffers.  The
    events of both clock domains are interleaved in every possible order. */
module CreditQueue {
  import opened Arithmetic

  /** What is remembered of an issued burst: first and last of its line, which
      half of the buffer it goes to, and the pixel offset it starts at. */
  datatype Tag = Tag(prim: bool, last: bool, bib: bool, off: nat)

  datatype ReadState = Disp | Read | WaitRead
  datatype CopyState = Wait | Shift | Copy

  datatype Regs = Regs(
    state: ReadState, copy: CopyState, hbcpt: int,
    readlev: int, copylev: int, bibu: bool,
    t0: Tag, t1: Tag, t2: Tag)

  /** One output clock.  `begin`: sHSYNC enters sREAD.  `address`: o_adrsb.
      `readack`: the bus took the command.  `dataack`: a burst's data is in.
      `free`: o_copyv(0) is clear.  `aligned`: o_pshift is 0.  `finished`: the
      burst's words are used up or the line is complete. */
  datatype Clock = Clock(
    begin: bool, address: bool, readack: bool, dataack: bool,
    free: bool, aligned: bool, finished: bool, off: nat)

  predicate Inc(r: Regs, c: Clock) { r.state == Read && r.readlev < 2 && c.address }
  predicate Dec(r: Regs, c: Clock) { r.copy == Copy && c.finished }

  function Issue(r: Regs, hburst: int, c: Clock): Tag {
    Tag(r.hbcpt == 0, r.hbcpt == hburst - 1, r.bibu, c.off)
  }

  function Next(r: Regs, hburst: int, c: Clock): Regs {
    var inc, dec, tag := Inc(r, c), Dec(r, c), Issue(r, hburst, c);
    Regs(
      match r.state
      case Disp => if c.begin then Read else Disp
      case Read => if inc then WaitRead else Read
      case WaitRead => if !c.readack then WaitRead else if r.hbcpt < hburst - 1 then Read else Disp,
      match r.copy
      case Wait => if r.copylev > 0 && c.free then (if r.t0.off > 0 && r.t0.prim then Shift else Copy) else Wait
      case Shift => if c.aligned then Copy else Shift
      case Copy => if dec then Wait else Copy,
      if r.state == Disp && c.begin then 0 else if r.state == WaitRead && c.readack then r.hbcpt + 1 else r.hbcpt,
      r.readlev + (if inc then 1 else 0) - (if dec then 1 else 0),
      r.copylev + (if c.dataack then 1 else 0) - (if dec then 1 else 0),
      if inc then !r.bibu else r.bibu,
      if inc && (r.readlev == 0 || (r.readlev == 1 && dec)) then tag else if dec then r.t1 else r.t0,
      if inc && ((r.readlev == 1 && !dec) || (r.readlev == 2 && dec)) then tag else if dec then r.t2 else r.t1,
      if inc then tag else r.t2)
  }

  /** The parts of process Scalaire that handle the queue; `lev_inc` and
      `lev_dec` are the process variables. */
  class Queue {
    const hburst: int
    var state: ReadState
    var copy: CopyState
    var hbcpt: int
    var readlev: int
    var copylev: int
    var bibu: bool
    var t0: Tag
    var t1: Tag
    var t2: Tag

    ghost function Value(): Regs
      reads this
    {
      Regs(state, copy, hbcpt, readlev, copylev, bibu, t0, t1, t2)
    }

    constructor (hburst: int, blank: Tag)
      ensures this.hburst == hburst && Value() == Regs(Disp, Wait, 0, 0, 0, false, blank, blank, blank)
    {
      this.hburst := hburst;
      state, copy, hbcpt, readlev, copylev, bibu := Disp, Wait, 0, 0, 0, false;
      t0, t1, t2 := blank, blank, blank;
    }

    /** Case statement on o_state. */
    method ReadMachine(c: Clock) returns (lev_inc: bool)
      modifies this`state, this`hbcpt, this`bibu
      ensures lev_inc <==> old(state) == Read && readlev < 2 && c.address
      ensures state == match old(state)
                       case Disp => if c.begin then Read else Disp
                       case Read => if lev_inc then WaitRead else Read
                       case WaitRead => if !c.readack then WaitRead else if old(hbcpt) < hburst - 1 then Read else Disp
      ensures hbcpt == if old(state) == Disp && c.begin then 0
                       else if old(state) == WaitRead && c.readack then old(hbcpt) + 1 else old(hbcpt)
      ensures bibu == if lev_inc then !old(bibu) else old(bibu)
    {
      lev_inc := false;
      match state {
        case Disp =>
          if c.begin {
            state := Read;
            hbcpt := 0;
          }
        case Read =>
          if readlev < 2 && c.address {
            lev_inc := true;
            state := WaitRead;
            bibu := !bibu;
          }
        case WaitRead =>
          if c.readack {
            state := if hbcpt < hburst - 1 then Read else Disp;
            hbcpt := hbcpt + 1;
          }
      }
    }

    /** Case statement on o_copy. */
    method CopyMachine(c: Clock) returns (lev_dec: bool)
      modifies this`copy
      ensures lev_dec <==> old(copy) == Copy && c.finished
      ensures copy == match old(copy)
                      case Wait =>
                        if copylev > 0 && c.free then (if t0.off > 0 && t0.prim then Shift else Copy) else Wait
                      case Shift => if c.aligned then Copy else Shift
                      case Copy => if lev_dec then Wait else Copy
    {
      lev_dec := false;
      match copy {
        case Wait =>
          if copylev > 0 && c.free {
            copy := Copy;
            if t0.off > 0 && t0.prim { copy := Shift; }
          }
        case Shift =>
          if c.aligned { copy := Copy; }
        case Copy =>
          if c.finished {
            copy := Wait;
            lev_dec := true;
          }
      }
    }

    /** Tag registers: shift out a copied burst, then file an issued one. */
    method File(lev_inc: bool, lev_dec: bool, tag: Tag)
      modifies this`t0, this`t1, this`t2
      ensures t0 == if lev_inc && (readlev == 0 || (readlev == 1 && lev_dec)) then tag
                         else if lev_dec then old(t1) else old(t0)
      ensures t1 == if lev_inc && ((readlev == 1 && !lev_dec) || (readlev == 2 && lev_dec)) then tag
                         else if lev_dec then old(t2) else old(t1)
      ensures t2 == if lev_inc then tag else old(t2)
    {
      if lev_dec {
        t0, t1 := t1, t2;
      }
      if lev_inc {
        if readlev == 0 || (readlev == 1 && lev_dec) {
          t0 := tag;
        } else if (readlev == 1 && !lev_dec) || (readlev == 2 && lev_dec) {
          t1 := tag;
        }
        t2 := tag;
      }
    }

    method OnClock(c: Clock)
      modifies this
      ensures Value() == Next(old(Value()), hburst, c)
    {
      ghost var before, after := Value(), Next(Value(), hburst, c);
      var tag := Tag(hbcpt == 0, hbcpt == hburst - 1, bibu, c.off);
      var lev_inc := ReadMachine(c);
      assert lev_inc == Inc(before, c);
      assert state == after.state && hbcpt == after.hbcpt && bibu == after.bibu;
      var lev_dec := CopyMachine(c);
      assert lev_dec == Dec(before, c);
      assert copy == after.copy;
      File(lev_inc, lev_dec, tag);
      assert t0 == after.t0 && t1 == after.t1 && t2 == after.t2;
      if !lev_dec && lev_inc {
        readlev := readlev + 1;
      } else if lev_dec && !lev_inc {
        readlev := readlev - 1;
      }
      if lev_dec && !c.dataack {
        copylev := copylev - 1;
      } else if !lev_dec && c.dataack {
        copylev := copylev + 1;
      }
    }
  }

  // ---- The bus side ----

  /** A memory word, named by the burst it belongs to and its place in it. */
  datatype Word = Word(burst: int, index: int)

  /** avl_wad and o_dpram. */
  datatype Bus = Bus(wad: int, dpram: seq<Word>)

  /** One word of read data arrives. */
  function Store(b: Bus, blen: int, w: Word): Bus
    requires blen >= 2 && |b.dpram| == 2 * blen
  {
    var wad := (b.wad + 1) % (2 * blen);
    Bus(wad, b.dpram[wad := w])
  }

  /** The data acknowledge toggles with the last word of a burst. */
  predicate Completes(b: Bus, blen: int)
    requires blen >= 2
  {
    b.wad % blen == blen - 2
  }

  // ---- The whole system ----

  /** The frame's history: lines begun, tags issued so far, bursts whose data is
      complete, words of the next one, acknowledges seen by the output clock,
      bursts copied. */
  datatype History = History(begun: int, issued: seq<Tag>, filled: int, words: int, acked: int, copied: int)

  datatype System = System(r: Regs, b: Bus, h: History)

  datatype Event = OutputClock(c: Clock) | Data

  /** The bus returns data in order and only for issued bursts; an acknowledge
      pulse follows a completed burst. */
  predicate Admissible(s: System, e: Event) {
    match e
    case OutputClock(c) => c.dataack ==> s.h.acked < s.h.filled
    case Data => s.h.filled < |s.h.issued|
  }

  function Step(s: System, hburst: int, blen: int, e: Event): System
    requires blen >= 2 && |s.b.dpram| == 2 * blen
  {
    match e
    case OutputClock(c) =>
      System(Next(s.r, hburst, c), s.b,
             History(s.h.begun + (if s.r.state == Disp && c.begin then 1 else 0),
                     if Inc(s.r, c) then s.h.issued + [Issue(s.r, hburst, c)] else s.h.issued,
                     s.h.filled, s.h.words,
                     s.h.acked + (if c.dataack then 1 else 0),
                     s.h.copied + (if Dec(s.r, c) then 1 else 0)))
    case Data =>
      System(s.r, Store(s.b, blen, Word(s.h.filled, s.h.words)),
             if Completes(s.b, blen) then s.h.(filled := s.h.filled + 1, words := 0)
             else s.h.(words := s.h.words + 1))
  }

  /** Start of a frame: queue empty, first half next on both sides. */
  ghost predicate FrameStart(s: System, blen: int) {
    && s.r.state == Disp && s.r.copy == Wait
    && s.r.readlev == 0 && s.r.copylev == 0 && !s.r.bibu
    && s.b.wad == 2 * blen - 1 && |s.b.dpram| == 2 * blen
    && s.h == History(0, [], 0, 0, 0, 0)
  }

  predicate Odd(k: int) { k % 2 == 1 }

  /** Start of the half of the buffer burst `k` is stored in. */
  function Base(k: int, blen: int): int { if Odd(k) then blen else 0 }

  /** Levels count bursts: issued, filled and acknowledged, copied. */
  ghost predicate LevelsAgree(s: System) {
    && 0 <= s.h.copied <= s.h.acked <= s.h.filled <= |s.h.issued|
    && s.r.readlev == |s.h.issued| - s.h.copied <= 2
    && s.r.copylev == s.h.acked - s.h.copied
    && (s.r.copy != Wait ==> s.r.copylev > 0)
  }

  /** The tag registers are a FIFO of the issued, not yet copied bursts. */
  ghost predicate TagsAreFifo(s: System) {
    && (s.r.readlev >= 1 ==> 0 <= s.h.copied < |s.h.issued| && s.r.t0 == s.h.issued[s.h.copied])
    && (s.r.readlev >= 2 ==> s.h.copied + 1 < |s.h.issued| && s.r.t1 == s.h.issued[s.h.copied + 1])
  }

  /** Bursts alternate between the halves, and every line has `hburst` of them,
      the first and the last one marked. */
  ghost predicate Alternates(s: System, hburst: int)
    requires hburst >= 1
  {
    TagsAlternate(s.h.issued, hburst) && LinePhase(s.r, s.h.begun, |s.h.issued|, hburst)
  }

  ghost predicate TagsAlternate(issued: seq<Tag>, hburst: int)
    requires hburst >= 1
  {
    forall k | 0 <= k < |issued| :: TagOf(issued[k], k, hburst)
  }

  /** The tag of the `k`-th burst of a frame. */
  predicate TagOf(tag: Tag, k: int, hburst: int)
    requires hburst >= 1
  {
    tag.bib == Odd(k) && (tag.prim <==> k % hburst == 0) && (tag.last <==> k % hburst == hburst - 1)
  }

  /** Bursts issued after a number of lines begun, by the state of the current one. */
  ghost predicate LinePhase(r: Regs, begun: int, issued: int, hburst: int) {
    && r.bibu == Odd(issued) && 0 <= r.hbcpt
    && match r.state {
      case Disp => issued == begun * hburst
      case Read => r.hbcpt < hburst && issued == (begun - 1) * hburst + r.hbcpt
      case WaitRead => r.hbcpt < hburst && issued == (begun - 1) * hburst + r.hbcpt + 1
    }
  }

  /** Every filled burst that is not yet copied is intact in its half, and so is
      the part received of the next one. */
  ghost predicate DataIntact(s: System, blen: int) {
    && (s.h.words > 0 ==> s.h.filled < |s.h.issued|)
    && Holds(s.b, s.h.copied, s.h.filled, s.h.words, blen)
  }

  ghost predicate Invariant(s: System, hburst: int, blen: int)
    requires hburst >= 1
  {
    LevelsAgree(s) && TagsAreFifo(s) && Alternates(s, hburst) && DataIntact(s, blen)
  }

  lemma StartInvariant(s: System, hburst: int, blen: int)
    requires blen >= 2 && hburst >= 1 && FrameStart(s, blen) && s.r.hbcpt >= 0
    ensures Invariant(s, hburst, blen)
  {
  }

  lemma ClockKeeps(s: System, hburst: int, blen: int, c: Clock)
    requires blen >= 2 && hburst >= 1 && Invariant(s, hburst, blen) && Admissible(s, OutputClock(c))
    ensures Invariant(Step(s, hburst, blen, OutputClock(c)), hburst, blen)
  {
    var t := Step(s, hburst, blen, OutputClock(c));
    ClockKeepsLevels(s, hburst, blen, c);
    ClockKeepsFifo(s, hburst, blen, c);
    ClockKeepsAlternation(s, hburst, blen, c);
    assert DataIntact(t, blen);
  }

  lemma ClockKeepsLevels(s: System, hburst: int, blen: int, c: Clock)
    requires blen >= 2 && hburst >= 1 && LevelsAgree(s) && |s.b.dpram| == 2 * blen && Admissible(s, OutputClock(c))
    ensures LevelsAgree(Step(s, hburst, blen, OutputClock(c)))
  {
  }

  lemma ClockKeepsFifo(s: System, hburst: int, blen: int, c: Clock)
    requires blen >= 2 && hburst >= 1 && LevelsAgree(s) && TagsAreFifo(s) && |s.b.dpram| == 2 * blen
    ensures TagsAreFifo(Step(s, hburst, blen, OutputClock(c)))
  {
    var t, n := Step(s, hburst, blen, OutputClock(c)), |s.h.issued|;
    assert t.h.issued[..n] == s.h.issued;
    assert forall k | 0 <= k < n :: t.h.issued[k] == s.h.issued[k];
  }

  lemma ClockKeepsAlternation(s: System, hburst: int, blen: int, c: Clock)
    requires blen >= 2 && hburst >= 1 && Invariant(s, hburst, blen) && Admissible(s, OutputClock(c))
    ensures Alternates(Step(s, hburst, blen, OutputClock(c)), hburst)
  {
    PhaseStep(s.r, s.h.begun, |s.h.issued|, hburst, c);
    if Inc(s.r, c) {
      AppendAlternates(s.r, s.h.begun, s.h.issued, hburst, c);
    }
    hide Next, LinePhase, TagsAlternate, LevelsAgree, TagsAreFifo, DataIntact;
  }

  lemma PhaseStep(r: Regs, begun: int, issued: int, hburst: int, c: Clock)
    requires hburst >= 1 && 0 <= issued && LinePhase(r, begun, issued, hburst)
    ensures LinePhase(Next(r, hburst, c), begun + (if r.state == Disp && c.begin then 1 else 0),
                      issued + (if Inc(r, c) then 1 else 0), hburst)
  {
    assert (begun + 1 - 1) * hburst == begun * hburst == (begun - 1) * hburst + hburst;
  }

  lemma AppendAlternates(r: Regs, begun: int, issued: seq<Tag>, hburst: int, c: Clock)
    requires hburst >= 1 && TagsAlternate(issued, hburst)
    requires LinePhase(r, begun, |issued|, hburst) && r.state == Read
    ensures TagsAlternate(issued + [Issue(r, hburst, c)], hburst)
  {
    var all := issued + [Issue(r, hburst, c)];
    QuotientUnique(|issued|, hburst, begun - 1);
    forall k | 0 <= k < |all|
      ensures TagOf(all[k], k, hburst)
    {
      if k < |issued| {
        assert all[k] == issued[k];
      }
    }
  }

  /** When a read is issued: in exactly the clocks in sREAD with an address at hand
      and fewer than two bursts outstanding.  When a copy starts: in exactly the
      clocks of sWAIT with a filled burst and the line buffers free, by way of
      sSHIFT for a first burst with an offset.  When it ends: in exactly the clocks
      of sCOPY that finish the burst. */
  lemma ClockStarts(s: System, hburst: int, blen: int, c: Clock)
    requires blen >= 2 && hburst >= 1 && Invariant(s, hburst, blen) && Admissible(s, OutputClock(c))
    ensures var t := Step(s, hburst, blen, OutputClock(c));
            && (|t.h.issued| > |s.h.issued|
                <==> s.r.state == Read && c.address && |s.h.issued| - s.h.copied < 2)
            && (s.r.copy == Wait && t.r.copy != Wait <==> s.r.copy == Wait && s.h.acked > s.h.copied && c.free)
            && (s.r.copy == Wait && t.r.copy != Wait ==>
                  (t.r.copy == Shift <==> s.h.issued[s.h.copied].off > 0 && s.h.issued[s.h.copied].prim))
            && (s.r.copy == Shift ==> t.r.copy == if c.aligned then Copy else Shift)
            && (t.h.copied > s.h.copied <==> s.r.copy == Copy && c.finished)
            && (s.r.copy == Copy ==> t.r.copy == if c.finished then Wait else Copy)
  {
    hide TagsAlternate, LinePhase, DataIntact;
  }

  lemma DataKeeps(s: System, hburst: int, blen: int)
    requires blen >= 2 && hburst >= 1 && Invariant(s, hburst, blen) && Admissible(s, Data)
    ensures Invariant(Step(s, hburst, blen, Data), hburst, blen)
  {
    hide TagsAlternate, LinePhase;
    assert s.h.filled - s.h.copied <= 1;
    StoreKeeps(s.b, s.h.copied, s.h.filled, s.h.words, blen);
    NextPlace(s.b.wad, Base(s.h.filled, blen), s.h.words, blen);
  }

  /** No half is refilled before it has been copied: the word that arrives goes
      to a half none of whose bursts still wait. */
  lemma NoHalfIsOverwritten(s: System, hburst: int, blen: int, k: int)
    requires blen >= 2 && hburst >= 1 && Invariant(s, hburst, blen) && Admissible(s, Data)
    requires s.h.copied <= k < s.h.filled
    ensures Base(k, blen) != Base(s.h.filled, blen)
    ensures Base(s.h.filled, blen) <= Step(s, hburst, blen, Data).b.wad < Base(s.h.filled, blen) + blen
  {
    hide TagsAlternate, LinePhase, TagsAreFifo, Next;
    assert k == s.h.filled - 1;
    NextPlace(s.b.wad, Base(s.h.filled, blen), s.h.words, blen);
  }

  /** The data part of the invariant. */
  ghost predicate Holds(b: Bus, copied: int, filled: int, words: int, blen: int) {
    && |b.dpram| == 2 * blen && 0 <= words < blen
    && b.wad == (if Base(filled, blen) + words == 0 then 2 * blen - 1 else Base(filled, blen) + words - 1)
    && (forall k, j | copied <= k < filled && 0 <= j < blen :: b.dpram[Base(k, blen) + j] == Word(k, j))
    && (forall j | 0 <= j < words :: b.dpram[Base(filled, blen) + j] == Word(filled, j))
  }

  lemma StoreKeeps(b: Bus, copied: int, filled: int, words: int, blen: int)
    requires blen >= 2 && Holds(b, copied, filled, words, blen) && filled - copied <= 1
    ensures Completes(b, blen) ==> Holds(Store(b, blen, Word(filled, words)), copied, filled + 1, 0, blen)
    ensures !Completes(b, blen) ==> Holds(Store(b, blen, Word(filled, words)), copied, filled, words + 1, blen)
  {
    var t, base := Store(b, blen, Word(filled, words)), Base(filled, blen);
    NextPlace(b.wad, base, words, blen);
    assert t.dpram == b.dpram[base + words := Word(filled, words)];
    forall k, j | copied <= k < filled && 0 <= j < blen
      ensures t.dpram[Base(k, blen) + j] == Word(k, j)
    {
      assert k == filled - 1;
      assert b.dpram[Base(k, blen) + j] == Word(k, j);
    }
    forall j | 0 <= j <= words
      ensures t.dpram[base + j] == Word(filled, j)
    {
      if j < words {
        assert b.dpram[base + j] == Word(filled, j);
      }
    }
  }

  lemma NextPlace(wad: int, base: int, words: int, blen: int)
    requires blen >= 2 && (base == 0 || base == blen) && 0 <= words < blen
    requires wad == if base + words == 0 then 2 * blen - 1 else base + words - 1
    ensures (wad + 1) % (2 * blen) == base + words
    ensures wad % blen == blen - 2 <==> words == blen - 1
  {
    if base + words == 0 {
      QuotientUnique(2 * blen, 2 * blen, 1);
      QuotientUnique(wad, blen, 1);
    } else {
      QuotientUnique(wad + 1, 2 * blen, 0);
      QuotientUnique(wad, blen, if words == 0 || base == 0 then 0 else 1);
    }
  }

  lemma StepKeeps(s: System, hburst: int, blen: int, e: Event)
    requires blen >= 2 && hburst >= 1 && Invariant(s, hburst, blen) && Admissible(s, e)
    ensures Invariant(Step(s, hburst, blen, e), hburst, blen)
  {
    match e
    case OutputClock(c) => ClockKeeps(s, hburst, blen, c);
    case Data => DataKeeps(s, hburst, blen);
  }

  ghost predicate Reaches(s: System, t: System, hburst: int, blen: int, events: seq<Event>)
    requires blen >= 2
    decreases |events|
  {
    if events == [] then s == t
    else
      && |s.b.dpram| == 2 * blen
      && Admissible(s, events[0])
      && Reaches(Step(s, hburst, blen, events[0]), t, hburst, blen, events[1..])
  }

  /** Safety over every run of a frame. */
  lemma {:induction false} RunKeeps(s: System, t: System, hburst: int, blen: int, events: seq<Event>)
    requires blen >= 2 && hburst >= 1 && Invariant(s, hburst, blen) && Reaches(s, t, hburst, blen, events)
    ensures Invariant(t, hburst, blen)
    decreases |events|
  {
    if events != [] {
      StepKeeps(s, hburst, blen, events[0]);
      RunKeeps(Step(s, hburst, blen, events[0]), t, hburst, blen, events[1..]);
    }
  }

  /** What the copy machine relies on, in every state reachable from the start
      of a frame: credits stay in range, and whenever a burst is being copied the
      front tag names the half that holds exactly its words, in order. */
  lemma CopyReadsItsBurst(s: System, t: System, hburst: int, blen: int, events: seq<Event>)
    requires blen >= 2 && hburst >= 1 && FrameStart(s, blen) && s.r.hbcpt >= 0
    requires Reaches(s, t, hburst, blen, events)
    ensures 0 <= t.r.copylev <= t.r.readlev <= 2
    ensures t.r.copy != Wait ==>
              && 0 <= t.h.copied < |t.h.issued| && t.r.t0 == t.h.issued[t.h.copied]
              && |t.b.dpram| == 2 * blen
              && (forall j | 0 <= j < blen ::
                    t.b.dpram[(if t.r.t0.bib then blen else 0) + j] == Word(t.h.copied, j))
  {
    StartInvariant(s, hburst, blen);
    RunKeeps(s, t, hburst, blen, events);
    if t.r.copy != Wait {
      var k := t.h.copied;
      assert TagOf(t.h.issued[k], k, hburst);
      forall j | 0 <= j < blen
        ensures t.b.dpram[(if t.r.t0.bib then blen else 0) + j] == Word(k, j)
      {
        assert t.b.dpram[Base(k, blen) + j] == Word(k, j);
      }
    }
  }

  /** Bursts per line, in every state reachable from the start of a frame: each
      line begun gets exactly `hburst`, its first and last one marked as such; a
      line is not left before. */
  lemma LinesHaveTheirBursts(s: System, t: System, hburst: int, blen: int, events: seq<Event>, k: int)
    requires blen >= 2 && hburst >= 1 && FrameStart(s, blen) && s.r.hbcpt >= 0
    requires Reaches(s, t, hburst, blen, events)
    ensures t.r.state == Disp ==> |t.h.issued| == t.h.begun * hburst
    ensures t.r.state != Disp ==> (t.h.begun - 1) * hburst <= |t.h.issued| <= t.h.begun * hburst
    ensures 0 <= k < |t.h.issued| ==>
              && (t.h.issued[k].prim <==> k % hburst == 0)
              && (t.h.issued[k].last <==> k % hburst == hburst - 1)
  {
    StartInvariant(s, hburst, blen);
    hide Invariant, Reaches, FrameStart;
    RunKeeps(s, t, hburst, blen, events);
    PhaseMeans(t, hburst, blen, k);
  }

  lemma PhaseMeans(t: System, hburst: int, blen: int, k: int)
    requires blen >= 2 && hburst >= 1 && Invariant(t, hburst, blen)
    ensures t.r.state == Disp ==> |t.h.issued| == t.h.begun * hburst
    ensures t.r.state != Disp ==> (t.h.begun - 1) * hburst <= |t.h.issued| <= t.h.begun * hburst
    ensures 0 <= k < |t.h.issued| ==>
              && (t.h.issued[k].prim <==> k % hburst == 0)
              && (t.h.issued[k].last <==> k % hburst == hburst - 1)
  {
    hide LevelsAgree, TagsAreFifo, DataIntact;
    assert (t.h.begun - 1) * hburst + hburst == t.h.begun * hburst;
    if 0 <= k < |t.h.issued| {
      assert TagOf(t.h.issued[k], k, hburst);
    }
  }
}
