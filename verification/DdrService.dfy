/** ddr_svc: two readers share one burst port; a request is a toggle, a result
    is a row of ready pulses. */
module DdrService {

  datatype Channel = Channel(addr: int, burst: int, req: bool)

  datatype Input = Input(wait: bool, dataReady: bool, data: int, c0: Channel, c1: Channel) {
    predicate Valid() { 0 <= c0.burst < 256 && 0 <= c1.burst < 256 }
  }

  datatype Regs = Regs(
    read: bool, addr: int, burst: int,
    ack0: bool, ack1: bool, ready0: bool, ready1: bool, q0: int, q1: int,
    busy: bool, ch: bool, bcnt: int)

  predicate Grants0(r: Regs, i: Input) { !i.wait && !r.busy && i.c0.req != r.ack0 }
  predicate Grants1(r: Regs, i: Input) { !i.wait && !r.busy && i.c0.req == r.ack0 && i.c1.req != r.ack1 }

  /** A data beat is taken only while the port does not wait. */
  predicate Takes(r: Regs, i: Input) { !i.wait && r.busy && i.dataReady }

  function Granted0(s: Regs, c: Channel): Regs {
    s.(ack0 := c.req, addr := c.addr, burst := c.burst, read := true, ch := false, bcnt := 255, busy := true)
  }

  function Granted1(s: Regs, c: Channel): Regs {
    s.(ack1 := c.req, addr := c.addr, burst := c.burst, read := true, ch := true, bcnt := 255, busy := true)
  }

  function Taken(s: Regs, data: int): Regs {
    var t := s.(bcnt := (s.bcnt + 1) % 256, busy := (s.bcnt + 2) % 256 != s.burst);
    if s.ch then t.(q1 := data, ready1 := true) else t.(q0 := data, ready0 := true)
  }

  function Next(r: Regs, i: Input): Regs {
    var quiet := r.(ready0 := false, ready1 := false);
    if i.wait then quiet
    else
      var s := quiet.(read := false);
      if Grants0(r, i) then Granted0(s, i.c0)
      else if Grants1(r, i) then Granted1(s, i.c1)
      else if Takes(r, i) then Taken(s, i.data)
      else s
  }

  class DdrSvc {
    var read: bool
    var addr: int
    var burst: int
    var ack0: bool
    var ack1: bool
    var ready0: bool
    var ready1: bool
    var q0: int
    var q1: int
    var busy: bool
    var ch: bool
    var bcnt: int

    ghost function Value(): Regs
      reads this
    {
      Regs(read, addr, burst, ack0, ack1, ready0, ready1, q0, q1, busy, ch, bcnt)
    }

    constructor (r: Regs)
      ensures Value() == r.(ack0 := false, ack1 := false, busy := false, ch := false)
    {
      read, addr, burst, ack0, ack1 := r.read, r.addr, r.burst, false, false;
      ready0, ready1, q0, q1 := r.ready0, r.ready1, r.q0, r.q1;
      busy, ch, bcnt := false, false, r.bcnt;
    }

    method Serve0(c: Channel)
      modifies this
      ensures Value() == Granted0(old(Value()), c)
    {
      ack0 := c.req;
      addr, burst := c.addr, c.burst;
      read, ch, bcnt, busy := true, false, 255, true;
    }

    method Serve1(c: Channel)
      modifies this
      ensures Value() == Granted1(old(Value()), c)
    {
      ack1 := c.req;
      addr, burst := c.addr, c.burst;
      read, ch, bcnt, busy := true, true, 255, true;
    }

    method Take(data: int)
      requires busy
      modifies this
      ensures Value() == Taken(old(Value()), data)
    {
      if (bcnt + 2) % 256 == burst { busy := false; }
      bcnt := (bcnt + 1) % 256;
      if ch {
        q1, ready1 := data, true;
      } else {
        q0, ready0 := data, true;
      }
    }

    method Clock(i: Input)
      modifies this
      ensures Value() == Next(old(Value()), i)
    {
      hide Granted0, Granted1, Taken;
      ready0, ready1 := false, false;
      if !i.wait {
        read := false;
        if !busy {
          if i.c0.req != ack0 {
            Serve0(i.c0);
          } else if i.c1.req != ack1 {
            Serve1(i.c1);
          }
        } else if i.dataReady {
          Take(i.data);
        }
      }
    }
  }

  function Run(r: Regs, ins: seq<Input>): Regs
    decreases |ins|
  {
    if ins == [] then r else Next(Run(r, ins[..|ins| - 1]), ins[|ins| - 1])
  }

  // ---- Accounting ----

  /** Beats a burst count asks for: zero means 256. */
  function Beats(burst: int): int { if burst == 0 then 256 else burst }

  /** Ready pulses seen and beats granted, per channel. */
  datatype Ledger = Ledger(pulses0: int, pulses1: int, granted0: int, granted1: int)

  function Record(l: Ledger, r: Regs, i: Input): Ledger {
    var n := Next(r, i);
    Ledger(
      l.pulses0 + (if n.ready0 then 1 else 0),
      l.pulses1 + (if n.ready1 then 1 else 0),
      l.granted0 + (if Grants0(r, i) then Beats(i.c0.burst) else 0),
      l.granted1 + (if Grants1(r, i) then Beats(i.c1.burst) else 0))
  }

  function LedgerRun(l: Ledger, r: Regs, ins: seq<Input>): Ledger
    decreases |ins|
  {
    if ins == [] then l
    else Record(LedgerRun(l, r, ins[..|ins| - 1]), Run(r, ins[..|ins| - 1]), ins[|ins| - 1])
  }

  /** Beats still owed to the channel being served. */
  function Remaining(r: Regs): int { Beats(r.burst) - (r.bcnt + 1) % 256 }

  /** Every granted beat has been pulsed or is still owed, each on its own
      channel. */
  ghost predicate Balanced(l: Ledger, r: Regs) {
    && (r.busy ==> 0 <= r.burst < 256 && 0 <= r.bcnt < 256 && 0 < Remaining(r))
    && l.pulses0 + (if r.busy && !r.ch then Remaining(r) else 0) == l.granted0
    && l.pulses1 + (if r.busy && r.ch then Remaining(r) else 0) == l.granted1
  }

  lemma StepBalances(l: Ledger, r: Regs, i: Input)
    requires Balanced(l, r) && i.Valid()
    ensures Balanced(Record(l, r, i), Next(r, i))
    ensures Takes(r, i) && Next(r, i).busy ==> Remaining(Next(r, i)) == Remaining(r) - 1
    ensures Takes(r, i) ==> (Next(r, i).busy <==> Remaining(r) > 1)
  {
    if Takes(r, i) {
      BeatBalances(l, r, i);
    } else {
      QuietBalances(l, r, i);
    }
  }

  lemma BeatBalances(l: Ledger, r: Regs, i: Input)
    requires Balanced(l, r) && Takes(r, i)
    ensures Balanced(Record(l, r, i), Next(r, i))
    ensures Next(r, i).busy ==> Remaining(Next(r, i)) == Remaining(r) - 1
    ensures Next(r, i).busy <==> Remaining(r) > 1
  {
    CountBeat(r.bcnt, r.burst);
  }

  lemma QuietBalances(l: Ledger, r: Regs, i: Input)
    requires Balanced(l, r) && i.Valid() && !Takes(r, i)
    ensures Balanced(Record(l, r, i), Next(r, i))
  {
  }

  /** The eight-bit beat counter starts at FF and is compared two ahead; both
      wrap, so the burst ends after exactly `Beats` beats, 256 included. */
  lemma CountBeat(bcnt: int, burst: int)
    requires 0 <= bcnt < 256 && 0 <= burst < 256 && 0 < Beats(burst) - (bcnt + 1) % 256
    ensures (bcnt + 2) % 256 == burst <==> Beats(burst) - (bcnt + 1) % 256 == 1
    ensures (bcnt + 2) % 256 != burst ==> ((bcnt + 1) % 256 + 1) % 256 == (bcnt + 1) % 256 + 1
  {
  }

  /** Conservation over every run of requests, waits and data: each channel has
      received exactly the beats granted to it, less what is owed to the one in
      service; when the port is idle nothing is owed. */
  lemma {:induction false} ServiceBalances(l: Ledger, r: Regs, ins: seq<Input>)
    requires Balanced(l, r) && forall k | 0 <= k < |ins| :: ins[k].Valid()
    ensures Balanced(LedgerRun(l, r, ins), Run(r, ins))
    ensures !Run(r, ins).busy ==>
              LedgerRun(l, r, ins).pulses0 == LedgerRun(l, r, ins).granted0 &&
              LedgerRun(l, r, ins).pulses1 == LedgerRun(l, r, ins).granted1
    decreases |ins|
  {
    if ins != [] {
      var front := ins[..|ins| - 1];
      ServiceBalances(l, r, front);
      StepBalances(LedgerRun(l, r, front), Run(r, front), ins[|ins| - 1]);
    }
  }

  /** A toggled request finds an idle, unstalled port: it is granted at once,
      channel 0 first, acknowledged by its own level, and owed its full burst. */
  lemma ToggleIsGranted(r: Regs, i: Input)
    requires !r.busy && !i.wait && i.Valid()
    requires i.c0.req != r.ack0 || i.c1.req != r.ack1
    ensures var n, c := Next(r, i), if i.c0.req != r.ack0 then i.c0 else i.c1;
            && n.busy && n.read && n.addr == c.addr && n.ch == (i.c0.req == r.ack0)
            && Remaining(n) == Beats(c.burst)
            && (if n.ch then n.ack1 == i.c1.req && n.ack0 == r.ack0 else n.ack0 == i.c0.req && n.ack1 == r.ack1)
  {
  }

  // ---- Commands ----

  /** Commands the memory has taken and requests granted, with the last grant. */
  datatype Commands = Commands(taken: int, granted: int, last: Channel, ch: bool)

  function Grant(c: Commands, r: Regs, i: Input): Commands {
    if Grants0(r, i) then c.(granted := c.granted + 1, last := i.c0, ch := false)
    else if Grants1(r, i) then c.(granted := c.granted + 1, last := i.c1, ch := true)
    else c
  }

  /** The memory takes a command in a clock in which it does not wait. */
  function CommandNext(c: Commands, r: Regs, i: Input): Commands {
    Grant(c.(taken := c.taken + (if r.read && !i.wait then 1 else 0)), r, i)
  }

  function CommandRun(c: Commands, r: Regs, ins: seq<Input>): Commands
    decreases |ins|
  {
    if ins == [] then c
    else
      var front := ins[..|ins| - 1];
      CommandNext(CommandRun(c, r, front), Run(r, front), ins[|ins| - 1])
  }

  /** Every grant is one command, taken or still waiting; and while a channel is
      served the port carries the command granted to it. */
  ghost predicate OneCommandEach(c: Commands, r: Regs) {
    && c.taken + (if r.read then 1 else 0) == c.granted
    && (r.read ==> r.busy)
    && (r.busy ==> r.addr == c.last.addr && r.burst == c.last.burst && r.ch == c.ch)
  }

  /** Over every run each granted request becomes exactly one burst command at
      the memory: it stays on the port, unchanged, while the memory waits, and is
      withdrawn when it has been taken. */
  lemma {:induction false} CommandsMatchGrants(c: Commands, r: Regs, ins: seq<Input>)
    requires OneCommandEach(c, r)
    ensures OneCommandEach(CommandRun(c, r, ins), Run(r, ins))
    decreases |ins|
  {
    if ins != [] {
      var front := ins[..|ins| - 1];
      CommandsMatchGrants(c, r, front);
      CommandStep(CommandRun(c, r, front), Run(r, front), ins[|ins| - 1]);
      hide OneCommandEach, CommandNext, Next;
    }
  }

  lemma CommandStep(c: Commands, r: Regs, i: Input)
    requires OneCommandEach(c, r)
    ensures OneCommandEach(CommandNext(c, r, i), Next(r, i))
  {
  }

  /** A waiting command is still there, the same, after any number of waits, and
      gone one clock after the memory takes it. */
  lemma {:induction false} CommandWaits(r: Regs, waits: seq<Input>, i: Input)
    requires r.read && r.busy && (forall k | 0 <= k < |waits| :: waits[k].wait) && !i.wait
    ensures var s := Run(r, waits); s.read && s.addr == r.addr && s.burst == r.burst && s.ch == r.ch && s.busy
    ensures !Next(Run(r, waits), i).read
    decreases |waits|
  {
    if waits != [] {
      CommandWaits(r, waits[..|waits| - 1], i);
    }
  }

  /** What a clock leaves alone: a channel's data until its next pulse, and the
      acknowledges and the command until the next grant. */
  lemma RestKept(r: Regs, i: Input)
    ensures !Next(r, i).ready0 ==> Next(r, i).q0 == r.q0
    ensures !Next(r, i).ready1 ==> Next(r, i).q1 == r.q1
    ensures !Grants0(r, i) ==> Next(r, i).ack0 == r.ack0
    ensures !Grants1(r, i) ==> Next(r, i).ack1 == r.ack1
    ensures !Grants0(r, i) && !Grants1(r, i) ==>
              Next(r, i).addr == r.addr && Next(r, i).burst == r.burst && Next(r, i).ch == r.ch
  {
  }

  /** Every pulse delivers the beat that came with it, and never two at once. */
  lemma PulseCarriesData(r: Regs, i: Input)
    ensures Next(r, i).ready0 || Next(r, i).ready1 <==> Takes(r, i)
    ensures !(Next(r, i).ready0 && Next(r, i).ready1)
    ensures Next(r, i).ready0 ==> !r.ch && Next(r, i).q0 == i.data && Next(r, i).q1 == r.q1
    ensures Next(r, i).ready1 ==> r.ch && Next(r, i).q1 == i.data && Next(r, i).q0 == r.q0
  {
  }

  /** Data beats in a trace, and those that met a waiting port. */
  function Arrivals(ins: seq<Input>): nat
    decreases |ins|
  {
    if ins == [] then 0 else Arrivals(ins[..|ins| - 1]) + (if ins[|ins| - 1].dataReady then 1 else 0)
  }

  function Lost(ins: seq<Input>): nat
    decreases |ins|
  {
    if ins == [] then 0
    else Lost(ins[..|ins| - 1]) + (if ins[|ins| - 1].dataReady && ins[|ins| - 1].wait then 1 else 0)
  }

  lemma {:induction false} LostBounded(ins: seq<Input>)
    ensures Lost(ins) <= Arrivals(ins)
    decreases |ins|
  {
    if ins != [] {
      LostBounded(ins[..|ins| - 1]);
    }
  }

  /** While fewer beats have been taken than owed, service goes on. */
  lemma {:induction false} ServiceProgress(l: Ledger, r: Regs, ins: seq<Input>)
    requires Balanced(l, r) && r.busy && forall k | 0 <= k < |ins| :: ins[k].Valid()
    requires Arrivals(ins) - Lost(ins) < Remaining(r)
    ensures Run(r, ins).busy && Run(r, ins).ch == r.ch
    ensures Remaining(Run(r, ins)) == Remaining(r) - (Arrivals(ins) - Lost(ins))
    ensures Run(r, ins).ack0 == r.ack0 && Run(r, ins).ack1 == r.ack1
    decreases |ins|
  {
    if ins != [] {
      var front := ins[..|ins| - 1];
      LostBounded(front);
      ServiceProgress(l, r, front);
      ServiceBalances(l, r, front);
      StepBalances(LedgerRun(l, r, front), Run(r, front), ins[|ins| - 1]);
    }
  }

  /** A memory that answers a grant with exactly the beats asked for, ending with
      the last of them, completes the service if and only if none of its beats
      arrives while waitrequest is high; otherwise the port stays busy, owing
      exactly the lost beats. */
  lemma ServiceCompletesIff(l: Ledger, r: Regs, ins: seq<Input>)
    requires Balanced(l, r) && r.busy && forall k | 0 <= k < |ins| :: ins[k].Valid()
    requires ins != [] && ins[|ins| - 1].dataReady && Arrivals(ins) == Remaining(r)
    ensures !Run(r, ins).busy <==> Lost(ins) == 0
    ensures Lost(ins) > 0 ==> Remaining(Run(r, ins)) == Lost(ins)
  {
    if Lost(ins) > 0 {
      LostBounded(ins);
      ServiceProgress(l, r, ins);
    } else {
      var front := ins[..|ins| - 1];
      ServiceProgress(l, r, front);
      ServiceBalances(l, r, front);
      StepBalances(LedgerRun(l, r, front), Run(r, front), ins[|ins| - 1]);
    }
  }
}
