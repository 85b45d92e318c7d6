/** f2sdram_safe_terminator: finishing, across a reset, a write burst that the
    user logic has left open on an Avalon-MM port ("Burst Transfers" in the
    Avalon Interface Specifications). */
module SafeTerminator {

  datatype Regs = Regs(
    initDeasserted: bool, lockStage: bool,
    stateWrite: bool, counter: int, latch: int, addrLatch: int,
    termCounter: int, bcLatch: int, adrLatch: int,
    terminating: bool, readTerm: bool, writeTerm: bool)

  /** Sampled at one clock edge: the reset request, the memory's waitrequest and
      the user's command signals. */
  datatype Input = Input(
    rst: bool, wait: bool,
    read: bool, write: bool, burstcount: int, address: int, byteenable: int)

  /** The port towards the memory. */
  datatype Output = Output(read: bool, write: bool, burstcount: int, address: int, byteenable: int)

  function Mux(r: Regs, i: Input): Output {
    if r.terminating
    then Output(r.readTerm, r.writeTerm, r.bcLatch, r.adrLatch, 0)
    else Output(i.read, i.write, i.burstcount, i.address, i.byteenable)
  }

  predicate NonBurstWrite(r: Regs, i: Input) { !r.stateWrite && i.write && i.burstcount == 1 && !i.wait }

  predicate BurstEnd(r: Regs, m: int)
    requires m > 0
  {
    r.stateWrite && r.counter == (r.latch - 1) % m
  }

  predicate NextStateWrite(r: Regs, i: Input, m: int)
    requires m > 0
  {
    if r.stateWrite then !BurstEnd(r, m) else i.write && !NonBurstWrite(r, i)
  }

  /** One clock; `m` is two to the power of BURSTCOUNT_WIDTH. */
  function Next(r: Regs, i: Input, m: int): Regs
    requires m > 0
  {
    var next := NextStateWrite(r, i, m);
    var starting, ongoing := !r.stateWrite && next, r.stateWrite && next;
    var capture := i.rst && r.initDeasserted && !r.lockStage;
    Regs(
      r.initDeasserted || !i.rst,
      i.rst && (r.initDeasserted || r.lockStage),
      next,
      if starting then (if i.wait then 0 else 1)
      else if r.stateWrite && !i.wait then (r.counter + 1) % m else r.counter,
      if starting then i.burstcount else r.latch,
      if starting then i.address else r.addrLatch,
      if r.writeTerm && !i.wait then (r.termCounter + 1) % m
      else if capture && ongoing then (if i.wait then r.counter else (r.counter + 1) % m)
      else if capture && starting then (if i.wait then 0 else 1)
      else r.termCounter,
      if capture then (if ongoing then r.latch else i.burstcount) else r.bcLatch,
      if capture then (if ongoing then r.addrLatch else i.address) else r.adrLatch,
      capture || (r.terminating && (i.rst || r.writeTerm)),
      if capture then r.readTerm || (!next && i.read && i.wait)
      else if i.rst then r.readTerm && !(r.initDeasserted && !i.wait)
      else false,
      if r.writeTerm && r.termCounter == (r.bcLatch - 1) % m then false
      else r.writeTerm || (capture && next))
  }

  class Terminator {
    const m: int
    var initDeasserted: bool
    var lockStage: bool
    var stateWrite: bool
    var counter: int
    var latch: int
    var addrLatch: int
    var termCounter: int
    var bcLatch: int
    var adrLatch: int
    var terminating: bool
    var readTerm: bool
    var writeTerm: bool

    function Value(): Regs
      reads this
    {
      Regs(initDeasserted, lockStage, stateWrite, counter, latch, addrLatch,
           termCounter, bcLatch, adrLatch, terminating, readTerm, writeTerm)
    }

    constructor (m: int)
      requires m > 0
      ensures this.m == m && Value() == PowerUp()
    {
      this.m := m;
      initDeasserted, lockStage, stateWrite := false, false, false;
      counter, latch, addrLatch, termCounter, bcLatch, adrLatch := 0, 0, 0, 0, 0, 0;
      terminating, readTerm, writeTerm := false, false, false;
    }

    /** Write burst observer. */
    method Observe(i: Input, next: bool)
      requires m > 0
      modifies this`counter, this`latch, this`addrLatch
      ensures counter == if !stateWrite && next then (if i.wait then 0 else 1)
                         else if stateWrite && !i.wait then (old(counter) + 1) % m else old(counter)
      ensures latch == if !stateWrite && next then i.burstcount else old(latch)
      ensures addrLatch == if !stateWrite && next then i.address else old(addrLatch)
    {
      if !stateWrite && next {
        counter := if i.wait then 0 else 1;
        latch := i.burstcount;
        addrLatch := i.address;
      } else if stateWrite && !i.wait {
        counter := (counter + 1) % m;
      }
    }

    /** Termination: the reset branch, then the running write. */
    method Terminate(i: Input, next: bool)
      requires m > 0 && next == NextStateWrite(Value(), i, m)
      modifies this`termCounter, this`bcLatch, this`adrLatch, this`terminating, this`readTerm, this`writeTerm
      ensures var t := Next(old(Value()), i, m);
              && termCounter == t.termCounter && bcLatch == t.bcLatch && adrLatch == t.adrLatch
              && terminating == t.terminating && readTerm == t.readTerm && writeTerm == t.writeTerm
    {
      var wasTerm, wasCount, wasBc := writeTerm, termCounter, bcLatch;
      if i.rst {
        if initDeasserted {
          if !lockStage {
            bcLatch := i.burstcount;
            adrLatch := i.address;
            terminating := true;
            if stateWrite && next {
              writeTerm := true;
              bcLatch := latch;
              adrLatch := addrLatch;
              termCounter := if i.wait then counter else (counter + 1) % m;
            } else if !stateWrite && next {
              if !NonBurstWrite(Value(), i) {
                writeTerm := true;
                termCounter := if i.wait then 0 else 1;
              }
            } else if i.read && i.wait {
              readTerm := true;
            }
          } else if !i.wait {
            readTerm := false;
          }
        }
      } else {
        if !wasTerm { terminating := false; }
        readTerm := false;
      }
      if wasTerm {
        if !i.wait { termCounter := (wasCount + 1) % m; }
        if wasCount == (wasBc - 1) % m { writeTerm := false; }
      }
    }

    /** All clocked blocks at one edge; the port is driven from the registers
        before it. */
    method Clock(i: Input) returns (o: Output)
      requires m > 0
      modifies this
      ensures o == Mux(old(Value()), i)
      ensures Value() == Next(old(Value()), i, m)
    {
      o := if terminating then Output(readTerm, writeTerm, bcLatch, adrLatch, 0)
           else Output(i.read, i.write, i.burstcount, i.address, i.byteenable);
      var next := NextStateWrite(Value(), i, m);
      var wasInit := initDeasserted;
      Terminate(i, next);
      Observe(i, next);
      stateWrite := next;
      if i.rst {
        if wasInit { lockStage := true; }
      } else {
        initDeasserted := true;
        lockStage := false;
      }
    }
  }

  function PowerUp(): Regs {
    Regs(false, false, false, 0, 0, 0, 0, 0, 0, false, false, false)
  }

  // ---- The memory's view and the user's obligations ----

  /** Beats the memory still expects for the burst it has begun, and the totals
      of accepted and announced beats. */
  datatype Memory = Memory(left: int, accepted: int, announced: int)

  predicate Accepts(o: Output, i: Input) { o.write && !i.wait }

  function MemoryNext(s: Memory, o: Output, i: Input): Memory {
    if !Accepts(o, i) then s
    else if s.left == 0 then Memory(o.burstcount - 1, s.accepted + 1, s.announced + o.burstcount)
    else Memory(s.left - 1, s.accepted + 1, s.announced)
  }

  /** An Avalon master that holds write through a burst, keeps a waiting command
      stable, and is silent while the port is being terminated. */
  predicate UserHolds(r: Regs, i: Input, m: int) {
    && (r.terminating ==> !i.write)
    && (!r.terminating && r.stateWrite ==>
          i.write && (r.counter == 0 ==> i.burstcount == r.latch && i.address == r.addrLatch))
    && (!r.stateWrite && i.write ==> 1 <= i.burstcount < m)
  }

  /** The last beat of an open burst meets waitrequest. */
  predicate StalledLastBeat(r: Regs, i: Input) {
    r.stateWrite && 0 < r.counter == r.latch - 1 && i.wait
  }

  /** Conservation: the observer knows how far the memory is into its burst, and
      while terminating the two counters run in lockstep. */
  ghost predicate Conserves(r: Regs, s: Memory, m: int) {
    && (r.stateWrite ==> 0 <= r.counter < r.latch < m)
    && s.left == (if r.stateWrite && r.counter > 0 then r.latch - r.counter else 0)
    && s.accepted + s.left == s.announced
    && (r.writeTerm ==> r.terminating)
    && (r.terminating ==> (r.writeTerm <==> r.stateWrite))
    && (r.writeTerm ==> r.termCounter == r.counter && r.bcLatch == r.latch && r.adrLatch == r.addrLatch)
  }

  /** One clock keeps conservation exactly when it does not stall the last beat:
      neither the observer nor the terminator tests waitrequest there. */
  lemma StepConservesIff(r: Regs, s: Memory, i: Input, m: int)
    requires m >= 2 && Conserves(r, s, m) && UserHolds(r, i, m)
    ensures Conserves(Next(r, i, m), MemoryNext(s, Mux(r, i), i), m) <==> !StalledLastBeat(r, i)
  {
    if r.stateWrite {
      SmallMod(r.latch - 1, m);
      SmallMod(r.counter + 1, m);
    }
  }

  lemma SmallMod(x: int, m: int)
    requires 0 <= x < m
    ensures x % m == x
  {
  }

  function Run(r: Regs, ins: seq<Input>, m: int): Regs
    requires m > 0
    decreases |ins|
  {
    if ins == [] then r else Next(Run(r, ins[..|ins| - 1], m), ins[|ins| - 1], m)
  }

  function MemoryRun(r: Regs, s: Memory, ins: seq<Input>, m: int): Memory
    requires m > 0
    decreases |ins|
  {
    if ins == [] then s
    else
      var front, last := ins[..|ins| - 1], ins[|ins| - 1];
      MemoryNext(MemoryRun(r, s, front, m), Mux(Run(r, front, m), last), last)
  }

  /** A run in which the user keeps its obligations and no last beat stalls. */
  ghost predicate Fair(r: Regs, ins: seq<Input>, m: int)
    requires m > 0
  {
    forall k | 0 <= k < |ins| ::
      UserHolds(Run(r, ins[..k], m), ins[k], m) && !StalledLastBeat(Run(r, ins[..k], m), ins[k])
  }

  lemma FairPrefix(r: Regs, ins: seq<Input>, m: int)
    requires m > 0 && ins != [] && Fair(r, ins, m)
    ensures Fair(r, ins[..|ins| - 1], m)
    ensures UserHolds(Run(r, ins[..|ins| - 1], m), ins[|ins| - 1], m)
    ensures !StalledLastBeat(Run(r, ins[..|ins| - 1], m), ins[|ins| - 1])
  {
    var front := ins[..|ins| - 1];
    forall k | 0 <= k < |front|
      ensures UserHolds(Run(r, front[..k], m), front[k], m) && !StalledLastBeat(Run(r, front[..k], m), front[k])
    {
      assert front[..k] == ins[..k];
    }
  }

  /** Conservation over every run: resets may come, go and come again at any
      clock, in any number. */
  lemma {:induction false} RunConserves(r: Regs, s: Memory, ins: seq<Input>, m: int)
    requires m >= 2 && Conserves(r, s, m) && Fair(r, ins, m)
    ensures Conserves(Run(r, ins, m), MemoryRun(r, s, ins, m), m)
    decreases |ins|
  {
    if ins != [] {
      var front, last := ins[..|ins| - 1], ins[|ins| - 1];
      FairPrefix(r, ins, m);
      RunConserves(r, s, front, m);
      StepConservesIff(Run(r, front, m), MemoryRun(r, s, front, m), last, m);
    }
  }

  /** The module's promise, from power-up on: whenever the port is handed back to
      the user, or is being terminated with nothing left to write, the memory is
      not inside a burst, and every announced beat has been accepted. */
  lemma PortIsReturnedWhole(ins: seq<Input>, m: int)
    requires m >= 2 && Fair(PowerUp(), ins, m)
    ensures var r, s := Run(PowerUp(), ins, m), MemoryRun(PowerUp(), Memory(0, 0, 0), ins, m);
            && (r.terminating && !r.writeTerm ==> s.left == 0 && s.accepted == s.announced)
            && (forall i: Input :: r.terminating && !Next(r, i, m).terminating ==> s.left == 0)
  {
    RunConserves(PowerUp(), Memory(0, 0, 0), ins, m);
  }

  /** A burst is opened at the memory only by its own first beat, carrying the
      burst count and address the user gave it; beats sent while terminating
      never write a byte. */
  lemma BeatsBelongToTheirBurst(r: Regs, s: Memory, i: Input, m: int)
    requires m >= 2 && Conserves(r, s, m) && UserHolds(r, i, m) && Accepts(Mux(r, i), i)
    ensures s.left == 0 <==> !r.stateWrite || r.counter == 0
    ensures s.left == 0 && r.stateWrite ==> Mux(r, i).burstcount == r.latch && Mux(r, i).address == r.addrLatch
    ensures s.left == 0 && !r.stateWrite ==> Mux(r, i).burstcount == i.burstcount && Mux(r, i).address == i.address
    ensures r.terminating ==> Mux(r, i).byteenable == 0
  {
  }

  // ---- Transparency, and what is stored ----

  /** The user's signals as the module receives them. */
  function UserPort(i: Input): Output { Output(i.read, i.write, i.burstcount, i.address, i.byteenable) }

  /** Reset may be on at first; once off it stays off. */
  predicate NoReset(ins: seq<Input>) {
    forall j, k | 0 <= j < k < |ins| :: ins[k].rst ==> ins[j].rst
  }

  /** Without a reset after the first deassertion the module is a wire: on every
      clock of every run from power-up the memory sees the user's own command. */
  lemma {:induction false} Transparent(ins: seq<Input>, i: Input, m: int)
    requires m > 0 && NoReset(ins + [i])
    ensures var r := Run(PowerUp(), ins, m);
            && Mux(r, i) == UserPort(i)
            && !r.terminating && !r.writeTerm && !r.readTerm && !r.lockStage
            && (r.initDeasserted <==> exists k :: 0 <= k < |ins| && !ins[k].rst)
    decreases |ins|
  {
    if ins != [] {
      var front, last := ins[..|ins| - 1], ins[|ins| - 1];
      assert ins + [i] == front + [last, i];
      assert NoReset(front + [last]) by {
        forall j, k | 0 <= j < k < |front + [last]|
          ensures (front + [last])[k].rst ==> (front + [last])[j].rst
        {
          assert (front + [last])[k] == (ins + [i])[k] && (front + [last])[j] == (ins + [i])[j];
        }
      }
      Transparent(front, last, m);
      assert forall k | 0 <= k < |front| :: ins[k] == (ins + [i])[k];
      assert ins == front + [last];
    }
  }

  /** The port goes back to the user in the first clock without reset in which
      nothing is left to write, and stays with him until the next reset. */
  lemma {:induction false} HandsBack(r: Regs, i: Input, after: seq<Input>, j: Input, m: int)
    requires m > 0 && r.terminating
    requires (forall k | 0 <= k < |after| :: !after[k].rst) && !j.rst
    ensures Next(r, i, m).terminating <==> i.rst || r.writeTerm
    ensures !Next(r, i, m).terminating ==>
              !Run(Next(r, i, m), after, m).terminating && Mux(Run(Next(r, i, m), after, m), j) == UserPort(j)
    decreases |after|
  {
    if after != [] {
      HandsBack(r, i, after[..|after| - 1], j, m);
    }
  }

  /** A stored beat: where it goes and which bytes it writes. */
  datatype Stored = Stored(address: int, byteenable: int)

  /** What a memory makes of the beats at its port: the burst it is in, and the
      beats that write at least one byte, in order. */
  datatype Log = Log(start: int, count: int, left: int, stored: seq<Stored>)

  function Accept(l: Log, o: Output): Log {
    var first := l.left == 0;
    var address := if first then o.address else l.start + (l.count - l.left);
    Log(if first then o.address else l.start, if first then o.burstcount else l.count,
        if first then o.burstcount - 1 else l.left - 1,
        if o.byteenable != 0 then l.stored + [Stored(address, o.byteenable)] else l.stored)
  }

  /** The memory behind the module. */
  function LogNext(l: Log, o: Output, i: Input): Log {
    if Accepts(o, i) then Accept(l, o) else l
  }

  function LogRun(ins: seq<Input>, m: int): Log
    requires m > 0
    decreases |ins|
  {
    if ins == [] then Log(0, 0, 0, [])
    else
      var front, last := ins[..|ins| - 1], ins[|ins| - 1];
      LogNext(LogRun(front, m), Mux(Run(PowerUp(), front, m), last), last)
  }

  /** A memory wired to the user directly, that forgets an open burst while the
      module is terminating and then takes nothing. */
  function UserLogNext(u: Log, terminating: bool, i: Input): Log {
    if terminating then u.(left := 0) else LogNext(u, UserPort(i), i)
  }

  function UserLogRun(ins: seq<Input>, m: int): Log
    requires m > 0
    decreases |ins|
  {
    if ins == [] then Log(0, 0, 0, [])
    else
      var front, last := ins[..|ins| - 1], ins[|ins| - 1];
      UserLogNext(UserLogRun(front, m), Run(PowerUp(), front, m).terminating, last)
  }

  /** Both have stored the same, and outside termination both are at the same
      place of the same burst. */
  ghost predicate LogsAgree(terminating: bool, l: Log, u: Log) {
    && l.stored == u.stored
    && (!terminating ==> l.left == u.left && (l.left > 0 ==> l.start == u.start && l.count == u.count))
  }

  lemma LogStep(r: Regs, s: Memory, l: Log, u: Log, i: Input, m: int)
    requires m >= 2 && Conserves(r, s, m) && UserHolds(r, i, m)
    requires LogsAgree(r.terminating, l, u) && l.left == s.left
    ensures LogsAgree(Next(r, i, m).terminating, LogNext(l, Mux(r, i), i), UserLogNext(u, r.terminating, i))
    ensures LogNext(l, Mux(r, i), i).left == MemoryNext(s, Mux(r, i), i).left
  {
    if r.terminating && !Next(r, i, m).terminating {
      assert !r.writeTerm;
    }
    hide Next, NextStateWrite;
  }

  /** What reaches the memory, over every fair run with any number of resets: the
      bytes written there, with their addresses and in order, are exactly those of
      the beats the user had accepted outside termination. */
  lemma {:induction false} StoresAreTheUsers(ins: seq<Input>, m: int)
    requires m >= 2 && Fair(PowerUp(), ins, m)
    ensures LogRun(ins, m).stored == UserLogRun(ins, m).stored
    ensures LogsAgree(Run(PowerUp(), ins, m).terminating, LogRun(ins, m), UserLogRun(ins, m))
    ensures LogRun(ins, m).left == MemoryRun(PowerUp(), Memory(0, 0, 0), ins, m).left
    decreases |ins|
  {
    if ins != [] {
      hide Next, Mux, LogNext, UserLogNext, MemoryNext, Conserves, UserHolds, LogsAgree, StalledLastBeat;
      var front, last := ins[..|ins| - 1], ins[|ins| - 1];
      FairPrefix(PowerUp(), ins, m);
      StoresAreTheUsers(front, m);
      StartConserves(m);
      RunConserves(PowerUp(), Memory(0, 0, 0), front, m);
      var r, s := Run(PowerUp(), front, m), MemoryRun(PowerUp(), Memory(0, 0, 0), front, m);
      LogStep(r, s, LogRun(front, m), UserLogRun(front, m), last, m);
      SameStores(Next(r, last, m).terminating, LogRun(ins, m), UserLogRun(ins, m));
    } else {
      hide Next;
    }
  }

  lemma StartConserves(m: int)
    requires m >= 2
    ensures Conserves(PowerUp(), Memory(0, 0, 0), m)
  {
  }

  lemma SameStores(terminating: bool, l: Log, u: Log)
    requires LogsAgree(terminating, l, u)
    ensures l.stored == u.stored
  {
  }

  /** Clocks without waitrequest. */
  function Grants(ins: seq<Input>): nat
    decreases |ins|
  {
    if ins == [] then 0 else Grants(ins[..|ins| - 1]) + (if ins[|ins| - 1].wait then 0 else 1)
  }

  /** Progress while terminating, for any waits and any further resets: exactly
      the missing beats are written, one per granted clock, and then the write
      stops; the port is not given back before. */
  lemma {:induction false} TerminationDrains(r: Regs, s: Memory, ins: seq<Input>, m: int)
    requires m >= 2 && Conserves(r, s, m) && Fair(r, ins, m)
    requires r.writeTerm && (r.counter > 0 || r.latch > 1)
    requires ins == [] || Grants(ins[..|ins| - 1]) < r.latch - r.counter
    ensures var t, u := Run(r, ins, m), MemoryRun(r, s, ins, m);
            && u.accepted == s.accepted + Grants(ins)
            && (t.writeTerm <==> Grants(ins) < r.latch - r.counter)
            && (t.writeTerm ==> t.terminating && t.counter == r.counter + Grants(ins)
                                && t.latch == r.latch && t.addrLatch == r.addrLatch)
    decreases |ins|
  {
    if ins != [] {
      var front, last := ins[..|ins| - 1], ins[|ins| - 1];
      FairPrefix(r, ins, m);
      TerminationDrains(r, s, front, m);
      RunConserves(r, s, front, m);
      DrainStep(Run(r, front, m), MemoryRun(r, s, front, m), last, m);
    }
  }

  lemma DrainStep(r: Regs, s: Memory, i: Input, m: int)
    requires m >= 2 && Conserves(r, s, m) && UserHolds(r, i, m) && !StalledLastBeat(r, i)
    requires r.writeTerm ==> r.counter > 0 || r.latch > 1
    ensures var t, u := Next(r, i, m), MemoryNext(s, Mux(r, i), i);
            && (r.writeTerm ==> u.accepted == s.accepted + (if i.wait then 0 else 1))
            && (r.writeTerm ==> (t.writeTerm <==> r.counter + (if i.wait then 0 else 1) < r.latch))
            && (r.writeTerm && t.writeTerm ==> t.terminating && t.latch == r.latch && t.addrLatch == r.addrLatch
                                               && t.counter == r.counter + (if i.wait then 0 else 1))
  {
    if r.stateWrite {
      SmallMod(r.latch - 1, m);
      SmallMod(r.counter + 1, m);
    }
  }

  // ---- Reads ----

  /** The port repeats a read command that waited when the reset came. */
  ghost predicate HoldsRead(r: Regs, burstcount: int, address: int) {
    && r.terminating && r.readTerm && r.lockStage && r.initDeasserted
    && !r.writeTerm && !r.stateWrite
    && r.bcLatch == burstcount && r.adrLatch == address
  }

  /** A waiting read command survives one clock unchanged exactly if the reset
      is still on; once granted it is not repeated. */
  lemma ReadHeldIff(r: Regs, i: Input, m: int, burstcount: int, address: int)
    requires m > 0 && HoldsRead(r, burstcount, address) && !i.write
    ensures Mux(r, i) == Output(true, false, burstcount, address, 0)
    ensures i.wait ==> (HoldsRead(Next(r, i, m), burstcount, address) <==> i.rst)
    ensures !i.wait ==> !Next(r, i, m).readTerm
  {
  }

  /** From the clock in which the reset meets a waiting read command, the same
      command stays on the port for as long as memory waits and reset lasts. */
  lemma {:induction false} WaitingReadIsHeld(r: Regs, start: Input, ins: seq<Input>, m: int)
    requires m > 0 && r.initDeasserted && !r.lockStage && !r.stateWrite && !r.writeTerm
    requires start.rst && start.read && start.wait && !start.write
    requires forall k | 0 <= k < |ins| :: ins[k].rst && ins[k].wait && !ins[k].write
    ensures HoldsRead(Run(Next(r, start, m), ins, m), start.burstcount, start.address)
    decreases |ins|
  {
    if ins != [] {
      var front := ins[..|ins| - 1];
      WaitingReadIsHeld(r, start, front, m);
      ReadHeldIff(Run(Next(r, start, m), front, m), ins[|ins| - 1], m, start.burstcount, start.address);
    }
  }

  /** Out of reset, the first of two beats is accepted, and the reset comes
      while the memory stalls the second. */
  function StrandedRun(): seq<Input> {
    [Input(false, false, false, false, 0, 0, 0),
     Input(false, false, false, true, 2, 0, 255),
     Input(true, true, false, true, 2, 0, 255)]
  }

  /** What the unchecked waitrequest costs: a reset during a stalled last beat
      drops the write, and the memory is left one beat short for as long as the
      reset lasts. */
  lemma {:induction false} StalledLastBeatStrands(ins: seq<Input>, m: int)
    requires m >= 3
    requires forall k | 0 <= k < |ins| :: ins[k].rst && !ins[k].write
    ensures var r := Run(PowerUp(), StrandedRun(), m);
            var s := MemoryRun(PowerUp(), Memory(0, 0, 0), StrandedRun(), m);
            && MemoryRun(r, s, ins, m).left == 1
            && Run(r, ins, m).terminating && !Run(r, ins, m).writeTerm && !Run(r, ins, m).stateWrite
            && Run(r, ins, m).lockStage && Run(r, ins, m).initDeasserted
    decreases |ins|
  {
    if ins == [] {
      var all := StrandedRun();
      assert all[..2][..1][..0] == [] && all[..2][..1] == all[..1] && all[..1][..0] == [];
      SmallMod(1, m);
      var r1 := Next(PowerUp(), all[0], m);
      assert Run(PowerUp(), all[..1], m) == r1;
      assert MemoryRun(PowerUp(), Memory(0, 0, 0), all[..1], m) == Memory(0, 0, 0);
      var r2 := Next(r1, all[1], m);
      assert Run(PowerUp(), all[..2], m) == r2;
      assert MemoryRun(PowerUp(), Memory(0, 0, 0), all[..2], m) == Memory(1, 1, 2);
      assert Run(PowerUp(), all, m) == Next(r2, all[2], m);
    } else {
      StalledLastBeatStrands(ins[..|ins| - 1], m);
    }
  }
}
