/** The address walk of screen_rotate in arcade_video.v: incremental addresses
    that write a picture turned into a frame buffer, read from the registers of
    the size measurement that the same video signals keep changing. */
module ScreenRotate {
  import opened Arithmetic
  import opened VideoMeter

  lemma RoundedUp(n: nat)
    ensures 4 * n <= 16 * ((n + 3) / 4)
    ensures 16 * ((n + 3) / 4) == 4 * n <==> n % 4 == 0
  {
  }

  datatype Walk = Walk(nextAddr: int, hcnt: int, oldVs: bool, oldDe: bool)

  /** What the walk reads of the measurement. */
  datatype Wires = Wires(vsz: int, bufsize: int, stride: int)

  function WiresOf(s: Sizes): Wires { Wires(s.vsz, s.bufsize, Stride(s.bwidth)) }
  function TrueWires(p: Picture): Wires { Wires(p.vsz, p.BufSize(), p.Stride()) }

  function WalkStep(g: Wires, flip: bool, ccw: bool, w: Walk, i: Input): Walk {
    var sync, end := !w.oldVs && i.vs, w.oldDe && !i.de && !flip;
    Walk(
      if end then (if ccw then (g.bufsize - g.stride + w.hcnt) % ADDRESSES else w.hcnt)
      else if i.de then
        (if flip then (w.nextAddr - 4) % ADDRESSES
         else if ccw then (w.nextAddr - g.stride) % ADDRESSES
         else (w.nextAddr + g.stride) % ADDRESSES)
      else if sync then
        (if flip then (g.bufsize - 4) % ADDRESSES
         else if ccw then (g.bufsize - g.stride) % ADDRESSES
         else (g.vsz - 1) % 4096 * 4)
      else w.nextAddr,
      if end then (if ccw then (w.hcnt + 4) % 0x4000 else (w.hcnt - 4) % 0x4000)
      else if sync then (if ccw then 4 else (g.vsz - 2) % 4096 * 4)
      else w.hcnt,
      i.vs, i.de)
  }

  class AddressWalk {
    var nextAddr: int
    var hcnt: int
    var oldVs: bool
    var oldDe: bool
    var ramAddr: int

    ghost function Value(): Walk
      reads this
    {
      Walk(nextAddr, hcnt, oldVs, oldDe)
    }

    constructor (powerUp: Walk)
      ensures Value() == powerUp
    {
      nextAddr, hcnt, oldVs, oldDe := powerUp.nextAddr, powerUp.hcnt, powerUp.oldVs, powerUp.oldDe;
      ramAddr := 0;
    }

    method Clock(g: Wires, flip: bool, ccw: bool, i: Input) returns (write: bool)
      modifies this
      ensures Value() == WalkStep(g, flip, ccw, old(Value()), i)
      ensures write == i.de && (write ==> ramAddr == old(nextAddr))
    {
      var a, h, wasVs, wasDe := nextAddr, hcnt, oldVs, oldDe;
      write := false;
      if !wasVs && i.vs {
        nextAddr := if flip then (g.bufsize - 4) % ADDRESSES
                    else if ccw then (g.bufsize - g.stride) % ADDRESSES
                    else (g.vsz - 1) % 4096 * 4;
        hcnt := if ccw then 4 else (g.vsz - 2) % 4096 * 4;
      }
      if i.de {
        write := true;
        ramAddr := a;
        nextAddr := if flip then (a - 4) % ADDRESSES
                    else if ccw then (a - g.stride) % ADDRESSES
                    else (a + g.stride) % ADDRESSES;
      }
      if wasDe && !i.de && !flip {
        nextAddr := if ccw then (g.bufsize - g.stride + h) % ADDRESSES else h;
        hcnt := if ccw then (h + 4) % 0x4000 else (h - 4) % 0x4000;
      }
      oldVs := i.vs;
      oldDe := i.de;
    }
  }

  // ---- Both blocks on the same clock ----

  datatype Regs = Regs(meter: Meter, walk: Walk)

  /** The walk reads the measurement as it was before the edge, and stands still
      until the frame buffer is on. */
  function Next(mode: Mode, r: Regs, i: Input): Regs {
    Regs(
      MeterNext(r.meter, mode, i),
      if r.meter.FbOn() then WalkStep(WiresOf(r.meter.sizes), mode.DoFlip(), mode.ccw, r.walk, i) else r.walk)
  }

  class Rotator {
    const meter: SizeMeter
    const walk: AddressWalk

    ghost function Value(): Regs
      reads meter, walk
    {
      Regs(meter.Value(), walk.Value())
    }

    constructor (powerUp: Regs)
      ensures Value() == powerUp && fresh(meter) && fresh(walk)
    {
      meter := new SizeMeter(powerUp.meter);
      walk := new AddressWalk(powerUp.walk);
    }

    method Clock(mode: Mode, i: Input) returns (write: bool)
      modifies meter, walk
      ensures Value() == Next(mode, old(Value()), i)
      ensures write <==> old(meter.Value()).FbOn() && i.de
      ensures write ==> walk.ramAddr == old(walk.nextAddr)
    {
      write := false;
      var s := meter.Value();
      meter.Clock(mode, i);
      if s.FbOn() {
        write := walk.Clock(WiresOf(s.sizes), mode.DoFlip(), mode.ccw, i);
      }
    }
  }

  function Run(mode: Mode, r: Regs, ins: seq<Input>): Regs
    decreases |ins|
  {
    if ins == [] then r else Next(mode, Run(mode, r, ins[..|ins| - 1]), ins[|ins| - 1])
  }

  /** Addresses written, in order. */
  function Written(mode: Mode, r: Regs, ins: seq<Input>): seq<int>
    decreases |ins|
  {
    if ins == [] then []
    else
      var s := Run(mode, r, ins[..|ins| - 1]);
      Written(mode, r, ins[..|ins| - 1])
      + (if s.meter.FbOn() && ins[|ins| - 1].de then [s.walk.nextAddr] else [])
  }

  // ---- The walk over a measured picture ----

  function WalkNext(p: Picture, w: Walk, i: Input): Walk { WalkStep(TrueWires(p), p.flip, p.ccw, w, i) }

  function WalkRun(p: Picture, w: Walk, ins: seq<Input>): Walk
    decreases |ins|
  {
    if ins == [] then w else WalkNext(p, WalkRun(p, w, ins[..|ins| - 1]), ins[|ins| - 1])
  }

  function Writes(p: Picture, w: Walk, ins: seq<Input>): seq<int>
    decreases |ins|
  {
    if ins == [] then []
    else
      var front := ins[..|ins| - 1];
      Writes(p, w, front) + (if ins[|ins| - 1].de then [WalkRun(p, w, front).nextAddr] else [])
  }

  function TurnedAddress(p: Picture, row: int, col: int): int { row * p.Stride() + col }

  function FlippedAddress(p: Picture, x: int, y: int): int { p.BufSize() - 4 - 4 * (y * p.hsz + x) }

  /** Where pixel (x, y) belongs: its row and column in the turned picture. */
  function Address(p: Picture, x: int, y: int): int {
    if p.flip then FlippedAddress(p, x, y)
    else if p.ccw then TurnedAddress(p, p.hsz - 1 - x, 4 * y)
    else TurnedAddress(p, x, 4 * (p.vsz - 1 - y))
  }

  /** Every pixel gets an address inside the buffer, aligned to a pixel. */
  lemma AddressInBuffer(p: Picture, x: int, y: int)
    requires p.Legal() && p.Inside(x, y)
    ensures 0 <= Address(p, x, y) <= p.BufSize() - 4 && Address(p, x, y) % 4 == 0
  {
    hide FlippedAddress, TurnedAddress, Picture.BufSize, Picture.Stride;
    if p.flip {
      FlippedInBuffer(p, x, y);
    } else {
      TurnedInBuffer(p, if p.ccw then p.hsz - 1 - x else x, if p.ccw then y else p.vsz - 1 - y);
    }
  }

  lemma FlippedInBuffer(p: Picture, x: int, y: int)
    requires p.Legal() && p.Inside(x, y) && p.flip
    ensures 0 <= FlippedAddress(p, x, y) <= p.BufSize() - 4 && FlippedAddress(p, x, y) % 4 == 0
  {
    RoundedUp(p.hsz);
    FlipInBuffer(p.hsz, p.vsz, x, y, (p.hsz + 3) / 4);
  }

  lemma TurnedInBuffer(p: Picture, row: int, col: int)
    requires p.Legal() && !p.flip && 0 <= row < p.hsz && 0 <= col < p.vsz
    ensures 0 <= TurnedAddress(p, row, 4 * col) <= p.BufSize() - 4 && TurnedAddress(p, row, 4 * col) % 4 == 0
  {
    RoundedUp(p.vsz);
    TurnAlgebra(row, p.hsz, col, p.Stride(), (p.vsz + 3) / 4);
  }

  lemma FlipInBuffer(h: int, v: int, x: int, y: int, k: int)
    requires 0 <= x < h && 0 <= y < v && h <= 4 * k
    ensures 0 <= v * (16 * k) - 4 - 4 * (y * h + x) <= v * (16 * k) - 4
    ensures (v * (16 * k) - 4 - 4 * (y * h + x)) % 4 == 0
  {
    MulMonotone(0, y, h);
    MulMonotone(y, v - 1, h);
    MulMonotone(h, 4 * k, v);
    var t := v * (4 * k);
    assert v * (16 * k) == 4 * t;
    assert (v - 1) * h == v * h - h && h * v == v * h && 4 * k * v == t;
    QuotientUnique(4 * t - 4 - 4 * (y * h + x), 4, t - 1 - (y * h + x));
  }

  lemma TurnAlgebra(row: int, rows: int, col: int, s: int, k: int)
    requires 0 <= row < rows && 0 <= 4 * col <= s - 4 && s == 16 * k
    ensures 0 <= row * s + 4 * col <= rows * s - 4 && (row * s + 4 * col) % 4 == 0
  {
    MulMonotone(0, row, s);
    MulMonotone(row, rows - 1, s);
    assert (rows - 1) * s == rows * s - s;
    assert row * s == (4 * (row * k)) * 4;
    QuotientUnique(row * s + 4 * col, 4, 4 * (row * k) + col);
  }

  /** No two pixels share an address: the rotation is a bijection. */
  lemma AddressInjective(p: Picture, x: int, y: int, u: int, v: int)
    requires p.Legal() && p.Inside(x, y) && p.Inside(u, v)
    requires Address(p, x, y) == Address(p, u, v)
    ensures x == u && y == v
  {
    var s := p.Stride();
    RoundedUp(if p.flip then p.hsz else p.vsz);
    if p.flip {
      assert y * p.hsz + x == v * p.hsz + u;
      SplitUnique(y, x, v, u, p.hsz);
    } else if p.ccw {
      SplitUnique(p.hsz - 1 - x, 4 * y, p.hsz - 1 - u, 4 * v, s);
    } else {
      SplitUnique(x, 4 * (p.vsz - 1 - y), u, 4 * (p.vsz - 1 - v), s);
    }
  }

  lemma SplitUnique(q: int, r: int, q': int, r': int, d: int)
    requires 0 < d && 0 <= r < d && 0 <= r' < d && q * d + r == q' * d + r'
    ensures q == q' && r == r'
  {
    QuotientUnique(q * d + r, d, q);
    QuotientUnique(q' * d + r', d, q');
  }

  lemma {:induction false} WalkConcat(p: Picture, w: Walk, a: seq<Input>, b: seq<Input>)
    ensures WalkRun(p, w, a + b) == WalkRun(p, WalkRun(p, w, a), b)
    ensures Writes(p, w, a + b) == Writes(p, w, a) + Writes(p, WalkRun(p, w, a), b)
    decreases |b|
  {
    if b == [] {
      assert a + b == a;
    } else {
      assert (a + b)[..|a + b| - 1] == a + b[..|b| - 1];
      WalkConcat(p, w, a, b[..|b| - 1]);
    }
  }

  /** The walk stands before pixel `x` of line `y`. */
  ghost predicate At(p: Picture, w: Walk, x: nat, y: nat) {
    && (y < p.vsz ==> w.nextAddr == Address(p, x, y) % ADDRESSES)
    && (!p.flip && y + 1 < p.vsz ==> w.hcnt == if p.ccw then 4 * (y + 1) else 4 * (p.vsz - 2 - y))
    && !w.oldVs && (w.oldDe <==> x > 0)
  }

  lemma PixelStep(p: Picture, w: Walk, x: nat, y: nat)
    requires p.Legal() && At(p, w, x, y) && x < p.hsz
    ensures At(p, WalkNext(p, w, Input(false, true)), x + 1, y)
  {
    var a, s := Address(p, x, y), p.Stride();
    ModAdd(a, if p.flip then -4 else if p.ccw then -s else s, ADDRESSES);
    assert (x + 1) * s == x * s + s;
    assert (p.hsz - 1 - (x + 1)) * s == (p.hsz - 1 - x) * s - s;
  }

  lemma ModAdd(a: int, b: int, m: int)
    requires 0 < m
    ensures (a % m + b) % m == (a + b) % m
  {
    var q := a / m;
    assert a == q * m + a % m;
    ModShift(a % m + b, m, q);
  }

  /** The first blank clock turns to the next line, later ones wait there. */
  lemma BlankStep(p: Picture, w: Walk, y: nat)
    requires p.Legal() && y < p.vsz
    ensures At(p, w, p.hsz, y) ==> At(p, WalkNext(p, w, Input(false, false)), 0, y + 1)
    ensures At(p, w, 0, y + 1) ==> At(p, WalkNext(p, w, Input(false, false)), 0, y + 1)
  {
    if p.flip {
      assert (y + 1) * p.hsz + 0 == y * p.hsz + p.hsz;
    } else if y + 1 < p.vsz {
      LineTurn(p, y);
    }
  }

  lemma LineTurn(p: Picture, y: nat)
    requires p.Legal() && y + 1 < p.vsz && !p.flip
    ensures p.ccw ==> p.BufSize() - p.Stride() + 4 * (y + 1) == Address(p, 0, y + 1)
    ensures !p.ccw ==> 4 * (p.vsz - 2 - y) == Address(p, 0, y + 1) == Address(p, 0, y + 1) % ADDRESSES
    ensures y + 2 < p.vsz ==> (4 * (y + 1) + 4) % 0x4000 == 4 * (y + 2)
    ensures y + 2 < p.vsz ==> (4 * (p.vsz - 2 - y) - 4) % 0x4000 == 4 * (p.vsz - 2 - (y + 1))
  {
    RowStart(p, y + 1);
    hide Address;
    if y + 2 < p.vsz {
      QuotientUnique(4 * (y + 1) + 4, 0x4000, 0);
      QuotientUnique(4 * (p.vsz - 2 - y) - 4, 0x4000, 0);
    }
  }

  /** Where a line of the picture starts in the turned one. */
  lemma RowStart(p: Picture, y: nat)
    requires p.Legal() && y < p.vsz && !p.flip
    ensures p.ccw ==> p.BufSize() - p.Stride() + 4 * y == Address(p, 0, y)
    ensures !p.ccw ==> 4 * (p.vsz - 1 - y) == Address(p, 0, y) == Address(p, 0, y) % ADDRESSES
  {
    OneLess(p.hsz, p.Stride());
    assert 0 * p.Stride() == 0;
    if !p.ccw {
      QuotientUnique(4 * (p.vsz - 1 - y), ADDRESSES, 0);
    }
  }

  /** Addresses of the pixels of one line, and of the first `lines` lines. */
  function LineAddresses(p: Picture, y: nat): seq<int> {
    seq(p.hsz, x => Address(p, x, y))
  }

  function FrameAddresses(p: Picture, lines: nat): seq<int> {
    if lines == 0 then [] else FrameAddresses(p, lines - 1) + LineAddresses(p, lines - 1)
  }

  lemma {:induction false} PixelsWritten(p: Picture, w: Walk, n: nat, y: nat)
    requires p.Legal() && At(p, w, 0, y) && n <= p.hsz && y < p.vsz
    ensures At(p, WalkRun(p, w, Shown(n)), n, y)
    ensures Writes(p, w, Shown(n)) == seq(n, x => Address(p, x, y))
  {
    hide Address, WalkNext;
    if n > 0 {
      var ins := Shown(n);
      assert ins[..n - 1] == Shown(n - 1);
      PixelsWritten(p, w, n - 1, y);
      var v := WalkRun(p, w, ins[..n - 1]);
      PixelStep(p, v, n - 1, y);
      AddressInBuffer(p, n - 1, y);
      QuotientUnique(Address(p, n - 1, y), ADDRESSES, 0);
    }
  }

  lemma {:induction false} BlanksWriteNothing(p: Picture, w: Walk, n: nat, y: nat)
    requires p.Legal() && At(p, w, p.hsz, y) && n >= 1 && y < p.vsz
    ensures At(p, WalkRun(p, w, Idle(n)), 0, y + 1)
    ensures Writes(p, w, Idle(n)) == []
  {
    var ins := Idle(n);
    assert ins[..n - 1] == Idle(n - 1);
    if n == 1 {
      assert ins[..0] == [];
      BlankStep(p, w, y);
    } else {
      BlanksWriteNothing(p, w, n - 1, y);
      BlankStep(p, WalkRun(p, w, ins[..n - 1]), y);
    }
  }

  lemma {:induction false} LinesWritten(p: Picture, w: Walk, blanks: seq<nat>)
    requires p.Legal() && At(p, w, 0, 0) && |blanks| <= p.vsz && Blanked(blanks)
    ensures At(p, WalkRun(p, w, Lines(p.hsz, blanks)), 0, |blanks|)
    ensures Writes(p, w, Lines(p.hsz, blanks)) == FrameAddresses(p, |blanks|)
    decreases |blanks|
  {
    if blanks != [] {
      var front, b, y := blanks[..|blanks| - 1], blanks[|blanks| - 1], |blanks| - 1;
      LinesWritten(p, w, front);
      var v := WalkRun(p, w, Lines(p.hsz, front));
      var pixels, rest := Shown(p.hsz), Idle(b);
      WalkConcat(p, w, Lines(p.hsz, front), Shown(p.hsz) + Idle(b));
      WalkConcat(p, v, pixels, rest);
      PixelsWritten(p, v, p.hsz, y);
      BlanksWriteNothing(p, WalkRun(p, v, pixels), b, y);
      assert Writes(p, v, Shown(p.hsz) + Idle(b)) == LineAddresses(p, y);
    }
  }

  /** Blanking before the first line waits there. */
  lemma {:induction false} WalkIdles(p: Picture, w: Walk, n: nat)
    requires !w.oldVs && !w.oldDe
    ensures WalkRun(p, w, Idle(n)) == w && Writes(p, w, Idle(n)) == []
  {
    if n > 0 {
      assert Idle(n)[..n - 1] == Idle(n - 1);
      WalkIdles(p, w, n - 1);
    }
  }

  /** A sync of any length puts the walk before the first pixel. */
  lemma {:induction false} SyncStartsWalk(p: Picture, w: Walk, n: nat)
    requires p.Legal() && n >= 1 && !w.oldVs && !w.oldDe
    ensures WalkRun(p, w, Sync(n)).oldVs && At(p, WalkRun(p, w, Sync(n)).(oldVs := false), 0, 0)
    ensures Writes(p, w, Sync(n)) == []
  {
    assert Sync(n)[..n - 1] == Sync(n - 1);
    if n == 1 {
      assert Sync(0) == [];
      SyncAddress(p);
      if p.vsz >= 2 { SyncColumn(p.vsz); }
      SyncLoads(p, w);
      assert WalkRun(p, w, Sync(1)) == WalkNext(p, w, Input(true, false));
    } else {
      SyncStartsWalk(p, w, n - 1);
    }
    hide Address, WalkNext;
  }

  /** What the first clock of a vertical sync leaves behind. */
  lemma SyncLoads(p: Picture, w: Walk)
    requires !w.oldVs && !w.oldDe
    ensures var v := WalkNext(p, w, Input(true, false));
            && v.nextAddr == (if p.flip then (p.BufSize() - 4) % ADDRESSES
                              else if p.ccw then (p.BufSize() - p.Stride()) % ADDRESSES
                              else (p.vsz - 1) % 4096 * 4)
            && v.hcnt == (if p.ccw then 4 else (p.vsz - 2) % 4096 * 4)
            && v.oldVs && !v.oldDe
  {
  }

  /** The end of a sync means nothing to the walk. */
  lemma {:induction false} WalkFalls(p: Picture, w: Walk, ins: seq<Input>)
    requires ins != [] && !ins[0].vs
    ensures WalkRun(p, w, ins) == WalkRun(p, w.(oldVs := false), ins)
    ensures Writes(p, w, ins) == Writes(p, w.(oldVs := false), ins)
    decreases |ins|
  {
    var front := ins[..|ins| - 1];
    if front == [] {
      assert ins == [ins[0]];
    } else {
      WalkFalls(p, w, front);
    }
  }

  lemma SyncColumn(vsz: nat)
    requires 2 <= vsz <= 4095
    ensures (vsz - 2) % 4096 * 4 == 4 * (vsz - 2)
  {
    QuotientUnique(vsz - 2, 4096, 0);
  }

  lemma SyncAddress(p: Picture)
    requires p.Legal()
    ensures !p.flip && !p.ccw ==> Address(p, 0, 0) == (p.vsz - 1) % 4096 * 4 == Address(p, 0, 0) % ADDRESSES
    ensures !p.flip && p.ccw ==> Address(p, 0, 0) == p.BufSize() - p.Stride()
    ensures p.flip ==> Address(p, 0, 0) == p.BufSize() - 4
  {
    assert 0 * p.Stride() == 0 && 0 * p.hsz == 0;
    if !p.flip && !p.ccw {
      QuotientUnique(p.vsz - 1, 4096, 0);
      QuotientUnique(4 * (p.vsz - 1), ADDRESSES, 0);
    }
    OneLess(p.hsz, p.Stride());
  }

  lemma OneLess(n: int, s: int)
    ensures (n - 1) * s == n * s - s
  {
  }

  /** The walk over a whole measured picture: from any state outside a line, a
      sync of any length and the lines, with any blanking around them, write every
      pixel once, in scan order, at its place in the turned picture. */
  lemma FrameWritten(p: Picture, w: Walk, t: Timing)
    requires p.Legal() && !w.oldVs && !w.oldDe && t.Fits(p)
    ensures Writes(p, w, FrameInput(p, t)) == FrameAddresses(p, p.vsz)
  {
    hide WalkRun, Writes, Address, FrameAddresses;
    var rest := Idle(t.back) + Lines(p.hsz, t.blanks);
    WalkIdles(p, w, t.front);
    WalkConcat(p, w, Idle(t.front), Sync(t.sync) + rest);
    SyncStartsWalk(p, w, t.sync);
    WalkConcat(p, w, Sync(t.sync), rest);
    var v := WalkRun(p, w, Sync(t.sync));
    var u := v.(oldVs := false);
    LinesStart(p, t.blanks);
    WalkFalls(p, v, rest);
    WalkIdles(p, u, t.back);
    WalkConcat(p, u, Idle(t.back), Lines(p.hsz, t.blanks));
    LinesWritten(p, u, t.blanks);
  }

  /** Pixels of a number of lines, and the place of one in scan order. */
  function Pixels(p: Picture, lines: nat): nat { lines * p.hsz }

  function Place(p: Picture, x: nat, y: nat): (i: nat)
    requires x < p.hsz
    ensures Pixels(p, y) <= i < Pixels(p, y + 1)
  {
    assert (y + 1) * p.hsz == y * p.hsz + p.hsz;
    y * p.hsz + x
  }

  lemma PixelsGrow(p: Picture, a: nat, b: nat)
    requires a <= b
    ensures Pixels(p, a) <= Pixels(p, b)
    ensures Pixels(p, a + 1) == Pixels(p, a) + p.hsz
  {
    MulMonotone(a, b, p.hsz);
    assert (a + 1) * p.hsz == a * p.hsz + p.hsz;
  }

  lemma {:induction false} FrameAddressAt(p: Picture, lines: nat, x: nat, y: nat)
    requires y < lines && x < p.hsz
    ensures Place(p, x, y) < Pixels(p, lines) == |FrameAddresses(p, lines)|
    ensures FrameAddresses(p, lines)[Place(p, x, y)] == Address(p, x, y)
  {
    FrameLength(p, lines);
    FrameLength(p, lines - 1);
    PixelsGrow(p, y + 1, lines);
    PixelsGrow(p, lines - 1, lines);
    if y < lines - 1 {
      FrameAddressAt(p, lines - 1, x, y);
    } else {
      LastLine(p, lines, x);
    }
  }

  lemma LastLine(p: Picture, lines: nat, x: nat)
    requires 1 <= lines && x < p.hsz && |FrameAddresses(p, lines - 1)| == Pixels(p, lines - 1)
    ensures |FrameAddresses(p, lines)| == Pixels(p, lines - 1) + p.hsz
    ensures Place(p, x, lines - 1) == Pixels(p, lines - 1) + x
    ensures FrameAddresses(p, lines)[Place(p, x, lines - 1)] == Address(p, x, lines - 1)
  {
    hide Address;
    assert LineAddresses(p, lines - 1)[x] == Address(p, x, lines - 1);
  }

  lemma {:induction false} FrameLength(p: Picture, lines: nat)
    ensures |FrameAddresses(p, lines)| == Pixels(p, lines)
  {
    hide Address;
    if lines > 0 {
      FrameLength(p, lines - 1);
      PixelsGrow(p, lines - 1, lines);
    }
  }

  /** Memory after a list of writes; later ones win. */
  function Store<T>(addresses: seq<int>, data: seq<T>): map<int, T>
    requires |addresses| == |data|
    decreases |data|
  {
    if data == [] then map[]
    else Store(addresses[..|data| - 1], data[..|data| - 1])[addresses[|data| - 1] := data[|data| - 1]]
  }

  lemma {:induction false} StoreAt<T>(addresses: seq<int>, data: seq<T>, i: nat)
    requires |addresses| == |data| && i < |data|
    requires forall j | i < j < |data| :: addresses[j] != addresses[i]
    ensures addresses[i] in Store(addresses, data) && Store(addresses, data)[addresses[i]] == data[i]
    decreases |data|
  {
    var n := |data| - 1;
    if i < n {
      StoreAt(addresses[..n], data[..n], i);
    }
  }

  /** What memory then holds: every pixel at its address. */
  lemma FrameStored<T>(p: Picture, data: seq<T>, x: nat, y: nat)
    requires p.Legal() && |data| == Pixels(p, p.vsz) && p.Inside(x, y)
    ensures |FrameAddresses(p, p.vsz)| == |data| && Place(p, x, y) < |data|
    ensures Address(p, x, y) in Store(FrameAddresses(p, p.vsz), data)
    ensures Store(FrameAddresses(p, p.vsz), data)[Address(p, x, y)] == data[Place(p, x, y)]
  {
    hide Address, FrameAddresses, Store, Pixels, Place;
    FrameAddressAt(p, p.vsz, x, y);
    var i := Place(p, x, y);
    forall j | i < j < |data|
      ensures FrameAddresses(p, p.vsz)[j] != FrameAddresses(p, p.vsz)[i]
    {
      FrameDistinct(p, x, y, j);
    }
    StoreAt(FrameAddresses(p, p.vsz), data, i);
  }

  lemma FrameDistinct(p: Picture, x: nat, y: nat, j: nat)
    requires p.Legal() && p.Inside(x, y) && j < Pixels(p, p.vsz) && j != Place(p, x, y)
    ensures Place(p, x, y) < Pixels(p, p.vsz) == |FrameAddresses(p, p.vsz)|
    ensures FrameAddresses(p, p.vsz)[j] != FrameAddresses(p, p.vsz)[Place(p, x, y)]
  {
    var u, v := PlaceOf(p, j);
    hide Address, FrameAddresses, Pixels, Place;
    FrameAddressAt(p, p.vsz, x, y);
    FrameAddressAt(p, p.vsz, u, v);
    if Address(p, x, y) == Address(p, u, v) {
      AddressInjective(p, x, y, u, v);
    }
  }

  lemma PlaceOf(p: Picture, j: nat) returns (x: nat, y: nat)
    requires p.Legal() && j < Pixels(p, p.vsz)
    ensures p.Inside(x, y) && Place(p, x, y) == j
  {
    x, y := SplitIndex(j, p.hsz, p.vsz);
  }

  lemma SplitIndex(j: nat, width: nat, lines: nat) returns (u: nat, v: nat)
    requires 0 < width && j < lines * width
    ensures u < width && v < lines && v * width + u == j
  {
    var q := j / width;
    assert j == q * width + j % width;
    MulCancelStrict(q, lines, width);
    MulCancelStrict(-1, q, width);
    u, v := j % width, q;
  }

  /** Flipping is a true half turn of rows of the buffer's pitch exactly when
      the width is a multiple of four: only then is there no gap per row. */
  lemma FlipIsHalfTurnIff(p: Picture)
    requires p.Legal() && p.flip
    ensures (forall x, y | p.Inside(x, y) ::
               Address(p, x, y) == (p.vsz - 1 - y) * p.Stride() + 4 * (p.hsz - 1 - x)) <==> p.hsz % 4 == 0
  {
    RoundedUp(p.hsz);
    if p.hsz % 4 == 0 {
      forall x, y | p.Inside(x, y)
        ensures Address(p, x, y) == (p.vsz - 1 - y) * p.Stride() + 4 * (p.hsz - 1 - x)
      {
        HalfTurn(p.hsz, p.vsz, x, y);
      }
    } else {
      assert p.Inside(0, 0);
      SyncAddress(p);
      assert (p.vsz - 1) * p.Stride() == p.vsz * p.Stride() - p.Stride();
      assert Address(p, 0, 0) != (p.vsz - 1 - 0) * p.Stride() + 4 * (p.hsz - 1 - 0);
    }
  }

  lemma HalfTurn(h: int, v: int, x: int, y: int)
    ensures v * (4 * h) - 4 - 4 * (y * h + x) == (v - 1 - y) * (4 * h) + 4 * (h - 1 - x)
  {
  }
}
