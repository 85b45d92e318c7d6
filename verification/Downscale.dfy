/** The input decimators of ascal.vhd (process InAT): which pixels of a line,
    and which lines of a frame, survive when the image is larger than the
    window. */
module Downscale {
  import opened Arithmetic

  datatype Regs = Regs(acc: int, keep: bool)

  /** `size` is the input width or height, `osize` the smaller output one. */
  function LineStart(size: nat, osize: nat): int { (size - osize + 8192) % 8192 }

  function Next(size: nat, osize: nat, acc: int): Regs {
    if acc + 2 * osize < 2 * size
    then Regs((acc + 2 * osize) % 8192, false)
    else Regs((acc + 2 * osize - 2 * size + 8192) % 8192, true)
  }

  /** Registers and number of keep decisions after `n` steps from a fresh start. */
  function Run(size: nat, osize: nat, n: nat): (Regs, nat) {
    if n == 0 then (Regs(LineStart(size, osize), false), 0)
    else
      var before := Run(size, osize, n - 1);
      var r := Next(size, osize, before.0.acc);
      (r, before.1 + (if r.keep then 1 else 0))
  }

  class Decimator {
    const size: nat
    const osize: nat
    var acc: int
    var keep: bool
    ghost var steps: nat
    ghost var kept: nat

    ghost predicate Valid()
      reads this
    {
      Run(size, osize, steps) == (Regs(acc, keep), kept)
    }

    constructor (size: nat, osize: nat)
      ensures Valid() && this.size == size && this.osize == osize && steps == 0
    {
      this.size, this.osize := size, osize;
      acc := (size - osize + 8192) % 8192;
      keep := false;
      steps, kept := 0, 0;
    }

    /** One pixel inside the window. */
    method Step()
      requires Valid()
      modifies this
      ensures Valid() && steps == old(steps) + 1
      ensures kept == old(kept) + (if keep then 1 else 0)
    {
      if acc + 2 * osize < 2 * size {
        acc := (acc + 2 * osize) % 8192;
        keep := false;
      } else {
        acc := (acc + 2 * osize - 2 * size + 8192) % 8192;
        keep := true;
        kept := kept + 1;
      }
      steps := steps + 1;
    }
  }

  function Total(size: nat, osize: nat, n: nat): int { size - osize + 2 * osize * n }

  /** Conservation: accumulator and survivors share out the distance walked. */
  lemma {:induction false} KeptCount(size: nat, osize: nat, n: nat)
    requires 1 <= osize <= size <= 4095
    ensures Run(size, osize, n).1 == Total(size, osize, n) / (2 * size)
    ensures Run(size, osize, n).0.acc == Total(size, osize, n) % (2 * size)
  {
    if n == 0 {
      QuotientUnique(Total(size, osize, 0), 2 * size, 0);
    } else {
      KeptCount(size, osize, n - 1);
      TotalStep(size, osize, n);
      KeptStep(size, osize, Total(size, osize, n - 1));
    }
  }

  /** One step moves the distance on and keeps when a period is full. */
  lemma KeptStep(size: nat, osize: nat, t: int)
    requires 1 <= osize <= size <= 4095
    ensures Next(size, osize, t % (2 * size)).acc == (t + 2 * osize) % (2 * size)
    ensures t / (2 * size) + (if Next(size, osize, t % (2 * size)).keep then 1 else 0) == (t + 2 * osize) / (2 * size)
  {
    NextFolds(size, osize, t % (2 * size));
    AdvanceQuotient(t, 2 * osize, 2 * size);
  }

  /** Within the 13-bit register one step folds at a full period. */
  lemma NextFolds(size: nat, osize: nat, acc: int)
    requires 1 <= osize <= size <= 4095 && 0 <= acc < 2 * size
    ensures acc + 2 * osize < 2 * size ==> Next(size, osize, acc) == Regs(acc + 2 * osize, false)
    ensures acc + 2 * osize >= 2 * size ==> Next(size, osize, acc) == Regs(acc + 2 * osize - 2 * size, true)
  {
  }

  lemma TotalStep(size: nat, osize: nat, n: nat)
    requires n > 0
    ensures Total(size, osize, n) == Total(size, osize, n - 1) + 2 * osize
  {
  }

  /** A decision keeps exactly when it leaves less than one output step over. */
  lemma KeptIff(size: nat, osize: nat, n: nat)
    requires 1 <= osize <= size <= 4095 && n >= 1
    ensures Run(size, osize, n).0.keep <==> Total(size, osize, n) % (2 * size) < 2 * osize
  {
    KeptCount(size, osize, n - 1);
    KeptCount(size, osize, n);
    NextFolds(size, osize, Total(size, osize, n - 1) % (2 * size));
  }

  /** A full line makes exactly as many keep decisions as the output is wide;
      the first skips, the last keeps for reductions by less than three. */
  lemma LineKeepsWidth(size: nat, osize: nat)
    requires 1 <= osize <= size <= 4095
    ensures Run(size, osize, size).1 == osize
    ensures osize < size ==> !Run(size, osize, 1).0.keep && Run(size, osize, 1).1 == 0
    ensures Run(size, osize, size).0.keep <==> size < 3 * osize
  {
    KeptCount(size, osize, size);
    LineTotal(size, osize);
    QuotientUnique(Total(size, osize, size), 2 * size, osize);
    KeptIff(size, osize, size);
    assert Run(size, osize, 0) == (Regs(size - osize, false), 0);
    NextFolds(size, osize, size - osize);
  }

  lemma LineTotal(size: nat, osize: nat)
    ensures Total(size, osize, size) == osize * (2 * size) + (size - osize)
  {
  }

  // ---- What a line sends on ----

  /** The horizontal decision and its delays i_hnp1 to i_hnp4, the delays i_ven1
      to i_ven6 of the window, and the pixels sent on: `pushed` to the packer,
      `stored` to the line buffer. */
  datatype Pipe = Pipe(
    acc: int, hnp: bool, h1: bool, h2: bool, h3: bool, h4: bool,
    v1: bool, v2: bool, v3: bool, v4: bool, v5: bool, v6: bool,
    pushed: nat, stored: nat)
  {
    /** Between lines: the accumulator is reloaded and no pixel is under way. */
    predicate Fresh(size: nat, osize: nat) {
      acc == LineStart(size, osize) && !v1 && !v2 && !v3 && !v4 && !v5 && !v6
    }
  }

  function PipeNext(size: nat, osize: nat, p: Pipe, ven: bool): Pipe {
    var r := if ven then Next(size, osize, p.acc) else Regs(p.acc, p.hnp);
    Pipe(r.acc, r.keep, p.hnp, p.h1, p.h2, p.h3, ven, p.v1, p.v2, p.v3, p.v4, p.v5,
         p.pushed + (if p.h4 && p.v6 then 1 else 0), p.stored + (if p.h4 && p.v5 then 1 else 0))
  }

  /** A line: `size` clocks inside the window, then blanking. */
  function PipeRun(size: nat, osize: nat, p: Pipe, n: nat): Pipe {
    if n == 0 then p else PipeNext(size, osize, PipeRun(size, osize, p, n - 1), n <= size)
  }

  class PixelGate {
    const size: nat
    const osize: nat
    var acc: int
    var hnp: bool
    var h1: bool
    var h2: bool
    var h3: bool
    var h4: bool
    var v1: bool
    var v2: bool
    var v3: bool
    var v4: bool
    var v5: bool
    var v6: bool
    var pushed: nat
    var stored: nat

    ghost function Value(): Pipe
      reads this
    {
      Pipe(acc, hnp, h1, h2, h3, h4, v1, v2, v3, v4, v5, v6, pushed, stored)
    }

    constructor (size: nat, osize: nat)
      ensures this.size == size && this.osize == osize
      ensures Value().Fresh(size, osize) && pushed == 0 && stored == 0
    {
      this.size, this.osize := size, osize;
      acc, hnp := (size - osize + 8192) % 8192, false;
      h1, h2, h3, h4 := false, false, false, false;
      v1, v2, v3, v4, v5, v6 := false, false, false, false, false, false;
      pushed, stored := 0, 0;
    }

    method Decide(ven: bool)
      modifies `acc, `hnp
      ensures Regs(acc, hnp) == if ven then Next(size, osize, old(acc)) else Regs(old(acc), old(hnp))
    {
      if ven {
        if acc + 2 * osize < 2 * size {
          acc := (acc + 2 * osize) % 8192;
          hnp := false;
        } else {
          acc := (acc + 2 * osize - 2 * size + 8192) % 8192;
          hnp := true;
        }
      }
    }

    method Delay(ven: bool)
      modifies `h1, `h2, `h3, `h4, `v1, `v2, `v3, `v4, `v5, `v6
      ensures (h1, h2, h3, h4) == (hnp, old(h1), old(h2), old(h3))
      ensures (v1, v2, v3) == (ven, old(v1), old(v2)) && (v4, v5, v6) == (old(v3), old(v4), old(v5))
    {
      h4 := h3; h3 := h2; h2 := h1; h1 := hnp;
      v6 := v5; v5 := v4; v4 := v3; v3 := v2; v2 := v1; v1 := ven;
    }

    /** One pixel clock; `push` is the packer's enable, `store` the buffer's. */
    method Clock(ven: bool) returns (push: bool, store: bool)
      modifies this
      ensures Value() == PipeNext(size, osize, old(Value()), ven)
      ensures pushed == old(pushed) + (if push then 1 else 0)
      ensures stored == old(stored) + (if store then 1 else 0)
    {
      hide Next;
      push, store := h4 && v6, h4 && v5;
      pushed := pushed + (if push then 1 else 0);
      stored := stored + (if store then 1 else 0);
      Delay(ven);
      Decide(ven);
    }
  }

  /** Decisions made by clock `n` of a line. */
  function Made(size: nat, n: int): (m: nat)
    ensures m <= size
  {
    if n < 0 then 0 else if n <= size then n else size
  }

  function KeepAt(size: nat, osize: nat, n: int): bool { Run(size, osize, Made(size, n)).0.keep }
  function KeptBy(size: nat, osize: nat, n: int): nat { Run(size, osize, Made(size, n)).1 }

  /** After `n` clocks every register holds its own delay of the decisions and
      of the window, and the counts are those five clocks back; the packer's
      window is one clock later than its decisions, so it misses the first
      decision and takes the last one twice. */
  ghost predicate PipeTracks(size: nat, osize: nat, s: Pipe, p: Pipe, n: nat) {
    && p.acc == Run(size, osize, Made(size, n)).0.acc
    && (n >= 1 ==> p.hnp == KeepAt(size, osize, n))
    && (n >= 2 ==> p.h1 == KeepAt(size, osize, n - 1))
    && (n >= 3 ==> p.h2 == KeepAt(size, osize, n - 2))
    && (n >= 4 ==> p.h3 == KeepAt(size, osize, n - 3))
    && (n >= 5 ==> p.h4 == KeepAt(size, osize, n - 4))
    && (p.v1 <==> 1 <= n <= size) && (p.v2 <==> 1 <= n - 1 <= size) && (p.v3 <==> 1 <= n - 2 <= size)
    && (p.v4 <==> 1 <= n - 3 <= size) && (p.v5 <==> 1 <= n - 4 <= size) && (p.v6 <==> 1 <= n - 5 <= size)
    && p.stored == s.stored + KeptBy(size, osize, n - 5)
    && p.pushed == s.pushed + KeptBy(size, osize, n - 5)
                   + (if n >= size + 6 && KeepAt(size, osize, size) then 1 else 0)
  }

  lemma {:induction false} LinePipe(size: nat, osize: nat, s: Pipe, n: nat)
    requires 1 <= osize < size <= 4095 && s.Fresh(size, osize)
    ensures PipeTracks(size, osize, s, PipeRun(size, osize, s, n), n)
  {
    if n > 0 {
      LinePipe(size, osize, s, n - 1);
      LineKeepsWidth(size, osize);
      PipeStep(size, osize, s, PipeRun(size, osize, s, n - 1), n - 1);
    }
  }

  lemma PipeStep(size: nat, osize: nat, s: Pipe, p: Pipe, n: nat)
    requires 1 <= osize < size <= 4095 && PipeTracks(size, osize, s, p, n)
    requires !Run(size, osize, 1).0.keep && Run(size, osize, 1).1 == 0
    ensures PipeTracks(size, osize, s, PipeNext(size, osize, p, n < size), n + 1)
  {
    hide Next, LineStart;
    CountOn(size, osize, n - 5);
    if n < size {
      assert Made(size, n + 1) == Made(size, n) + 1 == n + 1;
      assert Run(size, osize, n + 1).0 == Next(size, osize, Run(size, osize, n).0.acc);
    }
  }

  lemma CountOn(size: nat, osize: nat, n: int)
    ensures KeptBy(size, osize, n + 1)
            == KeptBy(size, osize, n) + (if 0 <= n < size && KeepAt(size, osize, n + 1) then 1 else 0)
  {
    hide Next, LineStart;
    if 0 <= n < size {
      assert Made(size, n + 1) == Made(size, n) + 1;
    }
  }

  /** What a reduced line sends on, once its last pixel has left the pipeline:
      the line buffer gets exactly the output width, and the packer one pixel
      more exactly when the reduction is by less than three. */
  lemma LinePushesOneMoreIff(size: nat, osize: nat, s: Pipe, n: nat)
    requires 1 <= osize < size <= 4095 && s.Fresh(size, osize) && n >= size + 6
    ensures PipeRun(size, osize, s, n).stored - s.stored == osize
    ensures PipeRun(size, osize, s, n).pushed - s.pushed == osize + (if size < 3 * osize then 1 else 0)
  {
    LinePipe(size, osize, s, n);
    LineKeepsWidth(size, osize);
  }

  // ---- Lines of a frame ----

  /** The vertical decision at the end of line `line` of a frame; the end of the
      window's first line reloads the accumulator and keeps. */
  function LineEnd(size: nat, osize: nat, vmin: nat, r: Regs, line: nat): Regs {
    if line == vmin then Regs(LineStart(size, osize), true) else Next(size, osize, r.acc)
  }

  /** Registers and survivors after `n` lines of a frame whose window is the
      `size` lines from `vmin` on: a line survives if the decision made before it
      keeps. */
  function FrameRun(size: nat, osize: nat, vmin: nat, r: Regs, n: nat): (Regs, nat) {
    if n == 0 then (r, 0)
    else
      var before := FrameRun(size, osize, vmin, r, n - 1);
      (LineEnd(size, osize, vmin, before.0, n - 1),
       before.1 + (if before.0.keep && vmin <= n - 1 < vmin + size then 1 else 0))
  }

  /** The vertical decisions of one frame as clocked, one call a line end; the
      registers stand for the lines gone by since the frame's first, which began
      in state `start`. */
  class LineGate {
    const size: nat
    const osize: nat
    const vmin: nat
    var acc: int
    var keep: bool
    var vcpt: nat
    ghost var survived: nat
    ghost var start: Regs

    ghost predicate Valid()
      reads this
    {
      (Regs(acc, keep), survived) == FrameRun(size, osize, vmin, start, vcpt)
    }

    constructor (size: nat, osize: nat, vmin: nat, start: Regs)
      ensures this.size == size && this.osize == osize && this.vmin == vmin
      ensures Valid() && this.start == start && vcpt == 0
    {
      this.size, this.osize, this.vmin := size, osize, vmin;
      acc, keep, vcpt := start.acc, start.keep, 0;
      survived, this.start := 0, start;
    }

    /** The next frame goes on with the decision of the last line. */
    method FirstPixel()
      modifies this
      ensures Valid() && vcpt == 0 && start == Regs(old(acc), old(keep))
    {
      vcpt := 0;
      survived, start := 0, Regs(acc, keep);
    }

    method EndOfLine()
      requires Valid()
      modifies this
      ensures Valid() && start == old(start) && vcpt == old(vcpt) + 1
      ensures survived == old(survived) + (if old(keep) && vmin <= old(vcpt) < vmin + size then 1 else 0)
    {
      if keep && vmin <= vcpt < vmin + size { survived := survived + 1; }
      if acc + 2 * osize < 2 * size {
        acc := (acc + 2 * osize) % 8192;
        keep := false;
      } else {
        acc := (acc + 2 * osize - 2 * size + 8192) % 8192;
        keep := true;
      }
      if vcpt == vmin {
        acc := (size - osize + 8192) % 8192;
        keep := true;
      }
      vcpt := vcpt + 1;
    }
  }

  /** The state `j` line ends after the reload. */
  ghost predicate Since(size: nat, osize: nat, r: Regs, j: nat) {
    r.acc == Run(size, osize, j).0.acc && (r.keep <==> j == 0 || Run(size, osize, j).0.keep)
  }

  lemma {:induction false} AfterReload(size: nat, osize: nat, vmin: nat, r: Regs, n: nat)
    requires 1 <= osize <= size <= 4095 && n > vmin
    ensures Since(size, osize, FrameRun(size, osize, vmin, r, n).0, n - vmin - 1)
  {
    if n > vmin + 1 {
      AfterReload(size, osize, vmin, r, n - 1);
    }
  }

  lemma {:induction false} BeforeReload(size: nat, osize: nat, vmin: nat, r: Regs, j: nat, n: nat)
    requires Since(size, osize, r, j) && n <= vmin
    ensures Since(size, osize, FrameRun(size, osize, vmin, r, n).0, j + n)
    ensures FrameRun(size, osize, vmin, r, n).1 == 0
  {
    if n > 0 {
      BeforeReload(size, osize, vmin, r, j, n - 1);
    }
  }

  /** Survivors of the window, given whether its first line survives. */
  lemma {:induction false} WindowCount(size: nat, osize: nat, vmin: nat, r: Regs, n: nat, first: nat)
    requires 1 <= osize <= size <= 4095 && vmin + 1 <= n
    requires FrameRun(size, osize, vmin, r, vmin + 1).1 == first
    ensures n <= vmin + size ==>
              FrameRun(size, osize, vmin, r, n).1
              == first + (if n >= vmin + 2 then 1 + Run(size, osize, n - vmin - 2).1 else 0)
    ensures n >= vmin + size ==>
              FrameRun(size, osize, vmin, r, n).1
              == first + (if size >= 2 then 1 + Run(size, osize, size - 2).1 else 0)
  {
    if n > vmin + 1 {
      WindowCount(size, osize, vmin, r, n - 1, first);
      AfterReload(size, osize, vmin, r, n - 1);
    }
  }

  /** Lines of the window that survive in a frame of `lines` lines, after at
      least one such frame. */
  function FrameKept(size: nat, osize: nat, vmin: nat, lines: nat, r: Regs): nat {
    FrameRun(size, osize, vmin, FrameRun(size, osize, vmin, r, lines).0, lines).1
  }

  /** The first line of the window survives exactly if the decision carried over
      from the lines outside it keeps. */
  predicate FirstKept(size: nat, osize: nat, lines: nat)
    requires size > 0
  {
    lines <= 1 || Total(size, osize, lines - 1) % (2 * size) < 2 * osize
  }

  lemma FrameCount(size: nat, osize: nat, vmin: nat, lines: nat, r: Regs)
    requires 1 <= osize <= size <= 4095 && vmin + size <= lines
    ensures FrameKept(size, osize, vmin, lines, r)
            == (if FirstKept(size, osize, lines) then 1 else 0)
               + (if size >= 2 then 1 + Run(size, osize, size - 2).1 else 0)
  {
    var s := FrameRun(size, osize, vmin, r, lines).0;
    AfterReload(size, osize, vmin, r, lines);
    BeforeReload(size, osize, vmin, s, lines - vmin - 1, vmin);
    assert lines - vmin - 1 + vmin == lines - 1;
    if lines > 1 {
      KeptIff(size, osize, lines - 1);
    }
    var first := if FirstKept(size, osize, lines) then 1 else 0;
    assert FrameRun(size, osize, vmin, s, vmin + 1).1 == first;
    WindowCount(size, osize, vmin, s, lines, first);
  }

  /** The vertical decimator, for every window in every frame: the announced
      height survives exactly if the first line of the window is kept for
      reductions by less than 5/3, or skipped for those from 5/3 to below 5.
      From 5 on there is always a line too many. */
  lemma FrameKeepsHeightIff(size: nat, osize: nat, vmin: nat, lines: nat, r: Regs)
    requires 1 <= osize < size <= 4095 && vmin + size <= lines
    ensures FrameKept(size, osize, vmin, lines, r) == osize
            <==> (if 3 * size < 5 * osize then FirstKept(size, osize, lines)
                  else size < 5 * osize && !FirstKept(size, osize, lines))
    ensures osize - 1 <= FrameKept(size, osize, vmin, lines, r) <= osize + 2
  {
    FrameCount(size, osize, vmin, lines, r);
    KeptCount(size, osize, size - 2);
    FrameTotal(size, osize);
    QuotientUnique(Total(size, osize, size - 2), 2 * size,
                   if 3 * size < 5 * osize then osize - 2 else if size < 5 * osize then osize - 1 else osize);
  }

  lemma FrameTotal(size: nat, osize: nat)
    requires size >= 2
    ensures Total(size, osize, size - 2) == osize * (2 * size) + (size - 5 * osize)
    ensures (osize - 1) * (2 * size) == osize * (2 * size) - 2 * size
    ensures (osize - 2) * (2 * size) == osize * (2 * size) - 4 * size
  {
  }

  /** Automatic windows cover all lines of the frame: the height survives if and
      only if the reduction is by less than three, and otherwise one line more. */
  lemma FullFrameKeepsHeightIff(size: nat, osize: nat, r: Regs)
    requires 1 <= osize < size <= 4095
    ensures FrameKept(size, osize, 0, size, r) == osize <==> size < 3 * osize
    ensures size >= 3 * osize ==> FrameKept(size, osize, 0, size, r) == osize + 1
  {
    FrameCount(size, osize, 0, size, r);
    KeptIff(size, osize, size - 1);
    KeptCount(size, osize, size - 1);
    assert Run(size, osize, size - 1).1
        == Run(size, osize, size - 2).1 + (if Run(size, osize, size - 1).0.keep then 1 else 0);
    FullTotal(size, osize);
    QuotientUnique(Total(size, osize, size - 1), 2 * size, if size >= 3 * osize then osize else osize - 1);
  }

  lemma FullTotal(size: nat, osize: nat)
    requires size >= 1
    ensures Total(size, osize, size - 1) == osize * (2 * size) + (size - 3 * osize)
    ensures (osize - 1) * (2 * size) == osize * (2 * size) - 2 * size
  {
  }

  /** A full frame of three lines reduced to one keeps two; a window of five
      lines below one other line, reduced to two, keeps three. */
  lemma FrameKeepsHeightWitness(r: Regs)
    ensures FrameKept(3, 1, 0, 3, r) == 2
    ensures FrameKept(5, 2, 1, 6, r) == 3
  {
    FullFrameKeepsHeightIff(3, 1, r);
    FrameCount(5, 2, 1, 6, r);
    KeptCount(5, 2, 3);
    assert Total(5, 2, 5) == 23 && Total(5, 2, 3) == 15;
  }
}
