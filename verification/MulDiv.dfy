/** sys_umul, the shift-add multiplier of math.sv, and sys_umuldiv, which feeds
    its running product into the divider and restarts it on every cycle. */
module MulDiv {
  import opened Arithmetic
  import Divider

  datatype Widths = Widths(mul1: nat, mul2: nat, div: nat) {
    function Product(): nat { mul1 + mul2 }
    function Udiv(): Divider.Widths { Divider.Widths(Product(), div) }
    predicate Legal() { mul1 >= 1 && mul2 >= 1 && div >= 1 }
  }

  datatype MulRegs = MulRegs(run: bool, add: int, map_: int, result: int) {
    predicate Fit(w: Widths) {
      && 0 <= add < Pow2(w.Product())
      && 0 <= map_ < Pow2(w.mul2)
      && 0 <= result < Pow2(w.Product())
    }
  }

  datatype Regs = Regs(mul: MulRegs, div: Divider.Regs) {
    predicate Fit(w: Widths) { mul.Fit(w) && div.Fit(w.Udiv()) }
  }

  datatype Input = Input(start: bool, mul1: int, mul2: int, div: int) {
    predicate Fit(w: Widths) {
      && 0 <= mul1 < Pow2(w.mul1)
      && 0 <= mul2 < Pow2(w.mul2)
      && 0 <= div < Pow2(w.div)
    }
  }

  function MulNext(w: Widths, r: MulRegs, start: bool, mul1: int, mul2: int): MulRegs {
    if start then MulRegs(true, mul1, mul2, 0)
    else if r.run then
      MulRegs(
        r.map_ != 0,
        2 * r.add % Pow2(w.Product()),
        r.map_ / 2,
        if r.map_ % 2 == 1 then (r.result + r.add) % Pow2(w.Product()) else r.result)
    else r
  }

  /** Both units see the same edge: the divider is started by the pulse or by
      the multiplier still running, and loads the product of the moment. */
  function Next(w: Widths, r: Regs, i: Input): Regs {
    Regs(
      MulNext(w, r.mul, i.start, i.mul1, i.mul2),
      Divider.Next(w.Udiv(), r.div, Divider.Input(i.start || r.mul.run, r.mul.result, i.div)))
  }

  function Run(w: Widths, r: Regs, ins: seq<Input>): Regs
    decreases |ins|
  {
    if ins == [] then r
    else Next(w, Run(w, r, ins[..|ins| - 1]), ins[|ins| - 1])
  }

  predicate Held(ins: seq<Input>, div: int) {
    forall k | 0 <= k < |ins| :: !ins[k].start && ins[k].div == div
  }

  class SysUmul {
    const w: Widths
    var run: bool
    var add: int
    var map_: int
    var result: int

    ghost function Value(): MulRegs
      reads this
    {
      MulRegs(run, add, map_, result)
    }

    constructor (w: Widths, powerUp: MulRegs)
      requires w.Legal() && powerUp.Fit(w)
      ensures this.w == w && Value() == powerUp
    {
      this.w := w;
      run, add, map_, result := powerUp.run, powerUp.add, powerUp.map_, powerUp.result;
    }

    method Clock(start: bool, mul1: int, mul2: int)
      requires w.Legal() && Value().Fit(w) && 0 <= mul1 < Pow2(w.mul1) && 0 <= mul2 < Pow2(w.mul2)
      modifies this
      ensures Value() == MulNext(w, old(Value()), start, mul1, mul2) && Value().Fit(w)
    {
      Pow2Monotone(w.mul1, w.Product());
      if start {
        run := true;
        result := 0;
        add := mul1;
        map_ := mul2;
      } else if run {
        var low := map_ % 2;
        if map_ == 0 { run := false; }
        if low == 1 { result := (result + add) % Pow2(w.Product()); }
        add := 2 * add % Pow2(w.Product());
        map_ := map_ / 2;
      }
    }
  }

  class SysUmuldiv {
    const w: Widths
    const umul: SysUmul
    const udiv: Divider.SysUdiv

    ghost predicate Wired() {
      w.Legal() && umul.w == w && udiv.w == w.Udiv()
    }

    ghost function Value(): Regs
      reads umul, udiv
    {
      Regs(umul.Value(), udiv.Value())
    }

    constructor (w: Widths, powerUp: Regs)
      requires w.Legal() && powerUp.Fit(w)
      ensures Wired() && this.w == w && Value() == powerUp && fresh(umul) && fresh(udiv)
    {
      this.w := w;
      umul := new SysUmul(w, powerUp.mul);
      udiv := new Divider.SysUdiv(w.Udiv(), powerUp.div);
    }

    method Clock(i: Input)
      requires Wired() && Value().Fit(w) && i.Fit(w)
      modifies umul, udiv
      ensures Value() == Next(w, old(Value()), i) && Value().Fit(w)
    {
      var mulRun, mulRes := umul.run, umul.result;
      umul.Clock(i.start, i.mul1, i.mul2);
      udiv.Clock(i.start || mulRun, mulRes, i.div);
    }
  }

  /** What is still to be added is add * map; once map is used up the sum is
      complete.  Below the product nothing wraps. */
  ghost predicate Accumulates(r: MulRegs, target: int) {
    if r.map_ == 0 then r.result == target else r.result + r.add * r.map_ == target
  }

  lemma AccumulateStep(w: Widths, r: MulRegs, target: int, mul1: int, mul2: int)
    requires w.Legal() && r.Fit(w) && r.run
    requires Accumulates(r, target) && 0 <= target < Pow2(w.Product())
    ensures Accumulates(MulNext(w, r, false, mul1, mul2), target)
    ensures MulNext(w, r, false, mul1, mul2).Fit(w)
  {
    var half := r.map_ / 2;
    assert r.map_ == 2 * half + r.map_ % 2;
    AddOnce(Pow2(w.Product()), r.add, half, r.map_ % 2, r.result, target);
    hide Pow2;
  }

  /** One bit of the multiplier: while anything is left to add, nothing wraps. */
  lemma AddOnce(p: int, add: int, half: int, low: int, result: int, target: int)
    requires 0 <= add && 0 <= half && 0 <= low <= 1 && 0 <= result && 0 <= target < p
    requires if half == 0 == low then result == target else result + add * (2 * half + low) == target
    ensures low == 1 ==> (result + add) % p == result + add
    ensures half > 0 ==> result + low * add + 2 * add % p * half == target
    ensures half == 0 ==> result + low * add == target
  {
    Halve(add, half, low);
    MulMonotone(0, half, 2 * add);
    if low == 1 {
      QuotientUnique(result + add, p, 0);
    }
    if half > 0 {
      MulMonotone(1, half, 2 * add);
      QuotientUnique(2 * add, p, 0);
    }
  }

  lemma Halve(add: int, half: int, low: int)
    ensures add * (2 * half + low) == 2 * add * half + add * low
    ensures add * 1 == add && add * 0 == 0
  {
  }

  /** Number of significant bits: the additions a multiplier has to look at. */
  function SignificantBits(m: nat): nat {
    if m == 0 then 0 else 1 + SignificantBits(m / 2)
  }

  lemma {:induction false} ProductFits(w: Widths, a: int, b: int)
    requires w.Legal() && 0 <= a < Pow2(w.mul1) && 0 <= b < Pow2(w.mul2)
    ensures 0 <= a * b < Pow2(w.Product())
  {
    Pow2Sum(w.mul1, w.mul2);
    MulMonotone(0, a, b);
    MulMonotone(a, Pow2(w.mul1) - 1, b);
    MulMonotone(b, Pow2(w.mul2) - 1, Pow2(w.mul1) - 1);
    assert (Pow2(w.mul1) - 1) * b == b * (Pow2(w.mul1) - 1);
    assert (Pow2(w.mul2) - 1) * (Pow2(w.mul1) - 1)
        == Pow2(w.mul1) * Pow2(w.mul2) - Pow2(w.mul1) - Pow2(w.mul2) + 1;
  }

  function Halved(m: nat, k: nat): nat {
    if k == 0 then m else Halved(m, k - 1) / 2
  }

  lemma {:induction false} HalvedBits(m: nat, k: nat)
    ensures SignificantBits(Halved(m, k)) == if k <= SignificantBits(m) then SignificantBits(m) - k else 0
  {
    if k > 0 {
      HalvedBits(m, k - 1);
    }
  }

  /** During the multiplication the product accumulates, the divider is
      reloaded on every edge, and both stay busy. */
  lemma {:induction false} Multiplying(w: Widths, r: Regs, a: int, b: int, div: int, ins: seq<Input>)
    requires w.Legal() && 0 <= a < Pow2(w.mul1) && 0 <= b < Pow2(w.mul2)
    requires r.Fit(w) && r.mul == MulRegs(true, a, b, 0) && r.div.run
    requires Held(ins, div) && 0 < div < Pow2(w.div) && |ins| <= SignificantBits(b) + 1
    ensures Run(w, r, ins).Fit(w) && Run(w, r, ins).div.run
    ensures Accumulates(Run(w, r, ins).mul, a * b) && Run(w, r, ins).mul.map_ == Halved(b, |ins|)
    ensures Run(w, r, ins).mul.run <==> |ins| <= SignificantBits(b)
    ensures |ins| == SignificantBits(b) + 1 ==>
              Run(w, r, ins).mul.result == a * b && Run(w, r, ins).div.rem == a * b && Run(w, r, ins).div.cpt == 0
    decreases |ins|
  {
    ProductFits(w, a, b);
    HalvedBits(b, |ins|);
    if ins != [] {
      var front, last := ins[..|ins| - 1], ins[|ins| - 1];
      Multiplying(w, r, a, b, div, front);
      var s := Run(w, r, front);
      HalvedBits(b, |front|);
      AccumulateStep(w, s.mul, a * b, last.mul1, last.mul2);
      Divider.NextFits(w.Udiv(), s.div, Divider.Input(true, s.mul.result, div));
    }
  }

  /** Once the multiplier has stopped, the pair runs as the divider alone. */
  lemma {:induction false} Dividing(w: Widths, r: Regs, ins: seq<Input>, dins: seq<Divider.Input>)
    requires !r.mul.run && |ins| == |dins|
    requires forall k | 0 <= k < |ins| :: !ins[k].start && dins[k] == Divider.Input(false, r.mul.result, ins[k].div)
    ensures Run(w, r, ins) == Regs(r.mul, Divider.Run(w.Udiv(), r.div, dins))
    decreases |ins|
  {
    if ins != [] {
      Dividing(w, r, ins[..|ins| - 1], dins[..|dins| - 1]);
    }
  }

  lemma {:induction false} RunConcat(w: Widths, r: Regs, a: seq<Input>, b: seq<Input>)
    ensures Run(w, r, a + b) == Run(w, Run(w, r, a), b)
    decreases |b|
  {
    if b == [] {
      assert a + b == a;
    } else {
      var front := b[..|b| - 1];
      assert (a + b)[..|a + b| - 1] == a + front;
      RunConcat(w, r, a, front);
    }
  }

  /** Clocks from the start pulse to the end of the whole operation. */
  function Latency(w: Widths, mul2: nat): nat { SignificantBits(mul2) + 1 + (w.Product() + 2) }

  /** Correctness of sys_umuldiv: whatever its registers held, one start pulse
      followed by quiet clocks keeps it busy without a gap for exactly Latency
      clocks, and then it holds floor(mul1 * mul2 / div). */
  lemma MulDivCorrect(w: Widths, r: Regs, start: Input, ins: seq<Input>, k: nat)
    requires w.Legal() && w.Product() <= 62 && r.Fit(w)
    requires start.start && start.Fit(w) && start.div > 0
    requires Held(ins, start.div) && |ins| == Latency(w, start.mul2) && k <= |ins|
    ensures Run(w, Next(w, r, start), ins[..k]).div.run <==> k < Latency(w, start.mul2)
    ensures Run(w, Next(w, r, start), ins).div.result == start.mul1 * start.mul2 / start.div
  {
    MulDivProgress(w, r, start, ins[..k]);
    MulDivProgress(w, r, start, ins);
  }

  predicate Quiet(ins: seq<Input>) {
    forall k | 0 <= k < |ins| :: !ins[k].start
  }

  /** With neither unit busy the pair keeps everything until it is started. */
  lemma {:induction false} IdleKeeps(w: Widths, r: Regs, ins: seq<Input>)
    requires !r.mul.run && !r.div.run && Quiet(ins)
    ensures Run(w, r, ins) == r
    decreases |ins|
  {
    if ins != [] {
      IdleKeeps(w, r, ins[..|ins| - 1]);
    }
  }

  /** The result stays: from the end of the operation on the pair keeps its
      quotient, its second port and the product for any number of clocks and
      whatever is applied meanwhile, up to and including the clock of the next
      start for the two ports of the divider. */
  lemma ResultKept(w: Widths, r: Regs, start: Input, ins: seq<Input>, next: Input)
    requires w.Legal() && w.Product() <= 62 && r.Fit(w)
    requires start.start && start.Fit(w) && start.div > 0
    requires |ins| >= Latency(w, start.mul2) && Quiet(ins) && Held(ins[..Latency(w, start.mul2)], start.div)
    ensures var s, p := Run(w, Next(w, r, start), ins), start.mul1 * start.mul2;
            && !s.div.run && !s.mul.run && s.mul.result == p
            && s.div.result == p / start.div
            && s.div.remainder == (p - start.div * Divider.SetLow(p / start.div)) % Pow2(w.div)
            && Next(w, s, next).div.result == s.div.result && Next(w, s, next).div.remainder == s.div.remainder
  {
    hide Next, Run, Pow2, SignificantBits;
    var operation, rest := ins[..Latency(w, start.mul2)], ins[Latency(w, start.mul2)..];
    OperationEnds(w, r, start, operation);
    assert ins == operation + rest;
    RunConcat(w, Next(w, r, start), operation, rest);
    var s := Run(w, Next(w, r, start), operation);
    IdleKeeps(w, s, rest);
    StartKeepsPorts(w, s, next);
  }

  lemma StartKeepsPorts(w: Widths, s: Regs, next: Input)
    requires !s.mul.run && !s.div.run
    ensures Next(w, s, next).div.result == s.div.result && Next(w, s, next).div.remainder == s.div.remainder
  {
  }

  /** Where the operation ends: product, quotient and second port. */
  lemma OperationEnds(w: Widths, r: Regs, start: Input, ins: seq<Input>)
    requires w.Legal() && w.Product() <= 62 && r.Fit(w)
    requires start.start && start.Fit(w) && start.div > 0
    requires Held(ins, start.div) && |ins| == Latency(w, start.mul2)
    ensures var s, p := Run(w, Next(w, r, start), ins), start.mul1 * start.mul2;
            && !s.div.run && !s.mul.run && s.mul.result == p
            && s.div.result == p / start.div
            && s.div.remainder == (p - start.div * Divider.SetLow(p / start.div)) % Pow2(w.div)
  {
    var a, b, div, m := start.mul1, start.mul2, start.div, SignificantBits(start.mul2) + 1;
    var s := Next(w, r, start);
    Started(w, r, start);
    ProductFits(w, a, b);
    hide Next, Run, Pow2, Accumulates, Halved, SignificantBits;
    Multiplying(w, s, a, b, div, ins[..m]);
    assert ins == ins[..m] + ins[m..];
    RunConcat(w, s, ins[..m], ins[m..]);
    LastDivision(w, Run(w, s, ins[..m]), a * b, div, ins[m..]);
  }

  lemma {:induction false} LastDivision(w: Widths, t: Regs, product: int, div: int, ins: seq<Input>)
    requires w.Legal() && w.Product() <= 62 && 0 <= product < Pow2(w.Product()) && 0 < div < Pow2(w.div)
    requires t.Fit(w) && !t.mul.run && t.mul.result == product
    requires t.div.run && t.div.cpt == 0 && t.div.rem == product
    requires Held(ins, div) && |ins| == w.Product() + 2
    ensures var s := Run(w, t, ins);
            && !s.div.run && !s.mul.run && s.mul.result == product
            && s.div.result == product / div
            && s.div.remainder == (product - div * Divider.SetLow(product / div)) % Pow2(w.div)
  {
    var dins := seq(|ins|, k requires 0 <= k < |ins| => Divider.Input(false, t.mul.result, ins[k].div));
    Dividing(w, t, ins, dins);
    Divider.DivisionCorrect(w.Udiv(), t.div, Divider.Input(true, product, div), dins, div);
  }

  /** The same for every prefix of the operation. */
  lemma MulDivProgress(w: Widths, r: Regs, start: Input, ins: seq<Input>)
    requires w.Legal() && w.Product() <= 62 && r.Fit(w)
    requires start.start && start.Fit(w) && start.div > 0
    requires Held(ins, start.div) && |ins| <= Latency(w, start.mul2)
    ensures Run(w, Next(w, r, start), ins).div.run <==> |ins| < Latency(w, start.mul2)
    ensures |ins| == Latency(w, start.mul2) ==>
              Run(w, Next(w, r, start), ins).div.result == start.mul1 * start.mul2 / start.div
  {
    var a, b, div, m := start.mul1, start.mul2, start.div, SignificantBits(start.mul2) + 1;
    var s := Next(w, r, start);
    Started(w, r, start);
    ProductFits(w, a, b);
    hide Next, Run, Pow2, Accumulates, Halved, SignificantBits;
    if |ins| <= m {
      Multiplying(w, s, a, b, div, ins);
    } else {
      Multiplying(w, s, a, b, div, ins[..m]);
      assert ins == ins[..m] + ins[m..];
      RunConcat(w, s, ins[..m], ins[m..]);
      Finish(w, Run(w, s, ins[..m]), a * b, div, ins[m..]);
    }
  }

  lemma Started(w: Widths, r: Regs, start: Input)
    requires w.Legal() && r.Fit(w) && start.start && start.Fit(w)
    ensures Next(w, r, start).Fit(w) && Next(w, r, start).div.run
    ensures Next(w, r, start).mul == MulRegs(true, start.mul1, start.mul2, 0)
  {
    Divider.NextFits(w.Udiv(), r.div, Divider.Input(true, r.mul.result, start.div));
    Pow2Monotone(w.mul1, w.Product());
  }

  /** From the last restart on, the divider owns the product. */
  lemma Finish(w: Widths, t: Regs, product: int, div: int, ins: seq<Input>)
    requires w.Legal() && w.Product() <= 62 && 0 <= product < Pow2(w.Product()) && 0 < div < Pow2(w.div)
    requires t.Fit(w) && !t.mul.run && t.div.run && t.div.cpt == 0 && t.div.rem == product
    requires Held(ins, div) && |ins| <= w.Product() + 2
    ensures Run(w, t, ins).div.run <==> |ins| < w.Product() + 2
    ensures |ins| == w.Product() + 2 ==> Run(w, t, ins).div.result == product / div
  {
    var dins := seq(|ins|, k requires 0 <= k < |ins| => Divider.Input(false, t.mul.result, ins[k].div));
    Dividing(w, t, ins, dins);
    Divider.Tracking(w.Udiv(), t.div, product, div, dins);
    if |ins| == w.Product() + 2 {
      Divider.DivisionCorrect(w.Udiv(), t.div, Divider.Input(true, product, div), dins, div);
    }
  }
}
