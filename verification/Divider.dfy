/** sys_udiv: the clocked divider of math.sv, at the level of its registers.
    Every register is a natural number below two to the power of its width. */
module Divider {
  import opened Arithmetic
  import opened NonRestoring

  datatype Widths = Widths(num: nat, div: nat) {
    function RemWidth(): nat { num + div + 2 }

    /** The slice result[NB_NUM-2:0] needs two quotient bits. */
    predicate Legal() { num >= 2 && div >= 1 }
  }

  datatype Regs = Regs(run: bool, cpt: nat, rem: int, result: int, remainder: int) {
    predicate Fit(w: Widths) {
      && cpt < 64
      && 0 <= rem < Pow2(w.RemWidth())
      && 0 <= result < Pow2(w.num)
      && 0 <= remainder < Pow2(w.div)
    }
  }

  datatype Input = Input(start: bool, num: int, div: int) {
    predicate Fit(w: Widths) { 0 <= num < Pow2(w.num) && 0 <= div < Pow2(w.div) }
  }

  /** One rising clock edge, with the divisor aligned to `div * 2^NB_NUM` and
      all sums taken modulo the register width. */
  function Next(w: Widths, r: Regs, i: Input): Regs {
    if i.start then
      r.(cpt := 0, run := true, rem := i.num)
    else if r.run then
      var aligned := i.div * Pow2(w.num);
      var positive := r.rem < Pow2(w.RemWidth() - 1);
      Regs(
        r.cpt != w.num + 1,
        (r.cpt + 1) % 64,
        2 * (if positive then r.rem - aligned else r.rem + aligned) % Pow2(w.RemWidth()),
        (2 * r.result + (if positive then 1 else 0)) % Pow2(w.num),
        r.rem / Pow2(w.num + 1) % Pow2(w.div))
    else
      r
  }

  function Run(w: Widths, r: Regs, ins: seq<Input>): Regs
    decreases |ins|
  {
    if ins == [] then r
    else Next(w, Run(w, r, ins[..|ins| - 1]), ins[|ins| - 1])
  }

  /** No restart, and the divisor held at `div`. */
  predicate Held(ins: seq<Input>, div: int) {
    forall k | 0 <= k < |ins| :: !ins[k].start && ins[k].div == div
  }

  /** The clocked block itself: bit slices, concatenations and the two
      guarded branches of the source. */
  class SysUdiv {
    const w: Widths
    var run: bool
    var cpt: nat
    var rem: int
    var result: int
    var remainder: int

    ghost function Value(): Regs
      reads this
    {
      Regs(run, cpt, rem, result, remainder)
    }

    constructor (w: Widths, powerUp: Regs)
      requires w.Legal() && powerUp.Fit(w)
      ensures this.w == w && Value() == powerUp
    {
      this.w := w;
      run, cpt, rem := powerUp.run, powerUp.cpt, powerUp.rem;
      result, remainder := powerUp.result, powerUp.remainder;
    }

    method Clock(start: bool, num: int, div: int)
      requires w.Legal() && Value().Fit(w) && Input(start, num, div).Fit(w)
      modifies this
      ensures Value() == Next(w, old(Value()), Input(start, num, div)) && Value().Fit(w)
    {
      NextFits(w, Value(), Input(start, num, div));
      if start {
        cpt := 0;
        run := true;
        rem := num;
      } else if run {
        var low := rem % Pow2(w.num + w.div + 1);
        var top := rem >= Pow2(w.num + w.div + 1);
        var aligned := div * Pow2(w.num);
        remainder := rem / Pow2(w.num + 1) % Pow2(w.div);
        DropTopBit(rem, aligned, Pow2(w.num + w.div + 1));
        DropTopBit(rem, -aligned, Pow2(w.num + w.div + 1));
        if !top {
          rem := 2 * ((low - aligned) % Pow2(w.num + w.div + 1));
        } else {
          rem := 2 * ((low + aligned) % Pow2(w.num + w.div + 1));
        }
        DropQuotientTop(result, if top then 0 else 1, Pow2(w.num - 1));
        result := 2 * (result % Pow2(w.num - 1)) + (if top then 0 else 1);
        run := cpt != w.num + 1;
        cpt := (cpt + 1) % 64;
      }
    }
  }

  lemma NextFits(w: Widths, r: Regs, i: Input)
    requires w.Legal() && r.Fit(w) && i.Fit(w)
    ensures Next(w, r, i).Fit(w)
  {
    Pow2Monotone(w.num, w.RemWidth());
  }

  lemma DropTopBit(rem: int, aligned: int, half: int)
    requires 0 < half
    ensures 2 * ((rem % half - aligned) % half) == 2 * (rem - aligned) % (2 * half)
  {
    var q := rem / half;
    assert rem - aligned == (rem % half - aligned) + q * half;
    ModShift(rem % half - aligned, half, q);
    DoubleMod(rem - aligned, half);
  }

  lemma DropQuotientTop(q: int, bit: int, half: int)
    requires 0 <= q && 0 < half && 0 <= bit <= 1
    ensures 2 * (q % half) + bit == (2 * q + bit) % (2 * half)
  {
    var k := q / half;
    assert q == k * half + q % half;
    assert 2 * q + bit == k * (2 * half) + (2 * (q % half) + bit);
    QuotientUnique(2 * q + bit, 2 * half, k);
  }

  /** After `i` run steps the registers hold the non-restoring state: `rem` is
      the signed partial remainder of num against twice the aligned divisor. */
  ghost predicate Tracks(w: Widths, r: Regs, r0: int, num: int, div: int, i: nat) {
    var v := 2 * (div * Pow2(w.num));
    && r.cpt == i % 64
    && r.rem == Partial(num, v, i) % Pow2(w.RemWidth())
    && r.result == (Pow2(i) * r0 + Bits(num, v, i)) % Pow2(w.num)
  }

  /** The aligned divisor exceeds any dividend and its double still fits the
      signed remainder register, so no step overflows. */
  lemma RegisterHoldsPartial(w: Widths, num: int, div: int, i: nat)
    requires w.Legal() && 0 <= num < Pow2(w.num) && 0 < div < Pow2(w.div)
    ensures num < 2 * (div * Pow2(w.num)) < Pow2(w.RemWidth() - 1) + 1
    ensures -2 * (div * Pow2(w.num)) <= Partial(num, 2 * (div * Pow2(w.num)), i) < 2 * (div * Pow2(w.num))
    ensures ToSigned(Partial(num, 2 * (div * Pow2(w.num)), i) % Pow2(w.RemWidth()), w.RemWidth())
            == Partial(num, 2 * (div * Pow2(w.num)), i)
    ensures Partial(num, 2 * (div * Pow2(w.num)), i) % Pow2(w.RemWidth()) < Pow2(w.RemWidth() - 1)
            <==> Partial(num, 2 * (div * Pow2(w.num)), i) >= 0
  {
    var p := Pow2(w.num);
    MulMonotone(1, div, p);
    MulMonotone(div, Pow2(w.div), p);
    Pow2Sum(w.div, w.num);
    assert w.RemWidth() - 1 == (w.div + w.num) + 1;
    PartialRange(num, 2 * (div * p), i);
    SignedRoundTrip(Partial(num, 2 * (div * p), i), w.RemWidth());
  }

  lemma TrackStep(w: Widths, r: Regs, r0: int, num: int, div: int, i: nat, input: Input)
    requires w.Legal() && 0 <= num < Pow2(w.num) && 0 < div < Pow2(w.div)
    requires r.run && !input.start && input.div == div
    requires Tracks(w, r, r0, num, div, i)
    ensures Tracks(w, Next(w, r, input), r0, num, div, i + 1)
  {
    TrackRemainder(w, r, num, div, i, input);
    TrackQuotient(w, r, r0, num, div, i, input);
    CounterStep(i);
  }

  lemma TrackRemainder(w: Widths, r: Regs, num: int, div: int, i: nat, input: Input)
    requires w.Legal() && 0 <= num < Pow2(w.num) && 0 < div < Pow2(w.div)
    requires r.run && !input.start && input.div == div
    requires r.rem == Partial(num, 2 * (div * Pow2(w.num)), i) % Pow2(w.RemWidth())
    ensures Next(w, r, input).rem == Partial(num, 2 * (div * Pow2(w.num)), i + 1) % Pow2(w.RemWidth())
  {
    RegisterHoldsPartial(w, num, div, i);
    var aligned, x := div * Pow2(w.num), Partial(num, 2 * (div * Pow2(w.num)), i);
    assert Partial(num, 2 * (div * Pow2(w.num)), i + 1) == if x >= 0 then 2 * (x - aligned) else 2 * (x + aligned);
    hide Pow2, Partial;
    RemStep(x, if x >= 0 then -aligned else aligned, Pow2(w.RemWidth()));
  }

  lemma TrackQuotient(w: Widths, r: Regs, r0: int, num: int, div: int, i: nat, input: Input)
    requires w.Legal() && 0 <= num < Pow2(w.num) && 0 < div < Pow2(w.div)
    requires r.run && !input.start && input.div == div
    requires Tracks(w, r, r0, num, div, i)
    ensures Next(w, r, input).result
            == (Pow2(i + 1) * r0 + Bits(num, 2 * (div * Pow2(w.num)), i + 1)) % Pow2(w.num)
  {
    RegisterHoldsPartial(w, num, div, i);
    var v := 2 * (div * Pow2(w.num));
    var bit := if Partial(num, v, i) >= 0 then 1 else 0;
    assert Bits(num, v, i + 1) == 2 * Bits(num, v, i) + bit && Pow2(i + 1) == 2 * Pow2(i);
    assert r.rem < Pow2(w.RemWidth() - 1) <==> bit == 1;
    hide Pow2, Bits, Partial, ToSigned;
    ResultStep(Pow2(i), r0, Bits(num, v, i), bit, Pow2(w.num));
  }

  lemma CounterStep(i: nat)
    ensures (i % 64 + 1) % 64 == (i + 1) % 64
  {
  }

  lemma RemStep(x: int, s: int, m: int)
    requires 0 < m
    ensures 2 * (x % m + s) % m == 2 * (x + s) % m
  {
    var q := x / m;
    assert x == q * m + x % m;
    assert 2 * (x + s) == 2 * (x % m + s) + (2 * q) * m;
    ModShift(2 * (x % m + s), m, 2 * q);
  }

  lemma ResultStep(p: int, r0: int, b: int, bit: int, n: int)
    requires 0 < n
    ensures (2 * ((p * r0 + b) % n) + bit) % n == ((2 * p) * r0 + (2 * b + bit)) % n
  {
    var a := p * r0 + b;
    var q := a / n;
    assert a == q * n + a % n;
    assert (2 * p) * r0 + (2 * b + bit) == 2 * a + bit;
    assert 2 * a + bit == (2 * (a % n) + bit) + (2 * q) * n;
    ModShift(2 * (a % n) + bit, n, 2 * q);
  }

  /** While the divider counts, it stays busy and tracks the recurrence. */
  lemma {:induction false} Tracking(w: Widths, r: Regs, num: int, div: int, ins: seq<Input>)
    requires w.Legal() && w.num <= 62
    requires 0 <= num < Pow2(w.num) && 0 < div < Pow2(w.div)
    requires r.run && r.cpt == 0 && r.rem == num && 0 <= r.result < Pow2(w.num)
    requires Held(ins, div) && |ins| <= w.num + 2
    ensures Tracks(w, Run(w, r, ins), r.result, num, div, |ins|)
    ensures Run(w, r, ins).run <==> |ins| < w.num + 2
    decreases |ins|
  {
    if ins == [] {
      TrackStart(w, r, num, div);
    } else {
      var front := ins[..|ins| - 1];
      Tracking(w, r, num, div, front);
      TrackStep(w, Run(w, r, front), r.result, num, div, |front|, ins[|ins| - 1]);
      QuotientUnique(|front|, 64, 0);
    }
  }

  lemma TrackStart(w: Widths, r: Regs, num: int, div: int)
    requires w.Legal() && 0 <= num < Pow2(w.num) && 0 <= r.result < Pow2(w.num)
    requires r.cpt == 0 && r.rem == num
    ensures Tracks(w, r, r.result, num, div, 0)
  {
    Pow2Monotone(w.num, w.RemWidth());
    QuotientUnique(num, Pow2(w.RemWidth()), 0);
    QuotientUnique(r.result, Pow2(w.num), 0);
    assert Pow2(0) * r.result == r.result;
  }

  /** q with its lowest bit set. */
  function SetLow(q: int): int { q - q % 2 + 1 }

  lemma {:induction false} QuotientBits(w: Widths, num: int, div: int)
    requires w.Legal() && 0 <= num < Pow2(w.num) && 0 < div
    ensures num < 2 * (div * Pow2(w.num))
    ensures Bits(num, 2 * (div * Pow2(w.num)), w.num + 2) == Pow2(w.num + 1) + num / div
  {
    var p := Pow2(w.num);
    MulMonotone(1, div, p);
    BitsAreQuotient(num, 2 * (div * p), w.num + 1);
    Scale(num, div, 2 * p);
    TwiceInside(div, p);
  }

  lemma TwiceInside(d: int, p: int)
    ensures 2 * (d * p) == d * (2 * p)
  {
  }

  lemma Scale(n: int, d: int, k: int)
    requires 0 < d && 0 < k
    ensures 0 < d * k && k * n / (d * k) == n / d
  {
    MulMonotone(1, d, k);
    var q := n / d;
    assert n == q * d + n % d;
    assert k * n == q * (d * k) + k * (n % d);
    MulMonotone(n % d, d - 1, k);
    assert k * (n % d) == (n % d) * k;
    assert (d - 1) * k == d * k - k;
    QuotientUnique(k * n, d * k, q);
  }

  /** Correctness of a division: started once and left alone, the divider is
      busy for exactly NB_NUM + 2 clocks and then holds floor(num / div); its
      second port holds num - div * (quotient | 1), cut to the port's width. */
  lemma DivisionCorrect(w: Widths, r: Regs, start: Input, ins: seq<Input>, div: int)
    requires w.Legal() && w.num <= 62 && r.Fit(w)
    requires start.start && start.Fit(w) && 0 < div < Pow2(w.div)
    requires Held(ins, div) && |ins| == w.num + 2
    ensures forall k | 0 <= k < |ins| :: Run(w, Next(w, r, start), ins[..k]).run
    ensures !Run(w, Next(w, r, start), ins).run
    ensures Run(w, Next(w, r, start), ins).result == start.num / div
    ensures Run(w, Next(w, r, start), ins).remainder
            == (start.num - div * SetLow(start.num / div)) % Pow2(w.div)
  {
    var s, num, q := Next(w, r, start), start.num, start.num / div;
    forall k | 0 <= k < |ins|
      ensures Run(w, s, ins[..k]).run
    {
      Tracking(w, s, num, div, ins[..k]);
    }
    Tracking(w, s, num, div, ins);
    FinalQuotient(w, num, div, r.result);
    var front := ins[..|ins| - 1];
    Tracking(w, s, num, div, front);
    RemainderPort(w, num, div, Run(w, s, front).rem);
  }

  predicate Quiet(ins: seq<Input>) {
    forall k | 0 <= k < |ins| :: !ins[k].start
  }

  lemma {:induction false} RunConcat(w: Widths, r: Regs, a: seq<Input>, b: seq<Input>)
    ensures Run(w, r, a + b) == Run(w, Run(w, r, a), b)
    decreases |b|
  {
    if b == [] {
      assert a + b == a;
    } else {
      assert (a + b)[..|a + b| - 1] == a + b[..|b| - 1];
      RunConcat(w, r, a, b[..|b| - 1]);
    }
  }

  /** A divider that is not busy keeps all its registers until it is started. */
  lemma {:induction false} IdleKeeps(w: Widths, r: Regs, ins: seq<Input>)
    requires !r.run && Quiet(ins)
    ensures Run(w, r, ins) == r
    decreases |ins|
  {
    if ins != [] {
      IdleKeeps(w, r, ins[..|ins| - 1]);
    }
  }

  /** The result stays: once busy has fallen both ports keep their values for any
      number of clocks, whatever dividend and divisor are applied meanwhile, up to
      and including the clock of the next start. */
  lemma ResultKept(w: Widths, r: Regs, start: Input, ins: seq<Input>, div: int, next: Input)
    requires w.Legal() && w.num <= 62 && r.Fit(w)
    requires start.start && start.Fit(w) && 0 < div < Pow2(w.div)
    requires |ins| >= w.num + 2 && Quiet(ins) && Held(ins[..w.num + 2], div)
    ensures var s := Run(w, Next(w, r, start), ins);
            && !s.run && s.result == start.num / div
            && s.remainder == (start.num - div * SetLow(start.num / div)) % Pow2(w.div)
            && Next(w, s, next).result == s.result && Next(w, s, next).remainder == s.remainder
  {
    var division, rest := ins[..w.num + 2], ins[w.num + 2..];
    DivisionCorrect(w, r, start, division, div);
    assert ins == division + rest;
    RunConcat(w, Next(w, r, start), division, rest);
    IdleKeeps(w, Run(w, Next(w, r, start), division), rest);
  }

  /** The quotient register after the last step, whatever it held before. */
  lemma FinalQuotient(w: Widths, num: int, div: int, r0: int)
    requires w.Legal() && 0 <= num < Pow2(w.num) && 0 < div
    ensures (Pow2(w.num + 2) * r0 + Bits(num, 2 * (div * Pow2(w.num)), w.num + 2)) % Pow2(w.num) == num / div
  {
    QuotientBits(w, num, div);
    QuotientInRange(num, div, Pow2(w.num));
    CutQuotient(Pow2(w.num), r0, num / div);
  }

  lemma CutQuotient(p: int, r0: int, q: int)
    requires 0 <= q < p
    ensures (2 * (2 * p) * r0 + (2 * p + q)) % p == q
  {
    assert 2 * (2 * p) * r0 + (2 * p + q) == q + (4 * r0 + 2) * p;
    ModShift(q, p, 4 * r0 + 2);
    QuotientUnique(q, p, 0);
  }

  lemma QuotientInRange(num: int, div: int, m: int)
    requires 0 <= num < m && 0 < div
    ensures 0 <= num / div < m
  {
    var q := num / div;
    assert num == q * div + num % div;
    if q >= m {
      MulMonotone(1, div, q);
    }
    if q < 0 {
      MulMonotone(q, -1, div);
    }
  }

  /** The slice of the last partial remainder that the port latches. */
  lemma RemainderPort(w: Widths, num: int, div: int, rem: int)
    requires w.Legal() && 0 <= num < Pow2(w.num) && 0 < div
    requires rem == Partial(num, 2 * (div * Pow2(w.num)), w.num + 1) % Pow2(w.RemWidth())
    ensures rem / Pow2(w.num + 1) % Pow2(w.div) == (num - div * SetLow(num / div)) % Pow2(w.div)
  {
    var low, high, port := Pow2(w.num + 1), Pow2(w.div + 1), Pow2(w.div);
    var k := num - div * SetLow(num / div);
    LastPartial(w, num, div);
    Pow2Sum(w.num + 1, w.div + 1);
    assert w.RemWidth() == (w.num + 1) + (w.div + 1);
    SliceOfMultiple(k, low, high);
    HalveModulus(k, port);
  }

  lemma LastPartial(w: Widths, num: int, div: int)
    requires w.Legal() && 0 <= num < Pow2(w.num) && 0 < div
    ensures Partial(num, 2 * (div * Pow2(w.num)), w.num + 1)
            == (num - div * SetLow(num / div)) * Pow2(w.num + 1)
  {
    var v, low := 2 * (div * Pow2(w.num)), Pow2(w.num + 1);
    var b := Bits(num, v, w.num + 1);
    PartialClosedForm(num, v, w.num + 1);
    QuotientBits(w, num, div);
    var c := if Partial(num, v, w.num + 1) >= 0 then 1 else 0;
    OddPart(num / div, b, c, Pow2(w.num));
    FactorOut(num, div, Pow2(w.num), 2 * b + 1 - low);
  }

  lemma OddPart(q: int, b: int, c: int, p: int)
    requires 2 * b + c == 2 * p + q && 0 <= c <= 1
    ensures SetLow(q) == 2 * b + 1 - 2 * p
  {
  }

  lemma HalveModulus(k: int, port: int)
    requires 0 < port
    ensures k % (2 * port) % port == k % port
  {
    var t := k / (2 * port);
    assert k == t * (2 * port) + k % (2 * port);
    assert t * (2 * port) == (2 * t) * port;
    ModShift(k % (2 * port), port, 2 * t);
  }

  lemma SliceOfMultiple(k: int, low: int, high: int)
    requires 0 < low && 0 < high
    ensures 0 < low * high && (k * low) % (low * high) / low == k % high
  {
    MulMonotone(1, high, low);
    var t := k / high;
    assert k == t * high + k % high;
    assert k * low == t * (low * high) + (k % high) * low;
    MulMonotone(k % high, high - 1, low);
    MulMonotone(0, k % high, low);
    assert (high - 1) * low == low * high - low;
    QuotientUnique(k * low, low * high, t);
    QuotientUnique((k % high) * low, low, k % high);
  }

  lemma FactorOut(num: int, div: int, p: int, s: int)
    ensures (2 * p) * num - (2 * (div * p)) * s == (num - div * s) * (2 * p)
  {
    Associate(div, p, s);
    Associate(div, s, p);
    assert p * s == s * p;
  }

  /** What the name of the second port promises holds exactly for odd
      quotients; otherwise it is off by the divisor. */
  lemma RemainderPortIsModuloIffOdd(w: Widths, num: int, div: int)
    requires w.Legal() && 0 <= num < Pow2(w.num) && 0 < div < Pow2(w.div)
    ensures (num - div * SetLow(num / div)) % Pow2(w.div) == num % div <==> (num / div) % 2 == 1
  {
    var q, port := num / div, Pow2(w.div);
    assert num == q * div + num % div;
    assert div * SetLow(q) == SetLow(q) * div;
    if q % 2 == 1 {
      assert num - div * SetLow(q) == num % div;
      QuotientUnique(num % div, port, 0);
    } else {
      assert (q + 1) * div == q * div + div;
      assert num - div * SetLow(q) == num % div - div;
      QuotientUnique(num % div - div, port, -1);
    }
  }

  /** The same condition on the inputs: the dividend lies in the upper half of its
      multiple of twice the divisor. */
  lemma RemainderPortIsModuloIffUpperHalf(w: Widths, num: int, div: int)
    requires w.Legal() && 0 <= num < Pow2(w.num) && 0 < div < Pow2(w.div)
    ensures (num - div * SetLow(num / div)) % Pow2(w.div) == num % div <==> num % (2 * div) >= div
  {
    RemainderPortIsModuloIffOdd(w, num, div);
    HalvesOfQuotient(num, div);
  }

  lemma HalvesOfQuotient(num: int, div: int)
    requires 0 < div
    ensures (num / div) % 2 == 1 <==> num % (2 * div) >= div
  {
    var q := num / (2 * div);
    var r := num % (2 * div);
    assert num == q * (2 * div) + r == (2 * q) * div + r;
    assert (2 * q + 1) * div == (2 * q) * div + div;
    QuotientUnique(num, div, if r < div then 2 * q else 2 * q + 1);
  }

  /** Dividing 7 by 3 in three quotient bits and two divisor bits: the
      remainder is 1, yet the even quotient 2 leaves the port reading 2. */
  lemma RemainderPortWitness(r: Regs, start: Input, ins: seq<Input>)
    requires r.Fit(Widths(3, 2)) && start == Input(true, 7, 3)
    requires Held(ins, 3) && |ins| == 5
    ensures Run(Widths(3, 2), Next(Widths(3, 2), r, start), ins).remainder == 2 != 7 % 3
  {
    assert Pow2(2) == 4 && Pow2(3) == 8;
    DivisionCorrect(Widths(3, 2), r, start, ins, 3);
  }

  /** The six-bit step counter: with more than 62 quotient bits it wraps before
      it meets NB_NUM + 1, so a started division never reports its end. */
  lemma {:induction false} WideDividerNeverEnds(w: Widths, r: Regs, ins: seq<Input>)
    requires w.Legal() && w.num > 62
    requires r.run && r.cpt < 64
    ensures Run(w, r, ins).run && Run(w, r, ins).cpt < 64
    decreases |ins|
  {
    if ins != [] {
      WideDividerNeverEnds(w, r, ins[..|ins| - 1]);
    }
  }
}
