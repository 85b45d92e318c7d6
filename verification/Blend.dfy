/** The pixel blender of hq2x.sv: three colour channels mixed at once in one
    packed sum. */
module Blend {
  import opened Arithmetic

  datatype Pixel = Pixel(r: int, g: int, b: int) {
    predicate Valid() { 0 <= r < 256 && 0 <= g < 256 && 0 <= b < 256 }
  }

  /** The three fields of a blend code: op[6:4], op[3:2], op[1:0]. */
  datatype Op = Op(w1: int, w2: int, w3: int) {
    predicate Valid() { 0 <= w1 < 8 && 0 <= w2 < 4 && 0 <= w3 < 4 }
  }

  const BLEND1 := Op(6, 2, 0)
  const BLEND2 := Op(4, 2, 2)
  const BLEND3 := Op(5, 2, 1)
  const BLEND4 := Op(6, 1, 1)
  const BLEND5 := Op(2, 3, 3)
  const BLEND6 := Op(7, 0, 0)

  predicate IsBlend(op: Op) { op in {BLEND1, BLEND2, BLEND3, BLEND4, BLEND5, BLEND6} }

  // ---- The colour difference test ----

  /** `bits` low bits of a number, as a register holds them. */
  function Low(v: int, bits: nat): int { v % Pow2(bits) }

  /** rgb1 and rgb2 without their lowest bits, subtracted in eight-bit registers.
      Bits [7:1] are the blue field of the packed word, [15:9] the green and
      [23:17] the red one. */
  predicate DiffCheck(p: Pixel, q: Pixel) {
    Different(ToSigned(Low(p.b / 2 - q.b / 2, 8), 8), ToSigned(Low(p.g / 2 - q.g / 2, 8), 8),
              ToSigned(Low(p.r / 2 - q.r / 2, 8), 8))
  }

  /** Luma and chroma differences, cut to the register widths, with the range
      tests of the source. */
  predicate Different(r: int, g: int, b: int) {
    var t := Low(r + b, 9);
    var y := Low(ToSigned(t, 9) + g, 10);
    var u := Low(r - b, 9);
    var v := Low(2 * g - ToSigned(t, 9), 10);
    !((y < 0x60 || y >= 0x3A0) && (u / 16 == 0 || u / 16 == 31) && (v < 0x18 || v >= 0x3E8))
  }

  lemma DiffWidths()
    ensures Pow2(7) == 128 && Pow2(8) == 256 && Pow2(9) == 512 && Pow2(10) == 1024
  {
    assert Pow2(4) == 16;
  }

  /** No difference overflows its register: the test is the plain one on luma
      and the two chroma differences of the halved channels. */
  lemma DiffCheckMeaning(p: Pixel, q: Pixel)
    requires p.Valid() && q.Valid()
    ensures var r, g, b := p.b / 2 - q.b / 2, p.g / 2 - q.g / 2, p.r / 2 - q.r / 2;
            DiffCheck(p, q) <==> !(-96 <= r + g + b < 96 && -16 <= r - b < 16 && -24 <= 2 * g - r - b < 24)
  {
    DiffWidths();
    var r, g, b := p.b / 2 - q.b / 2, p.g / 2 - q.g / 2, p.r / 2 - q.r / 2;
    SignedRoundTrip(r, 8);
    SignedRoundTrip(g, 8);
    SignedRoundTrip(b, 8);
    DifferentMeaning(r, g, b);
    hide Pow2, ToSigned, Different;
  }

  lemma DifferentMeaning(r: int, g: int, b: int)
    requires -128 < r < 128 && -128 < g < 128 && -128 < b < 128
    ensures Different(r, g, b) <==> !(-96 <= r + g + b < 96 && -16 <= r - b < 16 && -24 <= 2 * g - r - b < 24)
  {
    DiffWidths();
    SignedRoundTrip(r + b, 9);
    Residue(r + b + g, 1024);
    Residue(r - b, 512);
    Residue(2 * g - (r + b), 1024);
  }

  lemma Residue(x: int, m: int)
    requires -m <= x < m
    ensures x % m == if x >= 0 then x else x + m
  {
    QuotientUnique(x, m, if x >= 0 then 0 else -1);
  }

  // ---- The packed sum ----

  /** Three lanes of twelve bits. */
  function Lanes(r: int, g: int, b: int): int { r * 0x100_0000 + g * 0x1000 + b }

  /** Up to three shifted additions in a 35-bit result. */
  function ShiftAdd(l: int, w: int): int {
    var m0 := if w % 2 == 1 then l else 0;
    var m1 := if w / 2 % 2 == 1 then (m0 + 2 * l) % Pow2(35) else m0;
    if w / 4 % 2 == 1 then (m1 + 4 * l) % Pow2(35) else m1
  }

  function Mul24x3(c: Pixel, w: int): int { ShiftAdd(Lanes(c.r, c.g, c.b), w) }

  /** !op[3:2]: the extra low weight bit when the second weight is zero. */
  function Spare(op: Op): int { if op.w2 == 0 then 1 else 0 }

  /** The weights in sixteenths: {op[6:4], 1'b0}, {op[3:2], !op[3:2]} and
      {op[1:0], !op[3:2]}. */
  function Weight1(op: Op): int { 2 * op.w1 }
  function Weight2(op: Op): int { 2 * op.w2 + Spare(op) }
  function Weight3(op: Op): int { 2 * op.w3 + Spare(op) }

  function Packed(op: Op, c1: Pixel, c2: Pixel, c3: Pixel): int {
    2 * Mul24x3(c1, op.w1) + Mul24x3(c2, Weight2(op)) + Mul24x3(c3, Weight3(op))
  }

  /** res[35:28], res[23:16] and res[11:4] */
  function Slices(res: int): Pixel {
    Pixel(res / 0x1000_0000 % 256, res / 0x1_0000 % 256, res / 0x10 % 256)
  }

  function Mix(op: Op, c1: Pixel, c2: Pixel, c3: Pixel): Pixel {
    Slices(Packed(op, c1, c2, c3) % Pow2(36))
  }

  lemma WideWords()
    ensures Pow2(35) == 0x8_0000_0000 && Pow2(36) == 0x10_0000_0000
  {
    DiffWidths();
    assert Pow2(20) == 0x10_0000;
    assert Pow2(30) == 0x4000_0000;
  }

  lemma Mul24x3IsProduct(c: Pixel, w: int)
    requires c.Valid() && 0 <= w < 8
    ensures Mul24x3(c, w) == Lanes(w * c.r, w * c.g, w * c.b)
  {
    ShiftAddIsProduct(Lanes(c.r, c.g, c.b), w);
    ScaleLanes(w, c.r, c.g, c.b);
  }

  lemma ShiftAddIsProduct(l: int, w: int)
    requires 0 <= l < 0x1_0000_0000 && 0 <= w < 8
    ensures ShiftAdd(l, w) == w * l
  {
    WideWords();
    Small(2 * l);
    Small(3 * l);
    Small(4 * l);
    Small(5 * l);
    Small(6 * l);
    Small(7 * l);
    if w < 4 {
      assert w == 0 || w == 1 || w == 2 || w == 3;
    } else {
      assert w == 4 || w == 5 || w == 6 || w == 7;
    }
  }

  lemma Small(x: int)
    requires 0 <= x < 0x8_0000_0000
    ensures x % 0x8_0000_0000 == x
  {
  }

  lemma ScaleLanes(w: int, r: int, g: int, b: int)
    ensures w * Lanes(r, g, b) == Lanes(w * r, w * g, w * b)
  {
  }

  /** One channel of the weighted sum. */
  function Channel(op: Op, a: int, b: int, c: int): int {
    Weight1(op) * a + Weight2(op) * b + Weight3(op) * c
  }

  /** The packed sum never carries from one lane into the next: for each of the
      six blend codes every channel of the result is the weighted sum of its own
      channel in sixteenths, rounded down, and the weights add up to one. */
  lemma MixIsWeightedMean(op: Op, c1: Pixel, c2: Pixel, c3: Pixel)
    requires IsBlend(op) && c1.Valid() && c2.Valid() && c3.Valid()
    ensures Weight1(op) + Weight2(op) + Weight3(op) == 16
    ensures Mix(op, c1, c2, c3)
            == Pixel(Channel(op, c1.r, c2.r, c3.r) / 16, Channel(op, c1.g, c2.g, c3.g) / 16,
                     Channel(op, c1.b, c2.b, c3.b) / 16)
    ensures Mix(op, c1, c2, c3).Valid()
  {
    Weights(op);
    ChannelRange(op, c1.r, c2.r, c3.r);
    ChannelRange(op, c1.g, c2.g, c3.g);
    ChannelRange(op, c1.b, c2.b, c3.b);
    var r, g, b := Channel(op, c1.r, c2.r, c3.r), Channel(op, c1.g, c2.g, c3.g), Channel(op, c1.b, c2.b, c3.b);
    PackedSum(op, c1, c2, c3);
    Unpack(r, g, b);
  }

  lemma PackedSum(op: Op, c1: Pixel, c2: Pixel, c3: Pixel)
    requires op.Valid() && Weight2(op) < 8 && Weight3(op) < 8 && c1.Valid() && c2.Valid() && c3.Valid()
    ensures Packed(op, c1, c2, c3)
            == Lanes(Channel(op, c1.r, c2.r, c3.r), Channel(op, c1.g, c2.g, c3.g), Channel(op, c1.b, c2.b, c3.b))
  {
    Mul24x3IsProduct(c1, op.w1);
    Mul24x3IsProduct(c2, Weight2(op));
    Mul24x3IsProduct(c3, Weight3(op));
    ChannelSplit(op, c1.r, c2.r, c3.r);
    ChannelSplit(op, c1.g, c2.g, c3.g);
    ChannelSplit(op, c1.b, c2.b, c3.b);
    AddLanes(Mul24x3(c1, op.w1), Mul24x3(c2, Weight2(op)), Mul24x3(c3, Weight3(op)),
             op.w1 * c1.r, op.w1 * c1.g, op.w1 * c1.b,
             Weight2(op) * c2.r, Weight2(op) * c2.g, Weight2(op) * c2.b,
             Weight3(op) * c3.r, Weight3(op) * c3.g, Weight3(op) * c3.b,
             Channel(op, c1.r, c2.r, c3.r), Channel(op, c1.g, c2.g, c3.g), Channel(op, c1.b, c2.b, c3.b));
  }

  lemma ChannelSplit(op: Op, a: int, b: int, c: int)
    ensures Channel(op, a, b, c) == 2 * (op.w1 * a) + Weight2(op) * b + Weight3(op) * c
  {
    Associate(2, op.w1, a);
  }

  lemma AddLanes(m1: int, m2: int, m3: int, x1: int, y1: int, z1: int, x2: int, y2: int, z2: int,
                 x3: int, y3: int, z3: int, x: int, y: int, z: int)
    requires m1 == Lanes(x1, y1, z1) && m2 == Lanes(x2, y2, z2) && m3 == Lanes(x3, y3, z3)
    requires x == 2 * x1 + x2 + x3 && y == 2 * y1 + y2 + y3 && z == 2 * z1 + z2 + z3
    ensures 2 * m1 + m2 + m3 == Lanes(x, y, z)
  {
  }

  lemma Weights(op: Op)
    requires IsBlend(op)
    ensures op.Valid() && 0 <= Weight1(op) && 0 <= Weight2(op) < 8 && 0 <= Weight3(op) < 8
    ensures Weight1(op) + Weight2(op) + Weight3(op) == 16
  {
  }

  /** A mean of numbers in a range is in the range. */
  lemma MeanBetween(op: Op, a: int, b: int, c: int, lo: int, hi: int)
    requires IsBlend(op) && lo <= a <= hi && lo <= b <= hi && lo <= c <= hi
    ensures 16 * lo <= Channel(op, a, b, c) <= 16 * hi
  {
    Weights(op);
    var u, v, w := Weight1(op), Weight2(op), Weight3(op);
    MulMonotone(lo, a, u);
    MulMonotone(a, hi, u);
    MulMonotone(lo, b, v);
    MulMonotone(b, hi, v);
    MulMonotone(lo, c, w);
    MulMonotone(c, hi, w);
    MeanAlgebra(u, v, w, lo);
    MeanAlgebra(u, v, w, hi);
  }

  lemma MeanAlgebra(u: int, v: int, w: int, x: int)
    requires u + v + w == 16
    ensures x * u + x * v + x * w == 16 * x
  {
    assert x * (u + v + w) == x * u + x * v + x * w;
  }

  lemma ChannelRange(op: Op, a: int, b: int, c: int)
    requires IsBlend(op) && 0 <= a < 256 && 0 <= b < 256 && 0 <= c < 256
    ensures 0 <= Channel(op, a, b, c) <= 16 * 255
  {
    MeanBetween(op, a, b, c, 0, 255);
  }

  lemma Unpack(r: int, g: int, b: int)
    requires 0 <= r < 0x1000 && 0 <= g < 0x1000 && 0 <= b < 0x1000
    ensures Lanes(r, g, b) % Pow2(36) == Lanes(r, g, b)
    ensures Slices(Lanes(r, g, b)) == Pixel(r / 16, g / 16, b / 16)
  {
    WideWords();
    hide Pow2;
    QuotientUnique(Lanes(r, g, b), Pow2(36), 0);
    MiddleSlice(Lanes(r, g, b), 0x1000_0000, 0, r / 16);
    MiddleSlice(Lanes(r, g, b), 0x1_0000, r, g / 16);
    MiddleSlice(Lanes(r, g, b), 0x10, r * 0x1000 + g, b / 16);
  }

  lemma MiddleSlice(v: int, unit: int, above: int, slice: int)
    requires 0 < unit && 0 <= slice < 256
    requires (above * 256 + slice) * unit <= v < (above * 256 + slice) * unit + unit
    ensures v / unit % 256 == slice
  {
    QuotientUnique(v, unit, above * 256 + slice);
    QuotientUnique(above * 256 + slice, 256, above);
  }

  /** A mean: no channel leaves the range spanned by its three sources. */
  lemma MixStaysBetween(op: Op, c1: Pixel, c2: Pixel, c3: Pixel, lo: Pixel, hi: Pixel)
    requires IsBlend(op) && c1.Valid() && c2.Valid() && c3.Valid()
    requires Between(lo, c1, hi) && Between(lo, c2, hi) && Between(lo, c3, hi)
    ensures Between(lo, Mix(op, c1, c2, c3), hi)
  {
    MixIsWeightedMean(op, c1, c2, c3);
    hide Mix, Channel;
    MeanBetween(op, c1.r, c2.r, c3.r, lo.r, hi.r);
    MeanBetween(op, c1.g, c2.g, c3.g, lo.g, hi.g);
    MeanBetween(op, c1.b, c2.b, c3.b, lo.b, hi.b);
  }

  predicate Between(lo: Pixel, p: Pixel, hi: Pixel) {
    lo.r <= p.r <= hi.r && lo.g <= p.g <= hi.g && lo.b <= p.b <= hi.b
  }

  // ---- Choosing code and neighbours ----

  datatype Neighbours = Neighbours(e: Pixel, a: Pixel, b: Pixel, d: Pixel, f: Pixel, h: Pixel) {
    predicate Valid() { e.Valid() && a.Valid() && b.Valid() && d.Valid() && f.Valid() && h.Valid() }
  }

  const BLACK := Pixel(0, 0, 0)

  datatype Choice = Choice(op: Op, c2: Pixel, c3: Pixel)

  /** The case table, indexed by {!is_diff, rule[5:2]}. */
  function Choose(n: Neighbours, index: int): Choice {
    match index
    case 1 | 11 | 12 | 13 | 17 => Choice(BLEND1, n.a, BLACK)
    case 2 | 14 | 18 => Choice(BLEND1, n.d, BLACK)
    case 3 | 15 | 19 => Choice(BLEND1, n.b, BLACK)
    case 4 | 20 | 24 | 27 => Choice(BLEND2, n.d, n.b)
    case 5 | 21 => Choice(BLEND2, n.a, n.b)
    case 6 | 22 => Choice(BLEND2, n.a, n.d)
    case 25 | 29 => Choice(BLEND5, n.d, n.b)
    case 26 => Choice(BLEND6, n.d, n.b)
    case 28 => Choice(BLEND4, n.d, n.b)
    case 30 => Choice(BLEND3, n.b, n.d)
    case 31 => Choice(BLEND3, n.d, n.b)
    case _ => Choice(BLEND1, n.e, BLACK)
  }

  predicate IsDiff(n: Neighbours, rule: int) {
    DiffCheck(if rule / 2 % 2 == 1 then n.b else n.h, if rule % 2 == 1 then n.d else n.f)
  }

  function Index(n: Neighbours, rule: int): int {
    (if IsDiff(n, rule) then 0 else 16) + rule / 4 % 16
  }

  function Blended(n: Neighbours, rule: int): Pixel {
    var c := Choose(n, Index(n, rule));
    Mix(c.op, n.e, c.c2, c.c3)
  }

  /** Registers of the four stages; `Clock` is one enabled edge. */
  datatype Stages = Stages(n: Neighbours, rule: int, i10: Pixel, c0: Choice, i1: Pixel, c: Choice, result: Pixel)

  function Next(s: Stages, n: Neighbours, rule: int): Stages {
    Stages(n, rule, s.n.e, Choose(s.n, Index(s.n, s.rule)), s.i10, s.c0, Mix(s.c.op, s.i1, s.c.c2, s.c.c3))
  }

  /** `out` is the mean of the centre and the two pixels its rule selects. */
  ghost predicate IsMean(n: Neighbours, rule: int, out: Pixel) {
    var c := Choose(n, Index(n, rule));
    && IsBlend(c.op)
    && out.r == Channel(c.op, n.e.r, c.c2.r, c.c3.r) / 16
    && out.g == Channel(c.op, n.e.g, c.c2.g, c.c3.g) / 16
    && out.b == Channel(c.op, n.e.b, c.c2.b, c.c3.b) / 16
  }

  lemma BlendedIsMean(n: Neighbours, rule: int)
    requires n.Valid()
    ensures IsMean(n, rule, Blended(n, rule))
  {
    var c := Choose(n, Index(n, rule));
    MixIsWeightedMean(c.op, n.e, c.c2, c.c3);
  }

  /** The blender as clocked; `seen` are the neighbourhoods and rules presented
      so far. */
  class Blender {
    var n: Neighbours
    var rule: int
    var i10: Pixel
    var c0: Choice
    var i1: Pixel
    var c: Choice
    var result: Pixel
    ghost var seen: seq<(Neighbours, int)>

    ghost function Value(): Stages
      reads this
    {
      Stages(n, rule, i10, c0, i1, c, result)
    }

    /** Each stage works on its own one of the last four. */
    ghost predicate Holds()
      reads this
    {
      var k := |seen|;
      && (k >= 1 ==> (n, rule) == seen[k - 1])
      && (k >= 2 ==> i10 == seen[k - 2].0.e && c0 == Choose(seen[k - 2].0, Index(seen[k - 2].0, seen[k - 2].1)))
      && (k >= 3 ==> i1 == seen[k - 3].0.e && c == Choose(seen[k - 3].0, Index(seen[k - 3].0, seen[k - 3].1)))
      && (k >= 4 ==> result == Blended(seen[k - 4].0, seen[k - 4].1))
    }

    constructor (s: Stages)
      ensures Value() == s && seen == [] && Holds()
    {
      n, rule, i10, c0, i1, c, result := s.n, s.rule, s.i10, s.c0, s.i1, s.c, s.result;
      seen := [];
    }

    /** One enabled edge: from the fourth on, the result is the mean of the
        neighbourhood presented three edges before. */
    method Clock(n': Neighbours, rule': int)
      requires Holds()
      modifies this
      ensures Holds() && seen == old(seen) + [(n', rule')]
      ensures |seen| >= 4 && seen[|seen| - 4].0.Valid() ==>
                IsMean(seen[|seen| - 4].0, seen[|seen| - 4].1, result)
      ensures Value() == Next(old(Value()), n', rule')
    {
      hide Choose, Index, Mix, IsMean;
      result := Mix(c.op, i1, c.c2, c.c3);
      i1, c := i10, c0;
      i10, c0 := n.e, Choose(n, Index(n, rule));
      n, rule := n', rule';
      seen := seen + [(n', rule')];
      if |seen| >= 4 && seen[|seen| - 4].0.Valid() {
        BlendedIsMean(seen[|seen| - 4].0, seen[|seen| - 4].1);
      }
    }
  }

  /** Four enabled edges after its neighbourhood is presented, the blended pixel
      leaves, and it is the weighted mean its rule selects, whatever the stages
      held and whatever follows. */
  lemma BlendLatency(s: Stages, n: Neighbours, rule: int, m1: Neighbours, r1: int, m2: Neighbours, r2: int,
                     m3: Neighbours, r3: int)
    requires n.Valid()
    ensures IsMean(n, rule, Next(Next(Next(Next(s, n, rule), m1, r1), m2, r2), m3, r3).result)
  {
    BlendedIsMean(n, rule);
  }

  /** A flat area keeps its colour under every rule. */
  lemma FlatAreaKept(p: Pixel, rule: int)
    requires p.Valid() && 0 <= rule < 64
    ensures Blended(Neighbours(p, p, p, p, p, p), rule) == p
  {
    FlatChoice(p, Index(Neighbours(p, p, p, p, p, p), rule));
  }

  lemma FlatChoice(p: Pixel, index: int)
    requires p.Valid()
    ensures var c := Choose(Neighbours(p, p, p, p, p, p), index); Mix(c.op, p, c.c2, c.c3) == p
  {
    var c := Choose(Neighbours(p, p, p, p, p, p), index);
    assert IsBlend(c.op) && c.c2 == p;
    if c.c3 == BLACK { assert c.op == BLEND1 || p == BLACK; }
    MixIsWeightedMean(c.op, p, c.c2, c.c3);
    FlatChannel(c.op, p.r, c.c3.r);
    FlatChannel(c.op, p.g, c.c3.g);
    FlatChannel(c.op, p.b, c.c3.b);
  }

  lemma FlatChannel(op: Op, x: int, z: int)
    requires IsBlend(op) && (x == z || op == BLEND1)
    ensures Channel(op, x, x, z) / 16 == x
  {
    Weights(op);
    MeanAlgebra(Weight1(op), Weight2(op), Weight3(op), x);
    if op == BLEND1 {
      assert Weight3(op) == 0;
    }
  }

  // ---- The rules in plain numbers ----

  /** The test of hq2x on two colours. */
  predicate Alike(p: Pixel, q: Pixel) {
    var r, g, b := p.b / 2 - q.b / 2, p.g / 2 - q.g / 2, p.r / 2 - q.r / 2;
    -96 <= r + g + b < 96 && -16 <= r - b < 16 && -24 <= 2 * g - r - b < 24
  }

  /** Sixteenths of three pixels, channel by channel. */
  predicate Mixes(out: Pixel, u: int, a: Pixel, v: int, b: Pixel, w: int, c: Pixel) {
    && out.r == (u * a.r + v * b.r + w * c.r) / 16
    && out.g == (u * a.g + v * b.g + w * c.g) / 16
    && out.b == (u * a.b + v * b.b + w * c.b) / 16
  }

  /** Sixteenths of the centre and of two further pixels. */
  datatype Recipe = Recipe(u: int, v: int, p: Pixel, w: int, q: Pixel)

  /** What each rule asks for, by its upper four bits and whether the two pixels
      compared are alike; where it asks for nothing the centre stays. */
  function Asked(n: Neighbours, k: int, alike: bool): Recipe {
    match k
    case 1 => Recipe(12, 4, n.a, 0, BLACK)
    case 2 => Recipe(12, 4, n.d, 0, BLACK)
    case 3 => Recipe(12, 4, n.b, 0, BLACK)
    case 4 => Recipe(8, 4, n.d, 4, n.b)
    case 5 => Recipe(8, 4, n.a, 4, n.b)
    case 6 => Recipe(8, 4, n.a, 4, n.d)
    case 8 => if alike then Recipe(8, 4, n.d, 4, n.b) else Recipe(12, 4, n.e, 0, BLACK)
    case 9 => if alike then Recipe(4, 6, n.d, 6, n.b) else Recipe(12, 4, n.e, 0, BLACK)
    case 10 => if alike then Recipe(14, 1, n.d, 1, n.b) else Recipe(12, 4, n.e, 0, BLACK)
    case 11 => if alike then Recipe(8, 4, n.d, 4, n.b) else Recipe(12, 4, n.a, 0, BLACK)
    case 12 => if alike then Recipe(12, 2, n.d, 2, n.b) else Recipe(12, 4, n.a, 0, BLACK)
    case 13 => if alike then Recipe(4, 6, n.d, 6, n.b) else Recipe(12, 4, n.a, 0, BLACK)
    case 14 => if alike then Recipe(10, 4, n.b, 2, n.d) else Recipe(12, 4, n.d, 0, BLACK)
    case 15 => if alike then Recipe(10, 4, n.d, 2, n.b) else Recipe(12, 4, n.b, 0, BLACK)
    case _ => Recipe(12, 4, n.e, 0, BLACK)
  }

  /** The two low rule bits choose which pair of neighbours is compared, the upper
      four and the comparison choose the mix. */
  lemma RulesMean(n: Neighbours, rule: int)
    requires n.Valid() && 0 <= rule < 64
    ensures var x, y := if rule / 2 % 2 == 1 then n.b else n.h, if rule % 2 == 1 then n.d else n.f;
            var r := Asked(n, rule / 4, Alike(x, y));
            Mixes(Blended(n, rule), r.u, n.e, r.v, r.p, r.w, r.q)
  {
    hide DiffCheck, Alike, Mix, Mixes, Choose, Asked, IsBlend;
    var x, y := if rule / 2 % 2 == 1 then n.b else n.h, if rule % 2 == 1 then n.d else n.f;
    AlikeUndiffered(x, y);
    RuleBits(rule);
    var c := Choose(n, Index(n, rule));
    ChoiceValid(n, Index(n, rule));
    AskedChosen(n, rule / 4, Alike(x, y));
    MixMeans(c.op, n.e, c.c2, c.c3);
  }

  lemma AlikeUndiffered(p: Pixel, q: Pixel)
    requires p.Valid() && q.Valid()
    ensures DiffCheck(p, q) <==> !Alike(p, q)
  {
    DiffCheckMeaning(p, q);
    hide DiffCheck;
  }

  lemma RuleBits(rule: int)
    requires 0 <= rule < 64
    ensures rule / 4 % 16 == rule / 4 && 0 <= rule / 4 < 16
  {
  }

  lemma ChoiceValid(n: Neighbours, index: int)
    requires n.Valid()
    ensures var c := Choose(n, index); IsBlend(c.op) && c.c2.Valid() && c.c3.Valid()
  {
  }

  predicate AskedIsChosen(n: Neighbours, k: int, alike: bool) {
    var c, r := Choose(n, (if alike then 16 else 0) + k), Asked(n, k, alike);
    && r.u == Weight1(c.op) && r.v == Weight2(c.op) && r.w == Weight3(c.op)
    && r.p == c.c2 && r.q == c.c3
  }

  lemma AskedChosen(n: Neighbours, k: int, alike: bool)
    requires 0 <= k < 16
    ensures AskedIsChosen(n, k, alike)
  {
    hide AskedIsChosen;
    if k < 4 {
      AskedFrom0(n, k, alike);
    } else if k < 8 {
      AskedFrom4(n, k, alike);
    } else if k < 12 {
      AskedFrom8(n, k, alike);
    } else {
      AskedFrom12(n, k, alike);
    }
  }

  lemma AskedFrom0(n: Neighbours, k: int, alike: bool)
    requires 0 <= k < 4
    ensures AskedIsChosen(n, k, alike)
  {
  }

  lemma AskedFrom4(n: Neighbours, k: int, alike: bool)
    requires 4 <= k < 8
    ensures AskedIsChosen(n, k, alike)
  {
  }

  lemma AskedFrom8(n: Neighbours, k: int, alike: bool)
    requires 8 <= k < 12
    ensures AskedIsChosen(n, k, alike)
  {
  }

  lemma AskedFrom12(n: Neighbours, k: int, alike: bool)
    requires 12 <= k < 16
    ensures AskedIsChosen(n, k, alike)
  {
  }

  lemma MixMeans(op: Op, e: Pixel, c2: Pixel, c3: Pixel)
    requires IsBlend(op) && e.Valid() && c2.Valid() && c3.Valid()
    ensures Mixes(Mix(op, e, c2, c3), Weight1(op), e, Weight2(op), c2, Weight3(op), c3)
  {
    MixIsWeightedMean(op, e, c2, c3);
    hide Mix;
  }
}
