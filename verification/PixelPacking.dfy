/** Packing of pixels into memory words and back (shift_ishift, shift_ipack,
    shift_inext, shift_opack, shift_onext, shift_opix of ascal.vhd).  All slices
    of the source fall on byte boundaries, so shift registers are byte strings
    with the leftmost byte first. */
module PixelPacking {
  import opened Arithmetic

  type Byte = bv8

  datatype Pixel = Pixel(r: Byte, g: Byte, b: Byte)

  datatype Format = Rgb565 | Rgb888 | Rgb8888 {
    function Size(): nat {
      match this
      case Rgb565 => 2
      case Rgb888 => 3
      case Rgb8888 => 4
    }
  }

  /** Bytes of a memory word: N_DW / 8. */
  predicate WordSize(w: nat) { w == 8 || w == 16 }

  /** Where pixel `k` starts in a line's byte stream. */
  function Offset(f: Format, k: nat): nat {
    match f
    case Rgb565 => 2 * k
    case Rgb888 => 3 * k
    case Rgb8888 => 4 * k
  }

  /** Where memory word `i` starts. */
  function WordStart(w: nat, i: nat): nat
    requires WordSize(w)
  {
    if w == 16 then 16 * i else 8 * i
  }

  /** Bytes by which `n` exceeds a whole number of words. */
  function Over(w: nat, n: nat): (r: nat)
    requires WordSize(w)
    ensures r < w && r <= n
  {
    if n < w then n else Over(w, n - w)
  }

  lemma {:induction false} OverIsResidue(w: nat, n: nat)
    requires WordSize(w)
    ensures Over(w, n) == n % w
  {
    if n >= w {
      OverIsResidue(w, n - w);
      TakeWord(n, w);
    }
  }

  lemma TakeWord(n: int, w: int)
    requires w == 8 || w == 16
    ensures (n - w) % w == n % w
  {
    ModShift(n, w, -1);
  }

  /** The one unusable build: with 64-bit words, shift_ipack and shift_inext
      disagree on where 32-bit pixels complete a word. */
  predicate Supported(w: nat, f: Format) { WordSize(w) && !(w == 8 && f == Rgb8888) }

  /** The bytes one pixel contributes to memory. */
  function Encode(f: Format, p: Pixel): (s: seq<Byte>)
    ensures |s| == f.Size()
  {
    match f
    case Rgb565 => [((p.g & 0x1C) << 3) | (p.r >> 3), (p.b & 0xF8) | (p.g >> 5)]
    case Rgb888 => [p.r, p.g, p.b]
    case Rgb8888 => [p.r, p.g, p.b, 0]
  }

  /** shift_ishift: the 120-bit input register after one pixel. */
  function ShiftIn(shift: seq<Byte>, p: Pixel, f: Format): (r: seq<Byte>)
    requires |shift| == 15
    ensures |r| == 15
  {
    shift[f.Size()..] + Encode(f, p)
  }

  /** shift_inext: this pixel completes a word. */
  predicate InNext(w: nat, acpt: nat, f: Format) {
    match f
    case Rgb888 =>
      (w == 16 && (acpt == 5 || acpt == 10 || acpt == 15)) ||
      (w == 8 && (acpt % 8 == 2 || acpt % 8 == 5 || acpt % 8 == 7))
    case Rgb8888 => (w == 16 && acpt % 4 == 3) || (w == 8 && acpt % 2 == 1)
    case Rgb565 => (w == 16 && acpt % 8 == 7) || (w == 8 && acpt % 4 == 3)
  }

  /** shift_ipack: the word register after one pixel. */
  function Pack(w: nat, dw: seq<Byte>, acpt: nat, shift: seq<Byte>, p: Pixel, f: Format): seq<Byte>
    requires WordSize(w) && |shift| == 15
  {
    match f
    case Rgb888 =>
      if w == 16 then
        if acpt == 5 then shift + [p.r]
        else if acpt == 10 then shift[1..] + [p.r, p.g]
        else if acpt == 15 then shift[2..] + [p.r, p.g, p.b]
        else dw
      else
        if acpt % 8 == 2 then shift[9..] + [p.r, p.g]
        else if acpt % 8 == 5 then shift[8..] + [p.r]
        else if acpt % 8 == 7 then shift[10..] + [p.r, p.g, p.b]
        else dw
    case Rgb8888 =>
      if (w == 16 && acpt % 4 == 3) || (w == 8 && acpt % 8 == 7)
      then shift[16 - w + 3..] + Encode(f, p) else dw
    case Rgb565 =>
      if (w == 16 && acpt % 8 == 7) || (w == 8 && acpt % 4 == 3)
      then shift[16 - w + 1..] + Encode(f, p) else dw
  }

  /** Input registers and the words pushed to the line buffer so far. */
  datatype Packer = Packer(shift: seq<Byte>, dw: seq<Byte>, acpt: nat, words: seq<seq<Byte>>) {
    predicate Valid(w: nat) { |shift| == 15 && |dw| == w && acpt < 16 }
  }

  function PackNext(w: nat, f: Format, s: Packer, p: Pixel): Packer
    requires WordSize(w) && |s.shift| == 15
  {
    var dw := Pack(w, s.dw, s.acpt, s.shift, p, f);
    Packer(ShiftIn(s.shift, p, f), dw, (s.acpt + 1) % 16,
           if InNext(w, s.acpt, f) then s.words + [dw] else s.words)
  }

  function PackAll(w: nat, f: Format, s: Packer, ps: seq<Pixel>): (t: Packer)
    requires WordSize(w) && |s.shift| == 15
    ensures |t.shift| == 15
    decreases |ps|
  {
    if ps == [] then s else PackNext(w, f, PackAll(w, f, s, ps[..|ps| - 1]), ps[|ps| - 1])
  }

  // ---- What the packer writes ----

  function Stream(f: Format, ps: seq<Pixel>): (s: seq<Byte>)
    ensures |s| == Offset(f, |ps|)
    decreases |ps|
  {
    if ps == [] then [] else Stream(f, ps[..|ps| - 1]) + Encode(f, ps[|ps| - 1])
  }

  function Flatten(words: seq<seq<Byte>>): seq<Byte>
    decreases |words|
  {
    if words == [] then [] else Flatten(words[..|words| - 1]) + words[|words| - 1]
  }

  /** Bytes of the next pixel that still belong to the word it completes. */
  function Cut(w: nat, f: Format, k: nat): nat
    requires WordSize(w)
  {
    w - Over(w, Offset(f, k))
  }

  /** Sixteen pixels fill whole words, so the position counter knows where the
      word boundaries are. */
  lemma CutPeriodic(w: nat, f: Format, k: nat)
    requires WordSize(w)
    ensures Cut(w, f, k) == Cut(w, f, k % 16)
  {
    var g := k / 16;
    assert k == 16 * g + k % 16;
    var n := Offset(f, k % 16);
    OverIsResidue(w, Offset(f, k));
    OverIsResidue(w, n);
    if w == 16 {
      match f
      case Rgb565 => Periods(n, 16, 2 * g);
      case Rgb888 => Periods(n, 16, 3 * g);
      case Rgb8888 => Periods(n, 16, 4 * g);
    } else {
      match f
      case Rgb565 => Periods(n, 8, 4 * g);
      case Rgb888 => Periods(n, 8, 6 * g);
      case Rgb8888 => Periods(n, 8, 8 * g);
    }
  }

  lemma Periods(n: int, w: int, q: int)
    requires w == 8 || w == 16
    ensures (w * q + n) % w == n % w
  {
    ModShift(n, w, q);
  }

  /** Pixel `k` completes a word exactly when the word boundary falls within
      its bytes. */
  lemma InNextIsBoundary(w: nat, f: Format, k: nat)
    requires Supported(w, f)
    ensures InNext(w, k % 16, f) <==> Cut(w, f, k) <= f.Size()
  {
    CutPeriodic(w, f, k);
    InNextTable(w, f, k % 16);
  }

  lemma InNextTable(w: nat, f: Format, a: nat)
    requires Supported(w, f) && a < 16
    ensures InNext(w, a, f) <==> Cut(w, f, a) <= f.Size()
  {
    OverIsResidue(w, Offset(f, a));
    match f
    case Rgb565 => Doubles(a);
    case Rgb888 =>
      Triples(a);
      if w == 16 {
        assert InNext(w, a, f) <==> a == 5 || a == 10 || a == 15;
      } else {
        assert InNext(w, a, f) <==> a % 8 == 2 || a % 8 == 5 || a % 8 == 7;
      }
    case Rgb8888 => Doubles(a);
  }

  lemma Doubles(a: nat)
    requires a < 16
    ensures 2 * a % 16 == 2 * (a % 8)
    ensures 2 * a % 8 == 2 * (a % 4)
    ensures 4 * a % 16 == 4 * (a % 4)
  {
  }

  lemma Triples(a: nat)
    requires a < 16
    ensures 3 * a % 16 == if a <= 5 then 3 * a else if a <= 10 then 3 * a - 16 else 3 * a - 32
    ensures 3 * a % 8 == 3 * (a % 8) % 8
    ensures a % 8 <= 2 ==> 3 * a % 8 == 3 * (a % 8)
    ensures 3 <= a % 8 <= 5 ==> 3 * a % 8 == 3 * (a % 8) - 8
    ensures 6 <= a % 8 ==> 3 * a % 8 == 3 * (a % 8) - 16
  {
  }

  /** The word then assembled: the tail of the register, then the pixel's
      share. */
  lemma PackAtBoundary(w: nat, f: Format, k: nat, dw: seq<Byte>, shift: seq<Byte>, p: Pixel)
    requires Supported(w, f) && |shift| == 15 && InNext(w, k % 16, f)
    ensures var c := Cut(w, f, k);
            && 1 <= c <= f.Size() && w - c <= 15
            && Pack(w, dw, k % 16, shift, p, f) == shift[15 - (w - c)..] + Encode(f, p)[..c]
  {
    CutPeriodic(w, f, k);
    InNextTable(w, f, k % 16);
    PackTable(w, f, k % 16, dw, shift, p);
  }

  lemma PackTable(w: nat, f: Format, a: nat, dw: seq<Byte>, shift: seq<Byte>, p: Pixel)
    requires Supported(w, f) && |shift| == 15 && a < 16 && InNext(w, a, f)
    requires 1 <= Cut(w, f, a) <= f.Size() && w - Cut(w, f, a) <= 15
    ensures Pack(w, dw, a, shift, p, f) == shift[15 - (w - Cut(w, f, a))..] + Encode(f, p)[..Cut(w, f, a)]
  {
    CutTable(w, f, a);
    match f
    case Rgb565 => assert Encode(f, p)[..2] == Encode(f, p);
    case Rgb888 => if w == 16 { PackWide(a, dw, shift, p); } else { PackNarrow(a, dw, shift, p); }
    case Rgb8888 => assert Encode(f, p)[..4] == Encode(f, p);
  }

  /** How much of a pixel completes a word, where one does. */
  lemma CutTable(w: nat, f: Format, a: nat)
    requires Supported(w, f) && a < 16 && InNext(w, a, f)
    ensures f != Rgb888 ==> Cut(w, f, a) == f.Size()
    ensures f == Rgb888 && w == 16 ==> Cut(w, f, a) == if a == 5 then 1 else if a == 10 then 2 else 3
    ensures f == Rgb888 && w == 8 ==> Cut(w, f, a) == if a % 8 == 2 then 2 else if a % 8 == 5 then 1 else 3
  {
    OverIsResidue(w, Offset(f, a));
    match f
    case Rgb565 => Doubles(a);
    case Rgb888 => Triples(a);
    case Rgb8888 => Doubles(a);
  }

  lemma PackWide(a: nat, dw: seq<Byte>, shift: seq<Byte>, p: Pixel)
    requires |shift| == 15 && (a == 5 || a == 10 || a == 15)
    ensures a == 5 ==> Pack(16, dw, a, shift, p, Rgb888) == shift[0..] + [p.r, p.g, p.b][..1]
    ensures a == 10 ==> Pack(16, dw, a, shift, p, Rgb888) == shift[1..] + [p.r, p.g, p.b][..2]
    ensures a == 15 ==> Pack(16, dw, a, shift, p, Rgb888) == shift[2..] + [p.r, p.g, p.b][..3]
  {
    assert [p.r, p.g, p.b][..1] == [p.r];
    assert [p.r, p.g, p.b][..2] == [p.r, p.g];
    assert [p.r, p.g, p.b][..3] == [p.r, p.g, p.b];
    assert shift[0..] == shift;
  }

  lemma PackNarrow(a: nat, dw: seq<Byte>, shift: seq<Byte>, p: Pixel)
    requires |shift| == 15 && (a % 8 == 2 || a % 8 == 5 || a % 8 == 7)
    ensures a % 8 == 2 ==> Pack(8, dw, a, shift, p, Rgb888) == shift[9..] + [p.r, p.g, p.b][..2]
    ensures a % 8 == 5 ==> Pack(8, dw, a, shift, p, Rgb888) == shift[8..] + [p.r, p.g, p.b][..1]
    ensures a % 8 == 7 ==> Pack(8, dw, a, shift, p, Rgb888) == shift[10..] + [p.r, p.g, p.b][..3]
  {
    assert [p.r, p.g, p.b][..1] == [p.r];
    assert [p.r, p.g, p.b][..2] == [p.r, p.g];
    assert [p.r, p.g, p.b][..3] == [p.r, p.g, p.b];
  }

  /** Bytes in the completed words among `n`. */
  function Whole(n: nat, w: nat): nat
    requires WordSize(w)
  {
    n - Over(w, n)
  }

  lemma {:induction false} WholeStep(n: nat, size: nat, w: nat)
    requires WordSize(w) && 0 < size <= 4
    ensures Over(w, n) + size < w ==> Over(w, n + size) == Over(w, n) + size
    ensures Over(w, n) + size >= w ==> Over(w, n + size) == Over(w, n) + size - w
    ensures Over(w, n) + size < w ==> Whole(n + size, w) == Whole(n, w)
    ensures Over(w, n) + size >= w ==> Whole(n + size, w) == n + (w - Over(w, n)) == Whole(n, w) + w
  {
    if n >= w {
      WholeStep(n - w, size, w);
      assert Over(w, n) == Over(w, n - w) && Over(w, n + size) == Over(w, n - w + size);
    } else if n + size >= w {
      assert Over(w, n + size) == Over(w, n + size - w) == n + size - w;
    }
  }

  /** The words are exactly the whole words of a byte stream. */
  ghost predicate Completed(words: seq<seq<Byte>>, bytes: seq<Byte>, w: nat)
    requires WordSize(w)
  {
    && Flatten(words) == bytes[..Whole(|bytes|, w)]
    && (forall i | 0 <= i < |words| :: |words[i]| == w)
  }

  /** What memory holds: after any number of pixels the words pushed are exactly
      the whole words of the pixel byte stream, in order, and the register keeps
      its last fifteen bytes.  No build other than 64-bit words with 32-bit
      pixels is excluded, and nothing depends on stale register contents. */
  lemma {:induction false} PackedStream(w: nat, f: Format, s: Packer, ps: seq<Pixel>)
    requires Supported(w, f) && |s.shift| == 15 && s.acpt == 0 && s.words == []
    ensures var t, bytes := PackAll(w, f, s, ps), Stream(f, ps);
            && t.acpt == |ps| % 16
            && t.shift == (s.shift + bytes)[|bytes|..]
            && Completed(t.words, bytes, w)
    decreases |ps|
  {
    if ps == [] {
      assert (s.shift + [])[0..] == s.shift;
    } else {
      var front, p := ps[..|ps| - 1], ps[|ps| - 1];
      PackedStream(w, f, s, front);
      PackedStep(w, f, PackAll(w, f, s, front), s.shift, Stream(f, front), |front|, p);
      assert Stream(f, ps) == Stream(f, front) + Encode(f, p);
    }
  }

  lemma PackedStep(w: nat, f: Format, t: Packer, shift0: seq<Byte>, bytes: seq<Byte>, k: nat, p: Pixel)
    requires Supported(w, f) && |shift0| == 15 && |bytes| == Offset(f, k)
    requires t.acpt == k % 16 && t.shift == (shift0 + bytes)[|bytes|..]
    requires Completed(t.words, bytes, w)
    ensures var u, all := PackNext(w, f, t, p), bytes + Encode(f, p);
            && u.acpt == (k + 1) % 16
            && u.shift == (shift0 + all)[|all|..]
            && Completed(u.words, all, w)
  {
    NextCount(k);
    ShiftInKeepsTail(shift0, bytes, t.shift, f, p);
    PackedWords(w, f, t, shift0, bytes, k, p);
  }

  /** The packer as clocked; `seen` are the pixels pushed since the line began
      and `stale` what the shift register held before. */
  class InputPacker {
    const w: nat
    const f: Format
    var shift: seq<Byte>
    var dw: seq<Byte>
    var acpt: nat
    var words: seq<seq<Byte>>
    ghost var seen: seq<Pixel>
    ghost const stale: seq<Byte>

    ghost function Value(): Packer
      reads this
    {
      Packer(shift, dw, acpt, words)
    }

    /** Memory holds the whole words of the pixels seen, the register their last
        fifteen bytes. */
    ghost predicate Holds()
      reads this
    {
      && Supported(w, f) && |stale| == 15
      && acpt == |seen| % 16
      && shift == (stale + Stream(f, seen))[|Stream(f, seen)|..]
      && Completed(words, Stream(f, seen), w)
    }

    constructor (w: nat, f: Format, shift: seq<Byte>, dw: seq<Byte>)
      requires WordSize(w) && |shift| == 15 && |dw| == w
      ensures this.w == w && this.f == f && Value() == Packer(shift, dw, 0, []) && seen == []
      ensures Supported(w, f) ==> Holds()
    {
      this.w, this.f, this.shift, this.dw, acpt, words := w, f, shift, dw, 0, [];
      seen, stale := [], shift;
    }

    method Push(p: Pixel)
      requires WordSize(w) && |shift| == 15
      modifies this
      ensures Value() == PackNext(w, f, old(Value()), p) && |shift| == 15
      ensures seen == old(seen) + [p]
      ensures old(Holds()) ==> Holds()
    {
      hide Pack, ShiftIn, InNext, Stream, Completed, Supported, Encode;
      ghost var before, bytes := Value(), Stream(f, seen);
      dw := Pack(w, dw, acpt, shift, p, f);
      shift := ShiftIn(shift, p, f);
      if InNext(w, acpt, f) { words := words + [dw]; }
      acpt := (acpt + 1) % 16;
      seen := seen + [p];
      assert Value() == PackNext(w, f, before, p);
      hide PackNext;
      StreamGrows(f, old(seen), p);
      if old(Holds()) {
        PackedStep(w, f, before, stale, bytes, |old(seen)|, p);
      }
    }
  }

  lemma StreamGrows(f: Format, ps: seq<Pixel>, p: Pixel)
    ensures Stream(f, ps + [p]) == Stream(f, ps) + Encode(f, p)
  {
    assert (ps + [p])[..|ps + [p]| - 1] == ps;
  }

  lemma PackedWords(w: nat, f: Format, t: Packer, shift0: seq<Byte>, bytes: seq<Byte>, k: nat, p: Pixel)
    requires Supported(w, f) && |shift0| == 15 && |bytes| == Offset(f, k)
    requires t.acpt == k % 16 && t.shift == (shift0 + bytes)[|bytes|..]
    requires Completed(t.words, bytes, w)
    ensures Completed(PackNext(w, f, t, p).words, bytes + Encode(f, p), w)
  {
    InNextIsBoundary(w, f, k);
    if InNext(w, t.acpt, f) {
      PackAtBoundary(w, f, k, t.dw, t.shift, p);
      var dw := Pack(w, t.dw, t.acpt, t.shift, p, f);
      WordCompleted(bytes, shift0, t.shift, Encode(f, p), w, Cut(w, f, k), t.words, dw);
      assert PackNext(w, f, t, p).words == t.words + [dw];
    } else {
      WordOpen(bytes, Encode(f, p), w, t.words);
    }
  }

  /** The bytes of one pixel complete a word ... */
  lemma WordCompleted(bytes: seq<Byte>, shift0: seq<Byte>, shift: seq<Byte>, e: seq<Byte>, w: nat, c: nat,
                      words: seq<seq<Byte>>, dw: seq<Byte>)
    requires WordSize(w) && 0 < |e| <= 4
    requires |shift0| == 15 && shift == (shift0 + bytes)[|bytes|..]
    requires c == w - Over(w, |bytes|) <= |e| && w - c <= 15 && dw == shift[15 - (w - c)..] + e[..c]
    requires Completed(words, bytes, w)
    ensures Completed(words + [dw], bytes + e, w)
  {
    hide Over, Flatten;
    assert Whole(|bytes|, w) == |bytes| - (w - c) && Whole(|bytes + e|, w) == |bytes| + c by {
      WholeStep(|bytes|, |e|, w);
    }
    assert Flatten(words) + dw == (bytes + e)[..|bytes| + c] by {
      WordCompletes(bytes, shift0, e, c, w, Flatten(words));
    }
    WordAdded(words, dw, w);
  }

  /** ... or leave it open. */
  lemma WordOpen(bytes: seq<Byte>, e: seq<Byte>, w: nat, words: seq<seq<Byte>>)
    requires WordSize(w) && 0 < |e| <= 4 && |e| < w - Over(w, |bytes|)
    requires Completed(words, bytes, w)
    ensures Completed(words, bytes + e, w)
  {
    hide Over, Flatten;
    WholeStep(|bytes|, |e|, w);
  }

  lemma WordAdded(words: seq<seq<Byte>>, dw: seq<Byte>, w: nat)
    ensures Flatten(words + [dw]) == Flatten(words) + dw
  {
    assert (words + [dw])[..|words + [dw]| - 1] == words;
  }

  lemma NextCount(k: nat)
    ensures (k % 16 + 1) % 16 == (k + 1) % 16
  {
  }

  lemma ShiftInKeepsTail(shift0: seq<Byte>, bytes: seq<Byte>, shift: seq<Byte>, f: Format, p: Pixel)
    requires |shift0| == 15 && shift == (shift0 + bytes)[|bytes|..]
    ensures ShiftIn(shift, p, f) == (shift0 + (bytes + Encode(f, p)))[|bytes| + f.Size()..]
  {
    assert shift0 + (bytes + Encode(f, p)) == (shift0 + bytes) + Encode(f, p);
  }

  lemma WordCompletes(bytes: seq<Byte>, shift0: seq<Byte>, e: seq<Byte>, c: nat, w: nat, flat: seq<Byte>)
    requires |shift0| == 15 && 1 <= c <= |e| && c <= w <= c + 15 && w - c <= |bytes|
    requires flat == bytes[..|bytes| - (w - c)]
    ensures flat + ((shift0 + bytes)[|bytes|..][15 - (w - c)..] + e[..c]) == (bytes + e)[..|bytes| + c]
  {
    assert (shift0 + bytes)[|bytes|..][15 - (w - c)..] == bytes[|bytes| - (w - c)..];
  }

  // ---- Reading back ----

  /** shift_opack: the output register after one pixel shift; `dr` is the word
      the read address points at. */
  function ShiftOut(w: nat, acpt: nat, shift: seq<Byte>, dr: seq<Byte>, f: Format): (v: seq<Byte>)
    requires WordSize(w) && |shift| == w + 2 && |dr| == w
    ensures |v| == w + 2
  {
    match f
    case Rgb565 =>
      if (w == 16 && acpt % 8 == 0) || (w == 8 && acpt % 4 == 0) then dr + dr[w - 2..]
      else shift[2..] + dr[w - 2..]
    case Rgb888 =>
      if w == 16 then
        if acpt == 0 then dr + dr[w - 2..]
        else if acpt == 5 then shift[3..4] + dr + dr[w - 1..]
        else if acpt == 10 then shift[3..5] + dr
        else shift[3..] + dr[w - 3..]
      else
        if acpt % 8 == 0 then dr + dr[w - 2..]
        else if acpt % 8 == 2 then shift[3..5] + dr
        else if acpt % 8 == 5 then shift[3..4] + dr + dr[w - 1..]
        else shift[3..] + dr[w - 3..]
    case Rgb8888 =>
      if (w == 16 && acpt % 4 == 0) || (w == 8 && acpt % 2 == 0) then dr + dr[w - 2..]
      else shift[4..] + dr[w - 4..]
  }

  /** shift_onext: the word at the read address is used up. */
  predicate OutNext(w: nat, acpt: nat, f: Format) {
    match f
    case Rgb565 => (w == 16 && acpt % 8 == 0) || (w == 8 && acpt % 4 == 0)
    case Rgb888 =>
      (w == 16 && (acpt == 0 || acpt == 5 || acpt == 10)) ||
      (w == 8 && (acpt % 8 == 0 || acpt % 8 == 2 || acpt % 8 == 5))
    case Rgb8888 => (w == 16 && acpt % 4 == 0) || (w == 8 && acpt % 2 == 0)
  }

  /** shift_opix: the pixel at the left of the output register. */
  function Decode(s: seq<Byte>, f: Format): Pixel
    requires |s| >= 3
  {
    match f
    case Rgb565 =>
      Pixel(((s[0] & 0x1F) << 3) | ((s[0] & 0x1F) >> 2),
            ((s[1] & 7) << 5) | ((s[0] >> 5) << 2) | ((s[1] & 7) >> 1),
            (s[1] & 0xF8) | (s[1] >> 5))
    case Rgb888 => Pixel(s[0], s[1], s[2])
    case Rgb8888 => Pixel(s[0], s[1], s[2])
  }

  /** A channel cut to five or six bits and widened again by repeating its top
      bits. */
  function Quantized(f: Format, p: Pixel): Pixel {
    if f == Rgb565 then
      Pixel((p.r & 0xF8) | (p.r >> 5), (p.g & 0xFC) | (p.g >> 6), (p.b & 0xF8) | (p.b >> 5))
    else p
  }

  lemma DecodeEncode(f: Format, p: Pixel, s: seq<Byte>)
    requires |s| >= 4 && s[..f.Size()] == Encode(f, p)
    ensures Decode(s, f) == Quantized(f, p)
  {
    assert forall j | 0 <= j < f.Size() :: s[j] == s[..f.Size()][j];
  }

  datatype Unpacker = Unpacker(shift: seq<Byte>, acpt: nat, ad: nat, pixels: seq<Pixel>)

  /** One pixel shift; the data port shows the addressed word, or anything at
      all beyond the last one. */
  function UnpackNext(w: nat, f: Format, s: Unpacker, dr: seq<Byte>): Unpacker
    requires WordSize(w) && |s.shift| == w + 2 && |dr| == w
  {
    var v := ShiftOut(w, s.acpt, s.shift, dr, f);
    Unpacker(v, (s.acpt + 1) % 16, if OutNext(w, s.acpt, f) then s.ad + 1 else s.ad, s.pixels + [Decode(v, f)])
  }

  function Port(words: seq<seq<Byte>>, ad: nat, other: seq<Byte>): seq<Byte> {
    if ad < |words| then words[ad] else other
  }

  function UnpackAll(w: nat, f: Format, s: Unpacker, words: seq<seq<Byte>>, other: seq<Byte>, n: nat): (t: Unpacker)
    requires WordSize(w) && |s.shift| == w + 2 && |other| == w
    requires forall i | 0 <= i < |words| :: |words[i]| == w
    ensures |t.shift| == w + 2
  {
    if n == 0 then s
    else
      var t := UnpackAll(w, f, s, words, other, n - 1);
      UnpackNext(w, f, t, Port(words, t.ad, other))
  }

  /** Bytes of loaded words that pixel `k` finds in the register. */
  function Left(w: nat, f: Format, k: nat): nat
    requires WordSize(w)
  {
    if Over(w, Offset(f, k)) == 0 then 0 else w - Over(w, Offset(f, k))
  }

  lemma OutNextTable(w: nat, f: Format, a: nat)
    requires WordSize(w) && a < 16
    ensures OutNext(w, a, f) <==> Left(w, f, a) < f.Size()
  {
    OverIsResidue(w, Offset(f, a));
    match f
    case Rgb565 => Doubles(a);
    case Rgb888 =>
      Triples(a);
      if w == 16 {
        assert OutNext(w, a, f) <==> a == 0 || a == 5 || a == 10;
      } else {
        assert OutNext(w, a, f) <==> a % 8 == 0 || a % 8 == 2 || a % 8 == 5;
      }
    case Rgb8888 => Doubles(a); Fours(a);
  }

  lemma Fours(a: nat)
    requires a < 16
    ensures 4 * a % 8 == 4 * (a % 2)
  {
  }

  /** Whether a word is loaded or not, the register then starts with the bytes
      left over, followed by the loaded word. */
  lemma ShiftOutTable(w: nat, f: Format, a: nat, shift: seq<Byte>, dr: seq<Byte>)
    requires WordSize(w) && a < 16 && |shift| == w + 2 && |dr| == w
    ensures OutNext(w, a, f) <==> Left(w, f, a) < f.Size()
    ensures OutNext(w, a, f) ==> Left(w, f, a) <= 2
    ensures OutNext(w, a, f) ==>
              ShiftOut(w, a, shift, dr, f)[..Left(w, f, a) + w] == shift[f.Size()..f.Size() + Left(w, f, a)] + dr
    ensures !OutNext(w, a, f) ==>
              ShiftOut(w, a, shift, dr, f)[..w + 2 - f.Size()] == shift[f.Size()..]
  {
    OutNextTable(w, f, a);
    OverIsResidue(w, Offset(f, a));
    match f
    case Rgb565 =>
      Doubles(a);
      if OutNext(w, a, f) { assert Left(w, f, a) == 0; }
    case Rgb888 =>
      Triples(a);
      if OutNext(w, a, f) {
        assert Left(w, f, a) == if w == 16 then a / 5 else (if a % 8 == 0 then 0 else if a % 8 == 2 then 2 else 1);
      }
    case Rgb8888 =>
      Doubles(a);
      Fours(a);
      if OutNext(w, a, f) { assert Left(w, f, a) == 0; }
  }

  lemma LeftStep(w: nat, f: Format, k: nat)
    requires WordSize(w)
    ensures Left(w, f, k + 1) == Left(w, f, k) - f.Size() + (if Left(w, f, k) < f.Size() then w else 0)
  {
    WholeStep(Offset(f, k), f.Size(), w);
    assert Offset(f, k + 1) == Offset(f, k) + f.Size();
    LeftAlgebra(Over(w, Offset(f, k)), Over(w, Offset(f, k + 1)), f.Size(), w);
  }

  lemma LeftAlgebra(o: nat, o': nat, size: nat, w: nat)
    requires o < w && o' < w && 0 < size <= 4 && w >= 8
    requires o' == if o + size < w then o + size else o + size - w
    ensures var r, r' := if o == 0 then 0 else w - o, if o' == 0 then 0 else w - o';
            r' == r - size + (if r < size then w else 0)
  {
  }

  lemma SliceOfConcat(a: seq<Byte>, b: seq<Byte>, lo: nat, hi: nat)
    requires lo <= hi
    ensures hi <= |a| ==> (a + b)[lo..hi] == a[lo..hi]
    ensures lo == |a| && hi == |a| + |b| ==> (a + b)[lo..hi] == b
  {
  }

  lemma {:induction false} FlattenAt(words: seq<seq<Byte>>, w: nat, i: nat)
    requires WordSize(w)
    requires forall j | 0 <= j < |words| :: |words[j]| == w
    ensures |Flatten(words)| == WordStart(w, |words|)
    ensures i < |words| ==> Flatten(words)[WordStart(w, i)..WordStart(w, i + 1)] == words[i]
    decreases |words|
  {
    if words != [] {
      var front := words[..|words| - 1];
      FlattenAt(front, w, i);
      SliceOfConcat(Flatten(front), words[|words| - 1], WordStart(w, i), WordStart(w, i + 1));
    }
  }

  lemma {:induction false} StreamAt(f: Format, ps: seq<Pixel>, k: nat)
    requires k < |ps|
    ensures Offset(f, k + 1) <= Offset(f, |ps|)
    ensures Stream(f, ps)[Offset(f, k)..Offset(f, k + 1)] == Encode(f, ps[k])
    decreases |ps|
  {
    var front := ps[..|ps| - 1];
    SliceOfConcat(Stream(f, front), Encode(f, ps[|ps| - 1]), Offset(f, k), Offset(f, k + 1));
    if k < |front| {
      StreamAt(f, front, k);
    }
  }

  /** After `k` pixels the register holds, behind the last pixel, exactly the
      loaded but unshown bytes of the stream. */
  ghost predicate Aligned(w: nat, f: Format, t: Unpacker, bytes: seq<Byte>, k: nat)
    requires WordSize(w)
  {
    var r, n := Left(w, f, k), Offset(f, k);
    && |t.shift| == w + 2 && t.acpt == k % 16 && |t.pixels| == k
    && WordStart(w, t.ad) == n + r
    && f.Size() + r <= w + 2
    && (n + r <= |bytes| ==> t.shift[f.Size()..f.Size() + r] == bytes[n..n + r])
  }

  /** What one shift does, in terms of the bytes left over. */
  lemma StepFacts(w: nat, f: Format, k: nat, shift: seq<Byte>, dr: seq<Byte>)
    requires WordSize(w) && |shift| == w + 2 && |dr| == w
    ensures OutNext(w, k % 16, f) <==> Left(w, f, k) < f.Size()
    ensures Left(w, f, k) < f.Size() ==> Left(w, f, k) <= 2
    ensures Left(w, f, k) < f.Size() ==>
              ShiftOut(w, k % 16, shift, dr, f)[..Left(w, f, k) + w] == shift[f.Size()..f.Size() + Left(w, f, k)] + dr
    ensures Left(w, f, k) >= f.Size() ==>
              ShiftOut(w, k % 16, shift, dr, f)[..w + 2 - f.Size()] == shift[f.Size()..]
  {
    hide Left, OutNext, ShiftOut;
    LeftPeriodic(w, f, k);
    ShiftOutTable(w, f, k % 16, shift, dr);
  }

  lemma LeftPeriodic(w: nat, f: Format, k: nat)
    requires WordSize(w)
    ensures Left(w, f, k) == Left(w, f, k % 16)
  {
    hide Over, Offset;
    CutPeriodic(w, f, k);
  }

  lemma StepTurns(w: nat, f: Format, k: nat)
    requires WordSize(w)
    ensures OutNext(w, k % 16, f) <==> Left(w, f, k) < f.Size()
    ensures (k % 16 + 1) % 16 == (k + 1) % 16
  {
    hide Left, OutNext;
    LeftPeriodic(w, f, k);
    OutNextTable(w, f, k % 16);
    NextCount(k);
  }

  /** Only a shift that uses a word up looks at the data port. */
  lemma AlignedFeed(w: nat, f: Format, t: Unpacker, words: seq<seq<Byte>>, dr: seq<Byte>, k: nat)
    requires WordSize(w) && |dr| == w
    requires forall i | 0 <= i < |words| :: |words[i]| == w
    requires Aligned(w, f, t, Flatten(words), k) && Offset(f, k + 1) <= |Flatten(words)|
    requires OutNext(w, t.acpt, f) && t.ad < |words| ==> dr == words[t.ad]
    ensures var u := UnpackNext(w, f, t, dr);
            && Aligned(w, f, u, Flatten(words), k + 1)
            && u.shift[..f.Size()] == Flatten(words)[Offset(f, k)..Offset(f, k + 1)]
  {
    hide OutNext, UnpackNext;
    LeftStep(w, f, k);
    FlattenAt(words, w, t.ad);
    WordRemains(w, t.ad, |words|, Offset(f, k + 1), Left(w, f, k), f.Size());
    StepTurns(w, f, k);
    if Left(w, f, k) < f.Size() {
      AlignedLoad(w, f, t, Flatten(words), dr, k);
    } else {
      AlignedKeep(w, f, t, Flatten(words), dr, k);
    }
  }

  lemma AlignedStep(w: nat, f: Format, t: Unpacker, words: seq<seq<Byte>>, other: seq<Byte>, k: nat)
    requires WordSize(w) && |other| == w
    requires forall i | 0 <= i < |words| :: |words[i]| == w
    requires Aligned(w, f, t, Flatten(words), k) && Offset(f, k + 1) <= |Flatten(words)|
    ensures var u := UnpackNext(w, f, t, Port(words, t.ad, other));
            && Aligned(w, f, u, Flatten(words), k + 1)
            && u.shift[..f.Size()] == Flatten(words)[Offset(f, k)..Offset(f, k + 1)]
  {
    AlignedFeed(w, f, t, words, Port(words, t.ad, other), k);
  }

  /** The unpacker as clocked; `words` is the line memory holds. */
  class OutputUnpacker {
    const w: nat
    const f: Format
    var shift: seq<Byte>
    var acpt: nat
    var ad: nat
    var pixels: seq<Pixel>
    ghost const words: seq<seq<Byte>>

    ghost function Value(): Unpacker
      reads this
    {
      Unpacker(shift, acpt, ad, pixels)
    }

    /** The register stands right behind the last pixel shown. */
    ghost predicate Holds()
      reads this
    {
      && WordSize(w) && (forall i | 0 <= i < |words| :: |words[i]| == w)
      && Aligned(w, f, Value(), Flatten(words), |pixels|)
    }

    constructor (w: nat, f: Format, shift: seq<Byte>, ghost words: seq<seq<Byte>>)
      requires WordSize(w) && |shift| == w + 2
      ensures this.w == w && this.f == f && this.words == words && Value() == Unpacker(shift, 0, 0, [])
      ensures (forall i | 0 <= i < |words| :: |words[i]| == w) ==> Holds()
    {
      this.w, this.f, this.shift, acpt, ad, pixels := w, f, shift, 0, 0, [];
      this.words := words;
      new;
      assert Left(w, f, 0) == 0;
    }

    /** Fed with the addressed word where it uses one up, it shows the next pixel of
        the line: the one whose bytes lie there. */
    method Shift(dr: seq<Byte>) returns (p: Pixel)
      requires WordSize(w) && |shift| == w + 2 && |dr| == w
      modifies this
      ensures Value() == UnpackNext(w, f, old(Value()), dr) && |shift| == w + 2
      ensures pixels == old(pixels) + [p]
      ensures old(Holds()) && Offset(f, |pixels|) <= |Flatten(words)|
              && (OutNext(w, old(acpt), f) && old(ad) < |words| ==> dr == words[old(ad)]) ==>
                Holds() && ShowsNext(f, Flatten(words), |old(pixels)|, p)
    {
      hide ShiftOut, OutNext, Decode, Aligned, ShowsNext, Offset, Flatten;
      ghost var before, k := Value(), |pixels|;
      shift := ShiftOut(w, acpt, shift, dr, f);
      p := Decode(shift, f);
      pixels := pixels + [p];
      if OutNext(w, acpt, f) { ad := ad + 1; }
      acpt := (acpt + 1) % 16;
      assert Value() == UnpackNext(w, f, before, dr);
      hide UnpackNext;
      if old(Holds()) && Offset(f, k + 1) <= |Flatten(words)|
         && (OutNext(w, before.acpt, f) && before.ad < |words| ==> dr == words[before.ad]) {
        ShownPixel(w, f, before, words, dr, k);
        ShownPixelIs(w, f, before, dr);
      }
    }
  }

  /** `p` is what is left of the pixel whose bytes are pixel `k` of the stream. */
  ghost predicate ShowsNext(f: Format, bytes: seq<Byte>, k: nat, p: Pixel)
    requires Offset(f, k + 1) <= |bytes|
  {
    forall q | bytes[Offset(f, k)..Offset(f, k + 1)] == Encode(f, q) :: p == Quantized(f, q)
  }

  lemma ShownPixelIs(w: nat, f: Format, t: Unpacker, dr: seq<Byte>)
    requires WordSize(w) && |t.shift| == w + 2 && |dr| == w
    ensures var u := UnpackNext(w, f, t, dr);
            |u.shift| >= 3 && u.pixels == t.pixels + [Decode(u.shift, f)]
  {
  }

  lemma ShownPixel(w: nat, f: Format, t: Unpacker, words: seq<seq<Byte>>, dr: seq<Byte>, k: nat)
    requires WordSize(w) && |dr| == w && (forall i | 0 <= i < |words| :: |words[i]| == w)
    requires Aligned(w, f, t, Flatten(words), k) && Offset(f, k + 1) <= |Flatten(words)|
    requires OutNext(w, t.acpt, f) && t.ad < |words| ==> dr == words[t.ad]
    ensures Aligned(w, f, UnpackNext(w, f, t, dr), Flatten(words), k + 1)
    ensures ShowsNext(f, Flatten(words), k, Decode(UnpackNext(w, f, t, dr).shift, f))
  {
    hide Left, ShiftOut, OutNext, Decode;
    AlignedFeed(w, f, t, words, dr, k);
    forall q | Flatten(words)[Offset(f, k)..Offset(f, k + 1)] == Encode(f, q)
      ensures Decode(UnpackNext(w, f, t, dr).shift, f) == Quantized(f, q)
    {
      DecodeEncode(f, q, UnpackNext(w, f, t, dr).shift);
    }
  }

  lemma AlignedLoad(w: nat, f: Format, t: Unpacker, bytes: seq<Byte>, dr: seq<Byte>, k: nat)
    requires WordSize(w) && |dr| == w && Aligned(w, f, t, bytes, k) && Left(w, f, k) < f.Size()
    requires WordStart(w, t.ad + 1) <= |bytes| && dr == bytes[WordStart(w, t.ad)..WordStart(w, t.ad + 1)]
    ensures Aligned(w, f, UnpackNext(w, f, t, dr), bytes, k + 1)
    ensures UnpackNext(w, f, t, dr).shift[..f.Size()] == bytes[Offset(f, k)..Offset(f, k + 1)]
  {
    hide Left, Offset, WordStart, ShiftOut, OutNext, Decode;
    LoadedShift(w, f, t, bytes, dr, k, Left(w, f, k + 1));
    StepTurns(w, f, k);
  }

  lemma LoadedShift(w: nat, f: Format, t: Unpacker, bytes: seq<Byte>, dr: seq<Byte>, k: nat, left: nat)
    requires WordSize(w) && |dr| == w && Aligned(w, f, t, bytes, k) && Left(w, f, k) < f.Size()
    requires WordStart(w, t.ad + 1) <= |bytes| && dr == bytes[WordStart(w, t.ad)..WordStart(w, t.ad + 1)]
    requires left == Left(w, f, k + 1)
    ensures f.Size() + left <= w + 2 && Offset(f, k + 1) + left == WordStart(w, t.ad + 1)
    ensures ShiftOut(w, t.acpt, t.shift, dr, f)[..f.Size()] == bytes[Offset(f, k)..Offset(f, k + 1)]
    ensures ShiftOut(w, t.acpt, t.shift, dr, f)[f.Size()..f.Size() + left]
            == bytes[Offset(f, k + 1)..Offset(f, k + 1) + left]
  {
    hide Left, ShiftOut, OutNext, Offset, WordStart;
    StepFacts(w, f, k, t.shift, dr);
    LeftStep(w, f, k);
    PlaceStep(w, f, t.ad, k);
    var v, n, r := ShiftOut(w, t.acpt, t.shift, dr, f), Offset(f, k), Left(w, f, k);
    ShiftLoaded(v, t.shift, dr, bytes, n, r, f.Size(), w, left);
  }

  lemma PlaceStep(w: nat, f: Format, ad: nat, k: nat)
    requires WordSize(w)
    ensures WordStart(w, ad + 1) == WordStart(w, ad) + w
    ensures Offset(f, k + 1) == Offset(f, k) + f.Size()
  {
  }

  lemma AlignedKeep(w: nat, f: Format, t: Unpacker, bytes: seq<Byte>, dr: seq<Byte>, k: nat)
    requires WordSize(w) && |dr| == w && Aligned(w, f, t, bytes, k) && f.Size() <= Left(w, f, k)
    requires WordStart(w, t.ad) <= |bytes|
    ensures Aligned(w, f, UnpackNext(w, f, t, dr), bytes, k + 1)
    ensures UnpackNext(w, f, t, dr).shift[..f.Size()] == bytes[Offset(f, k)..Offset(f, k + 1)]
  {
    hide Left, Offset, WordStart, ShiftOut, OutNext, Decode;
    KeptShift(w, f, t, bytes, dr, k, Left(w, f, k + 1));
    StepTurns(w, f, k);
  }

  lemma KeptShift(w: nat, f: Format, t: Unpacker, bytes: seq<Byte>, dr: seq<Byte>, k: nat, left: nat)
    requires WordSize(w) && |dr| == w && Aligned(w, f, t, bytes, k) && f.Size() <= Left(w, f, k)
    requires WordStart(w, t.ad) <= |bytes| && left == Left(w, f, k + 1)
    ensures f.Size() + left <= w + 2 && Offset(f, k + 1) + left == WordStart(w, t.ad)
    ensures ShiftOut(w, t.acpt, t.shift, dr, f)[..f.Size()] == bytes[Offset(f, k)..Offset(f, k + 1)]
    ensures ShiftOut(w, t.acpt, t.shift, dr, f)[f.Size()..f.Size() + left]
            == bytes[Offset(f, k + 1)..Offset(f, k + 1) + left]
  {
    hide Left, ShiftOut, OutNext, Offset, WordStart;
    StepFacts(w, f, k, t.shift, dr);
    LeftStep(w, f, k);
    PlaceStep(w, f, t.ad, k);
    var v, n, r := ShiftOut(w, t.acpt, t.shift, dr, f), Offset(f, k), Left(w, f, k);
    ShiftKept(v, t.shift, bytes, n, r, f.Size(), w, left);
  }

  /** A pixel that lies within the words finds its bytes loaded or loadable. */
  lemma WordRemains(w: nat, ad: nat, count: nat, end: nat, r: nat, size: nat)
    requires WordSize(w) && r < w && end <= WordStart(w, count) && end + r == WordStart(w, ad) + size
    ensures r < size ==> ad < count && WordStart(w, ad + 1) == WordStart(w, ad) + w <= WordStart(w, count)
    ensures r >= size ==> WordStart(w, ad) <= WordStart(w, count)
  {
  }

  lemma ShiftLoaded(v: seq<Byte>, shift: seq<Byte>, dr: seq<Byte>, bytes: seq<Byte>, n: nat, r: nat,
                    size: nat, w: nat, left: nat)
    requires size + left == r + w
    requires |v| == |shift| == w + 2 && |dr| == w && size + r <= w + 2 && size <= w
    requires r <= 2 && n + r + w <= |bytes| && dr == bytes[n + r..n + r + w]
    requires v[..r + w] == shift[size..size + r] + dr
    requires shift[size..size + r] == bytes[n..n + r]
    ensures v[..size] == bytes[n..n + size]
    ensures v[size..size + left] == bytes[n + size..n + size + left]
  {
    assert bytes[n..n + r] + bytes[n + r..n + r + w] == bytes[n..n + r + w];
    TakePrefix(v, bytes, n, r + w, size);
  }

  lemma ShiftKept(v: seq<Byte>, shift: seq<Byte>, bytes: seq<Byte>, n: nat, r: nat, size: nat, w: nat, left: nat)
    requires size + left == r
    requires |v| == |shift| == w + 2 && size <= r && size + r <= w + 2 && n + r <= |bytes|
    requires v[..w + 2 - size] == shift[size..]
    requires shift[size..size + r] == bytes[n..n + r]
    ensures v[..size] == bytes[n..n + size]
    ensures v[size..size + left] == bytes[n + size..n + size + left]
  {
    assert v[..r] == v[..w + 2 - size][..r];
    assert shift[size..][..r] == shift[size..size + r];
    TakePrefix(v, bytes, n, r, size);
  }

  lemma TakePrefix(v: seq<Byte>, bytes: seq<Byte>, n: nat, m: nat, size: nat)
    requires size <= m <= |v| && n + m <= |bytes| && v[..m] == bytes[n..n + m]
    ensures v[..size] == bytes[n..n + size]
    ensures v[size..m] == bytes[n + size..n + m]
  {
    assert v[..size] == v[..m][..size];
    assert v[size..m] == v[..m][size..];
  }

  lemma {:induction false} UnpackTracks(w: nat, f: Format, s: Unpacker, words: seq<seq<Byte>>, other: seq<Byte>, n: nat)
    requires WordSize(w) && |s.shift| == w + 2 && |other| == w
    requires s.acpt == 0 && s.ad == 0 && s.pixels == []
    requires forall i | 0 <= i < |words| :: |words[i]| == w
    requires Offset(f, n) <= |Flatten(words)|
    ensures Aligned(w, f, UnpackAll(w, f, s, words, other, n), Flatten(words), n)
    ensures n > 0 ==> UnpackAll(w, f, s, words, other, n).shift[..f.Size()]
                      == Flatten(words)[Offset(f, n - 1)..Offset(f, n)]
  {
    if n == 0 {
      assert Left(w, f, 0) == 0;
      assert s.shift[f.Size()..f.Size() + 0] == Flatten(words)[0..0];
    } else {
      UnpackTracks(w, f, s, words, other, n - 1);
      AlignedStep(w, f, UnpackAll(w, f, s, words, other, n - 1), words, other, n - 1);
    }
  }

  lemma {:induction false} PixelCount(w: nat, f: Format, s: Unpacker, words: seq<seq<Byte>>, other: seq<Byte>, n: nat)
    requires WordSize(w) && |s.shift| == w + 2 && |other| == w && s.pixels == []
    requires forall i | 0 <= i < |words| :: |words[i]| == w
    ensures |UnpackAll(w, f, s, words, other, n).pixels| == n
    ensures n > 0 ==> UnpackAll(w, f, s, words, other, n).pixels[n - 1]
                      == Decode(UnpackAll(w, f, s, words, other, n).shift, f)
  {
    hide Decode, ShiftOut, OutNext;
    if n > 0 {
      PixelCount(w, f, s, words, other, n - 1);
    }
  }

  lemma {:induction false} PixelsExtend(w: nat, f: Format, s: Unpacker, words: seq<seq<Byte>>, other: seq<Byte>,
                                        k: nat, n: nat)
    requires WordSize(w) && |s.shift| == w + 2 && |other| == w
    requires s.pixels == [] && k < n
    requires forall i | 0 <= i < |words| :: |words[i]| == w
    ensures |UnpackAll(w, f, s, words, other, n).pixels| == n
    ensures UnpackAll(w, f, s, words, other, n).pixels[k] == Decode(UnpackAll(w, f, s, words, other, k + 1).shift, f)
    decreases n
  {
    hide Decode, ShiftOut, OutNext;
    PixelCount(w, f, s, words, other, n);
    if n > k + 1 {
      PixelsExtend(w, f, s, words, other, k, n - 1);
    }
  }

  /** Round trip, for both word widths and every format except 32-bit pixels in
      64-bit words: every pixel whose bytes lie in a completed word comes back,
      itself for 24 and 32 bits and quantized for 565, whatever the registers
      held before and whatever the data port shows after the last word. */
  lemma RoundTrip(w: nat, f: Format, s: Packer, ps: seq<Pixel>, u: Unpacker, other: seq<Byte>, n: nat, k: nat)
    requires Supported(w, f) && |s.shift| == 15 && s.acpt == 0 && s.words == []
    requires |u.shift| == w + 2 && |other| == w && u.acpt == 0 && u.ad == 0 && u.pixels == []
    requires k < n && Offset(f, n) <= Whole(Offset(f, |ps|), w)
    ensures var words := PackAll(w, f, s, ps).words;
            && (forall i | 0 <= i < |words| :: |words[i]| == w)
            && |UnpackAll(w, f, u, words, other, n).pixels| == n <= |ps|
            && UnpackAll(w, f, u, words, other, n).pixels[k] == Quantized(f, ps[k])
  {
    PackedStream(w, f, s, ps);
    OffsetOrder(f, k, n, |ps|, w);
    StreamAt(f, ps, k);
    UnpackedPixel(w, f, PackAll(w, f, s, ps).words, Stream(f, ps), u, other, n, k, ps[k]);
  }

  lemma UnpackedPixel(w: nat, f: Format, words: seq<seq<Byte>>, bytes: seq<Byte>, u: Unpacker, other: seq<Byte>,
                      n: nat, k: nat, p: Pixel)
    requires WordSize(w) && Completed(words, bytes, w)
    requires |u.shift| == w + 2 && |other| == w && u.acpt == 0 && u.ad == 0 && u.pixels == []
    requires k < n && Offset(f, k + 1) <= Whole(|bytes|, w) && bytes[Offset(f, k)..Offset(f, k + 1)] == Encode(f, p)
    ensures |UnpackAll(w, f, u, words, other, n).pixels| == n
    ensures UnpackAll(w, f, u, words, other, n).pixels[k] == Quantized(f, p)
  {
    hide Encode, Decode, Quantized, Left, WordStart, Over, Flatten, UnpackAll, Aligned;
    UnpackTracks(w, f, u, words, other, k + 1);
    PixelsExtend(w, f, u, words, other, k, n);
    var v := UnpackAll(w, f, u, words, other, k + 1).shift;
    assert v[..f.Size()] == Encode(f, p) by {
      PrefixSlice(Flatten(words), bytes, Offset(f, k), Offset(f, k + 1));
    }
    DecodeEncode(f, p, v);
  }

  lemma OffsetOrder(f: Format, k: nat, n: nat, count: nat, w: nat)
    requires WordSize(w) && k < n && Offset(f, n) <= Whole(Offset(f, count), w)
    ensures n <= count && Offset(f, k) <= Offset(f, k + 1) <= Offset(f, n)
  {
  }

  lemma PrefixSlice(a: seq<Byte>, b: seq<Byte>, lo: nat, hi: nat)
    requires lo <= hi <= |a| <= |b| && a == b[..|a|]
    ensures a[lo..hi] == b[lo..hi]
  {
  }

  /** A full group of sixteen pixels ends on a word boundary, so a line of whole
      groups comes back complete. */
  lemma {:induction false} WholeGroups(w: nat, f: Format, groups: nat)
    requires WordSize(w)
    ensures Whole(Offset(f, 16 * groups), w) == Offset(f, 16 * groups)
  {
    if groups > 0 {
      WholeGroups(w, f, groups - 1);
      AddWords(w, Offset(f, 16 * (groups - 1)), if w == 16 then f.Size() else 2 * f.Size());
      assert Offset(f, 16 * groups) == Offset(f, 16 * (groups - 1)) + 16 * f.Size();
    }
  }

  lemma {:induction false} AddWords(w: nat, n: nat, count: nat)
    requires WordSize(w)
    ensures Over(w, n + WordStart(w, count)) == Over(w, n)
  {
    if count > 0 {
      AddWords(w, n, count - 1);
      assert n + WordStart(w, count) - w == n + WordStart(w, count - 1);
    }
  }

  /** The excluded build does lose pixels: of the four 64-bit words pushed for
      eight 32-bit pixels, three hold what the word register held before. */
  lemma UnsupportedBuildWitness(s: Packer, ps: seq<Pixel>)
    requires s.Valid(8) && s.acpt == 0 && s.words == [] && |ps| == 8
    ensures PackAll(8, Rgb8888, s, ps).words
            == [s.dw, s.dw, s.dw, Encode(Rgb8888, ps[6]) + Encode(Rgb8888, ps[7])]
  {
    UnsupportedStale(s, ps[..7]);
    var t := PackAll(8, Rgb8888, s, ps[..7]);
    assert PackAll(8, Rgb8888, s, ps) == PackNext(8, Rgb8888, t, ps[7]);
    assert t.shift[11..] == Encode(Rgb8888, ps[6]);
  }

  lemma {:induction false} UnsupportedStale(s: Packer, ps: seq<Pixel>)
    requires s.Valid(8) && s.acpt == 0 && s.words == [] && |ps| < 8
    ensures var t := PackAll(8, Rgb8888, s, ps);
            && t.acpt == |ps| && t.dw == s.dw && t.words == seq(|ps| / 2, i => s.dw)
            && (ps != [] ==> t.shift[11..] == Encode(Rgb8888, ps[|ps| - 1]))
  {
    if ps != [] {
      var front, p := ps[..|ps| - 1], ps[|ps| - 1];
      UnsupportedStale(s, front);
      hide Encode;
      UnsupportedStep(PackAll(8, Rgb8888, s, front), p);
      assert PackAll(8, Rgb8888, s, ps) == PackNext(8, Rgb8888, PackAll(8, Rgb8888, s, front), p);
      hide PackNext;
      if |ps| % 2 == 0 {
        assert seq(|ps| / 2, i => s.dw) == seq(|front| / 2, i => s.dw) + [s.dw];
      }
    }
  }

  lemma UnsupportedStep(t: Packer, p: Pixel)
    requires |t.shift| == 15 && t.acpt < 7
    ensures var u := PackNext(8, Rgb8888, t, p);
            && u.acpt == t.acpt + 1 && u.dw == t.dw && u.shift[11..] == Encode(Rgb8888, p)
            && u.words == if t.acpt % 2 == 1 then t.words + [t.dw] else t.words
  {
  }

  /** How a pixel lies in memory: 565 as a little-endian halfword with red in its
      low bits, the others as red, green and blue bytes, the fourth one zero. */
  lemma PixelLayout(p: Pixel)
    ensures var s := Encode(Rgb565, p);
            (s[0] as bv16) | ((s[1] as bv16) << 8)
            == (((p.b as bv16) >> 3) << 11) | (((p.g as bv16) >> 2) << 5) | ((p.r as bv16) >> 3)
    ensures Encode(Rgb888, p) == [p.r, p.g, p.b]
    ensures Encode(Rgb8888, p) == [p.r, p.g, p.b, 0]
  {
  }
}
