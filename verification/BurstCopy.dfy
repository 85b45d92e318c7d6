/** Copying a line out of the burst buffer of ascal.vhd (states sWAIT and sCOPY of
    process Scalaire): when a burst ends, and that the pixels go on without a gap
    or a repeat in the next one. */
module BurstCopy {
  import opened Arithmetic
  import opened PixelPacking
  import CreditQueue

  /** o_acpt, o_ad, o_adturn and the half of the buffer the front tag names. */
  datatype Regs = Regs(acpt: nat, ad: nat, adturn: bool, bib: bool)

  /** sWAIT puts the address on the burst's half; the first burst of a line also
      starts the pixel position. */
  function Begin(acpt: nat, blen: nat, bib: bool, prim: bool): Regs {
    Regs(if prim then 0 else acpt, if bib then blen else 0, false, bib)
  }

  /** The shift after which sCOPY is left. */
  predicate Finishes(w: nat, f: Format, blen: nat, r: Regs, lastv: bool, last2: bool)
    requires blen > 0
  {
    r.adturn && OutNext(w, (r.acpt + 1) % 16, f) && ((r.ad % blen == 0 && !lastv) || last2)
  }

  function ShiftNext(w: nat, f: Format, blen: nat, r: Regs): Regs
    requires blen > 0
  {
    Regs((r.acpt + 1) % 16, if OutNext(w, r.acpt, f) then (r.ad + 1) % (2 * blen) else r.ad,
         r.adturn || r.ad % blen == 4, r.bib)
  }

  class Copier {
    const w: nat
    const f: Format
    const blen: nat
    var acpt: nat
    var ad: nat
    var adturn: bool
    var bib: bool

    ghost function Value(): Regs
      reads this
    {
      Regs(acpt, ad, adturn, bib)
    }

    constructor (w: nat, f: Format, blen: nat)
      ensures this.w == w && this.f == f && this.blen == blen
    {
      this.w, this.f, this.blen := w, f, blen;
      acpt, ad, adturn, bib := 0, 0, false, false;
    }

    /** Starts a burst; one that goes on in a line with its next word due finds
        none of its words taken. */
    method Wait(prim: bool, bib': bool)
      requires WordSize(w) && blen >= 5
      modifies this
      ensures Value() == Begin(old(acpt), blen, bib', prim)
      ensures old(acpt) < 16 ==> InBurst(w, f, blen, Value()) && Taken(blen, Value()) == 0
    {
      if prim { acpt := 0; }
      ad := if bib' then blen else 0;
      adturn := false;
      bib := bib';
      if old(acpt) < 16 { BeginInBurst(w, f, blen, old(acpt), bib', prim); }
    }

    /** One sCOPY clock; `shift` is hcarry_v or a tap still to be filled. */
    method Copy(shift: bool, lastv: bool, last2: bool) returns (finished: bool)
      requires WordSize(w) && blen >= 5
      modifies this
      ensures Value() == if shift then ShiftNext(w, f, blen, old(Value())) else old(Value())
      ensures finished <==> shift && Finishes(w, f, blen, old(Value()), lastv, last2)
      ensures shift && !lastv && !last2 && old(InBurst(w, f, blen, Value())) ==>
                && (finished ==> Taken(blen, Value()) == blen && OutNext(w, acpt, f))
                && (!finished ==> InBurst(w, f, blen, Value()))
    {
      finished := false;
      if shift {
        ghost var before := Value();
        finished := adturn && OutNext(w, (acpt + 1) % 16, f) && ((ad % blen == 0 && !lastv) || last2);
        adturn := adturn || ad % blen == 4;
        if OutNext(w, acpt, f) { ad := (ad + 1) % (2 * blen); }
        acpt := (acpt + 1) % 16;
        if InBurst(w, f, blen, before) {
          ShiftInBurst(w, f, blen, before);
        }
      }
    }
  }

  /** Words of the burst used up. */
  function Taken(blen: nat, r: Regs): int
    requires blen > 0
  {
    (r.ad - (if r.bib then blen else 0)) % (2 * blen)
  }

  /** Copying stands inside a burst: no word behind it is due, and the turn flag
      tells a burst well begun from one not begun, whose addresses agree. */
  ghost predicate InBurst(w: nat, f: Format, blen: nat, r: Regs)
    requires blen > 0
  {
    var t := Taken(blen, r);
    && r.acpt < 16 && r.ad < 2 * blen && t <= blen
    && (r.adturn ==> t >= 4) && (t > 4 ==> r.adturn)
    && (t == blen ==> !OutNext(w, r.acpt, f))
  }

  /** No two neighbouring pixels both use up a word. */
  lemma NextApart(w: nat, f: Format, a: nat)
    requires WordSize(w) && a < 16 && OutNext(w, a, f)
    ensures !OutNext(w, (a + 1) % 16, f)
  {
  }

  lemma TakenAddress(blen: nat, ad: nat, base: nat)
    requires blen >= 1 && ad < 2 * blen && (base == 0 || base == blen)
    ensures var t := (ad - base) % (2 * blen);
            && 0 <= t < 2 * blen
            && (ad + 1) % (2 * blen) < 2 * blen
            && ((ad + 1) % (2 * blen) - base) % (2 * blen) == (t + 1) % (2 * blen)
            && (t < blen ==> ad == base + t && ad % blen == t)
            && (t == blen ==> ad % blen == 0)
  {
    var t := if ad >= base then ad - base else ad - base + 2 * blen;
    QuotientUnique(ad - base, 2 * blen, if ad >= base then 0 else -1);
    var next := if ad + 1 == 2 * blen then 0 else ad + 1;
    QuotientUnique(ad + 1, 2 * blen, if ad + 1 == 2 * blen then 1 else 0);
    QuotientUnique(next - base, 2 * blen, if next >= base then 0 else -1);
    QuotientUnique(t + 1, 2 * blen, if t + 1 == 2 * blen then 1 else 0);
    if ad < blen {
      QuotientUnique(ad, blen, 0);
    } else {
      QuotientUnique(ad, blen, 1);
    }
  }

  lemma ShiftTaken(w: nat, f: Format, blen: nat, r: Regs)
    requires WordSize(w) && blen >= 5 && InBurst(w, f, blen, r)
    ensures OutNext(w, r.acpt, f) ==>
              0 <= Taken(blen, r) < blen && r.ad == (if r.bib then blen else 0) + Taken(blen, r)
    ensures ShiftNext(w, f, blen, r).ad < 2 * blen
    ensures Taken(blen, ShiftNext(w, f, blen, r)) == Taken(blen, r) + (if OutNext(w, r.acpt, f) then 1 else 0)
  {
    TakenAddress(blen, r.ad, if r.bib then blen else 0);
    if OutNext(w, r.acpt, f) {
      hide OutNext;
      QuotientUnique(Taken(blen, r) + 1, 2 * blen, 0);
    }
  }

  /** What the two address tests of sCOPY mean inside a burst. */
  lemma AddressTests(w: nat, f: Format, blen: nat, r: Regs)
    requires WordSize(w) && blen >= 5 && InBurst(w, f, blen, r)
    ensures r.ad % blen == 4 <==> Taken(blen, r) == 4
    ensures r.adturn && r.ad % blen == 0 <==> Taken(blen, r) == blen
  {
    TakenAddress(blen, r.ad, if r.bib then blen else 0);
  }

  /** One shift inside a burst that is not the last of its line.  Every word it
      uses lies in the burst, in the half the tag names; and the burst is left
      exactly when all its words are used and the next pixel needs another. */
  lemma ShiftInBurst(w: nat, f: Format, blen: nat, r: Regs)
    requires WordSize(w) && blen >= 5 && InBurst(w, f, blen, r)
    ensures OutNext(w, r.acpt, f) ==>
              0 <= Taken(blen, r) < blen && r.ad == (if r.bib then blen else 0) + Taken(blen, r)
    ensures Taken(blen, ShiftNext(w, f, blen, r)) == Taken(blen, r) + (if OutNext(w, r.acpt, f) then 1 else 0)
    ensures Finishes(w, f, blen, r, false, false)
            <==> Taken(blen, r) == blen && OutNext(w, (r.acpt + 1) % 16, f)
    ensures Finishes(w, f, blen, r, false, false) ==>
              Taken(blen, ShiftNext(w, f, blen, r)) == blen && OutNext(w, ShiftNext(w, f, blen, r).acpt, f)
    ensures !Finishes(w, f, blen, r, false, false) ==> InBurst(w, f, blen, ShiftNext(w, f, blen, r))
  {
    ShiftTaken(w, f, blen, r);
    AddressTests(w, f, blen, r);
    if OutNext(w, r.acpt, f) {
      NextApart(w, f, r.acpt);
    }
    hide OutNext, Taken;
  }

  /** A build with bursts of four words or fewer would never leave sCOPY there. */
  lemma ShortBurstNeverEnds(w: nat, f: Format, blen: nat, r: Regs)
    requires 1 <= blen <= 4 && !r.adturn
    ensures !ShiftNext(w, f, blen, r).adturn && !Finishes(w, f, blen, r, false, false)
  {
    assert r.ad % blen < blen;
  }

  // ---- A whole line ----

  /** The copy of a line: the burst at the front, and the output register. */
  datatype Line = Line(r: Regs, burst: nat, shift: seq<Byte>, pixels: seq<Pixel>)

  /** One shift with the data port showing `dr`; behind a finished burst sWAIT
      begins the next one in the other half. */
  function LineNext(w: nat, f: Format, blen: nat, s: Line, dr: seq<Byte>): (t: Line)
    requires WordSize(w) && blen > 0 && |s.shift| == w + 2 && |dr| == w
    ensures |t.shift| == w + 2
  {
    var v := ShiftOut(w, s.r.acpt, s.shift, dr, f);
    var r := ShiftNext(w, f, blen, s.r);
    if Finishes(w, f, blen, s.r, false, false)
    then Line(Begin(r.acpt, blen, !r.bib, false), s.burst + 1, v, s.pixels + [Decode(v, f)])
    else Line(r, s.burst, v, s.pixels + [Decode(v, f)])
  }

  predicate Words(w: nat, drs: seq<seq<Byte>>) { forall i | 0 <= i < |drs| :: |drs[i]| == w }

  function LineRun(w: nat, f: Format, blen: nat, s: Line, drs: seq<seq<Byte>>): (t: Line)
    requires WordSize(w) && blen > 0 && |s.shift| == w + 2 && Words(w, drs)
    ensures |t.shift| == w + 2
    decreases |drs|
  {
    if drs == [] then s else LineNext(w, f, blen, LineRun(w, f, blen, s, drs[..|drs| - 1]), drs[|drs| - 1])
  }

  /** Place in the line of the word the address points at. */
  function WordAt(blen: nat, s: Line): int
    requires blen > 0
  {
    s.burst * blen + Taken(blen, s.r)
  }

  /** The buffer delivers, wherever a word is used up, the addressed word of the
      burst at the front. */
  ghost predicate Delivered(w: nat, f: Format, blen: nat, s: Line, words: seq<seq<Byte>>, drs: seq<seq<Byte>>)
    requires WordSize(w) && blen > 0 && |s.shift| == w + 2 && Words(w, drs)
  {
    forall i | 0 <= i < |drs| ::
      var t := LineRun(w, f, blen, s, drs[..i]);
      OutNext(w, t.r.acpt, f) && 0 <= WordAt(blen, t) < |words| ==> drs[i] == words[WordAt(blen, t)]
  }

  /** The line copied so far, seen as one unbroken unpacking. */
  ghost predicate Unbroken(w: nat, f: Format, blen: nat, s: Line, words: seq<seq<Byte>>, k: nat)
    requires WordSize(w) && blen > 0
  {
    && InBurst(w, f, blen, s.r) && 0 <= WordAt(blen, s)
    && Aligned(w, f, Unpacker(s.shift, s.r.acpt, WordAt(blen, s), s.pixels), Flatten(words), k)
  }

  /** Each shift of the line is a shift of the unbroken unpacking, over the end of
      a burst as within it. */
  lemma LineStep(w: nat, f: Format, blen: nat, s: Line, dr: seq<Byte>)
    requires WordSize(w) && blen >= 5 && |s.shift| == w + 2 && |dr| == w
    requires InBurst(w, f, blen, s.r) && 0 <= WordAt(blen, s)
    ensures var u := LineNext(w, f, blen, s, dr);
            && InBurst(w, f, blen, u.r) && 0 <= WordAt(blen, u)
            && Unpacker(u.shift, u.r.acpt, WordAt(blen, u), u.pixels)
               == UnpackNext(w, f, Unpacker(s.shift, s.r.acpt, WordAt(blen, s), s.pixels), dr)
  {
    hide OutNext, ShiftOut, Decode, InBurst, Taken, Finishes;
    ShiftInBurst(w, f, blen, s.r);
    BeginInBurst(w, f, blen, ShiftNext(w, f, blen, s.r).acpt, !s.r.bib, false);
    assert (s.burst + 1) * blen == s.burst * blen + blen;
  }

  lemma BeginInBurst(w: nat, f: Format, blen: nat, acpt: nat, bib: bool, prim: bool)
    requires blen >= 5 && acpt < 16
    ensures InBurst(w, f, blen, Begin(acpt, blen, bib, prim)) && Taken(blen, Begin(acpt, blen, bib, prim)) == 0
  {
    QuotientUnique(0, 2 * blen, 0);
  }

  /** Pixel after pixel is the one whose bytes come next. */
  ghost predicate AllShown(f: Format, pixels: seq<Pixel>, bytes: seq<Byte>, n: nat) {
    && |pixels| == n
    && (forall k | 0 <= k < n :: Offset(f, k + 1) <= |bytes| && ShowsNext(f, bytes, k, pixels[k]))
  }

  lemma LineStarts(w: nat, f: Format, blen: nat, acpt: nat, s: Line, words: seq<seq<Byte>>)
    requires WordSize(w) && blen >= 5 && |s.shift| == w + 2
    requires s.r == Begin(acpt, blen, s.r.bib, true) && s.burst == 0 && s.pixels == []
    ensures Unbroken(w, f, blen, s, words, 0)
  {
    BeginInBurst(w, f, blen, 0, s.r.bib, true);
    assert Left(w, f, 0) == 0;
  }

  lemma LineExtends(w: nat, f: Format, blen: nat, s: Line, words: seq<seq<Byte>>, dr: seq<Byte>, n: nat)
    requires WordSize(w) && blen >= 5 && |s.shift| == w + 2 && |dr| == w && Words(w, words)
    requires Unbroken(w, f, blen, s, words, n) && AllShown(f, s.pixels, Flatten(words), n)
    requires Offset(f, n + 1) <= |Flatten(words)|
    requires OutNext(w, s.r.acpt, f) && WordAt(blen, s) < |words| ==> dr == words[WordAt(blen, s)]
    ensures Unbroken(w, f, blen, LineNext(w, f, blen, s, dr), words, n + 1)
    ensures AllShown(f, LineNext(w, f, blen, s, dr).pixels, Flatten(words), n + 1)
  {
    var u := Unpacker(s.shift, s.r.acpt, WordAt(blen, s), s.pixels);
    hide OutNext, ShiftOut, Decode, ShiftNext, Finishes, ShowsNext, LineNext, UnpackNext, Aligned, InBurst, WordAt;
    hide AllShown, Offset, Flatten;
    LineStep(w, f, blen, s, dr);
    ShownPixel(w, f, u, words, dr, n);
    ShownPixelIs(w, f, u, dr);
    OneMoreShown(f, s.pixels, Flatten(words), n, Decode(UnpackNext(w, f, u, dr).shift, f));
  }

  lemma OneMoreShown(f: Format, pixels: seq<Pixel>, bytes: seq<Byte>, n: nat, p: Pixel)
    requires AllShown(f, pixels, bytes, n) && Offset(f, n + 1) <= |bytes| && ShowsNext(f, bytes, n, p)
    ensures AllShown(f, pixels + [p], bytes, n + 1)
  {
    hide ShowsNext;
    var all := pixels + [p];
    forall k | 0 <= k <= n
      ensures Offset(f, k + 1) <= |bytes| && ShowsNext(f, bytes, k, all[k])
    {
      if k < n {
        assert all[k] == pixels[k];
        assert Offset(f, k + 1) <= |bytes| && ShowsNext(f, bytes, k, pixels[k]);
      }
    }
  }

  lemma OffsetStep(f: Format, n: nat)
    ensures Offset(f, n) <= Offset(f, n + 1)
  {
  }

  /** From whatever position the line before ended at, every pixel of a line comes
      out once and in order, however many bursts it spans: the k-th pixel copied is
      the one whose bytes are the k-th of the line's words. */
  lemma {:induction false} LineUnbroken(w: nat, f: Format, blen: nat, acpt: nat, s: Line, words: seq<seq<Byte>>,
                                        drs: seq<seq<Byte>>)
    requires WordSize(w) && blen >= 5 && |s.shift| == w + 2 && Words(w, drs) && Words(w, words)
    requires s.r == Begin(acpt, blen, s.r.bib, true) && s.burst == 0 && s.pixels == []
    requires Delivered(w, f, blen, s, words, drs) && Offset(f, |drs|) <= |Flatten(words)|
    ensures var t := LineRun(w, f, blen, s, drs);
            && Unbroken(w, f, blen, t, words, |drs|)
            && AllShown(f, t.pixels, Flatten(words), |drs|)
    decreases |drs|
  {
    hide OutNext, ShiftOut, Decode, UnpackNext, ShiftNext, Finishes, ShowsNext, LineNext;
    if drs == [] {
      LineStarts(w, f, blen, acpt, s, words);
    } else {
      var front, n := drs[..|drs| - 1], |drs| - 1;
      DeliveredBefore(w, f, blen, s, words, drs);
      OffsetStep(f, n);
      hide Unbroken, AllShown, Delivered, Offset, Flatten, WordAt, Begin;
      LineUnbroken(w, f, blen, acpt, s, words, front);
      LineExtends(w, f, blen, LineRun(w, f, blen, s, front), words, drs[n], n);
    }
  }

  lemma DeliveredBefore(w: nat, f: Format, blen: nat, s: Line, words: seq<seq<Byte>>, drs: seq<seq<Byte>>)
    requires WordSize(w) && blen > 0 && |s.shift| == w + 2 && Words(w, drs) && drs != []
    requires Delivered(w, f, blen, s, words, drs)
    ensures Delivered(w, f, blen, s, words, drs[..|drs| - 1])
    ensures var t := LineRun(w, f, blen, s, drs[..|drs| - 1]);
            OutNext(w, t.r.acpt, f) && 0 <= WordAt(blen, t) < |words| ==> drs[|drs| - 1] == words[WordAt(blen, t)]
  {
    hide OutNext, WordAt, LineRun;
    forall i | 0 <= i < |drs| - 1
      ensures drs[..|drs| - 1][..i] == drs[..i]
    {
    }
  }

  /** The buffer does deliver: in every state of the burst queue reachable from
      the start of a frame, the word a copy uses up is its own burst's next one. */
  lemma CopyUsesItsWords(s: CreditQueue.System, t: CreditQueue.System, hburst: int, blen: nat,
                         events: seq<CreditQueue.Event>, w: nat, f: Format, r: Regs)
    requires blen >= 5 && hburst >= 1 && CreditQueue.FrameStart(s, blen) && s.r.hbcpt >= 0
    requires CreditQueue.Reaches(s, t, hburst, blen, events) && !t.r.copy.Wait?
    requires WordSize(w) && InBurst(w, f, blen, r) && r.bib == t.r.t0.bib && OutNext(w, r.acpt, f)
    ensures |t.b.dpram| == 2 * blen && t.b.dpram[r.ad] == CreditQueue.Word(t.h.copied, Taken(blen, r))
  {
    CreditQueue.CopyReadsItsBurst(s, t, hburst, blen, events);
    ShiftTaken(w, f, blen, r);
    hide CreditQueue.Reaches, OutNext, Taken;
    var j := Taken(blen, r);
    assert t.b.dpram[(if t.r.t0.bib then blen else 0) + j] == CreditQueue.Word(t.h.copied, j);
  }
}
