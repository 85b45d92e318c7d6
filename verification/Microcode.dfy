/** microcode_compiler.py: from the lines of a microcode source to the tables
    and lookup functions of the generated ROM. */
module Microcode {
  import opened Arithmetic
  import opened MicroOps

  // ---- parse_us_file ----

  /** An @-line: opcode as written, whether it says prefix_0f or atomic, and its
      group number or -1. */
  datatype Header = Header(opcode: nat, prefix0f: bool, atomic: bool, group: int)

  /** A line that is neither blank nor a comment; a step's text is taken as the
      micro-op parse_step makes of it. */
  datatype Line = At(h: Header) | Step(body: MicroOp)

  datatype Entry = Entry(opcode: nat, is0f: bool, atomic: bool, group: int, steps: seq<MicroOp>)

  /** What parse_step adds to a step line. */
  function Finish(bodies: seq<MicroOp>, atomic: bool): seq<MicroOp> {
    seq(|bodies|, i requires 0 <= i < |bodies| => bodies[i].(isLast := i == |bodies| - 1, isAtomic := atomic))
  }

  function MakeEntry(h: Header, bodies: seq<MicroOp>): Entry {
    var is0f := h.prefix0f || h.opcode > 0xFF;
    Entry(if is0f && h.opcode > 0xFF then h.opcode % 256 else h.opcode, is0f, h.atomic, h.group,
          Finish(bodies, h.atomic))
  }

  datatype Parser = Parser(entries: seq<Entry>, open: bool, current: Header, bodies: seq<MicroOp>)

  /** An entry without steps is dropped. */
  function Close(p: Parser): seq<Entry> {
    if p.open && p.bodies != [] then p.entries + [MakeEntry(p.current, p.bodies)] else p.entries
  }

  function ParseLine(p: Parser, l: Line): Parser {
    match l
    case At(h) => Parser(Close(p), true, h, [])
    case Step(u) => if p.open then p.(bodies := p.bodies + [u]) else p
  }

  function ParseFrom(lines: seq<Line>): Parser
    decreases |lines|
  {
    if lines == [] then Parser([], false, Header(0, false, false, -1), [])
    else ParseLine(ParseFrom(lines[..|lines| - 1]), lines[|lines| - 1])
  }

  function Parsed(lines: seq<Line>): seq<Entry> { Close(ParseFrom(lines)) }

  method ParseUsFile(lines: seq<Line>) returns (entries: seq<Entry>)
    ensures entries == Parsed(lines)
  {
    entries := [];
    var open, current, bodies: seq<MicroOp> := false, Header(0, false, false, -1), [];
    for n := 0 to |lines|
      invariant Parser(entries, open, current, bodies) == ParseFrom(lines[..n])
    {
      assert lines[..n + 1][..n] == lines[..n];
      match lines[n] {
        case At(h) =>
          if open && bodies != [] {
            entries := entries + [MakeEntry(current, bodies)];
          }
          open, current, bodies := true, h, [];
        case Step(u) =>
          if open { bodies := bodies + [u]; }
      }
    }
    assert lines[..|lines|] == lines;
    if open && bodies != [] {
      entries := entries + [MakeEntry(current, bodies)];
    }
  }

  /** The shape later stages rely on: at least one step, the end flag on the
      last step and on no other, the entry's atomic flag on all of them. */
  predicate Sequenced(e: Entry) {
    && e.steps != []
    && (forall i | 0 <= i < |e.steps| ::
          (e.steps[i].isLast <==> i == |e.steps| - 1) && e.steps[i].isAtomic == e.atomic)
  }

  predicate AllSequenced(es: seq<Entry>) { forall e | e in es :: Sequenced(e) }

  lemma {:induction false} ParsedSequenced(lines: seq<Line>)
    ensures AllSequenced(Parsed(lines)) && AllSequenced(ParseFrom(lines).entries)
    decreases |lines|
  {
    if lines != [] {
      ParsedSequenced(lines[..|lines| - 1]);
    }
    CloseSequenced(ParseFrom(lines));
  }

  lemma CloseSequenced(p: Parser)
    requires AllSequenced(p.entries)
    ensures AllSequenced(Close(p))
  {
    if p.open && p.bodies != [] {
      MadeSequenced(p.current, p.bodies);
      assert forall e :: e in Close(p) <==> e in p.entries || e == MakeEntry(p.current, p.bodies);
    }
  }

  lemma MadeSequenced(h: Header, bodies: seq<MicroOp>)
    requires bodies != []
    ensures Sequenced(MakeEntry(h, bodies))
  {
    var steps := Finish(bodies, h.atomic);
    assert forall i | 0 <= i < |steps| :: steps[i] == bodies[i].(isLast := i == |bodies| - 1, isAtomic := h.atomic);
  }

  // ---- What an entry has to do with its lines ----

  /** Header lines with a step line right behind them, in order. */
  function Starts(lines: seq<Line>): (starts: seq<nat>)
    ensures forall i | 0 <= i < |starts| :: starts[i] + 1 < |lines| && lines[starts[i]].At?
    decreases |lines|
  {
    if lines == [] then []
    else
      var n := |lines| - 1;
      Starts(lines[..n]) + (if n > 0 && lines[n].Step? && lines[n - 1].At? then [n - 1] else [])
  }

  /** Line `i` is a step line, and says `u` in every field but the two flags. */
  predicate Says(lines: seq<Line>, i: nat, u: MicroOp) {
    && i < |lines| && lines[i].Step?
    && u.(isLast := false, isAtomic := false) == lines[i].body.(isLast := false, isAtomic := false)
  }

  /** `e` is what the header at line `a` and the step lines up to the next header
      or the end say: low opcode byte, 0F mark by prefix or size, group, atomic
      flag, and the steps in their order, in every field but the two flags. */
  ghost predicate Describes(lines: seq<Line>, a: nat, e: Entry) {
    && a + |e.steps| < |lines| && lines[a].At? && e.steps != []
    && e.opcode == lines[a].h.opcode % 256
    && e.is0f == (lines[a].h.prefix0f || lines[a].h.opcode > 0xFF)
    && e.group == lines[a].h.group && e.atomic == lines[a].h.atomic
    && (forall k | 0 <= k < |e.steps| :: Says(lines, a + 1 + k, e.steps[k]))
    && (a + 1 + |e.steps| == |lines| || lines[a + 1 + |e.steps|].At?)
  }

  /** Starts are exactly such headers, and rise. */
  lemma {:induction false} StartsAre(lines: seq<Line>, a: nat)
    ensures a in Starts(lines) <==> a + 1 < |lines| && lines[a].At? && lines[a + 1].Step?
    ensures forall i, j | 0 <= i < j < |Starts(lines)| :: Starts(lines)[i] < Starts(lines)[j]
    decreases |lines|
  {
    if lines != [] {
      StartsAre(lines[..|lines| - 1], a);
    }
  }

  /** The parser after some lines: the open header and the steps behind it. */
  ghost predicate OpenAt(lines: seq<Line>, p: Parser, a: nat) {
    && a < |lines| && lines[a] == At(p.current) && |lines| == a + 1 + |p.bodies|
    && (forall k | 0 <= k < |p.bodies| :: lines[a + 1 + k] == Step(p.bodies[k]))
  }

  /** Entries closed so far, one for each start but that of the open header. */
  ghost predicate Closed(lines: seq<Line>, p: Parser) {
    var starts := Starts(lines);
    var n := if p.open && p.bodies != [] then |starts| - 1 else |starts|;
    && |p.entries| == n
    && (forall j | 0 <= j < n :: Describes(lines, starts[j], p.entries[j]) &&
          starts[j] + 1 + |p.entries[j].steps| < |lines|)
    && (p.open && p.bodies != [] ==> OpenAt(lines, p, starts[n]))
  }

  lemma {:induction false} ParserStands(lines: seq<Line>)
    ensures var p := ParseFrom(lines);
            && (p.open ==> exists a :: OpenAt(lines, p, a))
            && (!p.open ==> forall k | 0 <= k < |lines| :: lines[k].Step?)
            && Closed(lines, p)
    decreases |lines|
  {
    if lines != [] {
      var front := lines[..|lines| - 1];
      ParserStands(front);
      var p := ParseFrom(front);
      if p.open {
        var a :| OpenAt(front, p, a);
        OpenStep(front, p, a, lines[|front|]);
      } else {
        IdleStep(front, p, lines[|front|]);
      }
      assert front + [lines[|front|]] == lines;
    }
  }

  lemma StartsGrow(lines: seq<Line>, l: Line)
    ensures Starts(lines + [l])
            == Starts(lines) + (if lines != [] && l.Step? && lines[|lines| - 1].At? then [|lines| - 1] else [])
  {
    var all := lines + [l];
    assert all[..|all| - 1] == lines;
  }

  lemma IdleStep(lines: seq<Line>, p: Parser, l: Line)
    requires !p.open && (forall k | 0 <= k < |lines| :: lines[k].Step?) && Closed(lines, p)
    ensures var q := ParseLine(p, l);
            && (q.open ==> exists a :: OpenAt(lines + [l], q, a))
            && (!q.open ==> forall k | 0 <= k < |lines + [l]| :: (lines + [l])[k].Step?)
            && Closed(lines + [l], q)
  {
    var all, q := lines + [l], ParseLine(p, l);
    StartsGrow(lines, l);
    NoHeadersNoStarts(lines);
    if l.At? {
      assert OpenAt(all, q, |lines|);
    }
  }

  lemma {:induction false} NoHeadersNoStarts(lines: seq<Line>)
    requires forall k | 0 <= k < |lines| :: lines[k].Step?
    ensures Starts(lines) == []
    decreases |lines|
  {
    if lines != [] {
      NoHeadersNoStarts(lines[..|lines| - 1]);
    }
  }

  /** A finished entry is described by the lines from its header on. */
  lemma ClosesRightly(lines: seq<Line>, p: Parser, a: nat)
    requires OpenAt(lines, p, a) && p.bodies != []
    ensures Describes(lines, a, MakeEntry(p.current, p.bodies))
    ensures |MakeEntry(p.current, p.bodies).steps| == |p.bodies|
  {
    var e := MakeEntry(p.current, p.bodies);
    forall k | 0 <= k < |e.steps|
      ensures Says(lines, a + 1 + k, e.steps[k])
    {
      assert lines[a + 1 + k] == Step(p.bodies[k]);
    }
  }

  /** Later lines do not change what a closed entry means. */
  lemma DescribedOn(lines: seq<Line>, l: Line, a: nat, e: Entry)
    requires Describes(lines, a, e)
    requires a + 1 + |e.steps| < |lines| || l.At?
    ensures Describes(lines + [l], a, e)
  {
    var all := lines + [l];
    forall k | 0 <= k < |e.steps|
      ensures Says(all, a + 1 + k, e.steps[k])
    {
      assert Says(lines, a + 1 + k, e.steps[k]) && all[a + 1 + k] == lines[a + 1 + k];
    }
  }

  lemma OpenStep(lines: seq<Line>, p: Parser, a: nat, l: Line)
    requires p.open && OpenAt(lines, p, a) && Closed(lines, p)
    ensures var q := ParseLine(p, l);
            q.open && (exists b :: OpenAt(lines + [l], q, b)) && Closed(lines + [l], q)
  {
    if l.At? {
      HeaderLine(lines, p, a, l);
      assert OpenAt(lines + [l], ParseLine(p, l), |lines|);
    } else {
      StepLine(lines, p, a, l);
      assert OpenAt(lines + [l], ParseLine(p, l), a);
    }
  }

  lemma ClosedOn(lines: seq<Line>, p: Parser, l: Line)
    requires Closed(lines, p)
    ensures forall j | 0 <= j < |p.entries| ::
              Describes(lines + [l], Starts(lines)[j], p.entries[j]) &&
              Starts(lines)[j] + 1 + |p.entries[j].steps| < |lines + [l]|
  {
    hide Describes;
    forall j | 0 <= j < |p.entries|
      ensures Describes(lines + [l], Starts(lines)[j], p.entries[j])
    {
      DescribedOn(lines, l, Starts(lines)[j], p.entries[j]);
    }
  }

  lemma HeaderLine(lines: seq<Line>, p: Parser, a: nat, l: Line)
    requires p.open && OpenAt(lines, p, a) && Closed(lines, p) && l.At?
    ensures OpenAt(lines + [l], ParseLine(p, l), |lines|) && Closed(lines + [l], ParseLine(p, l))
  {
    hide Describes, Starts, MakeEntry;
    StartsGrow(lines, l);
    ClosedOn(lines, p, l);
    var all, q, starts := lines + [l], ParseLine(p, l), Starts(lines);
    forall j | 0 <= j < |q.entries|
      ensures Describes(all, starts[j], q.entries[j]) && starts[j] + 1 + |q.entries[j].steps| < |all|
    {
      if j < |p.entries| {
        assert q.entries[j] == p.entries[j];
      } else {
        ClosesRightly(lines, p, starts[j]);
        DescribedOn(lines, l, starts[j], q.entries[j]);
      }
    }
  }

  lemma StepLine(lines: seq<Line>, p: Parser, a: nat, l: Line)
    requires p.open && OpenAt(lines, p, a) && Closed(lines, p) && l.Step?
    ensures OpenAt(lines + [l], ParseLine(p, l), a) && Closed(lines + [l], ParseLine(p, l))
  {
    hide Describes, Starts;
    StartsGrow(lines, l);
    ClosedOn(lines, p, l);
    OpenOn(lines, p, a, l);
    if p.bodies == [] {
      assert lines[|lines| - 1] == At(p.current);
    } else {
      assert lines[|lines| - 1] == Step(p.bodies[|p.bodies| - 1]);
      OpenOn(lines, p, Starts(lines)[|p.entries|], l);
    }
  }

  lemma OpenOn(lines: seq<Line>, p: Parser, a: nat, l: Line)
    requires p.open && OpenAt(lines, p, a) && l.Step?
    ensures OpenAt(lines + [l], ParseLine(p, l), a)
  {
    var all, bodies := lines + [l], ParseLine(p, l).bodies;
    forall k | 0 <= k < |bodies|
      ensures all[a + 1 + k] == Step(bodies[k])
    {
      if k < |p.bodies| {
        assert lines[a + 1 + k] == Step(p.bodies[k]);
      }
    }
  }

  /** The entries parsed are exactly the described ones: one for every header with
      at least one step behind it, in the order of the source. */
  lemma EntriesAreLines(lines: seq<Line>)
    ensures |Parsed(lines)| == |Starts(lines)|
    ensures forall j | 0 <= j < |Starts(lines)| :: Describes(lines, Starts(lines)[j], Parsed(lines)[j])
  {
    ParserStands(lines);
    var p := ParseFrom(lines);
    if p.open && p.bodies != [] {
      ClosesRightly(lines, p, Starts(lines)[|p.entries|]);
    }
  }

  // ---- generate_sv: filling the tables ----

  /** An entry's key in the source, and where the ROM files it. */
  datatype Key = Key(is0f: bool, opcode: int, group: int)
  datatype Slot = Slot(is0f: bool, opcode: int)

  function KeyOf(e: Entry): Key { Key(e.is0f, e.opcode % 256, if e.group >= 0 then e.group else -1) }

  datatype Meta = Meta(steps: nat, atomic: bool)

  datatype Tables = Tables(rom: map<int, Word>, meta: map<Slot, Meta>, remap: map<Key, int>, next: int)

  const FIRST_VIRTUAL := 0xD0

  function Empty(): Tables { Tables(map[], map[], map[], FIRST_VIRTUAL) }

  /** Group opcodes get virtual opcodes in the 0F space, in order of appearance. */
  function Allocate(t: Tables, e: Entry): Tables {
    if e.group >= 0 && KeyOf(e) !in t.remap
    then t.(remap := t.remap[KeyOf(e) := t.next], next := t.next + 1)
    else t
  }

  function SlotOf(remap: map<Key, int>, e: Entry): Slot
    requires e.group >= 0 ==> KeyOf(e) in remap
  {
    if e.group >= 0 then Slot(true, remap[KeyOf(e)]) else Slot(e.is0f, e.opcode % 256)
  }

  /** eff_opcode << 6 | step & 0x3F, with bit 14 set for the 0F space. */
  function Address(s: Slot, step: int): int {
    var a := s.opcode * 64 + step % 64;
    if s.is0f && a / 0x4000 % 2 == 0 then a + 0x4000 else a
  }

  function WriteSteps(rom: map<int, Word>, s: Slot, steps: seq<MicroOp>): map<int, Word>
    decreases |steps|
  {
    if steps == [] then rom
    else WriteSteps(rom, s, steps[..|steps| - 1])[Address(s, |steps| - 1) := Encode(steps[|steps| - 1])]
  }

  function AddEntry(t: Tables, e: Entry): Tables {
    var u := Allocate(t, e);
    var s := SlotOf(u.remap, e);
    u.(rom := WriteSteps(u.rom, s, e.steps), meta := u.meta[s := Meta(|e.steps|, e.atomic)])
  }

  function Compile(es: seq<Entry>): Tables
    decreases |es|
  {
    if es == [] then Empty() else AddEntry(Compile(es[..|es| - 1]), es[|es| - 1])
  }

  method GenerateTables(entries: seq<Entry>) returns (t: Tables)
    ensures t == Compile(entries)
  {
    var rom: map<int, Word>, meta: map<Slot, Meta>, groupRemap: map<Key, int>, nextVirtual :=
      map[], map[], map[], FIRST_VIRTUAL;
    for n := 0 to |entries|
      invariant Tables(rom, meta, groupRemap, nextVirtual) == Compile(entries[..n])
    {
      assert entries[..n + 1][..n] == entries[..n];
      var entry, baseOpcode := entries[n], entries[n].opcode % 256;
      var effOpcode, is0fEff := baseOpcode, entry.is0f;
      if entry.group >= 0 {
        var remapKey := Key(entry.is0f, baseOpcode, entry.group);
        if remapKey !in groupRemap {
          groupRemap := groupRemap[remapKey := nextVirtual];
          nextVirtual := nextVirtual + 1;
        }
        effOpcode := groupRemap[remapKey];
        is0fEff := true;
      }
      ghost var before := rom;
      for i := 0 to |entry.steps|
        invariant rom == WriteSteps(before, Slot(is0fEff, effOpcode), entry.steps[..i])
      {
        assert entry.steps[..i + 1][..i] == entry.steps[..i];
        rom := rom[Address(Slot(is0fEff, effOpcode), i) := Encode(entry.steps[i])];
      }
      assert entry.steps[..|entry.steps|] == entry.steps;
      meta := meta[Slot(is0fEff, effOpcode) := Meta(|entry.steps|, entry.atomic)];
    }
    assert entries[..|entries|] == entries;
    t := Tables(rom, meta, groupRemap, nextVirtual);
  }

  // ---- The emitted lookup functions ----

  function RomLookup(t: Tables, address: int): Word { if address in t.rom then t.rom[address] else 0 }

  /** A six-bit literal. */
  function MaxStep(t: Tables, s: Slot): nat { if s in t.meta then t.meta[s].steps % 64 else 1 }

  predicate IsAtomic(t: Tables, s: Slot) { s in t.meta && t.meta[s].atomic }

  function GroupRemap(t: Tables, is0f: bool, opcode: int, reg: int): Slot {
    if Key(is0f, opcode, reg) in t.remap then Slot(true, t.remap[Key(is0f, opcode, reg)]) else Slot(is0f, opcode)
  }

  // ---- Which sources compile faithfully ----

  function GroupKeys(es: seq<Entry>): set<Key> { set e | e in es && e.group >= 0 :: KeyOf(e) }

  /** No clash between the virtual opcodes, the plain opcodes and the widths of
      the generated case labels. */
  predicate Compilable(es: seq<Entry>) {
    && (forall e | e in es ::
          e.group <= 7 && |e.steps| <= 64 && (e.group < 0 && e.is0f ==> e.opcode % 256 < FIRST_VIRTUAL))
    && (forall e, f | e in es && f in es :: e.group >= 0 && f.group < 0 ==>
          e.is0f != f.is0f || e.opcode % 256 != f.opcode % 256)
    && |GroupKeys(es)| <= 0x100 - FIRST_VIRTUAL
  }

  predicate SlotOk(s: Slot) { 0 <= s.opcode < 256 }

  lemma AddressInjective(s: Slot, i: int, u: Slot, j: int)
    requires SlotOk(s) && SlotOk(u) && 0 <= i < 64 && 0 <= j < 64
    ensures 0 <= Address(s, i) < 0x8000
    ensures Address(s, i) == Address(u, j) ==> s == u && i == j
  {
  }

  lemma {:induction false} WrittenSteps(rom: map<int, Word>, s: Slot, steps: seq<MicroOp>)
    requires SlotOk(s) && |steps| <= 64
    ensures var t := WriteSteps(rom, s, steps);
            && (forall i | 0 <= i < |steps| :: Address(s, i) in t && t[Address(s, i)] == Encode(steps[i]))
    decreases |steps|
  {
    if steps != [] {
      var n := |steps| - 1;
      WrittenSteps(rom, s, steps[..n]);
      forall i | 0 <= i < n
        ensures Address(s, i) != Address(s, n)
      {
        AddressInjective(s, i, s, n);
      }
    }
  }

  lemma {:induction false} OtherSlotKept(rom: map<int, Word>, s: Slot, steps: seq<MicroOp>, u: Slot, j: int)
    requires SlotOk(s) && SlotOk(u) && s != u && |steps| <= 64 && 0 <= j < 64
    ensures Address(u, j) in WriteSteps(rom, s, steps) <==> Address(u, j) in rom
    ensures Address(u, j) in rom ==> WriteSteps(rom, s, steps)[Address(u, j)] == rom[Address(u, j)]
    decreases |steps|
  {
    if steps != [] {
      OtherSlotKept(rom, s, steps[..|steps| - 1], u, j);
      AddressInjective(s, |steps| - 1, u, j);
    }
  }

  /** The virtual opcodes handed out: one per group key, counted up from D0. */
  ghost predicate Allocated(t: Tables, es: seq<Entry>) {
    t.remap.Keys == GroupKeys(es) && CountedUp(t.remap, t.next)
  }

  ghost predicate CountedUp(remap: map<Key, int>, next: int) {
    && next == FIRST_VIRTUAL + |remap|
    && (forall k | k in remap :: FIRST_VIRTUAL <= remap[k] < next)
    && (forall k, l | k in remap && l in remap :: remap[k] == remap[l] ==> k == l)
  }

  lemma CountOneMore(remap: map<Key, int>, next: int, k: Key)
    requires CountedUp(remap, next) && k !in remap
    ensures CountedUp(remap[k := next], next + 1)
  {
    var m := remap[k := next];
    assert m.Keys == remap.Keys + {k};
    assert |m| == |m.Keys| == |remap.Keys| + 1;
  }

  lemma {:induction false} CompileAllocates(es: seq<Entry>)
    ensures Allocated(Compile(es), es)
    decreases |es|
  {
    if es == [] {
    } else {
      var front, e := es[..|es| - 1], es[|es| - 1];
      CompileAllocates(front);
      KeysGrow(front, e);
      assert es == front + [e];
      AllocateStep(Compile(front), e);
    }
  }

  lemma KeysGrow(es: seq<Entry>, e: Entry)
    ensures GroupKeys(es + [e]) == GroupKeys(es) + (if e.group >= 0 then {KeyOf(e)} else {})
  {
    assert forall f :: f in es + [e] <==> f in es || f == e;
  }

  lemma AllocateStep(t: Tables, e: Entry)
    requires CountedUp(t.remap, t.next)
    ensures CountedUp(Allocate(t, e).remap, Allocate(t, e).next)
    ensures Allocate(t, e).remap.Keys == t.remap.Keys + (if e.group >= 0 then {KeyOf(e)} else {})
    ensures forall k | k in t.remap :: k in Allocate(t, e).remap && Allocate(t, e).remap[k] == t.remap[k]
  {
    if e.group >= 0 && KeyOf(e) !in t.remap {
      CountOneMore(t.remap, t.next, KeyOf(e));
    }
  }

  /** Distinct source keys are filed in distinct slots. */
  lemma SlotsDistinct(t: Tables, es: seq<Entry>, e: Entry, f: Entry)
    requires Compilable(es) && e in es && f in es
    requires Allocated(t, es)
    ensures e.group >= 0 ==> KeyOf(e) in t.remap
    ensures f.group >= 0 ==> KeyOf(f) in t.remap
    ensures SlotOk(SlotOf(t.remap, e)) && SlotOk(SlotOf(t.remap, f))
    ensures SlotOf(t.remap, e) == SlotOf(t.remap, f) ==> KeyOf(e) == KeyOf(f)
  {
    if e.group >= 0 { assert KeyOf(e) in GroupKeys(es); }
    if f.group >= 0 { assert KeyOf(f) in GroupKeys(es); }
  }

  /** The tables hold exactly this entry under its slot. */
  ghost predicate Stored(t: Tables, e: Entry) {
    && (e.group >= 0 ==> KeyOf(e) in t.remap)
    && SlotOf(t.remap, e) in t.meta
    && t.meta[SlotOf(t.remap, e)] == Meta(|e.steps|, e.atomic)
    && (forall i | 0 <= i < |e.steps| ::
          Address(SlotOf(t.remap, e), i) in t.rom && t.rom[Address(SlotOf(t.remap, e), i)] == Encode(e.steps[i]))
  }

  predicate LastOfItsKey(es: seq<Entry>, j: nat)
    requires j < |es|
  {
    forall m | j < m < |es| :: KeyOf(es[m]) != KeyOf(es[j])
  }

  lemma CompilablePrefix(es: seq<Entry>)
    requires es != [] && Compilable(es)
    ensures Compilable(es[..|es| - 1])
  {
    var front := es[..|es| - 1];
    assert es == front + [es[|es| - 1]];
    KeysGrow(front, es[|es| - 1]);
    assert GroupKeys(es) == GroupKeys(front) + (GroupKeys(es) - GroupKeys(front));
    assert forall e | e in front :: e in es;
  }

  /** Adding an entry stores it. */
  lemma AddStores(t: Tables, es: seq<Entry>, e: Entry)
    requires Allocated(t, es) && Compilable(es + [e])
    ensures Stored(AddEntry(t, e), e)
  {
    KeysGrow(es, e);
    AllocateStep(t, e);
    var u := Allocate(t, e);
    SlotsDistinct(u, es + [e], e, e);
    WrittenSteps(u.rom, SlotOf(u.remap, e), e.steps);
  }

  /** Adding an entry leaves entries with other keys alone. */
  lemma AddKeepsOthers(t: Tables, es: seq<Entry>, e: Entry, f: Entry)
    requires Allocated(t, es) && Compilable(es + [e])
    requires f in es && KeyOf(f) != KeyOf(e) && Stored(t, f)
    ensures Stored(AddEntry(t, e), f)
  {
    var u := Allocate(t, e);
    SlotsApart(t, es, e, f);
    SlotKept(u, SlotOf(u.remap, e), e, SlotOf(t.remap, f), f);
  }

  lemma SlotsApart(t: Tables, es: seq<Entry>, e: Entry, f: Entry)
    requires Allocated(t, es) && Compilable(es + [e]) && f in es && KeyOf(f) != KeyOf(e)
    ensures f.group >= 0 ==> KeyOf(f) in t.remap && KeyOf(f) in Allocate(t, e).remap
    ensures SlotOf(Allocate(t, e).remap, f) == SlotOf(t.remap, f)
    ensures SlotOk(SlotOf(t.remap, f)) && SlotOk(SlotOf(Allocate(t, e).remap, e))
    ensures SlotOf(Allocate(t, e).remap, e) != SlotOf(t.remap, f)
    ensures |e.steps| <= 64 && |f.steps| <= 64
  {
    KeysGrow(es, e);
    AllocateStep(t, e);
    if f.group >= 0 { assert KeyOf(f) in GroupKeys(es); }
    assert f in es + [e] && e in es + [e];
    SlotsDistinct(Allocate(t, e), es + [e], e, f);
  }

  lemma SlotKept(u: Tables, s: Slot, e: Entry, v: Slot, f: Entry)
    requires SlotOk(s) && SlotOk(v) && s != v && |e.steps| <= 64 && |f.steps| <= 64
    requires forall i | 0 <= i < |f.steps| :: Address(v, i) in u.rom && u.rom[Address(v, i)] == Encode(f.steps[i])
    ensures forall i | 0 <= i < |f.steps| ::
              && Address(v, i) in WriteSteps(u.rom, s, e.steps)
              && WriteSteps(u.rom, s, e.steps)[Address(v, i)] == Encode(f.steps[i])
  {
    forall i | 0 <= i < |f.steps|
      ensures Address(v, i) in WriteSteps(u.rom, s, e.steps)
      ensures WriteSteps(u.rom, s, e.steps)[Address(v, i)] == Encode(f.steps[i])
    {
      OtherSlotKept(u.rom, s, e.steps, v, i);
    }
  }

  /** The tables file, for every source key, the last entry registered under it,
      whatever longer or shorter entries came before. */
  lemma {:induction false} LastEntryWins(es: seq<Entry>, j: nat)
    requires Compilable(es) && j < |es| && LastOfItsKey(es, j)
    ensures Stored(Compile(es), es[j])
    decreases |es|
  {
    var front, e := es[..|es| - 1], es[|es| - 1];
    assert es == front + [e];
    CompileAllocates(front);
    if j == |front| {
      AddStores(Compile(front), front, e);
    } else {
      CompilablePrefix(es);
      assert forall m | j < m < |front| :: front[m] == es[m];
      LastEntryWins(front, j);
      AddKeepsOthers(Compile(front), front, e, front[j]);
    }
  }

  // ---- Reading the ROM the way the sequencer does ----

  /** The sequencer's slot for an instruction with this ModRM.reg. */
  function Fetch(t: Tables, e: Entry, reg: int): Slot { GroupRemap(t, e.is0f, e.opcode % 256, reg) }

  predicate RegMatches(e: Entry, reg: int) { 0 <= reg < 8 && (e.group >= 0 ==> reg == e.group) }

  lemma FetchFindsSlot(es: seq<Entry>, e: Entry, reg: int)
    requires Compilable(es) && e in es && RegMatches(e, reg)
    ensures e.group >= 0 ==> KeyOf(e) in Compile(es).remap
    ensures Fetch(Compile(es), e, reg) == SlotOf(Compile(es).remap, e)
  {
    CompileAllocates(es);
    if e.group >= 0 {
      assert KeyOf(e) in GroupKeys(es);
    }
  }

  // ---- What Compilable keeps out does collide ----

  /** Virtual opcode 100 hex does not fit: its addresses are those of plain 0F 00. */
  lemma {:induction false} OverflowAliases(rom: map<int, Word>, steps: seq<MicroOp>)
    ensures WriteSteps(rom, Slot(true, 256), steps) == WriteSteps(rom, Slot(true, 0), steps)
    decreases |steps|
  {
    if steps != [] {
      hide Address, Encode;
      OverflowAliases(rom, steps[..|steps| - 1]);
      AliasAddress(|steps| - 1);
    }
  }

  lemma AliasAddress(k: nat)
    ensures Address(Slot(true, 256), k) == Address(Slot(true, 0), k)
  {
    var a := k % 64;
    QuotientUnique(a, 0x4000, 0);
    QuotientUnique(0x4000 + a, 0x4000, 1);
  }

  /** The 49th group key overwrites the steps of plain 0F 00. */
  lemma OverflowHitsPlain(es: seq<Entry>, e: Entry, i: nat)
    requires |GroupKeys(es)| == 48 && e.group >= 0 && KeyOf(e) !in GroupKeys(es)
    requires i < |e.steps| <= 64
    ensures RomLookup(Compile(es + [e]), Address(Slot(true, 0), i)) == Encode(e.steps[i])
  {
    CompileAllocates(es);
    var t := Compile(es);
    assert |t.remap| == |t.remap.Keys| == 48;
    CompileOneMore(es, e);
    OverflowAliases(t.rom, e.steps);
    WrittenSteps(t.rom, Slot(true, 0), e.steps);
  }

  lemma CompileOneMore(es: seq<Entry>, e: Entry)
    ensures Compile(es + [e]) == AddEntry(Compile(es), e)
  {
    assert (es + [e])[..|es + [e]| - 1] == es;
  }

  /** A plain 0F opcode that a group key has been given overwrites that group. */
  lemma PlainHitsVirtual(es: seq<Entry>, g: Entry, e: Entry, i: nat)
    requires g in es && g.group >= 0 && e.group < 0 && e.is0f && i < |e.steps| <= 64
    requires KeyOf(g) in Compile(es).remap && Compile(es).remap[KeyOf(g)] == e.opcode % 256
    ensures var t := Compile(es + [e]);
            RomLookup(t, Address(Fetch(t, g, g.group), i)) == Encode(e.steps[i])
  {
    CompileOneMore(es, e);
    WrittenSteps(Compile(es).rom, Slot(true, e.opcode % 256), e.steps);
  }

  /** An opcode both plain and grouped: with the group's ModRM.reg the plain
      instruction runs the group's steps. */
  lemma GroupShadowsPlain(es: seq<Entry>, g: Entry, f: Entry)
    requires g in es && 0 <= g.group < 8 && f.group < 0
    requires f.is0f == g.is0f && f.opcode % 256 == g.opcode % 256
    ensures KeyOf(g) in Compile(es).remap
    ensures Fetch(Compile(es), f, g.group) == SlotOf(Compile(es).remap, g)
  {
    CompileAllocates(es);
    assert KeyOf(g) in GroupKeys(es);
  }

  /** A 65th step overwrites the first. */
  lemma LongEntryWraps(rom: map<int, Word>, s: Slot, steps: seq<MicroOp>)
    requires |steps| == 65
    ensures Address(s, 64) == Address(s, 0)
    ensures WriteSteps(rom, s, steps)[Address(s, 0)] == Encode(steps[64])
  {
  }

  /** Step count, in six bits, and atomic flag of the last entry of a key. */
  lemma LookupMeta(es: seq<Entry>, j: nat, reg: int)
    requires Compilable(es) && j < |es| && LastOfItsKey(es, j) && RegMatches(es[j], reg)
    ensures MaxStep(Compile(es), Fetch(Compile(es), es[j], reg)) == |es[j].steps| % 64
    ensures IsAtomic(Compile(es), Fetch(Compile(es), es[j], reg)) == es[j].atomic
  {
    LastEntryWins(es, j);
    FetchFindsSlot(es, es[j], reg);
  }

  /** Compile, then look up: for the last entry of every key, remapping its
      opcode and ModRM.reg and reading the ROM yields its step count in six bits,
      its atomic flag and exactly its micro-ops, with every label in range. */
  lemma CompileThenLookup(es: seq<Entry>, j: nat, reg: int)
    requires Compilable(es) && j < |es| && LastOfItsKey(es, j) && RegMatches(es[j], reg)
    ensures var t, e := Compile(es), es[j];
            var s := Fetch(t, e, reg);
            && 0 <= s.opcode < 256
            && MaxStep(t, s) == |e.steps| % 64
            && IsAtomic(t, s) == e.atomic
            && (forall i | 0 <= i < |e.steps| ::
                  && 0 <= Address(s, i) < 0x8000
                  && (e.steps[i].Fits() ==> Decode(RomLookup(t, Address(s, i))) == e.steps[i]))
  {
    var t, e := Compile(es), es[j];
    LookupMeta(es, j, reg);
    LastEntryWins(es, j);
    FetchFindsSlot(es, e, reg);
    CompileAllocates(es);
    SlotsDistinct(t, es, e, e);
    var s := Fetch(t, e, reg);
    forall i | 0 <= i < |e.steps|
      ensures 0 <= Address(s, i) < 0x8000
      ensures e.steps[i].Fits() ==> Decode(RomLookup(t, Address(s, i))) == e.steps[i]
    {
      AddressInjective(s, i, s, i);
      if e.steps[i].Fits() { DecodeEncode(e.steps[i]); }
    }
  }

  /** The step count itself comes back exactly for fewer than 64 steps. */
  lemma StepCountExactIff(es: seq<Entry>, j: nat, reg: int)
    requires Compilable(es) && j < |es| && LastOfItsKey(es, j) && RegMatches(es[j], reg)
    ensures MaxStep(Compile(es), Fetch(Compile(es), es[j], reg)) == |es[j].steps| <==> |es[j].steps| < 64
  {
    hide Compile, Fetch, MaxStep, Compilable, LastOfItsKey;
    LookupMeta(es, j, reg);
  }

  /** Sixty-four steps for one plain opcode compile, and read as none. */
  lemma FullLengthWitness(u: MicroOp, opcode: nat, reg: int)
    requires opcode < 256 && 0 <= reg < 8
    ensures var es := [Entry(opcode, false, false, -1, seq(64, _ => u))];
            Compilable(es) && MaxStep(Compile(es), Fetch(Compile(es), es[0], reg)) == 0
  {
    var e := Entry(opcode, false, false, -1, seq(64, _ => u));
    assert GroupKeys([e]) == {};
    LookupMeta([e], 0, reg);
  }

  /** Micro-ops read from step `i` until one carries the end flag. */
  function ReadToEnd(t: Tables, s: Slot, i: nat): seq<MicroOp>
    requires i < 64
    decreases 64 - i
  {
    var u := Decode(RomLookup(t, Address(s, i)));
    if u.isLast || i == 63 then [u] else [u] + ReadToEnd(t, s, i + 1)
  }

  lemma {:induction false} ReadsSteps(t: Tables, s: Slot, steps: seq<MicroOp>, i: nat)
    requires i < |steps| <= 64
    requires forall k | 0 <= k < |steps| :: Decode(RomLookup(t, Address(s, k))) == steps[k]
    requires forall k | 0 <= k < |steps| :: steps[k].isLast <==> k == |steps| - 1
    ensures ReadToEnd(t, s, i) == steps[i..]
    decreases |steps| - i
  {
    if i < |steps| - 1 {
      ReadsSteps(t, s, steps, i + 1);
    }
  }

  /** The source key of a header line. */
  function HeaderKey(h: Header): Key {
    Key(h.prefix0f || h.opcode > 0xFF, h.opcode % 256, if h.group >= 0 then h.group else -1)
  }

  /** `u` is the step of line `i` with the given flags. */
  predicate Executes(lines: seq<Line>, i: nat, u: MicroOp, last: bool, atomic: bool) {
    i < |lines| && lines[i].Step? && u == lines[i].body.(isLast := last, isAtomic := atomic)
  }

  /** `ops` are the step lines behind the header at line `a`, all of them up to the
      next header or the end and in their order, the end flag on the last one and
      the header's atomic flag on all. */
  ghost predicate RunsLines(lines: seq<Line>, a: nat, ops: seq<MicroOp>) {
    && 1 <= |ops| && a + |ops| < |lines| && lines[a].At?
    && (forall k | 0 <= k < |ops| :: Executes(lines, a + 1 + k, ops[k], k == |ops| - 1, lines[a].h.atomic))
    && (a + 1 + |ops| == |lines| || lines[a + 1 + |ops|].At?)
  }

  /** From source lines to micro-ops: for the last header of its key that has
      steps, remapping the instruction and walking the ROM from step 0 to the end
      flag executes exactly the step lines behind that header, in their order and
      up to the next header, the end flag on the last one and the header's atomic
      flag on all; even where a longer, overwritten sequence has left stale steps
      behind. */
  lemma SourceToMicroOps(lines: seq<Line>, j: nat, reg: int)
    requires Compilable(Parsed(lines)) && j < |Starts(lines)|
    requires forall i | j < i < |Starts(lines)| ::
               HeaderKey(lines[Starts(lines)[i]].h) != HeaderKey(lines[Starts(lines)[j]].h)
    requires var h := lines[Starts(lines)[j]].h; 0 <= reg < 8 && (h.group >= 0 ==> reg == h.group)
    requires forall k | 0 <= k < |lines| && lines[k].Step? :: lines[k].body.Fits()
    ensures var a := Starts(lines)[j];
            var h := lines[a].h;
            var t := Compile(Parsed(lines));
            var ops := ReadToEnd(t, GroupRemap(t, h.prefix0f || h.opcode > 0xFF, h.opcode % 256, reg), 0);
            RunsLines(lines, a, ops)
  {
    var es, a := Parsed(lines), Starts(lines)[j];
    EntriesAreLines(lines);
    ParsedSequenced(lines);
    assert Sequenced(es[j]);
    KeysOfHeaders(lines);
    FittingSteps(lines, a, es[j]);
    SameSteps(lines, a, es[j]);
    var h, e := lines[a].h, es[j];
    assert e.is0f == (h.prefix0f || h.opcode > 0xFF) && e.opcode % 256 == h.opcode % 256 && e.group == h.group;
    hide Compile, Compilable, Parsed, Starts, Describes, Sequenced, RunsLines;
    EntryToMicroOps(es, j, reg);
  }

  lemma KeysOfHeaders(lines: seq<Line>)
    requires |Parsed(lines)| == |Starts(lines)|
    requires forall j | 0 <= j < |Starts(lines)| :: Describes(lines, Starts(lines)[j], Parsed(lines)[j])
    ensures forall j | 0 <= j < |Starts(lines)| ::
              KeyOf(Parsed(lines)[j]) == HeaderKey(lines[Starts(lines)[j]].h)
  {
  }

  lemma FittingSteps(lines: seq<Line>, a: nat, e: Entry)
    requires Describes(lines, a, e) && forall k | 0 <= k < |lines| && lines[k].Step? :: lines[k].body.Fits()
    ensures forall k | 0 <= k < |e.steps| :: e.steps[k].Fits()
  {
    forall k | 0 <= k < |e.steps|
      ensures e.steps[k].Fits()
    {
      assert Says(lines, a + 1 + k, e.steps[k]) && lines[a + 1 + k].body.Fits();
    }
  }

  lemma SameSteps(lines: seq<Line>, a: nat, e: Entry)
    requires Describes(lines, a, e) && Sequenced(e)
    ensures RunsLines(lines, a, e.steps)
  {
    forall k | 0 <= k < |e.steps|
      ensures Executes(lines, a + 1 + k, e.steps[k], k == |e.steps| - 1, lines[a].h.atomic)
    {
      assert Says(lines, a + 1 + k, e.steps[k]);
    }
  }

  /** The same for an entry of the list: walking the ROM gives its steps. */
  lemma EntryToMicroOps(es: seq<Entry>, j: nat, reg: int)
    requires Compilable(es) && j < |es| && LastOfItsKey(es, j) && RegMatches(es[j], reg) && Sequenced(es[j])
    requires forall k | 0 <= k < |es[j].steps| :: es[j].steps[k].Fits()
    ensures ReadToEnd(Compile(es), Fetch(Compile(es), es[j], reg), 0) == es[j].steps
  {
    CompileThenLookup(es, j, reg);
    ReadsSteps(Compile(es), Fetch(Compile(es), es[j], reg), es[j].steps, 0);
  }

  /** An instruction the source does not list: no plain entry of its opcode and no
      group entry of its opcode and ModRM.reg. */
  predicate Unlisted(es: seq<Entry>, is0f: bool, opcode: int, reg: int) {
    forall e | e in es && e.is0f == is0f && e.opcode % 256 == opcode :: e.group >= 0 && e.group != reg
  }

  /** The lookups of an unlisted instruction give their defaults, unless it is a
      0F opcode from D0 on, where the virtual opcodes are. */
  lemma UnlistedDefaults(es: seq<Entry>, is0f: bool, opcode: int, reg: int, step: nat)
    requires Compilable(es) && Unlisted(es, is0f, opcode, reg) && 0 <= opcode < 256 && 0 <= reg < 8 && step < 64
    requires is0f ==> opcode < FIRST_VIRTUAL
    ensures var t := Compile(es);
            var s := GroupRemap(t, is0f, opcode, reg);
            && s == Slot(is0f, opcode) && RomLookup(t, Address(s, step)) == 0
            && MaxStep(t, s) == 1 && !IsAtomic(t, s)
  {
    CompileAllocates(es);
    assert Key(is0f, opcode, reg) !in GroupKeys(es);
    EmptySlot(es, Slot(is0f, opcode), step);
  }

  lemma {:induction false} EmptySlot(es: seq<Entry>, s: Slot, step: nat)
    requires Compilable(es) && SlotOk(s) && step < 64 && (s.is0f ==> s.opcode < FIRST_VIRTUAL)
    requires forall e | e in es && e.group < 0 :: Slot(e.is0f, e.opcode % 256) != s
    ensures s !in Compile(es).meta && Address(s, step) !in Compile(es).rom
    decreases |es|
  {
    if es != [] {
      var front, e := es[..|es| - 1], es[|es| - 1];
      assert es == front + [e];
      CompilablePrefix(es);
      EmptySlot(front, s, step);
      CompileAllocates(es);
      SlotsDistinct(Compile(es), es, e, e);
      assert SlotOf(Compile(es).remap, e) != s;
      EmptyAfter(Compile(front), e, s, step);
    }
  }

  lemma EmptyAfter(t: Tables, e: Entry, s: Slot, step: nat)
    requires s !in t.meta && Address(s, step) !in t.rom && SlotOk(s) && step < 64 && |e.steps| <= 64
    requires SlotOk(SlotOf(Allocate(t, e).remap, e)) && SlotOf(Allocate(t, e).remap, e) != s
    ensures s !in AddEntry(t, e).meta && Address(s, step) !in AddEntry(t, e).rom
  {
    OtherSlotKept(t.rom, SlotOf(Allocate(t, e).remap, e), e.steps, s, step);
  }
}
