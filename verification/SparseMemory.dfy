/** MemoryModel of memory_model.h: a memory allocated page by page. */
module SparseMemory {
  import opened FlatMemory

  const PAGE_SIZE := 4096

  datatype Op =
    | Write8(addr: int, val: int)
    | Write16(addr: int, val: int)
    | Write32(addr: int, val: int)
    | Fill(base: int, count: nat, byte: Byte)
  {
    predicate Valid() {
      match this
      case Write8(a, v) => 0 <= a < SPACE && 0 <= v < 0x100
      case Write16(a, v) => 0 <= a < SPACE && 0 <= v < 0x1_0000
      case Write32(a, v) => 0 <= a < SPACE && 0 <= v < SPACE
      case Fill(b, n, v) => 0 <= b < SPACE
    }
  }

  /** The same operations on the flat memory. */
  function Apply(m: Flat, op: Op): Flat {
    match op
    case Write8(a, v) => Put(m, a, ByteOf(v, 0))
    case Write16(a, v) => Put16(m, a, v)
    case Write32(a, v) => Put32(m, a, v)
    case Fill(b, n, v) => Filled(m, b, n, v)
  }

  function ApplyAll(m: Flat, ops: seq<Op>): Flat
    decreases |ops|
  {
    if ops == [] then m else Apply(ApplyAll(m, ops[..|ops| - 1]), ops[|ops| - 1])
  }

  /** Both memories read the same at every 32-bit address. */
  ghost predicate Agree(m: Flat, n: Flat) {
    forall a | 0 <= a < SPACE :: m(a) == n(a)
  }

  class MemoryModel {
    var pages: map<int, seq<Byte>>

    ghost predicate Valid()
      reads this
    {
      forall p | p in pages :: |pages[p]| == PAGE_SIZE
    }

    /** What a read finds: bytes of absent pages are FF. */
    function View(): Flat
      reads this
      requires Valid()
    {
      var ps := pages;
      (a: int) =>
        if a / PAGE_SIZE in ps && |ps[a / PAGE_SIZE]| == PAGE_SIZE then ps[a / PAGE_SIZE][a % PAGE_SIZE] else 0xFF
    }

    constructor ()
      ensures Valid() && pages == map[] && Agree(View(), Blank())
    {
      pages := map[];
    }

    method Read8(addr: int) returns (b: Byte)
      requires Valid() && 0 <= addr < SPACE
      ensures b == View()(addr)
    {
      if addr / PAGE_SIZE !in pages { return 0xFF; }
      b := pages[addr / PAGE_SIZE][addr % PAGE_SIZE];
    }

    method Read16(addr: int) returns (w: int)
      requires Valid() && 0 <= addr < SPACE
      ensures w == Get16(View(), addr)
    {
      var b0: int := Read8(addr);
      var b1: int := Read8((addr + 1) % SPACE);
      w := b0 + b1 * 0x100;
    }

    method Read32(addr: int) returns (w: int)
      requires Valid() && 0 <= addr < SPACE
      ensures w == Get32(View(), addr)
    {
      var b0: int := Read8(addr);
      var b1: int := Read8((addr + 1) % SPACE);
      var b2: int := Read8((addr + 2) % SPACE);
      var b3: int := Read8((addr + 3) % SPACE);
      w := b0 + b1 * 0x100 + b2 * 0x1_0000 + b3 * 0x100_0000;
    }

    /** The sixteen bytes of a fetch block. */
    method Read128(addr: int) returns (block: seq<Byte>)
      requires Valid() && 0 <= addr < SPACE
      ensures |block| == 16 && forall i | 0 <= i < 16 :: block[i] == View()((addr + i) % SPACE)
    {
      block := [];
      for i := 0 to 16
        invariant |block| == i
        invariant forall k | 0 <= k < i :: block[k] == View()((addr + k) % SPACE)
      {
        var b := Read8((addr + i) % SPACE);
        block := block + [b];
      }
    }

    /** Only the addressed page is ever allocated. */
    method Write8(addr: int, val: Byte)
      requires Valid() && 0 <= addr < SPACE
      modifies this
      ensures Valid() && Agree(View(), Put(old(View()), addr, val))
      ensures pages.Keys == old(pages.Keys) + {addr / PAGE_SIZE}
    {
      var n := addr / PAGE_SIZE;
      if n !in pages {
        pages := pages[n := seq(PAGE_SIZE, _ => 0xFF)];
      }
      var page: seq<Byte> := pages[n];
      page := page[addr % PAGE_SIZE := val];
      pages := pages[n := page];
      SamePlace(addr);
    }

    method Write16(addr: int, val: int)
      requires Valid() && 0 <= addr < SPACE && 0 <= val < 0x1_0000
      modifies this
      ensures Valid() && Agree(View(), Put16(old(View()), addr, val))
    {
      Shifts(val);
      ghost var m := View();
      hide ByteOf, View, Agree, Put;
      Write8(addr, val % 256);
      ghost var m1 := View();
      Write8((addr + 1) % SPACE, val / 0x100 % 256);
      TwoPuts(m, m1, View(), addr, ByteOf(val, 0), Addr(addr + 1), ByteOf(val, 1));
    }

    method Write32(addr: int, val: int)
      requires Valid() && 0 <= addr < SPACE && 0 <= val < SPACE
      modifies this
      ensures Valid() && Agree(View(), Put32(old(View()), addr, val))
    {
      Shifts(val);
      ghost var m := View();
      hide ByteOf, View, Agree, Put;
      Write8(addr, val % 256);
      ghost var m1 := View();
      Write8((addr + 1) % SPACE, val / 0x100 % 256);
      ghost var m2 := View();
      Write8((addr + 2) % SPACE, val / 0x1_0000 % 256);
      ghost var m3 := View();
      Write8((addr + 3) % SPACE, val / 0x100_0000 % 256);
      FourPuts(m, m1, m2, m3, View(), addr, val);
    }

    method Fill(base: int, count: nat, val: Byte)
      requires Valid() && 0 <= base < SPACE
      modifies this
      ensures Valid() && Agree(View(), Filled(old(View()), base, count, val))
    {
      for i := 0 to count
        invariant Valid() && Agree(View(), Filled(old(View()), base, i, val))
      {
        Write8((base + i) % SPACE, val);
        FillOneMore(old(View()), base, i, val);
      }
    }

    /** Refinement over every program of writes and fills: the sparse memory
        reads like the flat one after the same operations. */
    method Execute(ops: seq<Op>)
      requires Valid() && forall k | 0 <= k < |ops| :: ops[k].Valid()
      modifies this
      ensures Valid() && Agree(View(), ApplyAll(old(View()), ops))
    {
      for n := 0 to |ops|
        invariant Valid() && Agree(View(), ApplyAll(old(View()), ops[..n]))
      {
        assert ops[..n + 1][..n] == ops[..n];
        ghost var before := View();
        match ops[n] {
          case Write8(a, v) => Write8(a, v % 256);
          case Write16(a, v) => Write16(a, v);
          case Write32(a, v) => Write32(a, v);
          case Fill(b, k, v) => Fill(b, k, v);
        }
        ApplyAgrees(before, ApplyAll(old(View()), ops[..n]), ops[n]);
      }
      assert ops[..|ops|] == ops;
    }
  }

  /** Writing to memories that read alike keeps them alike. */
  lemma TwoPuts(m: Flat, m1: Flat, m2: Flat, a: int, v: Byte, b: int, w: Byte)
    requires Agree(m1, Put(m, a, v)) && Agree(m2, Put(m1, b, w))
    ensures Agree(m2, Put(Put(m, a, v), b, w))
  {
  }

  lemma FourPuts(m: Flat, m1: Flat, m2: Flat, m3: Flat, m4: Flat, addr: int, val: int)
    requires Agree(m1, Put(m, addr, ByteOf(val, 0))) && Agree(m2, Put(m1, Addr(addr + 1), ByteOf(val, 1)))
    requires Agree(m3, Put(m2, Addr(addr + 2), ByteOf(val, 2))) && Agree(m4, Put(m3, Addr(addr + 3), ByteOf(val, 3)))
    ensures Agree(m4, Put32(m, addr, val))
  {
    hide ByteOf, Put, Agree;
    var n1 := Put(m, addr, ByteOf(val, 0));
    TwoPuts(m, m1, m2, addr, ByteOf(val, 0), Addr(addr + 1), ByteOf(val, 1));
    var n2 := Put(n1, Addr(addr + 1), ByteOf(val, 1));
    TwoPuts(n1, m2, m3, Addr(addr + 1), ByteOf(val, 1), Addr(addr + 2), ByteOf(val, 2));
    TwoPuts(n2, m3, m4, Addr(addr + 2), ByteOf(val, 2), Addr(addr + 3), ByteOf(val, 3));
  }

  /** Where an operation starts and how many bytes it writes. */
  function Start(op: Op): int {
    if op.Fill? then op.base else op.addr
  }

  function Length(op: Op): nat {
    match op
    case Write8(_, _) => 1
    case Write16(_, _) => 2
    case Write32(_, _) => 4
    case Fill(_, n, _) => n
  }

  /** What each operation does to the flat memory, byte by byte: counted from its
      start and round the address space, byte `k` within its length becomes byte
      `k` of the value, or the fill byte; every other byte stays. */
  lemma ApplyMeans(m: Flat, op: Op, k: nat)
    requires op.Valid() && k < SPACE
    ensures k >= Length(op) ==> Apply(m, op)(Addr(Start(op) + k)) == m(Addr(Start(op) + k))
    ensures k < Length(op) ==>
              Apply(m, op)(Addr(Start(op) + k))
              == if op.Fill? then op.byte else ByteOf(op.val, k)
  {
    hide ByteOf, Addr;
    match op
    case Write8(a, v) =>
      Apart(a, k, 0);
    case Write16(a, v) =>
      Apart(a, k, 0);
      Apart(a, k, 1);
    case Write32(a, v) =>
      Apart(a, k, 0);
      Apart(a, k, 1);
      Apart(a, k, 2);
      Apart(a, k, 3);
    case Fill(b, n, v) =>
      FillMeans(m, b, n, v, k);
  }

  lemma FillMeans(m: Flat, base: int, n: nat, val: Byte, k: nat)
    requires 0 <= base < SPACE && k < SPACE
    ensures Filled(m, base, n, val)(Addr(base + k)) == if k < n then val else m(Addr(base + k))
  {
    FillPlace(Addr(base + k), base, k);
  }

  /** Offsets within the address space name different addresses. */
  lemma Apart(a: int, i: nat, j: nat)
    requires 0 <= a < SPACE && i < SPACE && j < SPACE
    ensures Addr(a + i) == Addr(a + j) <==> i == j
    ensures Addr(a + 0) == a
  {
  }

  /** A page number and an offset name one address. */
  lemma SamePlace(addr: int)
    ensures forall a: int :: a / PAGE_SIZE == addr / PAGE_SIZE && a % PAGE_SIZE == addr % PAGE_SIZE ==> a == addr
  {
  }

  lemma FillOneMore(m: Flat, base: int, i: nat, val: Byte)
    requires 0 <= base < SPACE
    ensures Agree(Put(Filled(m, base, i, val), Addr(base + i), val), Filled(m, base, i + 1, val))
  {
    var before, after := Put(Filled(m, base, i, val), Addr(base + i), val), Filled(m, base, i + 1, val);
    forall a | 0 <= a < SPACE
      ensures before(a) == after(a)
    {
      FillPlace(a, base, i);
    }
  }

  lemma FillPlace(a: int, base: int, i: nat)
    requires 0 <= a < SPACE && 0 <= base < SPACE
    ensures i < SPACE ==> (a == Addr(base + i) <==> Addr(a - base) == i)
    ensures i >= SPACE ==> Addr(a - base) < i
  {
  }

  /** Operations act alike on memories that read alike. */
  lemma ApplyAgrees(m: Flat, n: Flat, op: Op)
    requires Agree(m, n)
    ensures Agree(Apply(m, op), Apply(n, op))
  {
  }
}
