/** ROM images seen two ways: the 64-bit words bin_to_hex.py writes for a block
    RAM, and the same image loaded byte by byte into the test bench memory and
    read over its byte-enabled 64-bit bus. */
module RomImage {
  import opened Arithmetic
  import opened FlatMemory
  import SparseMemory

  // ---- bin_to_hex.py ----

  function Padding(n: nat): nat { (-(n as int)) % 8 }

  function Padded(src: seq<Byte>): seq<Byte> { src + seq(Padding(|src|), _ => 0xFF) }

  lemma PaddedLength(src: seq<Byte>)
    ensures |Padded(src)| % 8 == 0 && |Padded(src)| < |src| + 8
    ensures |src| <= SPACE ==> |Padded(src)| <= SPACE
  {
  }

  function Word(src: seq<Byte>, i: nat): int
    requires 8 * i + 8 <= |src|
  {
    LittleEndian(src[8 * i..8 * i + 8])
  }

  function HexWords(src: seq<Byte>): seq<int> {
    var p := Padded(src);
    seq(|p| / 8, i requires 0 <= i < |p| / 8 => Word(p, i))
  }

  method BinToHex(image: seq<Byte>) returns (lines: seq<int>)
    ensures lines == HexWords(image)
  {
    var src := image;
    var pad := (-|src|) % 8;
    if pad != 0 {
      src := src + seq(pad, _ => 0xFF);
    }
    assert src == Padded(image);
    PaddedLength(image);
    lines := [];
    var i := 0;
    while i < |src|
      invariant 0 <= i <= |src| && i == 8 * |lines|
      invariant forall k | 0 <= k < |lines| :: lines[k] == Word(src, k)
    {
      lines := lines + [LittleEndian(src[i..i + 8])];
      i := i + 8;
    }
  }

  // ---- The test bench memory ----

  function Loaded(m: Flat, base: int, data: seq<Byte>): Flat
    decreases |data|
  {
    if data == [] then m
    else Put(Loaded(m, base, data[..|data| - 1]), Addr(base + |data| - 1), data[|data| - 1])
  }

  lemma LoadedNext(m: Flat, before: Flat, after: Flat, base: int, bytes: seq<Byte>, i: nat)
    requires i < |bytes| && SparseMemory.Agree(before, Loaded(m, base, bytes[..i]))
    requires SparseMemory.Agree(after, Put(before, Addr(base + i), bytes[i]))
    ensures SparseMemory.Agree(after, Loaded(m, base, bytes[..i + 1]))
  {
    assert bytes[..i + 1][..i] == bytes[..i];
  }

  function Lane(addr: int, i: int): int { addr - addr % 8 + i }

  function BusWord(m: Flat, addr: int): seq<Byte> {
    seq(8, i requires 0 <= i < 8 => m(Lane(addr, i)))
  }

  function BusRead(m: Flat, addr: int): int { LittleEndian(BusWord(m, addr)) }

  /** The first `n` enabled byte lanes written. */
  function BusWrite(m: Flat, addr: int, wdata: int, enable: seq<bool>, n: nat): Flat
    requires n <= |enable|
  {
    if n == 0 then m
    else if enable[n - 1] then Put(BusWrite(m, addr, wdata, enable, n - 1), Lane(addr, n - 1), ByteOf(wdata, n - 1))
    else BusWrite(m, addr, wdata, enable, n - 1)
  }

  /** load_bin and the data port of the test bench. */
  class Bench {
    const mem: SparseMemory.MemoryModel
    var pending: bool
    var rdata: int

    constructor (mem: SparseMemory.MemoryModel)
      ensures this.mem == mem && !pending && rdata == 0
    {
      this.mem := mem;
      pending, rdata := false, 0;
    }

    method LoadBin(bytes: seq<Byte>, base: int)
      requires mem.Valid() && 0 <= base < SPACE
      modifies mem
      ensures mem.Valid() && SparseMemory.Agree(mem.View(), Loaded(old(mem.View()), base, bytes))
    {
      for i := 0 to |bytes|
        invariant mem.Valid() && SparseMemory.Agree(mem.View(), Loaded(old(mem.View()), base, bytes[..i]))
      {
        hide Loaded, Put, SparseMemory.Agree;
        ghost var before := mem.View();
        mem.Write8(Addr(base + i), bytes[i]);
        LoadedNext(old(mem.View()), before, mem.View(), base, bytes, i);
      }
      assert bytes[..|bytes|] == bytes;
    }

    /** A request is served once, and then waits to be acknowledged. */
    method ServiceDataMem(req: bool, ack: bool, addr: int, wr: bool, wdata: int, enable: seq<bool>)
      requires mem.Valid() && 0 <= addr < SPACE && |enable| == 8
      modifies this`pending, this`rdata, mem
      ensures mem.Valid()
      ensures pending == (old(pending) || (req && !ack))
      ensures req && !ack && !old(pending) && wr ==>
                SparseMemory.Agree(mem.View(), BusWrite(old(mem.View()), addr, wdata, enable, 8)) && rdata == old(rdata)
      ensures req && !ack && !old(pending) && !wr ==>
                mem.pages == old(mem.pages) && rdata == BusRead(mem.View(), addr)
      ensures !req || ack || old(pending) ==> mem.pages == old(mem.pages) && rdata == old(rdata)
    {
      if req && !ack && !pending {
        var base := addr - addr % 8;
        if wr {
          for i := 0 to 8
            invariant mem.Valid() && pending == old(pending) && rdata == old(rdata)
            invariant SparseMemory.Agree(mem.View(), BusWrite(old(mem.View()), addr, wdata, enable, i))
          {
            if enable[i] {
              mem.Write8(base + i, ByteOf(wdata, i));
            }
          }
        } else {
          var bytes: seq<Byte> := [];
          for i := 0 to 8
            invariant |bytes| == i && mem.pages == old(mem.pages)
            invariant forall k | 0 <= k < i :: bytes[k] == mem.View()(Lane(addr, k))
          {
            var b := mem.Read8(base + i);
            bytes := bytes + [b];
          }
          assert bytes == BusWord(mem.View(), addr);
          rdata := LittleEndian(bytes);
        }
        pending := true;
      }
    }
  }

  // ---- Agreement ----

  /** Loading a block of at most the address space puts byte `k` at offset `k`
      and touches nothing else. */
  lemma {:induction false} LoadedAt(m: Flat, base: int, data: seq<Byte>, k: nat)
    requires 0 <= base < SPACE && |data| <= SPACE && k < SPACE
    ensures Loaded(m, base, data)(Addr(base + k)) == if k < |data| then data[k] else m(Addr(base + k))
    decreases |data|
  {
    if data != [] {
      LoadedAt(m, base, data[..|data| - 1], k);
      OffsetsDistinct(base, k, |data| - 1);
    }
  }

  lemma OffsetsDistinct(base: int, i: nat, j: nat)
    requires 0 <= base < SPACE && i < SPACE && j < SPACE
    ensures Addr(base + i) == Addr(base + j) <==> i == j
  {
  }

  /** The two views agree for every image of up to the whole address space at
      every aligned base, wrapping past the top included: word `i` on the bus is
      line `i` of the hex file, tail padding too, because bytes never written
      read as the padding byte. */
  lemma RomAgreement(image: seq<Byte>, base: int, i: nat)
    requires |image| <= SPACE && 0 <= base < SPACE && base % 8 == 0 && i < |HexWords(image)|
    ensures BusRead(Loaded(Blank(), base, image), Addr(base + 8 * i)) == HexWords(image)[i]
  {
    var m, p := Loaded(Blank(), base, image), Padded(image);
    PaddedLength(image);
    assert 8 * i + 8 <= |p| <= SPACE;
    var seen, line := BusWord(m, Addr(base + 8 * i)), p[8 * i..8 * i + 8];
    forall k | 0 <= k < 8
      ensures seen[k] == line[k]
    {
      AlignedLane(base, i, k);
      LoadedAt(Blank(), base, image, 8 * i + k);
    }
    assert seen == line;
  }

  lemma AlignedLane(base: int, i: nat, k: nat)
    requires 0 <= base < SPACE && base % 8 == 0 && 8 * i < SPACE && k < 8
    ensures Lane(Addr(base + 8 * i), k) == Addr(base + (8 * i + k))
  {
    var t := WholeWords(base, i);
    LaneOfWord(t, k);
    hide Lane, Addr;
    assert base + 8 * i == 8 * t && base + (8 * i + k) == 8 * t + k;
  }

  lemma WholeWords(base: int, i: nat) returns (t: int)
    requires base % 8 == 0
    ensures base + 8 * i == 8 * t
  {
    t := base / 8 + i;
  }

  /** The lanes of word `t`, counted round the address space. */
  lemma LaneOfWord(t: int, k: nat)
    requires 0 <= 8 * t < 2 * SPACE && k < 8
    ensures Lane(Addr(8 * t), k) == Addr(8 * t + k)
  {
    var q := if 8 * t < SPACE then 0 else 1;
    QuotientUnique(8 * t, SPACE, q);
    QuotientUnique(8 * t + k, SPACE, q);
    QuotientUnique(8 * t - q * SPACE, 8, t - q * 0x2000_0000);
  }

  lemma {:induction false} BusWriteAt(m: Flat, addr: int, wdata: int, enable: seq<bool>, n: nat, a: int)
    requires n <= |enable| == 8
    ensures BusWrite(m, addr, wdata, enable, n)(a)
            == if Lane(addr, 0) <= a < Lane(addr, n) && enable[a - Lane(addr, 0)]
               then ByteOf(wdata, a - Lane(addr, 0)) else m(a)
  {
    if n > 0 {
      BusWriteAt(m, addr, wdata, enable, n - 1, a);
    }
  }

  /** A write followed by a read of the same word merges lane by lane; a read of
      any other word is unaffected. */
  lemma BusMerge(m: Flat, addr: int, wdata: int, enable: seq<bool>, other: int, k: nat)
    requires |enable| == 8 && k < 8
    ensures ByteOf(BusRead(BusWrite(m, addr, wdata, enable, 8), addr), k)
            == if enable[k] then ByteOf(wdata, k) else ByteOf(BusRead(m, addr), k)
    ensures other / 8 != addr / 8 ==> BusRead(BusWrite(m, addr, wdata, enable, 8), other) == BusRead(m, other)
  {
    var w := BusWrite(m, addr, wdata, enable, 8);
    BusWriteAt(m, addr, wdata, enable, 8, Lane(addr, k));
    ByteOfLittleEndian(BusWord(w, addr), k);
    ByteOfLittleEndian(BusWord(m, addr), k);
    if other / 8 != addr / 8 {
      forall j | 0 <= j < 8
        ensures BusWord(w, other)[j] == BusWord(m, other)[j]
      {
        BusWriteAt(m, addr, wdata, enable, 8, Lane(other, j));
      }
      assert BusWord(w, other) == BusWord(m, other);
    }
  }

  /** The hex file holds the whole image: one line for every eight bytes begun,
      each a 64-bit number whose bytes are the image's in order, least significant
      first, and FF behind its end. */
  lemma HexHoldsImage(image: seq<Byte>, k: nat)
    requires k < 8 * |HexWords(image)|
    ensures |HexWords(image)| == (|image| + 7) / 8
    ensures ByteOf(HexWords(image)[k / 8], k % 8) == if k < |image| then image[k] else 0xFF
    ensures forall j: nat | j >= 8 :: ByteOf(HexWords(image)[k / 8], j) == 0
  {
    PaddedLength(image);
    var p, i := Padded(image), k / 8;
    assert k == 8 * i + k % 8 && 8 * i + 8 <= |p|;
    var line := p[8 * i..8 * i + 8];
    ByteOfLittleEndian(line, k % 8);
    assert line[k % 8] == p[k];
    forall j: nat | j >= 8
      ensures ByteOf(HexWords(image)[i], j) == 0
    {
      ByteOfLittleEndian(line, j);
    }
  }
}
