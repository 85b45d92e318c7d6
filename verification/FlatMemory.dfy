/** A flat four-gigabyte memory as a function from addresses to bytes: the
    reference that the sparse MemoryModel of memory_model.h must agree with. */
module FlatMemory {
  import opened Arithmetic

  type Byte = b: int | 0 <= b < 256
  type Flat = int -> Byte

  const SPACE := 0x1_0000_0000

  /** uint32_t arithmetic. */
  function Addr(a: int): int { a % SPACE }

  function Blank(): Flat { a => 0xFF }

  function Put(m: Flat, addr: int, val: Byte): Flat {
    (a: int) => if a == addr then val else m(a)
  }

  /** Byte `k` of a number, counted from the least significant. */
  function ByteOf(val: int, k: nat): Byte
    decreases k
  {
    if k == 0 then val % 256 else ByteOf(val / 256, k - 1)
  }

  /** Bytes in memory order, read as a little-endian number. */
  function LittleEndian(bytes: seq<Byte>): (v: int)
    ensures v >= 0
  {
    if bytes == [] then 0 else bytes[0] + 256 * LittleEndian(bytes[1..])
  }

  lemma {:induction false} ByteOfLittleEndian(bytes: seq<Byte>, k: nat)
    ensures ByteOf(LittleEndian(bytes), k) == if k < |bytes| then bytes[k] else 0
    decreases k
  {
    if bytes == [] {
      if k > 0 { ByteOfLittleEndian(bytes, k - 1); }
    } else {
      var rest := LittleEndian(bytes[1..]);
      assert LittleEndian(bytes) % 256 == bytes[0] && LittleEndian(bytes) / 256 == rest;
      if k > 0 { ByteOfLittleEndian(bytes[1..], k - 1); }
    }
  }

  /** Shifting right by whole bytes. */
  lemma Shifts(val: int)
    ensures ByteOf(val, 0) == val % 256
    ensures ByteOf(val, 1) == val / 0x100 % 256
    ensures ByteOf(val, 2) == val / 0x1_0000 % 256
    ensures ByteOf(val, 3) == val / 0x100_0000 % 256
  {
    assert ByteOf(val, 1) == ByteOf(val / 256, 0);
    assert ByteOf(val, 2) == ByteOf(val / 256, 1) == ByteOf(val / 256 / 256, 0);
    assert ByteOf(val, 3) == ByteOf(val / 256, 2) == ByteOf(val / 256 / 256, 1) == ByteOf(val / 256 / 256 / 256, 0);
    assert val / 256 / 256 == val / 0x1_0000;
    assert val / 256 / 256 / 256 == val / 0x100_0000;
  }

  function Put16(m: Flat, addr: int, val: int): Flat {
    Put(Put(m, addr, ByteOf(val, 0)), Addr(addr + 1), ByteOf(val, 1))
  }

  function Put32(m: Flat, addr: int, val: int): Flat {
    Put(Put(Put(Put(m, addr, ByteOf(val, 0)), Addr(addr + 1), ByteOf(val, 1)),
            Addr(addr + 2), ByteOf(val, 2)), Addr(addr + 3), ByteOf(val, 3))
  }

  /** `count` bytes from `base` on, wrapping at the top of memory. */
  function Filled(m: Flat, base: int, count: nat, val: Byte): Flat {
    (a: int) => if 0 <= a < SPACE && Addr(a - base) < count then val else m(a)
  }

  function Get16(m: Flat, addr: int): int { m(addr) + 0x100 * m(Addr(addr + 1)) }

  function Get32(m: Flat, addr: int): int {
    m(addr) + 0x100 * m(Addr(addr + 1)) + 0x1_0000 * m(Addr(addr + 2)) + 0x100_0000 * m(Addr(addr + 3))
  }

  /** Consecutive addresses differ even where they wrap. */
  lemma Neighbours(addr: int, i: nat, j: nat)
    requires 0 <= addr < SPACE && i < j < 0x1_0000
    ensures Addr(addr + i) != Addr(addr + j)
  {
  }

  /** What is written is read back, at every address including those whose
      bytes wrap round to zero. */
  lemma WordRoundTrip(m: Flat, addr: int, val: int)
    requires 0 <= addr < SPACE
    ensures 0 <= val < 0x1_0000 ==> Get16(Put16(m, addr, val), addr) == val
    ensures 0 <= val < SPACE ==> Get32(Put32(m, addr, val), addr) == val
  {
    Neighbours(addr, 0, 1);
    Neighbours(addr, 0, 2);
    Neighbours(addr, 0, 3);
    Neighbours(addr, 1, 2);
    Neighbours(addr, 1, 3);
    Neighbours(addr, 2, 3);
    assert Addr(addr + 0) == addr;
    Digits(val);
  }

  lemma Digits(val: int)
    ensures 0 <= val < 0x1_0000 ==> val == ByteOf(val, 0) + 0x100 * ByteOf(val, 1)
    ensures 0 <= val < SPACE ==>
              val == ByteOf(val, 0) + 0x100 * ByteOf(val, 1) + 0x1_0000 * ByteOf(val, 2) + 0x100_0000 * ByteOf(val, 3)
  {
    Shifts(val);
    hide ByteOf;
    Quotients(val);
  }

  lemma Quotients(val: int)
    ensures 0 <= val < 0x1_0000 ==> val == val % 256 + 0x100 * (val / 0x100 % 256)
    ensures 0 <= val < SPACE ==>
              val == val % 256 + 0x100 * (val / 0x100 % 256) + 0x1_0000 * (val / 0x1_0000 % 256)
                     + 0x100_0000 * (val / 0x100_0000 % 256)
  {
    var q1 := val / 0x100;
    var q2 := q1 / 0x100;
    var q3 := q2 / 0x100;
    assert val == val % 256 + 0x100 * q1 && q1 == q1 % 256 + 0x100 * q2 && q2 == q2 % 256 + 0x100 * q3;
    QuotientUnique(val, 0x1_0000, q2);
    QuotientUnique(val, 0x100_0000, q3);
    if 0 <= val < SPACE {
      QuotientUnique(q3, 256, 0);
    }
    if 0 <= val < 0x1_0000 {
      QuotientUnique(q1, 256, 0);
    }
  }
}
