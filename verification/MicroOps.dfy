/** The 48-bit micro-operation word of micro_op_defs.py. */
module MicroOps {

  type Word = bv48

  /** Field values are kept to 48 bits; encode masks them to their widths. */
  datatype MicroOp = MicroOp(
    opType: Word, aluOp: Word, destReg: Word, srcA: Word, srcB: Word, segReg: Word,
    specialCmd: Word, immediate: Word, isLast: bool, isAtomic: bool, size: Word)
  {
    /** Every field within the width the encoding gives it. */
    predicate Fits() {
      && opType <= 0xF && aluOp <= 0xF && destReg <= 0x7 && srcA <= 0x7 && srcB <= 0x7 && segReg <= 0x7
      && specialCmd <= 0xFF && immediate <= 0xFFFF && size <= 0x3
    }
  }

  function Flag(b: bool): Word { if b then 1 else 0 }

  /** Bit positions are six-bit numbers. */
  type Position = p: bv6 | p < 48

  /** A field's value moved to its place, and read from it. */
  function Place(v: Word, at: Position): Word { v << at }
  function Read(w: Word, at: Position): Word { w >> at }

  function Encode(u: MicroOp): Word {
    Place(u.opType & 0xF, 44)
    | Place(u.aluOp & 0xF, 40)
    | Place(u.destReg & 0x7, 37)
    | Place(u.srcA & 0x7, 34)
    | Place(u.srcB & 0x7, 31)
    | Place(u.segReg & 0x7, 28)
    | Place(u.specialCmd & 0xFF, 20)
    | Place(u.immediate & 0xFFFF, 4)
    | Place(Flag(u.isLast), 3)
    | Place(Flag(u.isAtomic), 2)
    | (u.size & 0x3)
  }

  /** The documented layout, read back. */
  function Decode(w: Word): MicroOp {
    MicroOp(
      Read(w, 44) & 0xF, Read(w, 40) & 0xF, Read(w, 37) & 0x7, Read(w, 34) & 0x7, Read(w, 31) & 0x7, Read(w, 28) & 0x7,
      Read(w, 20) & 0xFF, Read(w, 4) & 0xFFFF, Read(w, 3) & 1 == 1, Read(w, 2) & 1 == 1, w & 0x3)
  }

  /** No field overlaps another. */
  lemma DecodeEncode(u: MicroOp)
    requires u.Fits()
    ensures Decode(Encode(u)) == u
  {
    HighFields(u);
    LowFields(u);
  }

  lemma HighFields(u: MicroOp)
    requires u.Fits()
    ensures var v := Decode(Encode(u));
            v.opType == u.opType && v.aluOp == u.aluOp && v.destReg == u.destReg && v.srcA == u.srcA && v.srcB == u.srcB
  {
  }

  lemma LowFields(u: MicroOp)
    requires u.Fits()
    ensures var v := Decode(Encode(u));
            && v.segReg == u.segReg && v.specialCmd == u.specialCmd && v.immediate == u.immediate
            && v.isLast == u.isLast && v.isAtomic == u.isAtomic && v.size == u.size
  {
  }

  /** No bit of the word is unused: together the fields tile it. */
  lemma EncodeDecode(w: Word)
    ensures Encode(Decode(w)) == w && Decode(w).Fits()
  {
  }
}
