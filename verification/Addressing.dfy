/**
 Memory operands: every base + index * scale + displacement is encodable, and decoding
 and executing the encoding computes exactly that address.
 */
module Addressing {
  import opened Words
  import opened Bits
  import opened Instructions
  import opened Machine
  import opened Operations
  import opened Decoding
  import opened Codec
  import opened Programs
  import opened Semantics

  datatype Option<T> = None | Some(value: T)

  /** A memory operand as the assembler writes it. */
  datatype Address = Address(base: Option<RegIdx>, index: Option<RegIdx>, scale: nat, disp: int)
  {
    /** The stack pointer cannot be an index; the displacement is a signed 32-bit word. */
    predicate Valid()
    {
      && (index.Some? ==> index.value != RSP)
      && scale < 4
      && -0x8000_0000 <= disp < 0x8000_0000
    }

    /** The address it denotes, before reduction modulo 2^64. */
    function Sum(s: State): int
    {
      (if base.Some? then s.regs[base.value] else 0)
      + (if index.Some? then s.regs[index.value] * Pow2(scale) else 0)
      + disp
    }
  }

  // ---------------------------------------------------------------- what an operand denotes

  /** The form [RIP + disp32], the one that is not a base and an index. */
  predicate IsRipRelative(i: Ins) { i.modrm / 64 == 0 && i.modrm % 8 == 5 }

  /** The displacement as a signed byte, or as a signed 32-bit word. */
  function ByteDisp(i: Ins): int { var d := i.displ % 0x100; if d < 0x80 then d else d - 0x100 }
  function WordDisp(i: Ins): int { var d := i.displ % 0x1_0000_0000; if d < 0x8000_0000 then d else d - 0x1_0000_0000 }

  /**
   The memory operand a record spells, by the manual's tables: R/M 100 escapes to SIB,
   SIB index 100 without REX.X is no index, SIB base 101 under mod 00 is no base, and mod
   gives no displacement, a byte or a 32-bit word.
   */
  function OperandOf(i: Ins): (a: Address)
    ensures a.Valid()
  {
    var mod, rm, rexX, rexB := i.modrm / 64, i.modrm % 8, (i.rex / 2) % 2, i.rex % 2;
    var scale, index, base := i.sib / 64, (i.sib / 8) % 8, i.sib % 8;
    var noBase := rm == 4 && base == 5 && mod == 0;
    var noIndex := rm != 4 || (index == 4 && rexX == 0);
    Address(
      if noBase then None else Some((if rm == 4 then base else rm) + 8 * rexB),
      if noIndex then None else Some(index + 8 * rexX),
      if rm == 4 then scale else 0,
      if mod == 1 then ByteDisp(i) else if mod == 2 || noBase then WordDisp(i) else 0)
  }

  /** Every memory operand without 67H is base + index * 2^scale + disp modulo 2^64, or RIP + disp. */
  lemma MemoryOperand(s: State, i: Ins)
    requires i.modrm / 64 != 3 && !i.addressSz
    ensures Indirect(s, i) == (if IsRipRelative(i) then s.rip + WordDisp(i) else OperandOf(i).Sum(s)) % WORD
    ensures RmLoc(s, i) == MemLoc(Indirect(s, i))
  {
    hide Pow2;
    var a := OperandOf(i);
    var p := if a.index.Some? then s.regs[a.index.value] * Pow2(a.scale) else 0;
    if i.Rm() == 4 {
      assert ScaledIndex(s, i) == p % WORD;
      if a.base.Some? {
        var b := s.regs[a.base.value];
        PlusOfMod(p, b);
        PlusOfMod(p + b, a.disp);
      } else {
        PlusOfMod(p, a.disp);
      }
    }
  }

  /** With 67H a memory operand is the null pointer. */
  lemma NullOperand(s: State, i: Ins)
    requires i.modrm / 64 != 3 && i.addressSz
    ensures Indirect(s, i) == 0 && RmLoc(s, i) == MemLoc(0)
  {
  }

  /** Sums may be reduced modulo the word size at any point. */
  lemma PlusOfMod(x: int, y: int)
    ensures Plus(x % WORD, y) == (x + y) % WORD && Plus(y, x % WORD) == (x + y) % WORD
  {
    var q := x / WORD;
    assert x % WORD + y == (x + y) - WORD * q;
    assert (x % WORD + y) % WORD == (x + y) % WORD;
  }

  // ---------------------------------------------------------------- spelling an operand

  /** A ModR/M or SIB byte from its three fields. */
  function FieldByte(hi: nat, mid: nat, lo: nat): (v: byte)
    requires hi < 4 && mid < 8 && lo < 8
    ensures v / 64 == hi && (v / 8) % 8 == mid && v % 8 == lo
  {
    var v := 64 * hi + 8 * mid + lo;
    QuotientRemainder(v, 8, 8 * hi + mid, lo);
    QuotientRemainder(8 * hi + mid, 8, hi, mid);
    QuotientRemainder(v, 64, hi, 8 * mid + lo);
    v
  }

  /** A REX byte from its four bits. */
  function RexByte(w: bool, r: nat, x: nat, b: nat): (v: byte)
    requires r < 2 && x < 2 && b < 2
    ensures 0x40 <= v <= 0x4F
    ensures (v / 8) % 2 == (if w then 1 else 0) && (v / 4) % 2 == r && (v / 2) % 2 == x && v % 2 == b
  {
    0x40 + 8 * (if w then 1 else 0) + 4 * r + 2 * x + b
  }

  /**
   A record with this memory operand: always a SIB byte and a 32-bit displacement;
   base 101 under mod 00 stands for no base, index 100 for no index.
   */
  function WithAddress(i: Ins, a: Address): Ins
    requires a.Valid()
  {
    var x := if a.index.Some? then a.index.value else 4;
    var b := if a.base.Some? then a.base.value else 5;
    i.(rex := RexByte(i.RexW(), i.RexR(), x / 8, b / 8),
       modrm := FieldByte(if a.base.Some? then 2 else 0, i.Reg(), 4),
       sib := FieldByte(a.scale, x % 8, b % 8),
       displ := if a.disp < 0 then a.disp + 0x1_0000_0000 else a.disp)
  }

  lemma WithAddressFields(i: Ins, a: Address)
    requires a.Valid()
    ensures var j := WithAddress(i, a);
      && IsRex(j.rex) && j.RexW() == i.RexW() && j.RexR() == i.RexR() && j.Reg() == i.Reg()
      && j == i.(rex := j.rex, modrm := j.modrm, sib := j.sib, displ := j.displ)
      && j.displ < 0x1_0000_0000
      && j.Mod() == (if a.base.Some? then 2 else 0) && j.Rm() == 4
      && j.SibScale() == a.scale
      && j.SibIndex() + 8 * j.RexX() == (if a.index.Some? then a.index.value else 4)
      && j.SibBase() + 8 * j.RexB() == (if a.base.Some? then a.base.value else 5)
      && Disp32(j) == a.disp
  {
    hide RexByte, FieldByte;
  }

  /** Spelling an operand and reading it back gives the operand. */
  lemma OperandOfWithAddress(i: Ins, a: Address)
    requires a.Valid()
    ensures OperandOf(WithAddress(i, a)) == a && !IsRipRelative(WithAddress(i, a))
  {
    hide WithAddress;
    WithAddressFields(i, a);
  }

  /** The location of the constructed operand is base + (index << scale) + disp modulo 2^64. */
  lemma IndirectIsSum(s: State, i: Ins, a: Address)
    requires a.Valid() && !i.addressSz
    ensures Indirect(s, WithAddress(i, a)) == a.Sum(s) % WORD
    ensures RmLoc(s, WithAddress(i, a)) == MemLoc(a.Sum(s) % WORD)
  {
    hide WithAddress, OperandOf, Indirect, RmLoc, IsRipRelative;
    WithAddressFields(i, a);
    OperandOfWithAddress(i, a);
    MemoryOperand(s, WithAddress(i, a));
  }

  function LeaHead(dst: RegIdx): (i: Ins)
    ensures i.RexW() && i.RexR() == dst / 8 && i.Reg() == dst % 8
  {
    ZERO_INS.(rex := RexByte(true, dst / 8, 0, 0), op0 := 0x8D, modrm := FieldByte(0, dst % 8, 0))
  }

  /** LEA r64 of an address: 66H, 67H and an immediate absent, REX.W present. */
  function LeaIns(dst: RegIdx, a: Address): Ins
    requires a.Valid()
  {
    WithAddress(LeaHead(dst), a)
  }

  lemma LeaIsWellFormed(dst: RegIdx, a: Address)
    requires a.Valid()
    ensures var j := LeaIns(dst, a);
      && WellFormed(j) && j.RegIndex() == dst && j.Mod() != 3 && Select(j) == LoadAddress(8)
  {
    hide WithAddress, RexByte, FieldByte;
    var i := LeaHead(dst);
    WithAddressFields(i, a);
    Pow256AtWidth(4);
    var j := LeaIns(dst, a);
    assert DisplSize(j.modrm, j.sib) == 4;
  }

  /**
   For every base, index other than the stack pointer, scale and displacement there is
   an encoding which, standing at the instruction pointer, puts base + index * 2^scale +
   disp modulo 2^64 in any register, and does nothing else.
   */
  lemma EveryAddressIsReached(s: State, io: u64, dst: RegIdx, a: Address)
    requires a.Valid()
    requires Stands(s, Encode(LeaIns(dst, a)))
    ensures var next := s.rip + |Encode(LeaIns(dst, a))|;
      Step(s, io) == Go(s.(rip := next).SetReg(dst, a.Sum(s) % WORD))
  {
    hide LeaIns, Encode, Decode, WellFormed, Select, Indirect, RmLoc, Pow2, Stands;
    var j := LeaIns(dst, a);
    LeaIsWellFormed(dst, a);
    StepStanding(s, io, Encode(j), j);
    var t := s.(rip := s.rip + |Encode(j)|);
    LeaIndirect(t, dst, a);
    assert a.Sum(t) == a.Sum(s);
    LeaPerforms(t, j, io, dst);
  }

  lemma LeaPerforms(t: State, j: Ins, io: u64, dst: RegIdx)
    requires j.RegIndex() == dst && j.Mod() != 3
    ensures Perform(LoadAddress(8), j, t, io) == Go(t.SetReg(dst, Indirect(t, j)))
  {
    hide Indirect, SetLow, Half, SignedOf;
    FullWidth(t.regs[dst], Indirect(t, j));
  }

  lemma LeaIndirect(s: State, dst: RegIdx, a: Address)
    requires a.Valid()
    ensures Indirect(s, LeaIns(dst, a)) == a.Sum(s) % WORD
  {
    IndirectIsSum(s, LeaHead(dst), a);
  }
}
