/** The single copies between vector operands, by opcode number. */
module VectorsByOpcode {
  import opened Words
  import opened Memory
  import opened Instructions
  import opened Machine
  import opened Operations
  import opened Semantics
  import opened Manual

  /** One copy: the direction, the register file, offsets, bytes read, and bytes written with zero fill. */
  datatype Copying = Copying(toRm: bool, xmm: bool, dst: nat, src: nat, n: nat, total: nat)

  /** The opcodes after 0F that make one copy; the duplicating forms of 12 and 16 make several. */
  predicate IsCopy(i: Ins)
  {
    && i.op0 == 0x0F
    && (i.op1 in {0x10, 0x11, 0x13, 0x17, 0x28, 0x29, 0x2B, 0x6E, 0x6F}
        || (i.op1 == 0x12 && i.rep != 0xF2 && i.rep != 0xF3) || (i.op1 == 0x16 && i.rep != 0xF3))
  }

  function CopyBy(i: Ins): Copying
    requires IsCopy(i)
  {
    var size := if i.rep == 0xF3 then 4 else if i.rep == 0xF2 then 8 else 16;
    match i.op1
    case 0x10 => Copying(false, true, 0, 0, size, if i.modrm / 64 == 3 then size else 16)
    case 0x11 => Copying(true, true, 0, 0, size, size)
    case 0x12 => Copying(false, true, 0, if !i.operandSz && i.modrm / 64 == 3 then 8 else 0, 8, 8)
    case 0x13 => Copying(true, true, 0, 0, 8, 8)
    case 0x16 => if i.operandSz then Copying(false, true, 0, 8, 8, 8) else Copying(false, true, 8, 0, 8, 8)
    case 0x17 => Copying(true, true, 8, 0, 8, 8)
    case 0x28 => Copying(false, true, 0, 0, 16, 16)
    case 0x6E => Copying(false, i.operandSz, 0, 0, if (i.rex / 8) % 2 == 1 then 8 else 4, if i.operandSz then 16 else 8)
    case 0x6F => if i.operandSz || i.rep == 0xF3 then Copying(false, true, 0, 0, 16, 16) else Copying(false, false, 0, 0, 8, 8)
    case _ => Copying(true, true, 0, 0, 16, 16)
  }

  /** The register of a number: sixteen MMX registers of 8 bytes, then sixteen XMM registers of 16. */
  function VectorRegister(k: nat, xmm: bool): VecLoc { VecReg(if xmm then 128 + 16 * k else 8 * k) }

  function RegVector(i: Ins, xmm: bool): VecLoc { VectorRegister((i.modrm / 8) % 8 + 8 * ((i.rex / 4) % 2), xmm) }

  function RmVector(s: State, i: Ins, xmm: bool): VecLoc
  {
    if i.modrm / 64 == 3 then VectorRegister(i.modrm % 8 + 8 * (i.rex % 2), xmm) else VecMem(Indirect(s, i))
  }

  lemma CopySelected(i: Ins)
    requires IsCopy(i)
    ensures var c := CopyBy(i); Select(i) == Vector(c.xmm, c.toRm, [Move(c.dst, false, c.src, c.n, c.total)])
  {
    hide InterleaveHigh, InterleaveLow;
  }

  /**
   The bytes at the destination become those of the source, followed by zeros, and every
   other byte of registers and memory stays, whichever operands are the same.
   */
  lemma CopyByOpcode(s: State, i: Ins, io: u64)
    requires IsCopy(i)
    ensures var c, r := CopyBy(i), Execute(i, s, io);
      var reg, rm := RegVector(i, c.xmm), RmVector(s, i, c.xmm);
      var d, q := if c.toRm then rm else reg, if c.toRm then reg else rm;
      && r.Go? && r.s == s.(vec := r.s.vec, mem := r.s.mem)
      && VecRead(r.s, d, c.dst, c.total) == VecRead(s, q, c.src, c.n) + seq(c.total - c.n, _ => 0)
      && match d
         case VecReg(o) =>
           && r.s.mem == s.mem
           && forall x :: 0 <= x < 384 && !(o + c.dst <= x < o + c.dst + c.total) ==> r.s.vec[x] == s.vec[x]
         case VecMem(a) => Frame(s, r.s, {}, Plus(a, c.dst), c.total)
  {
    hide Execute, CopyBy, DoMoves, DoMove, RegVector, RmVector, VecRead, Frame;
    CopyExecutes(s, i, io);
    CopyBounds(i);
    var c := CopyBy(i);
    VectorBounds(s, i, c.xmm);
    var reg, rm := RegVector(i, c.xmm), RmVector(s, i, c.xmm);
    var d, q := if c.toRm then rm else reg, if c.toRm then reg else rm;
    var m := Move(c.dst, false, c.src, c.n, c.total);
    OneMove(s, d, q, m);
    MoveCopies(s, d, q, m);
  }

  lemma CopyExecutes(s: State, i: Ins, io: u64)
    requires IsCopy(i)
    ensures var c := CopyBy(i);
      var reg, rm := RegVector(i, c.xmm), RmVector(s, i, c.xmm);
      Execute(i, s, io) == Go(DoMoves(s, if c.toRm then rm else reg, if c.toRm then reg else rm, [Move(c.dst, false, c.src, c.n, c.total)]))
  {
    hide Select, Indirect, CopyBy, DoMoves, IsCopy;
    CopySelected(i);
  }

  /** Vector registers lie in the file. */
  lemma VectorBounds(s: State, i: Ins, xmm: bool)
    ensures var reg, rm, size := RegVector(i, xmm), RmVector(s, i, xmm), if xmm then 16 else 8;
      && reg.VecReg? && reg.off + size <= 384
      && (rm.VecReg? ==> rm.off + size <= 384)
  {
    hide Indirect;
  }

  lemma CopyBounds(i: Ins)
    requires IsCopy(i)
    ensures var c := CopyBy(i);
      && c.n <= c.total && c.dst + c.total <= (if c.xmm then 16 else 8) && c.src + c.n <= (if c.xmm then 16 else 8)
  {
  }

  lemma OneMove(s: State, d: VecLoc, q: VecLoc, m: Move)
    ensures DoMoves(s, d, q, [m]) == DoMove(s, d, q, m)
  {
    hide DoMove;
    assert [m][1..] == [];
  }

  lemma MoveCopies(s: State, d: VecLoc, q: VecLoc, m: Move)
    requires !m.fromDest && m.n <= m.total <= 16
    requires d.VecReg? ==> d.off + m.dst + m.total <= 384
    requires q.VecReg? ==> q.off + m.src + m.n <= 384
    ensures var t := DoMove(s, d, q, m);
      && t == s.(vec := t.vec, mem := t.mem)
      && VecRead(t, d, m.dst, m.total) == VecRead(s, q, m.src, m.n) + seq(m.total - m.n, _ => 0)
      && match d
         case VecReg(o) =>
           && t.mem == s.mem
           && forall x :: 0 <= x < 384 && !(o + m.dst <= x < o + m.dst + m.total) ==> t.vec[x] == s.vec[x]
         case VecMem(a) => Frame(s, t, {}, Plus(a, m.dst), m.total)
  {
    hide VecRead, VecWrite, Pad;
    var b := Pad(VecRead(s, q, m.src, m.n), m.total);
    PaddedRead(s, q, m.src, m.n, m.total);
    match d
    case VecReg(o) => RegisterWritten(s, o, m.dst, b);
    case VecMem(a) => MemoryWritten(s, a, m.dst, b);
  }

  lemma PaddedRead(s: State, q: VecLoc, off: nat, n: nat, total: nat)
    requires n <= total && (q.VecReg? ==> q.off + off + n <= 384)
    ensures var b := Pad(VecRead(s, q, off, n), total);
      |b| == total && b == VecRead(s, q, off, n) + seq(total - n, _ => 0)
  {
    assert |VecRead(s, q, off, n)| == n;
    hide VecRead;
  }

  lemma RegisterWritten(s: State, o: nat, off: nat, b: seq<byte>)
    requires o + off + |b| <= 384
    ensures var t := VecWrite(s, VecReg(o), off, b);
      && t == s.(vec := t.vec) && VecRead(t, VecReg(o), off, |b|) == b
      && forall x :: 0 <= x < 384 && !(o + off <= x < o + off + |b|) ==> t.vec[x] == s.vec[x]
  {
  }

  lemma MemoryWritten(s: State, a: u64, off: nat, b: seq<byte>)
    requires |b| <= 16
    ensures var t := VecWrite(s, VecMem(a), off, b);
      t == s.(mem := t.mem) && VecRead(t, VecMem(a), off, |b|) == b && Frame(s, t, {}, Plus(a, off), |b|)
  {
    ReadWrite(s.mem, Plus(a, off), b);
    hide Read;
    assert forall x :: 0 <= x < WORD && (x - Plus(a, off)) % WORD >= |b| ==> Above(Plus(a, off), x) >= |b|;
  }
}
