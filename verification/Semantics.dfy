/** What each operation does to the machine state, and the decode-execute step. */
module Semantics {
  import opened Words
  import opened Bits
  import opened Flags
  import opened Memory
  import opened Instructions
  import opened Machine
  import opened Operations
  import opened Decoding
  import Alu
  import Shifts

  /** The run goes on, stops, ends by exit, or has met an expression C leaves undefined. */
  datatype Outcome = Go(s: State) | Halt(s: State) | Exit(status: int) | Undefined

  // ---------------------------------------------------------------- operands

  function PlaceLoc(s: State, i: Ins, p: Place): Loc
  {
    match p
    case Gpr(r) => RegLoc(r)
    case Rm => RmLoc(s, i)
  }

  /** Extension from `k` to `w` bytes; a conversion to a narrower type would truncate. */
  function Convert(x: nat, k: Width, w: Width, signed: bool): (r: nat)
    requires x < Modulus(k)
    ensures r < Modulus(w)
  {
    if k <= w then Extend(x, k, w, signed) else x % Modulus(w)
  }

  function SourceValue(s: State, i: Ins, src: Source, w: Width): (v: nat)
    ensures v < Modulus(w)
  {
    match src
    case From(p, k, signed) => Convert(ReadLoc(s, PlaceLoc(s, i, p), k), k, w, signed)
    case Imm(k, signed) => Convert(i.imm % Modulus(k), k, w, signed)
  }

  /** A jump distance: the low `k` bytes of the immediate, signed. */
  function Distance(i: Ins, k: Width): int { Signed(i.imm % Modulus(k), k) }

  // ---------------------------------------------------------------- arithmetic

  /** New flags, and the value to store unless the operation only sets flags. */
  datatype Effect = Effect(flags: Rflags, value: nat, store: bool)

  function OfAlu(r: Alu.Result, w: Width, store: bool): Effect
    requires InRange(r.value, Half(w))
  {
    Effect(r.flags, Alu.UnsignedOf(r.value, Half(w)), store)
  }

  function BitString(x: nat, w: Width): (b: Bits)
    ensures |b| == 8 * w
  {
    ToBits(x, 8 * w)
  }

  lemma Pow2AtWidth(w: Width)
    ensures Pow2(8 * w) == Modulus(w) && Pow2(8 * w - 1) == Half(w)
  {
    Pow2Table();
  }

  function BitwiseEffect(f: Rflags, b: Bits, w: Width, store: bool): (e: Effect)
    requires |b| == 8 * w
    ensures e.value < Modulus(w)
  {
    Pow2AtWidth(w);
    Effect(Alu.BitwiseFlags(f, SignedOf(FromBits(b), Half(w))), FromBits(b), store)
  }

  /** The two-operand operations on unsigned operands `x` (destination) and `y`. */
  function Compute(op: BinOp, f: Rflags, x: nat, y: nat, w: Width): (e: Effect)
    requires x < Modulus(w) && y < Modulus(w)
    ensures e.value < Modulus(w)
  {
    hide BitwiseEffect, BitAnd, BitOr, BitXor, ToBits;
    var h := Half(w);
    var a, b := SignedOf(x, h), SignedOf(y, h);
    match op
    case Add => OfAlu(Alu.Add(f, a, b, h), w, true)
    case Adc => OfAlu(Alu.Adc(f, a, b, h), w, true)
    case Sub => OfAlu(Alu.Sub(f, a, b, h), w, true)
    case Sbb => OfAlu(Alu.Sbb(f, a, b, h), w, true)
    case Cmp => OfAlu(Alu.Sub(f, a, b, h), w, false)
    case And => BitwiseEffect(f, BitAnd(BitString(x, w), BitString(y, w)), w, true)
    case Or => BitwiseEffect(f, BitOr(BitString(x, w), BitString(y, w)), w, true)
    case Xor => BitwiseEffect(f, BitXor(BitString(x, w), BitString(y, w)), w, true)
    case Test => BitwiseEffect(f, BitAnd(BitString(x, w), BitString(y, w)), w, false)
    case Mov => Effect(f, y, true)
  }

  function ComputeUnary(un: UnOp, f: Rflags, x: nat, w: Width): (e: Effect)
    requires x < Modulus(w)
    ensures e.value < Modulus(w)
  {
    var h := Half(w);
    var a := SignedOf(x, h);
    match un
    case Inc => OfAlu(Alu.AddCore(f, a, 1, h), w, true)
    case Dec => OfAlu(Alu.SubCore(f, a, 1, h), w, true)
    case Neg => OfAlu(Alu.Result(f, Alu.Wrap(-a, h)), w, true)
    case Not => OfAlu(Alu.Result(f, -a - 1), w, true)
  }

  function StoreEffect(s: State, l: Loc, w: Width, e: Effect): State
    requires e.value < Modulus(w)
  {
    var t := if e.store then WriteLoc(s, l, w, e.value) else s;
    t.(flags := e.flags)
  }

  function ShiftCount(s: State, i: Ins, c: Count): nat
  {
    match c
    case CountImm => i.imm % 256
    case CountOne => 1
    case CountCl => s.regs[RCX] % 256
  }

  function PerformShift(s: State, i: Ins, op: Shifts.ShiftOp, w: Width, c: Count): Outcome
  {
    var l := RmLoc(s, i);
    var n := Shifts.Masked(ShiftCount(s, i, c), 8 * w);
    if !Shifts.Defined(op, 8 * w, n) then Undefined
    else
      Pow2AtWidth(w);
      var r := Shifts.Apply(op, s.flags, BitString(ReadLoc(s, l, w), w), n);
      Go(WriteLoc(s, l, w, FromBits(r.bits)).(flags := r.flags))
  }

  // ---------------------------------------------------------------- conditions

  predicate Condition(f: Rflags, cc: nat)
  {
    match cc
    case 0 => f[OF]
    case 1 => !f[OF]
    case 2 => f[CF]
    case 3 => !f[CF]
    case 4 => f[ZF]
    case 5 => !f[ZF]
    case 6 => f[CF] || f[ZF]
    case 7 => !f[CF] && !f[ZF]
    case 8 => f[SF]
    case 9 => !f[SF]
    case 10 => f[PF]
    case 11 => !f[PF]
    case 12 => f[SF] != f[OF]
    case 13 => f[SF] == f[OF]
    case 14 => f[ZF] || f[SF] != f[OF]
    case 15 => !f[ZF] && f[SF] == f[OF]
    case _ => false
  }

  // ---------------------------------------------------------------- flags and the stack

  /** Masked replacement of the low 32 flag bits by those of `v`. */
  function MergeFlags(f: Rflags, v: u64, keep: bv32, update: bv32): Rflags
  {
    BitOr(AndMask(f[..32], keep), AndMask(OfWord(v)[..32], update)) + f[32..]
  }

  function AhByte(x: u64): byte { (x / 256) % 256 }

  function SetAhByte(x: u64, v: byte): u64 { x - 256 * AhByte(x) + 256 * v }

  function AhOfFlags(f: Rflags): byte
  {
    assert Pow2(8) == 256;
    FromBits(AndMask(f[..8], AH_MASK)[RESERVED1 := true])
  }

  // ---------------------------------------------------------------- strings

  /** `n` elements stored one after the other, upwards or downwards. */
  function Fill(m: Memory, a: u64, w: Width, v: nat, n: nat, down: bool): Memory
    requires v < Modulus(w)
    decreases n
  {
    if n == 0 then m
    else Fill(Store(m, a, w, v), Plus(a, if down then 0 - w else w), w, v, n - 1, down)
  }

  function PerformStoreString(s: State, i: Ins, w: Width): State
  {
    var a := if i.addressSz then s.regs[RDI] % 0x1_0000_0000 else s.regs[RDI];
    var v := s.regs[RAX] % Modulus(w);
    if i.rep == 0 then s.(mem := Store(s.mem, a, w, v))
    else
      var c := s.regs[RCX];
      var n := if i.addressSz then c % 0x1_0000_0000 else c;
      s.SetReg(RCX, c - n).(mem := Fill(s.mem, a, w, v, n, s.flags[DF]))
  }

  // ---------------------------------------------------------------- vector moves

  /** A vector operand: an offset in the vector register file, or an address. */
  datatype VecLoc = VecReg(off: nat) | VecMem(a: u64)

  function VecRead(s: State, l: VecLoc, off: nat, n: nat): seq<byte>
  {
    match l
    case VecReg(o) => if o + off + n <= 384 then s.vec[o + off..o + off + n] else []
    case VecMem(a) => Read(s.mem, Plus(a, off), n)
  }

  function VecWrite(s: State, l: VecLoc, off: nat, b: seq<byte>): State
  {
    match l
    case VecReg(o) =>
      if o + off + |b| <= 384 then s.(vec := s.vec[..o + off] + b + s.vec[o + off + |b|..]) else s
    case VecMem(a) => s.(mem := Write(s.mem, Plus(a, off), b))
  }

  /** The register selected by a field, in the MMX or the XMM part of the file. */
  function VecRegLoc(r: RegIdx, xmm: bool): VecLoc { VecReg(if xmm then 128 + 16 * r else 8 * r) }

  function VecRmLoc(s: State, i: Ins, xmm: bool): VecLoc
  {
    if i.Mod() == 3 then VecRegLoc(i.RmIndex(), xmm) else VecMem(Indirect(s, i))
  }

  function Pad(b: seq<byte>, n: nat): seq<byte> { if |b| < n then b + seq(n - |b|, _ => 0) else b }

  function DoMove(s: State, dst: VecLoc, src: VecLoc, m: Move): State
  {
    VecWrite(s, dst, m.dst, Pad(VecRead(s, if m.fromDest then dst else src, m.src, m.n), m.total))
  }

  function DoMoves(s: State, dst: VecLoc, src: VecLoc, ms: seq<Move>): State
    decreases |ms|
  {
    if |ms| == 0 then s else DoMoves(DoMove(s, dst, src, ms[0]), dst, src, ms[1..])
  }

  function PerformVector(s: State, i: Ins, xmm: bool, toRm: bool, ms: seq<Move>): State
  {
    var r, m := VecRegLoc(i.RegIndex(), xmm), VecRmLoc(s, i, xmm);
    if toRm then DoMoves(s, m, r, ms) else DoMoves(s, r, m, ms)
  }

  // ---------------------------------------------------------------- control transfer

  function JumpBy(s: State, d: int): State { s.(rip := Plus(s.rip, d)) }

  /** The return address: RIP, or with 67H its low half. */
  function PushReturn(s: State, i: Ins): State
  {
    if i.addressSz then Push(s, 4, s.rip % 0x1_0000_0000) else Push(s, 8, s.rip)
  }

  function PerformReturn(s: State, i: Ins, release: bool): State
  {
    var t := if i.addressSz then Drop(s, 4).(rip := SetLow(s.rip, 4, Top(s, 4)))
             else Drop(s, 8).(rip := Top(s, 8));
    if release then t.SetReg(RSP, Plus(t.Rsp(), i.imm % 0x1_0000)) else t
  }

  function PerformLeave(s: State, i: Ins): State
  {
    if i.operandSz then
      var t := s.SetReg(RSP, SetLow(s.Rsp(), 2, s.regs[RBP] % 0x1_0000));
      Drop(t, 2).SetReg(RBP, SetLow(s.regs[RBP], 2, Top(t, 2)))
    else
      var t := s.SetReg(RSP, s.regs[RBP]);
      Drop(t, 8).SetReg(RBP, Top(t, 8))
  }

  /** POP into a location resolved before the stack pointer moves. */
  function PerformPop(s: State, i: Ins, w: Width, p: Place): State
  {
    WriteLoc(Drop(s, w), PlaceLoc(s, i, p), w, Top(s, w))
  }

  /** System calls: `io` is what write returns. */
  function PerformSyscall(s: State, io: u64): Outcome
  {
    var t := s.SetReg(RCX, s.rip).SetReg(R11, Word(s.flags)).(flags := Zeros(64));
    if s.regs[RAX] == 1 then Go(t.SetReg(RAX, io))
    else if s.regs[RAX] == 0x3C then Exit(Signed(s.regs[RDI] % 0x1_0000_0000, 4))
    else Halt(t)
  }

  function ClearLow32(x: u64): u64 { SetLow(x, 4, 0) }

  // ---------------------------------------------------------------- the dispatch

  /** One operation; RIP is already past the instruction. */
  function Perform(o: Operation, i: Ins, s: State, io: u64): Outcome
  {
    match o
    case Binary(op, w, dst, src) =>
      var l := PlaceLoc(s, i, dst);
      Go(StoreEffect(s, l, w, Compute(op, s.flags, ReadLoc(s, l, w), SourceValue(s, i, src, w), w)))
    case Unary(un, w) =>
      var l := RmLoc(s, i);
      Go(StoreEffect(s, l, w, ComputeUnary(un, s.flags, ReadLoc(s, l, w), w)))
    case Shift(op, w, c) => PerformShift(s, i, op, w, c)
    case Exchange(w, dst, from) =>
      var d, r := PlaceLoc(s, i, dst), PlaceLoc(s, i, from);
      Go(WriteLoc(WriteLoc(s, d, w, ReadLoc(s, r, w)), r, w, ReadLoc(s, d, w)))
    case LoadAddress(w) =>
      if i.Mod() == 3 then Undefined
      else Go(WriteLoc(s, RegLoc(i.RegIndex()), w, Indirect(s, i) % Modulus(w)))
    case PushValue(w, src) => Go(Push(s, w, SourceValue(s, i, src, w)))
    case PopInto(w, dst) => Go(PerformPop(s, i, w, dst))
    case PushFlags(w) =>
      Go(Push(s, w, if w == 8 then Word(AndMask(s.flags, PUSHF_MASK)) else Word(s.flags) % Modulus(w)))
    case PopFlags(w) =>
      Go(Drop(s, w).(flags := if w == 2 then MergeFlags(s.flags, Top(s, w), POPF16_KEEP, POPF16_UPDATE)
                              else MergeFlags(s.flags, Top(s, w), POPF_KEEP, POPF_UPDATE)))
    case StoreAh => Go(s.(flags := MergeFlags(s.flags, AhByte(s.regs[RAX]), AH_KEEP, AH_MASK)))
    case LoadAh => Go(s.SetReg(RAX, SetAhByte(s.regs[RAX], AhOfFlags(s.flags))))
    case SetFlag(bit, value) => if bit < 64 then Go(s.(flags := s.flags[bit := value])) else Undefined
    case ComplementCarry => Go(s.(flags := s.flags[CF := !s.flags[CF]]))
    case StoreString(w) => Go(PerformStoreString(s, i, w))
    case JumpIf(cc, k) => Go(if Condition(s.flags, cc) then JumpBy(s, Distance(i, k)) else s)
    case Jump(k) => Go(JumpBy(s, Distance(i, k)))
    case JumpTo => Go(s.(rip := ReadLoc(s, RmLoc(s, i), 8)))
    case CallNear => Go(JumpBy(PushReturn(s, i), Distance(i, 4)))
    case CallTo =>
      var t := PushReturn(s, i);
      Go(t.(rip := ReadLoc(t, RmLoc(s, i), 8)))
    case Return(release) => Go(PerformReturn(s, i, release))
    case LeaveFrame => Go(PerformLeave(s, i))
    case MoveIf(cc, w) =>
      Go(if Condition(s.flags, cc) then WriteLoc(s, RegLoc(i.RegIndex()), w, ReadLoc(s, RmLoc(s, i), w)) else s)
    case SetIf(cc) => Go(WriteLoc(s, RmLoc(s, i), 1, if Condition(s.flags, cc) then 1 else 0))
    case Nothing => Go(s)
    case SystemCall => PerformSyscall(s, io)
    case CpuId =>
      Go(s.SetReg(RDX, ClearLow32(s.regs[RDX])).SetReg(RCX, ClearLow32(s.regs[RCX]))
          .SetReg(RBX, ClearLow32(s.regs[RBX])).SetReg(RAX, ClearLow32(s.regs[RAX])))
    case Vector(xmm, toRm, moves) => Go(PerformVector(s, i, xmm, toRm, moves))
    case Unimplemented => Halt(s)
  }

  function Execute(i: Ins, s: State, io: u64): Outcome { Perform(Select(i), i, s, io) }

  /** The bytes instructions are fetched from: fetching the last byte of all would wrap RIP. */
  function Code(m: Memory): seq<byte> { m[..WORD - 1] }

  /** One turn of the run loop. A fetch past the end of memory is `Undefined`. */
  function Step(s: State, io: u64): Outcome
  {
    match Decode(Code(s.mem), s.rip)
    case Fault => Undefined
    case Done(ok, i, pc) => if ok then Execute(i, s.(rip := pc), io) else Halt(s.(rip := pc))
  }
}
