/**
 The operations behind the opcodes: which one an instruction selects, and the operands,
 widths and immediates it takes.
 */
module Operations {
  import opened Words
  import opened Flags
  import opened Shifts
  import opened Instructions
  import opened Machine

  datatype BinOp = Add | Or | Adc | Sbb | And | Sub | Xor | Cmp | Test | Mov

  datatype UnOp = Not | Neg | Inc | Dec

  datatype Place = Gpr(i: RegIdx) | Rm

  /** A value of `k` bytes, sign- or zero-extended to the width of the operation. */
  datatype Source = From(p: Place, k: Width, signed: bool) | Imm(k: Width, signed: bool)

  datatype Count = CountImm | CountOne | CountCl

  /** One copy between the two vector operands, zero-extended to `total` bytes. */
  datatype Move = Move(dst: nat, fromDest: bool, src: nat, n: nat, total: nat)

  datatype Operation =
    | Binary(op: BinOp, w: Width, dst: Place, src: Source)
    | Unary(un: UnOp, w: Width)
    | Shift(shift: ShiftOp, w: Width, count: Count)
    | Exchange(w: Width, dst: Place, from: Place)
    | LoadAddress(w: Width)
    | PushValue(w: Width, src: Source)
    | PopInto(w: Width, dst: Place)
    | PushFlags(w: Width)
    | PopFlags(w: Width)
    | StoreAh
    | LoadAh
    | SetFlag(bit: nat, value: bool)
    | ComplementCarry
    | StoreString(w: Width)
    | JumpIf(cc: nat, k: Width)
    | Jump(k: Width)
    | JumpTo
    | CallNear
    | CallTo
    | Return(release: bool)
    | LeaveFrame
    | MoveIf(cc: nat, w: Width)
    | SetIf(cc: nat)
    | Nothing
    | SystemCall
    | CpuId
    | Vector(xmm: bool, toRm: bool, moves: seq<Move>)
    | Unimplemented

  // ---------------------------------------------------------------- one-byte opcodes

  function GroupOp(n: nat): BinOp
  {
    match n
    case 0 => Add
    case 1 => Or
    case 2 => Adc
    case 3 => Sbb
    case 4 => And
    case 5 => Sub
    case 6 => Xor
    case _ => Cmp
  }

  function ShiftGroup(n: nat): ShiftOp
  {
    match n
    case 0 => Rol
    case 1 => Ror
    case 2 => Rcl
    case 3 => Rcr
    case 4 => Shl
    case 5 => Shr
    case 6 => Shl
    case _ => Sar
  }

  /** An immediate of at most 32 bits, sign-extended to 64 under REX.W. */
  function ImmS32(w: Width): Source { Imm(if w == 2 then 2 else 4, true) }

  /** The forms shared by the eight arithmetic families at 00-3D, and TEST and MOV. */
  function TwoOperand(op: BinOp, form: nat, i: Ins): Operation
  {
    var w := i.OpWidth();
    match form
    case 0 => Binary(op, 1, Rm, From(Gpr(i.RegIndex()), 1, true))
    case 1 => Binary(op, w, Rm, From(Gpr(i.RegIndex()), w, true))
    case 2 => Binary(op, 1, Gpr(i.RegIndex()), From(Rm, 1, true))
    case 3 => Binary(op, w, Gpr(i.RegIndex()), From(Rm, w, true))
    case 4 => Binary(op, 1, Gpr(RAX), Imm(1, true))
    case _ => Binary(op, w, Gpr(RAX), ImmS32(w))
  }

  /** The accumulator's lower half, sign-extended. */
  function HalfOfA(i: Ins): Source
  {
    From(Gpr(RAX), if i.RexW() then 4 else if i.operandSz then 1 else 2, true)
  }

  function StackWidth(i: Ins): Width { if i.operandSz then 2 else 8 }

  /** Opcodes below 80. */
  function LowOpcode(i: Ins): Operation
    requires i.op0 < 0x80
  {
    var op := i.op0;
    if op < 0x40 then (if op % 8 <= 5 then TwoOperand(GroupOp(op / 8), op % 8, i) else Unimplemented)
    else if 0x50 <= op <= 0x57 then PushValue(StackWidth(i), From(Gpr(i.OpIndex()), StackWidth(i), false))
    else if 0x58 <= op <= 0x5F then PopInto(StackWidth(i), Gpr(i.OpIndex()))
    else if op == 0x63 then
      Binary(Mov, i.OpWidth(), Gpr(i.RegIndex()), From(Rm, if i.OpWidth() == 2 then 2 else 4, true))
    else if op == 0x68 then PushValue(StackWidth(i), Imm(if i.operandSz then 2 else 4, true))
    else if op == 0x6A then PushValue(StackWidth(i), Imm(1, true))
    else if 0x70 <= op then JumpIf(op % 16, 1)
    else Unimplemented
  }

  /** Opcodes 80 to BF. */
  function MiddleOpcode(i: Ins): Operation
    requires 0x80 <= i.op0 < 0xC0
  {
    var op, w := i.op0, i.OpWidth();
    if op == 0x80 then Binary(GroupOp(i.Reg()), 1, Rm, Imm(1, true))
    else if op == 0x81 then Binary(GroupOp(i.Reg()), w, Rm, ImmS32(w))
    else if op == 0x83 then Binary(GroupOp(i.Reg()), w, Rm, Imm(1, true))
    else if op == 0x84 || op == 0x85 then TwoOperand(Test, op - 0x84, i)
    else if op == 0x86 then Exchange(1, Gpr(i.RegIndex()), Rm)
    else if op == 0x87 then Exchange(w, Gpr(i.RegIndex()), Rm)
    else if 0x88 <= op <= 0x8B then TwoOperand(Mov, op - 0x88, i)
    else if op == 0x8D then LoadAddress(w)
    else if op == 0x8F then (if i.Reg() == 0 then PopInto(StackWidth(i), Rm) else Unimplemented)
    else if 0x90 <= op <= 0x97 then Exchange(w, Gpr(i.OpIndex()), Gpr(RAX))
    else if op == 0x98 then Binary(Mov, w, Gpr(RAX), HalfOfA(i))
    else if op == 0x99 then Binary(Mov, w, Gpr(RDX), HalfOfA(i))
    else if op == 0x9C then PushFlags(StackWidth(i))
    else if op == 0x9D then PopFlags(StackWidth(i))
    else if op == 0x9E then StoreAh
    else if op == 0x9F then LoadAh
    else if op == 0xA8 || op == 0xA9 then TwoOperand(Test, op - 0xA4, i)
    else if op == 0xAA then StoreString(1)
    else if op == 0xAB then StoreString(w)
    else if 0xB0 <= op <= 0xB7 then Binary(Mov, 1, Gpr(i.OpIndex()), Imm(1, false))
    else if 0xB8 <= op then Binary(Mov, w, Gpr(i.OpIndex()), Imm(w, false))
    else Unimplemented
  }

  /** Opcodes from C0. */
  function HighOpcode(i: Ins): Operation
    requires 0xC0 <= i.op0
  {
    var op, w := i.op0, i.OpWidth();
    if op == 0xC0 then Shift(ShiftGroup(i.Reg()), 1, CountImm)
    else if op == 0xC1 then Shift(ShiftGroup(i.Reg()), w, CountImm)
    else if op == 0xC2 then Return(true)
    else if op == 0xC3 then Return(false)
    else if op == 0xC6 then (if i.Reg() == 0 then Binary(Mov, 1, Rm, Imm(1, true)) else Unimplemented)
    else if op == 0xC7 then (if i.Reg() == 0 then Binary(Mov, w, Rm, ImmS32(w)) else Unimplemented)
    else if op == 0xC9 then LeaveFrame
    else if op == 0xD0 then Shift(ShiftGroup(i.Reg()), 1, CountOne)
    else if op == 0xD1 then Shift(ShiftGroup(i.Reg()), w, CountOne)
    else if op == 0xD2 then Shift(ShiftGroup(i.Reg()), 1, CountCl)
    else if op == 0xD3 then Shift(ShiftGroup(i.Reg()), w, CountCl)
    else if op == 0xE8 then CallNear
    else if op == 0xE9 then Jump(4)
    else if op == 0xEB then Jump(1)
    else if op == 0xF5 then ComplementCarry
    else if op == 0xF6 then
      (if i.Reg() <= 1 then Binary(Test, 1, Rm, Imm(1, true))
       else if i.Reg() == 2 then Unary(Not, 1)
       else if i.Reg() == 3 then Unary(Neg, 1)
       else Unimplemented)
    else if op == 0xF7 then
      (if i.Reg() <= 1 then Binary(Test, w, Rm, ImmS32(w))
       else if i.Reg() == 2 then Unary(Not, w)
       else if i.Reg() == 3 then Unary(Neg, w)
       else Unimplemented)
    else if op == 0xF8 || op == 0xF9 then SetFlag(CF, op == 0xF9)
    else if op == 0xFA || op == 0xFB then SetFlag(IF, op == 0xFB)
    else if op == 0xFC || op == 0xFD then SetFlag(DF, op == 0xFD)
    else if op == 0xFE then
      (if i.Reg() == 0 then Unary(Inc, 1) else if i.Reg() == 1 then Unary(Dec, 1) else Unimplemented)
    else if op == 0xFF then
      (if i.Reg() == 0 then Unary(Inc, w)
       else if i.Reg() == 1 then Unary(Dec, w)
       else if i.Reg() == 2 then CallTo
       else if i.Reg() == 4 then JumpTo
       else Unimplemented)
    else Unimplemented
  }

  // ---------------------------------------------------------------- two-byte opcodes

  /** A plain copy of `n` bytes at offset 0. */
  function Copy(n: nat): seq<Move> { [Move(0, false, 0, n, n)] }

  /** The moves of an interleave of the low lanes, in loop order; `j` lanes are done. */
  function InterleaveLow(lane: nat, times: nat, j: nat): seq<Move>
    requires j <= times
    decreases times - j
  {
    if j == times then []
    else [Move(2 * j * lane, true, j * lane, lane, lane),
          Move((2 * j + 1) * lane, false, j * lane, lane, lane)] + InterleaveLow(lane, times, j + 1)
  }

  function InterleaveHigh(lane: nat, times: nat, j: nat): seq<Move>
    requires j <= times
    decreases times - j
  {
    if j == times then []
    else [Move(2 * j * lane, true, (j + times) * lane, lane, lane),
          Move((2 * j + 1) * lane, false, (j + times) * lane, lane, lane)] + InterleaveHigh(lane, times, j + 1)
  }

  /** PUNPCK instructions: 16-byte operands with 66H, 8-byte operands without. */
  function Unpack(lane: nat, high: bool, i: Ins): Operation
    requires lane > 0
  {
    var times := (if i.operandSz then 8 else 4) / lane;
    Vector(i.operandSz, false, if high then InterleaveHigh(lane, times, 0) else InterleaveLow(lane, times, 0))
  }

  function VectorOpcode(i: Ins): Operation
  {
    var op := i.op1;
    if op == 0x10 then
      Vector(true, false,
        if i.rep == 0xF3 then (if i.Mod() == 3 then Copy(4) else [Move(0, false, 0, 4, 16)])
        else if i.rep == 0xF2 then (if i.Mod() == 3 then Copy(8) else [Move(0, false, 0, 8, 16)])
        else Copy(16))
    else if op == 0x11 then
      Vector(true, true, Copy(if i.rep == 0xF3 then 4 else if i.rep == 0xF2 then 8 else 16))
    else if op == 0x12 then
      Vector(true, false,
        if i.rep == 0xF3 then [Move(4, false, 0, 4, 4), Move(0, true, 4, 4, 4), Move(12, false, 4, 4, 4), Move(8, true, 12, 4, 4)]
        else if i.rep == 0xF2 then [Move(8, false, 0, 8, 8), Move(0, true, 8, 8, 8)]
        else if i.operandSz then Copy(8)
        else [Move(0, false, if i.Mod() == 3 then 8 else 0, 8, 8)])
    else if op == 0x13 then Vector(true, true, Copy(8))
    else if op == 0x14 then
      Vector(true, false, if i.operandSz then InterleaveLow(8, 1, 0) else InterleaveLow(4, 2, 0))
    else if op == 0x15 then
      Vector(true, false, if i.operandSz then InterleaveHigh(8, 1, 0) else InterleaveHigh(4, 2, 0))
    else if op == 0x16 then
      Vector(true, false,
        if i.rep == 0xF3 then [Move(4, false, 4, 4, 4), Move(0, true, 4, 4, 4), Move(12, false, 12, 4, 4), Move(8, true, 12, 4, 4)]
        else if i.operandSz then [Move(0, false, 8, 8, 8)]
        else [Move(8, false, 0, 8, 8)])
    else if op == 0x17 then Vector(true, true, [Move(8, false, 0, 8, 8)])
    else if op == 0x28 then Vector(true, false, Copy(16))
    else if op == 0x29 || op == 0x2B then Vector(true, true, Copy(16))
    else if op == 0x60 then Unpack(1, false, i)
    else if op == 0x61 then Unpack(2, false, i)
    else if op == 0x62 then Unpack(4, false, i)
    else if op == 0x68 then Unpack(1, true, i)
    else if op == 0x69 then Unpack(2, true, i)
    else if op == 0x6A then Unpack(4, true, i)
    else if op == 0x6E then
      Vector(i.operandSz, false, [Move(0, false, 0, if i.RexW() then 8 else 4, if i.operandSz then 16 else 8)])
    else if op == 0x6F then
      (if i.operandSz || i.rep == 0xF3 then Vector(true, false, Copy(16)) else Vector(false, false, Copy(8)))
    else Unimplemented
  }

  function TwoByteOpcode(i: Ins): Operation
  {
    var op, w := i.op1, i.OpWidth();
    if op == 0x05 then SystemCall
    else if op == 0x0D || 0x18 <= op <= 0x1F then Nothing
    else if 0x40 <= op <= 0x4F then MoveIf(op % 16, w)
    else if 0x80 <= op <= 0x8F then JumpIf(op % 16, if i.operandSz then 2 else 4)
    else if 0x90 <= op <= 0x9F then SetIf(op % 16)
    else if op == 0xA2 then CpuId
    else if op == 0xB6 then Binary(Mov, w, Gpr(i.RegIndex()), From(Rm, 1, false))
    else if op == 0xB7 then Binary(Mov, w, Gpr(i.RegIndex()), From(Rm, 2, false))
    else VectorOpcode(i)
  }

  function SelectByHead(h: Ins): Operation
  {
    if h.op0 == 0x0F then TwoByteOpcode(h)
    else if h.op0 < 0x80 then LowOpcode(h)
    else if h.op0 < 0xC0 then MiddleOpcode(h)
    else HighOpcode(h)
  }

  /** The operation an instruction selects. */
  function Select(i: Ins): Operation { SelectByHead(i.Head()) }
}
