/** Which operation each opcode outside the two-operand families selects, by number. */
module Dispatch {
  import opened Words
  import opened Instructions
  import opened Operations
  import opened Manual
  import opened Shifts

  function OpRegister(i: Ins): RegIdx { i.op0 % 8 + 8 * (i.rex % 2) }

  function ModrmRegister(i: Ins): RegIdx { (i.modrm / 8) % 8 + 8 * ((i.rex / 4) % 2) }

  function ImmOfStack(i: Ins): Width { if i.operandSz then 2 else 4 }

  predicate LowBy(o: Operation, i: Ins)
  {
    && (0x50 <= i.op0 <= 0x57 ==> o == PushValue(StackBy(i), From(Gpr(OpRegister(i)), StackBy(i), false)))
    && (0x58 <= i.op0 <= 0x5F ==> o == PopInto(StackBy(i), Gpr(OpRegister(i))))
    && (i.op0 == 0x68 ==> o == PushValue(StackBy(i), Imm(ImmOfStack(i), true)))
    && (i.op0 == 0x6A ==> o == PushValue(StackBy(i), Imm(1, true)))
    && (0x70 <= i.op0 <= 0x7F ==> o == JumpIf(i.op0 - 0x70, 1))
  }

  predicate MiddleBy(o: Operation, i: Ins)
  {
    && (i.op0 == 0x86 ==> o == Exchange(1, Gpr(ModrmRegister(i)), Rm))
    && (i.op0 == 0x87 ==> o == Exchange(WidthBy(i), Gpr(ModrmRegister(i)), Rm))
    && (i.op0 == 0x8D ==> o == LoadAddress(WidthBy(i)))
    && (i.op0 == 0x8F ==> o == if ExtBy(i) == 0 then PopInto(StackBy(i), Rm) else Unimplemented)
    && (0x90 <= i.op0 <= 0x97 ==> o == Exchange(WidthBy(i), Gpr(OpRegister(i)), Gpr(0)))
    && (i.op0 == 0x9C ==> o == PushFlags(StackBy(i)))
    && (i.op0 == 0x9D ==> o == PopFlags(StackBy(i)))
    && (i.op0 == 0x9E ==> o == StoreAh)
    && (i.op0 == 0x9F ==> o == LoadAh)
    && (i.op0 == 0xAA ==> o == StoreString(1))
    && (i.op0 == 0xAB ==> o == StoreString(WidthBy(i)))
  }

  /** The rotate or shift of an opcode extension. */
  function ShiftOfExt(ext: nat): ShiftOp
  {
    match ext
    case 0 => Rol
    case 1 => Ror
    case 2 => Rcl
    case 3 => Rcr
    case 5 => Shr
    case 7 => Sar
    case _ => Shl
  }

  predicate ShiftBy(o: Operation, i: Ins)
  {
    && (i.op0 == 0xC0 ==> o == Shift(ShiftOfExt(ExtBy(i)), 1, CountImm))
    && (i.op0 == 0xC1 ==> o == Shift(ShiftOfExt(ExtBy(i)), WidthBy(i), CountImm))
    && (i.op0 == 0xD0 ==> o == Shift(ShiftOfExt(ExtBy(i)), 1, CountOne))
    && (i.op0 == 0xD1 ==> o == Shift(ShiftOfExt(ExtBy(i)), WidthBy(i), CountOne))
    && (i.op0 == 0xD2 ==> o == Shift(ShiftOfExt(ExtBy(i)), 1, CountCl))
    && (i.op0 == 0xD3 ==> o == Shift(ShiftOfExt(ExtBy(i)), WidthBy(i), CountCl))
  }

  predicate HighBy(o: Operation, i: Ins)
  {
    && (i.op0 == 0xC2 ==> o == Return(true))
    && (i.op0 == 0xC3 ==> o == Return(false))
    && (i.op0 in {0xC6, 0xC7} && ExtBy(i) != 0 ==> o == Unimplemented)
    && (i.op0 == 0xC9 ==> o == LeaveFrame)
    && (i.op0 == 0xE8 ==> o == CallNear)
    && (i.op0 == 0xE9 ==> o == Jump(4))
    && (i.op0 == 0xEB ==> o == Jump(1))
    && (i.op0 == 0xF5 ==> o == ComplementCarry)
    && (i.op0 == 0xF8 ==> o == SetFlag(0, false))
    && (i.op0 == 0xF9 ==> o == SetFlag(0, true))
    && (i.op0 == 0xFA ==> o == SetFlag(9, false))
    && (i.op0 == 0xFB ==> o == SetFlag(9, true))
    && (i.op0 == 0xFC ==> o == SetFlag(10, false))
    && (i.op0 == 0xFD ==> o == SetFlag(10, true))
  }

  /** Byte width for the even opcodes of the groups. */
  function GroupWidth(i: Ins): Width { if i.op0 in {0xF6, 0xFE} then 1 else WidthBy(i) }

  predicate GroupBy(o: Operation, i: Ins)
  {
    && (i.op0 in {0xF6, 0xF7} && ExtBy(i) == 2 ==> o == Unary(Not, GroupWidth(i)))
    && (i.op0 in {0xF6, 0xF7} && ExtBy(i) == 3 ==> o == Unary(Neg, GroupWidth(i)))
    && (i.op0 in {0xF6, 0xF7} && ExtBy(i) >= 4 ==> o == Unimplemented)
    && (i.op0 in {0xFE, 0xFF} && ExtBy(i) == 0 ==> o == Unary(Inc, GroupWidth(i)))
    && (i.op0 in {0xFE, 0xFF} && ExtBy(i) == 1 ==> o == Unary(Dec, GroupWidth(i)))
    && (i.op0 == 0xFE && ExtBy(i) >= 2 ==> o == Unimplemented)
    && (i.op0 == 0xFF && ExtBy(i) == 2 ==> o == CallTo)
    && (i.op0 == 0xFF && ExtBy(i) == 4 ==> o == JumpTo)
    && (i.op0 == 0xFF && ExtBy(i) in {3, 5, 6, 7} ==> o == Unimplemented)
  }

  /** Two-byte opcodes that the decoder accepts and the executor refuses. */
  predicate RefusedTwoByte(op: byte)
  {
    || op in {0x2A, 0x2C, 0x2D, 0x2E, 0x2F} || 0x50 <= op <= 0x5F || 0x63 <= op <= 0x67
    || op in {0x6B, 0x6C, 0x6D} || 0x70 <= op <= 0x76 || 0x7C <= op <= 0x7F
  }

  predicate TwoByteBy(o: Operation, i: Ins)
  {
    && (i.op1 == 0x05 ==> o == SystemCall)
    && (i.op1 == 0x0D || 0x18 <= i.op1 <= 0x1F ==> o == Nothing)
    && (0x40 <= i.op1 <= 0x4F ==> o == MoveIf(i.op1 - 0x40, WidthBy(i)))
    && (0x80 <= i.op1 <= 0x8F ==> o == JumpIf(i.op1 - 0x80, if i.operandSz then 2 else 4))
    && (0x90 <= i.op1 <= 0x9F ==> o == SetIf(i.op1 - 0x90))
    && (i.op1 == 0xA2 ==> o == CpuId)
    && (RefusedTwoByte(i.op1) ==> o == Unimplemented)
  }

  predicate DispatchBy(o: Operation, i: Ins)
  {
    if i.op0 == 0x0F then TwoByteBy(o, i)
    else LowBy(o, i) && MiddleBy(o, i) && ShiftBy(o, i) && HighBy(o, i) && GroupBy(o, i)
  }

  lemma LowDispatch(i: Ins)
    requires i.op0 < 0x80 && i.op0 != 0x0F
    ensures DispatchBy(LowOpcode(i), i)
  {
    hide GroupOp, TwoOperand;
  }

  lemma MiddleDispatch(i: Ins)
    requires 0x80 <= i.op0 < 0xC0
    ensures DispatchBy(MiddleOpcode(i), i)
  {
    hide GroupOp, TwoOperand;
  }

  lemma HighDispatch(i: Ins)
    requires 0xC0 <= i.op0
    ensures DispatchBy(HighOpcode(i), i)
  {
    hide HighOpcode, DispatchBy;
    if i.op0 < 0xE0 {
      EarlyDispatch(i);
    } else {
      LateDispatch(i);
    }
  }

  lemma EarlyDispatch(i: Ins)
    requires 0xC0 <= i.op0 < 0xE0
    ensures DispatchBy(HighOpcode(i), i)
  {
  }

  lemma LateDispatch(i: Ins)
    requires 0xE0 <= i.op0
    ensures DispatchBy(HighOpcode(i), i)
  {
    hide ShiftGroup;
  }

  lemma TwoByteDispatch(i: Ins)
    requires i.op0 == 0x0F
    ensures DispatchBy(TwoByteOpcode(i), i)
  {
    hide InterleaveHigh, InterleaveLow;
  }

  lemma HeadDispatch(o: Operation, i: Ins)
    requires DispatchBy(o, i.Head())
    ensures DispatchBy(o, i)
  {
    hide LowBy, MiddleBy, ShiftBy, HighBy, GroupBy, TwoByteBy;
    if i.op0 == 0x0F {
      HeadTwoByte(o, i);
    } else {
      HeadLow(o, i);
      HeadMiddle(o, i);
      HeadShift(o, i);
      HeadHigh(o, i);
      HeadGroup(o, i);
    }
  }

  lemma HeadLow(o: Operation, i: Ins)
    requires LowBy(o, i.Head())
    ensures LowBy(o, i)
  {
    HeadFields(i);
    hide WidthBy, StackBy, ExtBy, OpRegister, ModrmRegister, ImmOfStack, GroupWidth, RefusedTwoByte, ShiftOfExt;
  }

  lemma HeadMiddle(o: Operation, i: Ins)
    requires MiddleBy(o, i.Head())
    ensures MiddleBy(o, i)
  {
    HeadFields(i);
    hide WidthBy, StackBy, ExtBy, OpRegister, ModrmRegister, ImmOfStack, GroupWidth, RefusedTwoByte, ShiftOfExt;
  }

  lemma HeadShift(o: Operation, i: Ins)
    requires ShiftBy(o, i.Head())
    ensures ShiftBy(o, i)
  {
    HeadFields(i);
    hide WidthBy, StackBy, ExtBy, OpRegister, ModrmRegister, ImmOfStack, GroupWidth, RefusedTwoByte, ShiftOfExt;
  }

  lemma HeadHigh(o: Operation, i: Ins)
    requires HighBy(o, i.Head())
    ensures HighBy(o, i)
  {
    HeadFields(i);
    hide WidthBy, StackBy, ExtBy, OpRegister, ModrmRegister, ImmOfStack, GroupWidth, RefusedTwoByte, ShiftOfExt;
  }

  lemma HeadGroup(o: Operation, i: Ins)
    requires GroupBy(o, i.Head())
    ensures GroupBy(o, i)
  {
    HeadFields(i);
    hide WidthBy, StackBy, ExtBy, OpRegister, ModrmRegister, ImmOfStack, GroupWidth, RefusedTwoByte, ShiftOfExt;
  }

  lemma HeadTwoByte(o: Operation, i: Ins)
    requires TwoByteBy(o, i.Head()) && i.op0 == 0x0F
    ensures TwoByteBy(o, i)
  {
    HeadFields(i);
    hide WidthBy, StackBy, ExtBy, OpRegister, ModrmRegister, ImmOfStack, GroupWidth, RefusedTwoByte, ShiftOfExt;
  }

  lemma HeadFields(i: Ins)
    ensures var h := i.Head();
      && h.op0 == i.op0 && (i.op0 == 0x0F ==> h.op1 == i.op1) && h.operandSz == i.operandSz
      && WidthBy(h) == WidthBy(i) && StackBy(h) == StackBy(i) && ExtBy(h) == ExtBy(i) && GroupWidth(h) == GroupWidth(i)
      && OpRegister(h) == OpRegister(i) && ModrmRegister(h) == ModrmRegister(i) && ImmOfStack(h) == ImmOfStack(i)
  {
  }

  lemma Dispatched(i: Ins)
    ensures DispatchBy(Select(i), i)
  {
    hide LowOpcode, MiddleOpcode, HighOpcode, TwoByteOpcode, DispatchBy;
    var h := i.Head();
    if h.op0 == 0x0F {
      TwoByteDispatch(h);
    } else if h.op0 < 0x80 {
      LowDispatch(h);
    } else if h.op0 < 0xC0 {
      MiddleDispatch(h);
    } else {
      HighDispatch(h);
    }
    HeadDispatch(Select(i), i);
  }
}
