/**
 One-operand, exchange, address, conditional-move and flag instructions by opcode number,
 and the opcodes that do nothing or are refused.
 */
module RegistersByOpcode {
  import opened Words
  import opened Bits
  import opened Flags
  import opened Memory
  import opened Instructions
  import opened Machine
  import opened Operations
  import opened Semantics
  import opened Comparisons
  import opened Manual
  import opened Dispatch

  // ---------------------------------------------------------------- one operand

  /** INC and DEC (FE, FF), NOT and NEG (F6, F7). */
  predicate IsOneOperand(i: Ins)
  {
    (i.op0 in {0xFE, 0xFF} && ExtBy(i) <= 1) || (i.op0 in {0xF6, 0xF7} && ExtBy(i) in {2, 3})
  }

  /**
   INC and DEC add and subtract one with the exact flags and CF kept; NOT complements and
   NEG negates, and neither touches the flags.
   */
  lemma OneOperandByOpcode(s: State, i: Ins, io: u64)
    requires IsOneOperand(i)
    ensures var l, w := RmLoc(s, i), if i.op0 in {0xF6, 0xFE} then 1 else WidthBy(i);
      var x, r := ReadLoc(s, l, w), Execute(i, s, io);
      && r.Go? && OnlyAt(s, r.s, l, w) && StatusOnly(s.flags, r.s.flags)
      && match ExtBy(i)
         case 0 => ReadLoc(r.s, l, w) == (x + 1) % Modulus(w) && r.s.flags[0] == s.flags[0]
                   && StatusMeans(r.s.flags, Signed(x, w) + 1, (x + 1) % Modulus(w), w)
         case 1 => ReadLoc(r.s, l, w) == (x - 1) % Modulus(w) && r.s.flags[0] == s.flags[0]
                   && StatusMeans(r.s.flags, Signed(x, w) - 1, (x - 1) % Modulus(w), w)
         case 2 => ReadLoc(r.s, l, w) == Modulus(w) - 1 - x && r.s.flags == s.flags
         case _ => ReadLoc(r.s, l, w) == (0 - x) % Modulus(w) && r.s.flags == s.flags
  {
    hide Select, ReadLoc, RmLoc, WriteLoc, ComputeUnary, StatusMeans, StatusOnly, OnlyAt, Half, Modulus, SignedOf;
    Dispatched(i);
    var l, w := RmLoc(s, i), GroupWidth(i);
    var x, un := ReadLoc(s, l, w), match ExtBy(i) case 0 => Inc case 1 => Dec case 2 => Not case _ => Neg;
    var e := ComputeUnary(un, s.flags, x, w);
    UnaryComputes(un, s.flags, x, w);
    UnaryStatusOnly(un, s.flags, x, w);
    WriteOnlyAt(s, l, w, e.value, e.flags);
  }

  lemma UnaryStatusOnly(un: UnOp, f: Rflags, x: nat, w: Width)
    requires x < Modulus(w)
    ensures StatusOnly(f, ComputeUnary(un, f, x, w).flags)
  {
  }

  lemma UnaryComputes(un: UnOp, f: Rflags, x: nat, w: Width)
    requires x < Modulus(w)
    ensures var e := ComputeUnary(un, f, x, w);
      && e.store
      && (un.Inc? ==> e.value == (x + 1) % Modulus(w) && StatusMeans(e.flags, Signed(x, w) + 1, (x + 1) % Modulus(w), w) && e.flags[0] == f[0])
      && (un.Dec? ==> e.value == (x - 1) % Modulus(w) && StatusMeans(e.flags, Signed(x, w) - 1, (x - 1) % Modulus(w), w) && e.flags[0] == f[0])
      && (un.Not? ==> e.value == Modulus(w) - 1 - x && e.flags == f)
      && (un.Neg? ==> e.value == (0 - x) % Modulus(w) && e.flags == f)
  {
    match un
    case Inc => hide ComputeUnary, StatusMeans; IncDecAtWidth(f, x, true, w);
    case Dec => hide ComputeUnary, StatusMeans; IncDecAtWidth(f, x, false, w);
    case Not =>
    case Neg => ModOnce(0 - x, w);
  }

  // ---------------------------------------------------------------- exchange and address

  predicate IsExchange(i: Ins) { i.op0 in {0x86, 0x87} || 0x90 <= i.op0 <= 0x97 }

  /** The two operands of XCHG: reg and r/m, or the register of the opcode and RAX. */
  function ExchangeLocs(s: State, i: Ins): (Loc, Loc)
  {
    if i.op0 in {0x86, 0x87} then (RegBy(i), RmLoc(s, i)) else (OpBy(i), RegLoc(0))
  }

  /** XCHG swaps its operands and changes nothing else. */
  lemma ExchangeByOpcode(s: State, i: Ins, io: u64)
    requires IsExchange(i)
    ensures var w, r := if i.op0 == 0x86 then 1 else WidthBy(i), Execute(i, s, io);
      var (a, b) := ExchangeLocs(s, i);
      && r.Go? && r.s.flags == s.flags && r.s.rip == s.rip && a.RegLoc?
      && ReadLoc(r.s, a, w) == ReadLoc(s, b, w) && ReadLoc(r.s, b, w) == ReadLoc(s, a, w)
      && match b
         case RegLoc(k) =>
           && Frame(s, r.s, {a.i as int, k}, 0, 0)
           && r.s.regs[a.i] / Modulus(w) == s.regs[a.i] / Modulus(w) && r.s.regs[k] / Modulus(w) == s.regs[k] / Modulus(w)
         case MemLoc(p) => Frame(s, r.s, {a.i as int}, p, w) && r.s.regs[a.i] / Modulus(w) == s.regs[a.i] / Modulus(w)
  {
    hide Select, RmLoc;
    Dispatched(i);
    var (a, b) := ExchangeLocs(s, i);
    ExchangeSwaps(s, a.i, b, if i.op0 == 0x86 then 1 else WidthBy(i));
  }

  lemma ExchangeSwaps(s: State, k: RegIdx, b: Loc, w: Width)
    ensures var a := RegLoc(k);
      var t := WriteLoc(WriteLoc(s, a, w, ReadLoc(s, b, w)), b, w, ReadLoc(s, a, w));
      && t.flags == s.flags && t.rip == s.rip
      && ReadLoc(t, a, w) == ReadLoc(s, b, w) && ReadLoc(t, b, w) == ReadLoc(s, a, w)
      && match b
         case RegLoc(j) =>
           && Frame(s, t, {k as int, j}, 0, 0)
           && t.regs[k] / Modulus(w) == s.regs[k] / Modulus(w) && t.regs[j] / Modulus(w) == s.regs[j] / Modulus(w)
         case MemLoc(p) => Frame(s, t, {k as int}, p, w) && t.regs[k] / Modulus(w) == s.regs[k] / Modulus(w)
  {
    hide SetLow, Load, Store, Modulus, Half;
    var a := RegLoc(k);
    var u := WriteLoc(s, a, w, ReadLoc(s, b, w));
    var t := WriteLoc(u, b, w, ReadLoc(s, a, w));
    StoreOnlyAt(s, a, w, ReadLoc(s, b, w));
    StoreOnlyAt(u, b, w, ReadLoc(s, a, w));
  }

  /** LEA stores the address of its memory operand, cut to the operand width. */
  lemma LeaByOpcode(s: State, i: Ins, io: u64)
    requires i.op0 == 0x8D
    ensures var w, r := WidthBy(i), Execute(i, s, io);
      if i.modrm / 64 == 3 then r.Undefined?
      else
        && r.Go? && r.s.flags == s.flags && OnlyAt(s, r.s, RegBy(i), w)
        && ReadLoc(r.s, RegBy(i), w) == Indirect(s, i) % Modulus(w)
  {
    hide Select, Indirect, ReadLoc, WriteLoc, OnlyAt;
    Dispatched(i);
    StoreOnlyAt(s, RegBy(i), WidthBy(i), Indirect(s, i) % Modulus(WidthBy(i)));
  }

  // ---------------------------------------------------------------- conditional operations

  /** CMOVcc, 0F 40 to 4F: the move is made exactly if the condition holds. */
  lemma CmovByOpcode(s: State, i: Ins, io: u64)
    requires i.op0 == 0x0F && 0x40 <= i.op1 <= 0x4F
    ensures var w, r := WidthBy(i), Execute(i, s, io);
      && r.Go?
      && (if Holds(i.op1 - 0x40, s.flags) then
            && r.s.flags == s.flags && OnlyAt(s, r.s, RegBy(i), w)
            && ReadLoc(r.s, RegBy(i), w) == ReadLoc(s, RmLoc(s, i), w)
          else r.s == s)
  {
    hide Select, RmLoc, ReadLoc, WriteLoc, OnlyAt, Holds, Condition;
    Dispatched(i);
    ConditionHolds(i.op1 - 0x40, s.flags);
    StoreOnlyAt(s, RegBy(i), WidthBy(i), ReadLoc(s, RmLoc(s, i), WidthBy(i)));
  }

  /** SETcc, 0F 90 to 9F: a byte of one or zero. */
  lemma SetccByOpcode(s: State, i: Ins, io: u64)
    requires i.op0 == 0x0F && 0x90 <= i.op1 <= 0x9F
    ensures var r := Execute(i, s, io);
      && r.Go? && r.s.flags == s.flags && OnlyAt(s, r.s, RmLoc(s, i), 1)
      && ReadLoc(r.s, RmLoc(s, i), 1) == if Holds(i.op1 - 0x90, s.flags) then 1 else 0
  {
    hide Select, RmLoc, ReadLoc, WriteLoc, OnlyAt, Holds, Condition;
    Dispatched(i);
    ConditionHolds(i.op1 - 0x90, s.flags);
    StoreOnlyAt(s, RmLoc(s, i), 1, if Condition(s.flags, i.op1 - 0x90) then 1 else 0);
  }

  // ---------------------------------------------------------------- flags and the rest

  /** CLC, STC, CLI, STI, CLD and STD set one flag, CMC complements CF. */
  lemma FlagByOpcode(s: State, i: Ins, io: u64)
    requires i.op0 == 0xF5 || 0xF8 <= i.op0 <= 0xFD
    ensures var bit := if i.op0 in {0xF5, 0xF8, 0xF9} then 0 else if i.op0 in {0xFA, 0xFB} then 9 else 10;
      Execute(i, s, io) == Go(s.(flags := s.flags[bit := if i.op0 == 0xF5 then !s.flags[0] else i.op0 % 2 == 1]))
  {
    hide Select;
    Dispatched(i);
  }

  /** The hinting no-operations leave the state alone. */
  lemma NopByOpcode(s: State, i: Ins, io: u64)
    requires i.op0 == 0x0F && (i.op1 == 0x0D || 0x18 <= i.op1 <= 0x1F)
    ensures Execute(i, s, io) == Go(s)
  {
    hide Select;
    Dispatched(i);
  }

  /** CPUID clears the low halves of registers 0 to 3. */
  lemma CpuidByOpcode(s: State, i: Ins, io: u64)
    requires i.op0 == 0x0F && i.op1 == 0xA2
    ensures var r := Execute(i, s, io);
      && r.Go? && r.s.flags == s.flags && OnlyRegs(s, r.s, {0, 1, 2, 3})
      && forall k :: 0 <= k < 4 ==> r.s.regs[k] == s.regs[k] - s.regs[k] % 0x1_0000_0000
  {
    hide Select;
    Dispatched(i);
  }

  /**
   SYSCALL saves RIP and the flags, clears the flags, and goes on for write, ends the run
   with the low half of RDI as a signed status for exit, and stops otherwise.
   */
  lemma SyscallByOpcode(s: State, i: Ins, io: u64)
    requires i.op0 == 0x0F && i.op1 == 0x05
    ensures var r := Execute(i, s, io);
      if s.regs[0] == 60 then r == Exit(Signed(s.regs[7] % 0x1_0000_0000, 4))
      else
        && (if s.regs[0] == 1 then r.Go? && r.s.regs[0] == io else r.Halt? && r.s.regs[0] == s.regs[0])
        && OnlyRegs(s, r.s, {0, 1, 11})
        && r.s.regs[1] == s.rip && r.s.regs[11] == FromBits(s.flags)
        && forall k :: 0 <= k < 64 ==> !r.s.flags[k]
  {
    hide Select, FromBits;
    Dispatched(i);
  }

  /** Extensions and two-byte opcodes that the decoder lets through and the executor does not have. */
  predicate IsRefused(i: Ins)
  {
    || (i.op0 in {0x8F, 0xC6, 0xC7} && ExtBy(i) != 0)
    || (i.op0 in {0xF6, 0xF7} && ExtBy(i) >= 4)
    || (i.op0 == 0xFE && ExtBy(i) >= 2)
    || (i.op0 == 0xFF && ExtBy(i) in {3, 5, 6, 7})
    || (i.op0 == 0x0F && RefusedTwoByte(i.op1))
  }

  /** They stop the loop and leave the state alone. */
  lemma RefusedByOpcode(s: State, i: Ins, io: u64)
    requires IsRefused(i)
    ensures Execute(i, s, io) == Halt(s)
  {
    hide Select, RefusedTwoByte;
    Dispatched(i);
  }
}
