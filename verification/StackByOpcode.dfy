/** PUSH, POP, LEAVE and the instructions that move flags as words, by opcode number. */
module StackByOpcode {
  import opened Words
  import opened Bits
  import opened Flags
  import opened Memory
  import opened Instructions
  import opened Machine
  import opened Operations
  import opened Semantics
  import opened Manual
  import opened Dispatch
  import ArithmeticByOpcode
  import Shifts

  // ---------------------------------------------------------------- push and pop

  /** The value PUSH pushes: a register, or a sign-extended immediate. */
  function PushedValue(s: State, i: Ins): nat
  {
    var w := StackBy(i);
    if i.op0 == 0x68 then SignedImm(i, if i.operandSz then 2 else 4, w)
    else if i.op0 == 0x6A then SignedImm(i, 1, w)
    else ReadLoc(s, OpBy(i), w)
  }

  /** PUSH, 50 to 57, 68 and 6A: two bytes with 66H, else eight. */
  lemma PushByOpcode(s: State, i: Ins, io: u64)
    requires 0x50 <= i.op0 <= 0x57 || i.op0 in {0x68, 0x6A}
    ensures var r := Execute(i, s, io); r.Go? && Pushed(s, r.s, StackBy(i), PushedValue(s, i)) && r.s.rip == s.rip
  {
    hide Select, Pushed, Push, ReadLoc, SourceValue, SignedImm;
    Dispatched(i);
    var w := StackBy(i);
    PushSource(s, i);
    PushPushes(s, w, PushedValue(s, i));
  }

  lemma PushSource(s: State, i: Ins)
    requires 0x50 <= i.op0 <= 0x57 || i.op0 in {0x68, 0x6A}
    ensures var w := StackBy(i);
      && PushedValue(s, i) < Modulus(w)
      && (i.op0 == 0x68 ==> SourceValue(s, i, Imm(ImmOfStack(i), true), w) == PushedValue(s, i))
      && (i.op0 == 0x6A ==> SourceValue(s, i, Imm(1, true), w) == PushedValue(s, i))
      && (i.op0 < 0x58 ==> SourceValue(s, i, From(Gpr(OpRegister(i)), w, false), w) == PushedValue(s, i))
  {
    hide ReadLoc, SourceValue, SignedImm, Modulus, Half;
    var w := StackBy(i);
    ArithmeticByOpcode.SourceOfImm(s, i, ImmOfStack(i), w, true);
    ArithmeticByOpcode.SourceOfImm(s, i, 1, w, true);
    ArithmeticByOpcode.SourceOfPlace(s, i, Gpr(OpRegister(i)), w, w, false);
  }

  /** Where POP puts the word: the register of the opcode, or r/m, found before RSP moves. */
  function PopLoc(s: State, i: Ins): Loc { if i.op0 == 0x8F then RmLoc(s, i) else OpBy(i) }

  /** RSP after a pop of `w` bytes. */
  function PopRsp(s: State, w: Width): u64 { (s.regs[4] + w) % WORD }

  /** The state after a pop of `w` bytes to `l`; a pop to RSP itself replaces the moved RSP. */
  predicate Popped(s: State, t: State, w: Width, l: Loc)
  {
    && ReadLoc(t, l, w) == Load(s.mem, s.regs[4], w)
    && t.flags == s.flags && t.rip == s.rip
    && match l
       case MemLoc(a) => Frame(s, t, {4}, a, w) && t.regs[4] == PopRsp(s, w)
       case RegLoc(k) =>
         && Frame(s, t, {4, k as int}, 0, 0)
         && (k != 4 ==> t.regs[4] == PopRsp(s, w) && t.regs[k] / Modulus(w) == s.regs[k] / Modulus(w))
         && (k == 4 ==> t.regs[4] / Modulus(w) == PopRsp(s, w) / Modulus(w))
  }

  /** POP, 58 to 5F and 8F with extension 0. */
  lemma PopByOpcode(s: State, i: Ins, io: u64)
    requires 0x58 <= i.op0 <= 0x5F || (i.op0 == 0x8F && ExtBy(i) == 0)
    ensures var r := Execute(i, s, io); r.Go? && Popped(s, r.s, StackBy(i), PopLoc(s, i))
  {
    hide Select, Popped, RmLoc, Drop, Top, WriteLoc;
    Dispatched(i);
    PopPops(s, StackBy(i), PopLoc(s, i));
  }

  lemma PopPops(s: State, w: Width, l: Loc)
    ensures Popped(s, WriteLoc(Drop(s, w), l, w, Top(s, w)), w, l)
  {
    hide Load, Modulus, Half, ReadLoc, WriteLoc;
    StoreOnlyAt(Drop(s, w), l, w, Top(s, w));
  }

  // ---------------------------------------------------------------- flags as words

  /** The flags PUSHFQ shows: 0 to 23 without 16 and 17. */
  function Shown(f: Rflags): Bits { seq(64, k requires 0 <= k < 64 => f[k] && (k < 16 || 18 <= k < 24)) }

  /** PUSHF pushes the low sixteen flags, PUSHFQ the flags it shows. */
  lemma PushfByOpcode(s: State, i: Ins, io: u64)
    requires i.op0 == 0x9C
    ensures var r := Execute(i, s, io);
      && r.Go? && r.s.rip == s.rip
      && Pushed(s, r.s, StackBy(i), if i.operandSz then FromBits(s.flags[..16]) else FromBits(Shown(s.flags)))
  {
    hide Select, Pushed, Push, FromBits, Bit, Pow2;
    Dispatched(i);
    ShownIsMasked(s.flags);
    Pow2Table();
    Shifts.SplitValue(s.flags, 16);
    PushPushes(s, StackBy(i), if i.operandSz then FromBits(s.flags[..16]) else FromBits(Shown(s.flags)));
  }

  lemma ShownIsMasked(f: Rflags)
    ensures Shown(f) == AndMask(f, PUSHF_MASK)
  {
    hide Bit;
    forall k: nat | k < 64
      ensures Shown(f)[k] == AndMask(f, PUSHF_MASK)[k]
    {
      if k < 32 {
        PushfMaskBits(k);
      }
    }
  }

  /** The flags POPF takes from the stack; POPFQ takes 18 and 21 as well. */
  predicate Taken(k: nat, short: bool) { k in {0, 2, 4, 6, 7, 8, 9, 10, 11, 14} || (!short && k in {18, 21}) }

  /** POPF and POPFQ replace the flags they take, clear flag 16 and keep the others. */
  lemma PopfByOpcode(s: State, i: Ins, io: u64)
    requires i.op0 == 0x9D
    ensures var r, w := Execute(i, s, io), StackBy(i);
      && r.Go? && OnlyRegs(s, r.s, {4}) && r.s.regs[4] == PopRsp(s, w)
      && forall k: nat :: k < 64 ==>
           r.s.flags[k] == if Taken(k, i.operandSz) then ToBits(Load(s.mem, s.regs[4], w), 64)[k] else k != 16 && s.flags[k]
  {
    hide Select, Load, Bit, MergeFlags, ToBits;
    Dispatched(i);
    var v := Top(s, StackBy(i));
    forall k: nat | k < 64
      ensures MergeFlags(s.flags, v, POPF16_KEEP, POPF16_UPDATE)[k] == if Taken(k, true) then ToBits(v, 64)[k] else k != 16 && s.flags[k]
      ensures MergeFlags(s.flags, v, POPF_KEEP, POPF_UPDATE)[k] == if Taken(k, false) then ToBits(v, 64)[k] else k != 16 && s.flags[k]
    {
      PopfBit(s.flags, v, k);
    }
  }

  lemma PopfBit(f: Rflags, v: u64, k: nat)
    requires k < 64
    ensures MergeFlags(f, v, POPF16_KEEP, POPF16_UPDATE)[k] == if Taken(k, true) then ToBits(v, 64)[k] else k != 16 && f[k]
    ensures MergeFlags(f, v, POPF_KEEP, POPF_UPDATE)[k] == if Taken(k, false) then ToBits(v, 64)[k] else k != 16 && f[k]
  {
    hide Bit, ToBits;
    if k < 32 {
      PopfKeepBits(k); PopfUpdateBits(k); Popf16KeepBits(k); Popf16UpdateBits(k);
    }
  }

  /** SAHF takes flags 0, 2, 4, 6 and 7 from bits 8 to 15 of register 0. */
  lemma SahfByOpcode(s: State, i: Ins, io: u64)
    requires i.op0 == 0x9E
    ensures var r := Execute(i, s, io);
      && r.Go? && r.s == s.(flags := r.s.flags)
      && forall k: nat :: k < 64 ==>
           r.s.flags[k] == if k in {0, 2, 4, 6, 7} then ToBits((s.regs[0] / 0x100) % 0x100, 8)[k] else s.flags[k]
  {
    hide Select, Bit, MergeFlags, ToBits;
    Dispatched(i);
    var v := AhByte(s.regs[0]);
    forall k: nat | k < 64
      ensures MergeFlags(s.flags, v, AH_KEEP, AH_MASK)[k] == if k in {0, 2, 4, 6, 7} then ToBits(v, 8)[k] else s.flags[k]
    {
      SahfBit(s.flags, v, k);
    }
  }

  lemma SahfBit(f: Rflags, v: byte, k: nat)
    requires k < 64
    ensures MergeFlags(f, v, AH_KEEP, AH_MASK)[k] == if k in {0, 2, 4, 6, 7} then ToBits(v, 8)[k] else f[k]
  {
    hide Bit, ToBits;
    ToBitsPrefix(v, 8, 64);
    if k < 32 {
      AhMaskBits(k); AhKeepBits(k);
    }
  }

  lemma {:induction false} ToBitsPrefix(v: nat, a: nat, n: nat)
    requires a <= n
    ensures ToBits(v, n)[..a] == ToBits(v, a)
  {
    if a > 0 {
      ToBitsPrefix(v / 2, a - 1, n - 1);
      assert ToBits(v, n)[..a] == [v % 2 == 1] + ToBits(v / 2, n - 1)[..a - 1];
    }
  }

  /** LAHF puts flags 0, 2, 4, 6 and 7, with bit 1 set, into bits 8 to 15 of register 0. */
  lemma LahfByOpcode(s: State, i: Ins, io: u64)
    requires i.op0 == 0x9F
    ensures var r, f := Execute(i, s, io), s.flags;
      && r.Go? && OnlyRegs(s, r.s, {0}) && r.s.flags == f
      && (r.s.regs[0] / 0x100) % 0x100 == FromBits([f[0], true, f[2], false, f[4], false, f[6], f[7]])
      && r.s.regs[0] % 0x100 == s.regs[0] % 0x100 && r.s.regs[0] / 0x1_0000 == s.regs[0] / 0x1_0000
  {
    hide Select, Bit, FromBits;
    Dispatched(i);
    LahfBits(s.flags);
    SetAhKeeps(s.regs[0], AhOfFlags(s.flags));
  }

  lemma LahfBits(f: Rflags)
    ensures AhOfFlags(f) == FromBits([f[0], true, f[2], false, f[4], false, f[6], f[7]])
  {
    hide Bit, FromBits;
    var b := AndMask(f[..8], AH_MASK)[RESERVED1 := true];
    AhMaskBits(0); AhMaskBits(1); AhMaskBits(2); AhMaskBits(3);
    AhMaskBits(4); AhMaskBits(5); AhMaskBits(6); AhMaskBits(7);
    assert b == [f[0], true, f[2], false, f[4], false, f[6], f[7]];
  }

  lemma SetAhKeeps(x: u64, v: byte)
    ensures var y := SetAhByte(x, v); (y / 0x100) % 0x100 == v && y % 0x100 == x % 0x100 && y / 0x1_0000 == x / 0x1_0000
  {
    var hi, lo := x / 0x1_0000, x % 0x100;
    assert x == 0x1_0000 * hi + 0x100 * AhByte(x) + lo;
    QuotientRemainder(SetAhByte(x, v), 0x100, 0x100 * hi + v, lo);
    QuotientRemainder(0x100 * hi + v, 0x100, hi, v);
    QuotientRemainder(SetAhByte(x, v), 0x1_0000, hi, 0x100 * v + lo);
  }

  // ---------------------------------------------------------------- frames

  /** LEAVE: RSP from RBP and RBP popped; with 66H only the low halves of both. */
  lemma LeaveByOpcode(s: State, i: Ins, io: u64)
    requires i.op0 == 0xC9
    ensures var r := Execute(i, s, io);
      && r.Go? && r.s.flags == s.flags && OnlyRegs(s, r.s, {4, 5})
      && (!i.operandSz ==> r.s.regs[4] == (s.regs[5] + 8) % WORD && r.s.regs[5] == Load(s.mem, s.regs[5], 8))
      && (i.operandSz ==>
            var sp: u64 := s.regs[4] - s.regs[4] % 0x1_0000 + s.regs[5] % 0x1_0000;
            && r.s.regs[4] == (sp + 2) % WORD
            && r.s.regs[5] == s.regs[5] - s.regs[5] % 0x1_0000 + Load(s.mem, sp, 2))
  {
    hide Select, Load;
    Dispatched(i);
  }
}
