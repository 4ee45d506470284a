/**
 The machine state as a value, operand locations in place of pointers, effective
 addresses, and the stack helpers.
 */
module Machine {
  import opened Words
  import opened Bits
  import opened Flags
  import opened Memory
  import opened Instructions

  type Regs = r: seq<u64> | |r| == 16 witness seq(16, _ => 0)

  /** The MMX registers followed by the XMM registers, as bytes. */
  type VectorFile = v: seq<byte> | |v| == 384 witness seq(384, _ => 0)

  const RAX: RegIdx := 0
  const RCX: RegIdx := 1
  const RDX: RegIdx := 2
  const RBX: RegIdx := 3
  const RSP: RegIdx := 4
  const RBP: RegIdx := 5
  const RSI: RegIdx := 6
  const RDI: RegIdx := 7
  const R11: RegIdx := 11

  datatype State = State(regs: Regs, rip: u64, flags: Rflags, vec: VectorFile, mem: Memory)
  {
    function Rsp(): u64 { regs[RSP] }
    function SetReg(i: RegIdx, v: u64): State { this.(regs := regs[i := v]) }
  }

  // ---------------------------------------------------------------- operand locations

  /** Where an operand lives: a general register, or memory outside the emulator's own state. */
  datatype Loc = RegLoc(i: RegIdx) | MemLoc(a: u64)

  function ReadLoc(s: State, l: Loc, w: Width): (v: nat)
    ensures v < Modulus(w)
  {
    match l
    case RegLoc(i) => s.regs[i] % Modulus(w)
    case MemLoc(a) => Load(s.mem, a, w)
  }

  function WriteLoc(s: State, l: Loc, w: Width, v: nat): State
    requires v < Modulus(w)
  {
    match l
    case RegLoc(i) => s.SetReg(i, SetLow(s.regs[i], w, v))
    case MemLoc(a) => s.(mem := Store(s.mem, a, w, v))
  }

  lemma ReadWriteLoc(s: State, l: Loc, w: Width, v: nat)
    requires v < Modulus(w)
    ensures ReadLoc(WriteLoc(s, l, w, v), l, w) == v
  {
    match l
    case RegLoc(i) =>
    case MemLoc(a) => LoadStore(s.mem, a, w, v);
  }

  // ---------------------------------------------------------------- effective addresses

  function Disp8(i: Ins): int { Signed(i.displ % 0x100, 1) }

  function Disp32(i: Ins): int { Signed(i.displ % 0x1_0000_0000, 4) }

  function Scaled(x: u64, scale: nat): u64 { (x * Pow2(scale)) % WORD }

  /** Index 4 without REX.X means no index. */
  function ScaledIndex(s: State, i: Ins): u64
  {
    if i.RexX() == 0 && i.SibIndex() == 4 then 0
    else Scaled(s.regs[i.SibIndex() + 8 * i.RexX()], i.SibScale())
  }

  function SibBaseValue(s: State, i: Ins): u64 { s.regs[i.SibBase() + 8 * i.RexB()] }

  /** The address of a memory operand; the instruction pointer is already past the instruction. */
  function Indirect(s: State, i: Ins): u64
  {
    if i.addressSz then 0   // a null pointer: 67H is not covered
    else if i.Mod() == 0 then
      if i.Rm() == 5 then Plus(s.rip, Disp32(i))
      else if i.Rm() == 4 then
        Plus(ScaledIndex(s, i), if i.SibBase() == 5 then Disp32(i) else SibBaseValue(s, i))
      else s.regs[i.RmIndex()]
    else if i.Mod() == 3 then 0
    else
      var base := if i.Rm() == 4 then Plus(ScaledIndex(s, i), SibBaseValue(s, i)) else s.regs[i.RmIndex()];
      Plus(base, if i.Mod() == 1 then Disp8(i) else Disp32(i))
  }

  function RmLoc(s: State, i: Ins): Loc
  {
    if i.Mod() == 3 then RegLoc(i.RmIndex()) else MemLoc(Indirect(s, i))
  }

  // ---------------------------------------------------------------- stack

  function Push(s: State, w: Width, v: nat): State
    requires v < Modulus(w)
  {
    var sp := Plus(s.Rsp(), 0 - w);
    s.SetReg(RSP, sp).(mem := Store(s.mem, sp, w, v))
  }

  function Top(s: State, w: Width): (v: nat)
    ensures v < Modulus(w)
  {
    Load(s.mem, s.Rsp(), w)
  }

  function Drop(s: State, w: Width): State { s.SetReg(RSP, Plus(s.Rsp(), w)) }

  /** A pop after a push returns the value and restores the stack pointer. */
  lemma PopPush(s: State, w: Width, v: nat)
    requires v < Modulus(w)
    ensures Top(Push(s, w, v), w) == v
    ensures Drop(Push(s, w, v), w).regs == s.regs
  {
    LoadStore(s.mem, Plus(s.Rsp(), 0 - w), w, v);
  }
}
