/** The emulator object and the instruction record, both updated in place. */
module Emulator {
  import opened Words
  import opened Flags
  import opened Memory
  import opened Instructions
  import opened Machine
  import opened Decoding
  import opened Semantics

  /** Current state of the emulated CPU; guest memory is disjoint from it. */
  class Emu {
    const regs: array<u64>
    const vec: array<byte>
    var rip: u64
    var flags: Rflags
    var mem: Memory

    ghost predicate Valid()
    {
      regs.Length == 16 && vec.Length == 384 && (regs as object) != (vec as object)
    }

    /** The machine state this object represents. */
    ghost function Value(): State
      requires Valid()
      reads this, regs, vec
    {
      State(regs[..], rip, flags, vec[..], mem)
    }

    /** A zeroed CPU over a given memory. */
    constructor (m: Memory)
      ensures Valid() && fresh(regs) && fresh(vec)
      ensures Value() == State(seq(16, _ => 0), 0, Bits.Zeros(64), seq(384, _ => 0), m)
    {
      regs := new u64[16](_ => 0);
      vec := new byte[384](_ => 0);
      rip := 0;
      flags := Bits.Zeros(64);
      mem := m;
      new;
      assert regs[..] == seq(16, _ => 0);
      assert vec[..] == seq(384, _ => 0);
    }

    method SetReg(i: RegIdx, v: u64)
      requires Valid()
      modifies regs
      ensures Value() == old(Value()).SetReg(i, v)
    {
      regs[i] := v;
      assert regs[..] == old(regs[..])[i := v];
    }

    method SetMem(m: Memory)
      requires Valid()
      modifies this`mem
      ensures Value() == old(Value()).(mem := m)
    {
      mem := m;
    }

    method SetRip(a: u64)
      requires Valid()
      modifies this`rip
      ensures Value() == old(Value()).(rip := a)
    {
      rip := a;
    }

    method SetFlags(f: Rflags)
      requires Valid()
      modifies this`flags
      ensures Value() == old(Value()).(flags := f)
    {
      flags := f;
    }
  }

  /** Room for the bytes of a traced instruction. */
  const TRACE_BYTES := 25

  /** A decoded instruction being filled in; with tracing on it also collects its bytes. */
  class Instr {
    const tracing: bool
    const bytes: array<byte>
    var bytesLen: nat
    var rep: byte
    var rex: byte
    var operandSz: bool
    var addressSz: bool
    var op0: byte
    var op1: byte
    var modrm: byte
    var sib: byte
    var displ: u64
    var imm: u64

    constructor (tracing: bool)
      ensures Value() == ZERO_INS && this.tracing == tracing && bytesLen == 0
      ensures bytes.Length == TRACE_BYTES && fresh(bytes)
    {
      this.tracing := tracing;
      bytes := new byte[TRACE_BYTES](_ => 0);
      bytesLen := 0;
      rep, rex, operandSz, addressSz, op0, op1 := 0, 0, false, false, 0, 0;
      modrm, sib, displ, imm := 0, 0, 0, 0;
    }

    function Value(): Ins
      reads this
    {
      Ins(rep, rex, operandSz, addressSz, op0, op1, modrm, sib, displ, imm)
    }
  }

  /** With tracing on, the collected bytes are those of memory from `start` to RIP. */
  ghost predicate Traced(emu: Emu, ins: Instr, start: nat)
    reads emu, ins, ins.bytes
  {
    && start <= emu.rip
    && ins.bytes.Length == TRACE_BYTES
    && (ins.tracing ==>
          && ins.bytesLen == emu.rip - start <= TRACE_BYTES
          && ins.bytes[..ins.bytesLen] == emu.mem[start..emu.rip])
  }

  /** Fetching may go up to `hi`: it is mapped, and the trace has room. */
  predicate Room(ins: Instr, start: nat, hi: nat)
  {
    hi <= WORD - 1 && (ins.tracing ==> hi <= start + TRACE_BYTES)
  }

  /** Fetch `k` bytes at RIP, least significant first. */
  method Fetch(emu: Emu, ins: Instr, k: nat, ghost start: nat, ghost hi: nat) returns (v: u64)
    requires k == 1 || k == 2 || k == 4 || k == 8
    requires Traced(emu, ins, start) && emu.rip + k <= hi && Room(ins, start, hi)
    modifies emu`rip, ins`bytesLen, ins.bytes
    ensures v == Field(Code(emu.mem), old(emu.rip), k)
    ensures emu.rip == old(emu.rip) + k && Traced(emu, ins, start)
  {
    var m, a := emu.mem, emu.rip;
    CodeSlice(m, a, k);
    v := FieldValue(m[a..a + k]);
    if ins.tracing {
      NoteBytes(ins, m, a, k, start);
    }
    emu.rip := a + k;
  }

  /** Append the fetched bytes to the trace. */
  method NoteBytes(ins: Instr, m: Memory, a: nat, k: nat, ghost start: nat)
    requires ins.bytes.Length == TRACE_BYTES && start <= a && ins.bytesLen == a - start
    requires a + k < WORD && a + k <= start + TRACE_BYTES && ins.bytes[..ins.bytesLen] == m[start..a]
    modifies ins`bytesLen, ins.bytes
    ensures ins.bytesLen == a + k - start && ins.bytes[..ins.bytesLen] == m[start..a + k]
  {
    var n := ins.bytesLen;
    for j := 0 to k
      invariant ins.bytesLen == n
      invariant ins.bytes[..n + j] == m[start..a + j]
    {
      ins.bytes[n + j] := m[a + j];
      assert ins.bytes[..n + j + 1] == ins.bytes[..n + j] + [m[a + j]];
      assert m[start..a + j + 1] == m[start..a + j] + [m[a + j]];
    }
    ins.bytesLen := n + k;
  }

  lemma CodeSlice(m: Memory, a: nat, k: nat)
    requires a + k <= WORD - 1
    ensures Code(m)[a..a + k] == m[a..a + k]
    ensures forall x :: a <= x < a + k ==> Code(m)[x] == m[x]
  {
  }

  function FieldValue(b: seq<byte>): (v: u64)
    requires |b| <= 8
    ensures v == FromBytes(b)
  {
    Pow256Monotone(|b|, 8);
    Pow256AtWidth(8);
    FromBytes(b)
  }
}
