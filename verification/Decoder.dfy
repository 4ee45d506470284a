/** The decoder as it runs: fetches advance RIP and fill the record step by step. */
module Decoder {
  import opened Words
  import opened Instructions
  import opened Decoding
  import opened Codec
  import opened Semantics
  import opened Emulator

  /** The cursor the pure decoder would have at this point. */
  ghost function Here(emu: Emu, ins: Instr): Cursor
    reads emu, ins
  {
    At(ins.Value(), emu.rip)
  }

  /** A pure cursor that exists and does not pass `hi`. */
  predicate Within(c: Cursor, hi: nat) { c.At? && c.pc <= hi }

  method DecodePrefixes(emu: Emu, ins: Instr, ghost start: nat, ghost hi: nat) returns (op: byte)
    requires Traced(emu, ins, start) && Room(ins, start, hi)
    requires Within(FetchPrefixes(Code(emu.mem), emu.rip, ins.Value()), hi)
    modifies emu`rip, ins, ins.bytes
    ensures Traced(emu, ins, start)
    ensures At(ins.Value().(op0 := op), emu.rip) == old(FetchPrefixes(Code(emu.mem), emu.rip, ins.Value()))
  {
    ghost var code := Code(emu.mem);
    ghost var goal := FetchPrefixes(code, emu.rip, ins.Value());
    while true
      invariant emu.mem == old(emu.mem)
      invariant Traced(emu, ins, start)
      invariant FetchPrefixes(code, emu.rip, ins.Value()) == goal
      decreases WORD - emu.rip
    {
      OneByteField(code, emu.rip);
      var b := Fetch(emu, ins, 1, start, hi);
      if 0x40 <= b <= 0x4F {
        ins.rex := b;
        OneByteField(code, emu.rip);
        op := Fetch(emu, ins, 1, start, hi);
        return;
      } else if b == 0x26 || b == 0x2E || b == 0x36 || b == 0x3E {
      } else if b == 0x64 || b == 0x65 {
        return 6;
      } else if b == 0x66 {
        ins.operandSz := true;
      } else if b == 0x67 {
        ins.addressSz := true;
      } else if b == 0xF0 || b == 0xF2 || b == 0xF3 {
        if b == 0xF0 {
          return 6;
        }
        ins.rep := b;
      } else {
        return b;
      }
    }
  }

  lemma OneByteField(m: seq<byte>, pc: nat)
    ensures pc < |m| ==> Field(m, pc, 1) == m[pc]
  {
    if pc < |m| {
      var b := m[pc..pc + 1];
      assert b == [m[pc]] && b[1..] == [];
    }
  }

  lemma SetLowOfZero(w: Width, v: nat)
    requires v < Modulus(w)
    ensures SetLow(0, w, v) == v
  {
  }

  lemma FieldFits(m: seq<byte>, pc: nat, w: Width)
    requires pc + w <= |m|
    ensures Field(m, pc, w) < Modulus(w)
  {
    Pow256AtWidth(w);
  }

  /** Fetch into the low bytes of a zeroed displacement. */
  method FetchDisplacement(emu: Emu, ins: Instr, k: Width, ghost start: nat, ghost hi: nat)
    requires Traced(emu, ins, start) && Room(ins, start, hi) && emu.rip + k <= hi && ins.displ == 0
    modifies emu`rip, ins, ins.bytes
    ensures Traced(emu, ins, start) && emu.rip == old(emu.rip) + k
    ensures ins.Value() == old(ins.Value()).(displ := Field(Code(emu.mem), old(emu.rip), k))
  {
    hide SetLow, Field, Half, Modulus;
    FieldFits(Code(emu.mem), emu.rip, k);
    var v := Fetch(emu, ins, k, start, hi);
    SetLowOfZero(k, v);
    ins.displ := SetLow(ins.displ, k, v);
  }

  method ModrmFetch(emu: Emu, ins: Instr, ghost start: nat, ghost hi: nat)
    requires Traced(emu, ins, start) && Room(ins, start, hi) && ins.displ == 0
    requires Within(FetchModrm(Code(emu.mem), Here(emu, ins)), hi)
    modifies emu`rip, ins, ins.bytes
    ensures Traced(emu, ins, start)
    ensures Here(emu, ins) == old(FetchModrm(Code(emu.mem), Here(emu, ins)))
  {
    hide Field;
    ghost var code := Code(emu.mem);
    OneByteField(code, emu.rip);
    ins.modrm := Fetch(emu, ins, 1, start, hi);
    if ins.modrm / 64 != 3 {
      if ins.modrm % 8 == 4 {
        OneByteField(code, emu.rip);
        ins.sib := Fetch(emu, ins, 1, start, hi);
      }
      FetchByMode(emu, ins, start, hi);
    }
  }

  /** The displacement that mod, rm and the SIB base select. */
  method FetchByMode(emu: Emu, ins: Instr, ghost start: nat, ghost hi: nat)
    requires Traced(emu, ins, start) && Room(ins, start, hi) && ins.displ == 0 && ins.modrm / 64 != 3
    requires Within(FetchDispl(Code(emu.mem), Here(emu, ins)), hi)
    modifies emu`rip, ins, ins.bytes
    ensures Traced(emu, ins, start)
    ensures Here(emu, ins) == old(FetchDispl(Code(emu.mem), Here(emu, ins)))
  {
    hide Field, Traced, Room;
    var mod, rm := ins.modrm / 64, ins.modrm % 8;
    if mod == 0 {
      if rm == 5 || (rm == 4 && ins.sib % 8 == 5) {
        FetchDisplacement(emu, ins, 4, start, hi);
      }
    } else if mod == 1 {
      FetchDisplacement(emu, ins, 1, start, hi);
    } else if mod == 2 {
      FetchDisplacement(emu, ins, 4, start, hi);
    }
  }

  /** Fetch into the low bytes of a zeroed immediate. */
  method FetchImmBytes(emu: Emu, ins: Instr, k: Width, ghost start: nat, ghost hi: nat)
    requires Traced(emu, ins, start) && Room(ins, start, hi) && emu.rip + k <= hi && ins.imm == 0
    modifies emu`rip, ins, ins.bytes
    ensures Traced(emu, ins, start) && emu.rip == old(emu.rip) + k
    ensures ins.Value() == old(ins.Value()).(imm := Field(Code(emu.mem), old(emu.rip), k))
  {
    hide SetLow, Field, Half, Modulus;
    FieldFits(Code(emu.mem), emu.rip, k);
    var v := Fetch(emu, ins, k, start, hi);
    SetLowOfZero(k, v);
    ins.imm := SetLow(ins.imm, k, v);
  }

  method FetchImm16Or32(emu: Emu, ins: Instr, ghost start: nat, ghost hi: nat)
    requires Traced(emu, ins, start) && Room(ins, start, hi) && ins.imm == 0
    requires Within(FetchImm(Code(emu.mem), Here(emu, ins), Imm16_32), hi)
    modifies emu`rip, ins, ins.bytes
    ensures Traced(emu, ins, start)
    ensures Here(emu, ins) == old(FetchImm(Code(emu.mem), Here(emu, ins), Imm16_32))
  {
    if ins.operandSz {
      FetchImmBytes(emu, ins, 2, start, hi);
    } else {
      FetchImmBytes(emu, ins, 4, start, hi);
    }
  }

  method FetchImm16Or32Or64(emu: Emu, ins: Instr, ghost start: nat, ghost hi: nat)
    requires Traced(emu, ins, start) && Room(ins, start, hi) && ins.imm == 0
    requires Within(FetchImm(Code(emu.mem), Here(emu, ins), Imm16_32_64), hi)
    modifies emu`rip, ins, ins.bytes
    ensures Traced(emu, ins, start)
    ensures Here(emu, ins) == old(FetchImm(Code(emu.mem), Here(emu, ins), Imm16_32_64))
  {
    if (ins.rex / 8) % 2 == 1 {
      FetchImmBytes(emu, ins, 8, start, hi);
    } else if ins.operandSz {
      FetchImmBytes(emu, ins, 2, start, hi);
    } else {
      FetchImmBytes(emu, ins, 4, start, hi);
    }
  }

  /** The state in which the opcode switches run: the opcode is known, nothing after it fetched. */
  ghost predicate Ready(emu: Emu, ins: Instr, l: Layout, start: nat, hi: nat)
    reads emu, ins, ins.bytes
  {
    && Traced(emu, ins, start) && Room(ins, start, hi)
    && ins.displ == 0 && ins.imm == 0
    && (l.Layout? ==> Within(FetchOperands(Code(emu.mem), Here(emu, ins), l), hi))
  }

  /** What a switch has done: the layout's fields, or nothing for an unknown opcode. */
  function Fetched(m: seq<byte>, c: Cursor, l: Layout): Cursor
  {
    if l.Layout? then FetchOperands(m, c, l) else c
  }

  method ModrmThenImm8(emu: Emu, ins: Instr, ghost start: nat, ghost hi: nat)
    requires Ready(emu, ins, Layout(true, Imm8), start, hi)
    modifies emu`rip, ins, ins.bytes
    ensures Traced(emu, ins, start)
    ensures Here(emu, ins) == old(Fetched(Code(emu.mem), Here(emu, ins), Layout(true, Imm8)))
  {
    ModrmFetch(emu, ins, start, hi);
    FetchImmBytes(emu, ins, 1, start, hi);
  }

  method ModrmThenImm16Or32(emu: Emu, ins: Instr, ghost start: nat, ghost hi: nat)
    requires Ready(emu, ins, Layout(true, Imm16_32), start, hi)
    modifies emu`rip, ins, ins.bytes
    ensures Traced(emu, ins, start)
    ensures Here(emu, ins) == old(Fetched(Code(emu.mem), Here(emu, ins), Layout(true, Imm16_32)))
  {
    ModrmFetch(emu, ins, start, hi);
    FetchImm16Or32(emu, ins, start, hi);
  }

  /** F6 and F7: an immediate only for the TEST extensions. */
  method ModrmThenTestImm(emu: Emu, ins: Instr, byteSize: bool, ghost start: nat, ghost hi: nat)
    requires Ready(emu, ins, Layout(true, if byteSize then TestImm8 else TestImm16_32), start, hi)
    modifies emu`rip, ins, ins.bytes
    ensures Traced(emu, ins, start)
    ensures Here(emu, ins) ==
      old(Fetched(Code(emu.mem), Here(emu, ins), Layout(true, if byteSize then TestImm8 else TestImm16_32)))
  {
    ModrmFetch(emu, ins, start, hi);
    if (ins.modrm / 8) % 8 <= 1 {
      if byteSize {
        FetchImmBytes(emu, ins, 1, start, hi);
      } else {
        FetchImm16Or32(emu, ins, start, hi);
      }
    }
  }

  /** The two-byte opcode switch; the second opcode byte has been fetched. */
  method TwoByteSwitch(emu: Emu, ins: Instr, ghost start: nat, ghost hi: nat) returns (ok: bool)
    requires Ready(emu, ins, TwoByteLayout(ins.op1), start, hi)
    modifies emu`rip, ins, ins.bytes
    ensures Traced(emu, ins, start)
    ensures ok == old(TwoByteLayout(ins.op1).Layout?)
    ensures Here(emu, ins) == old(Fetched(Code(emu.mem), Here(emu, ins), TwoByteLayout(ins.op1)))
  {
    hide FetchModrm, Field, Traced, Room;
    var op := ins.op1;
    ok := true;
    if op == 0x05 || op == 0xA2 {
    } else if op == 0x0D || 0x10 <= op <= 0x1F || 0x28 <= op <= 0x2F || 0x40 <= op <= 0x6F {
      JustModrm(emu, ins, start, hi);
    } else if 0x70 <= op <= 0x73 {
      ModrmThenImm8(emu, ins, start, hi);
    } else if 0x74 <= op <= 0x76 || 0x7C <= op <= 0x7F {
      JustModrm(emu, ins, start, hi);
    } else if 0x80 <= op <= 0x8F {
      JustImm16Or32(emu, ins, start, hi);
    } else if 0x90 <= op <= 0x9F || 0xB6 <= op <= 0xB7 {
      JustModrm(emu, ins, start, hi);
    } else {
      ok := false;
    }
  }

  method JustModrm(emu: Emu, ins: Instr, ghost start: nat, ghost hi: nat)
    requires Ready(emu, ins, Layout(true, NoImm), start, hi)
    modifies emu`rip, ins, ins.bytes
    ensures Traced(emu, ins, start)
    ensures Here(emu, ins) == old(Fetched(Code(emu.mem), Here(emu, ins), Layout(true, NoImm)))
  {
    ModrmFetch(emu, ins, start, hi);
  }

  method JustImm(emu: Emu, ins: Instr, k: Width, ghost kind: ImmKind, ghost start: nat, ghost hi: nat)
    requires kind == (if k == 1 then Imm8 else if k == 2 then Imm16 else Imm32) && k < 8
    requires Ready(emu, ins, Layout(false, kind), start, hi)
    modifies emu`rip, ins, ins.bytes
    ensures Traced(emu, ins, start)
    ensures Here(emu, ins) == old(Fetched(Code(emu.mem), Here(emu, ins), Layout(false, kind)))
  {
    FetchImmBytes(emu, ins, k, start, hi);
  }

  method JustImm16Or32(emu: Emu, ins: Instr, ghost start: nat, ghost hi: nat)
    requires Ready(emu, ins, Layout(false, Imm16_32), start, hi)
    modifies emu`rip, ins, ins.bytes
    ensures Traced(emu, ins, start)
    ensures Here(emu, ins) == old(Fetched(Code(emu.mem), Here(emu, ins), Layout(false, Imm16_32)))
  {
    FetchImm16Or32(emu, ins, start, hi);
  }

  method JustImm16Or32Or64(emu: Emu, ins: Instr, ghost start: nat, ghost hi: nat)
    requires Ready(emu, ins, Layout(false, Imm16_32_64), start, hi)
    modifies emu`rip, ins, ins.bytes
    ensures Traced(emu, ins, start)
    ensures Here(emu, ins) == old(Fetched(Code(emu.mem), Here(emu, ins), Layout(false, Imm16_32_64)))
  {
    FetchImm16Or32Or64(emu, ins, start, hi);
  }

  /** The one-byte opcode switch, 0F excluded. */
  method OneByteSwitch(emu: Emu, ins: Instr, ghost start: nat, ghost hi: nat) returns (ok: bool)
    requires Ready(emu, ins, OneByteLayout(ins.op0), start, hi)
    modifies emu`rip, ins, ins.bytes
    ensures Traced(emu, ins, start)
    ensures ok == old(OneByteLayout(ins.op0).Layout?)
    ensures Here(emu, ins) == old(Fetched(Code(emu.mem), Here(emu, ins), OneByteLayout(ins.op0)))
  {
    hide FetchModrm, Field, Traced, Room;
    var op := ins.op0;
    ok := true;
    if op < 0x40 && op % 8 <= 3 {
      JustModrm(emu, ins, start, hi);
    } else if op < 0x40 && op % 8 == 4 {
      JustImm(emu, ins, 1, Imm8, start, hi);
    } else if op < 0x40 && op % 8 == 5 {
      JustImm16Or32(emu, ins, start, hi);
    } else if 0x50 <= op <= 0x5F {
    } else if op == 0x63 {
      JustModrm(emu, ins, start, hi);
    } else if op == 0x68 {
      JustImm16Or32(emu, ins, start, hi);
    } else if op == 0x6A || 0x70 <= op <= 0x7F {
      JustImm(emu, ins, 1, Imm8, start, hi);
    } else if op == 0x80 || op == 0x83 {
      ModrmThenImm8(emu, ins, start, hi);
    } else if op == 0x81 {
      ModrmThenImm16Or32(emu, ins, start, hi);
    } else if 0x84 <= op <= 0x8B || op == 0x8D || op == 0x8F {
      JustModrm(emu, ins, start, hi);
    } else if 0x90 <= op <= 0x99 || 0x9C <= op <= 0x9F {
    } else if op == 0xA8 {
      JustImm(emu, ins, 1, Imm8, start, hi);
    } else if op == 0xA9 {
      JustImm16Or32(emu, ins, start, hi);
    } else if 0xAA <= op <= 0xAB {
    } else if 0xB0 <= op <= 0xB7 {
      JustImm(emu, ins, 1, Imm8, start, hi);
    } else if 0xB8 <= op <= 0xBF {
      JustImm16Or32Or64(emu, ins, start, hi);
    } else if 0xC0 <= op <= 0xC1 {
      ModrmThenImm8(emu, ins, start, hi);
    } else if op == 0xC2 {
      JustImm(emu, ins, 2, Imm16, start, hi);
    } else if op == 0xC3 || op == 0xC9 {
    } else if op == 0xC6 {
      ModrmThenImm8(emu, ins, start, hi);
    } else if op == 0xC7 {
      ModrmThenImm16Or32(emu, ins, start, hi);
    } else if 0xD0 <= op <= 0xD3 {
      JustModrm(emu, ins, start, hi);
    } else if 0xE8 <= op <= 0xE9 {
      JustImm(emu, ins, 4, Imm32, start, hi);
    } else if op == 0xEB {
      JustImm(emu, ins, 1, Imm8, start, hi);
    } else if op == 0xF5 || 0xF8 <= op <= 0xFD {
    } else if op == 0xF6 {
      ModrmThenTestImm(emu, ins, true, start, hi);
    } else if op == 0xF7 {
      ModrmThenTestImm(emu, ins, false, start, hi);
    } else if 0xFE <= op <= 0xFF {
      JustModrm(emu, ins, start, hi);
    } else {
      ok := false;
    }
  }

  /**
   Decode the instruction at RIP into a zeroed record. The bytes fetched must be mapped,
   and with tracing on there must be room for them; the verdict, the record and RIP are
   those of the pure decoder, and the trace is exactly the bytes from start to RIP.
   */
  method DecodeInstruction(emu: Emu, ins: Instr) returns (ok: bool)
    requires ins.Value() == ZERO_INS && ins.bytesLen == 0 && ins.bytes.Length == TRACE_BYTES
    requires Decode(Code(emu.mem), emu.rip).Done?
    requires ins.tracing ==> Decode(Code(emu.mem), emu.rip).pc <= emu.rip + TRACE_BYTES
    modifies emu`rip, ins, ins.bytes
    ensures Done(ok, ins.Value(), emu.rip) == old(Decode(Code(emu.mem), emu.rip))
    ensures old(emu.rip) <= emu.rip
    ensures ins.tracing ==> ins.bytesLen <= TRACE_BYTES && ins.bytes[..ins.bytesLen] == emu.mem[old(emu.rip)..emu.rip]
  {
    hide OneByteLayout, TwoByteLayout, FetchPrefixes, FetchOperands, Field;
    ghost var code, start := Code(emu.mem), emu.rip;
    ghost var d := Decode(code, start);
    ghost var hi := d.pc;
    assert emu.mem[start..start] == [];
    PrefixesKeepRest(code, start, ZERO_INS);
    ins.op0 := DecodePrefixes(emu, ins, start, hi);
    if ins.op0 == 0x0F {
      OneByteField(code, emu.rip);
      ins.op1 := Fetch(emu, ins, 1, start, hi);
      ok := TwoByteSwitch(emu, ins, start, hi);
    } else {
      ok := OneByteSwitch(emu, ins, start, hi);
    }
  }
}
