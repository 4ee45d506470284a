/**
 Execution as it runs: each operation updates the registers, flags and memory of the
 emulator in place, and is proved to do what its description on values says.
 */
module Execution {
  import opened Words
  import opened Bits
  import opened Flags
  import opened Memory
  import opened Instructions
  import opened Machine
  import opened Operations
  import opened Decoding
  import opened Semantics
  import opened Emulator
  import Addressing
  import Codec
  import Decoder
  import FlagsInvariant
  import Shifts

  /** Whether the run loop goes on. */
  datatype Status = Running | Stopped | Exited(code: int) | NotDefined

  /** The status and the machine state are those of an outcome. */
  ghost predicate Realizes(st: Status, s: State, r: Outcome)
  {
    match r
    case Go(t) => st.Running? && s == t
    case Halt(t) => st.Stopped? && s == t
    case Exit(c) => st == Exited(c)
    case Undefined => st.NotDefined?
  }

  // ---------------------------------------------------------------- operands

  method ReadAt(emu: Emu, l: Loc, w: Width) returns (v: nat)
    requires emu.Valid()
    ensures v == ReadLoc(emu.Value(), l, w) < Modulus(w)
  {
    match l
    case RegLoc(i) => v := emu.regs[i] % Modulus(w);
    case MemLoc(a) => v := Load(emu.mem, a, w);
  }

  method WriteAt(emu: Emu, l: Loc, w: Width, v: nat)
    requires emu.Valid() && v < Modulus(w)
    modifies emu`mem, emu.regs
    ensures emu.Value() == WriteLoc(old(emu.Value()), l, w, v)
  {
    match l
    case RegLoc(i) => emu.SetReg(i, SetLow(emu.regs[i], w, v));
    case MemLoc(a) => emu.SetMem(Store(emu.mem, a, w, v));
  }

  method SibIndexValue(emu: Emu, i: Ins) returns (x: u64)
    requires emu.Valid()
    ensures x == ScaledIndex(emu.Value(), i)
  {
    if i.RexX() == 0 && i.SibIndex() == 4 {
      x := 0;
    } else {
      x := Scaled(emu.regs[i.SibIndex() + 8 * i.RexX()], i.SibScale());
    }
  }

  /** Every memory operand is the wrapped sum of the parts the record spells. */
  method AddressOf(emu: Emu, i: Ins) returns (a: u64)
    requires emu.Valid()
    ensures a == Indirect(emu.Value(), i)
    ensures i.modrm / 64 != 3 && !i.addressSz ==>
      a == (if Addressing.IsRipRelative(i) then emu.rip + Addressing.WordDisp(i) else Addressing.OperandOf(i).Sum(emu.Value())) % WORD
  {
    hide Addressing.OperandOf;
    if i.addressSz {
      return 0;
    }
    if i.Mod() != 3 {
      Addressing.MemoryOperand(emu.Value(), i);
    }
    var mod, rm := i.Mod(), i.Rm();
    var index := SibIndexValue(emu, i);
    if mod == 0 {
      if rm == 5 {
        a := Plus(emu.rip, Disp32(i));
      } else if rm == 4 {
        a := Plus(index, if i.SibBase() == 5 then Disp32(i) else emu.regs[i.SibBase() + 8 * i.RexB()]);
      } else {
        a := emu.regs[i.RmIndex()];
      }
    } else if mod == 3 {
      a := 0;
    } else {
      var base := if rm == 4 then Plus(index, emu.regs[i.SibBase() + 8 * i.RexB()]) else emu.regs[i.RmIndex()];
      a := Plus(base, if mod == 1 then Disp8(i) else Disp32(i));
    }
  }

  method LocOf(emu: Emu, i: Ins, p: Place) returns (l: Loc)
    requires emu.Valid()
    ensures l == PlaceLoc(emu.Value(), i, p)
  {
    if p.Gpr? {
      l := RegLoc(p.i);
    } else if i.Mod() == 3 {
      l := RegLoc(i.RmIndex());
    } else {
      var a := AddressOf(emu, i);
      l := MemLoc(a);
    }
  }

  method ValueOf(emu: Emu, i: Ins, src: Source, w: Width) returns (v: nat)
    requires emu.Valid()
    ensures v == SourceValue(emu.Value(), i, src, w) < Modulus(w)
  {
    match src
    case From(p, k, signed) =>
      var l := LocOf(emu, i, p);
      var x := ReadAt(emu, l, k);
      v := Convert(x, k, w, signed);
    case Imm(k, signed) => v := Convert(i.imm % Modulus(k), k, w, signed);
  }

  // ---------------------------------------------------------------- stack helpers

  method PushWord(emu: Emu, w: Width, v: nat)
    requires emu.Valid() && v < Modulus(w)
    modifies emu`mem, emu.regs
    ensures emu.Value() == Push(old(emu.Value()), w, v)
  {
    var sp := Plus(emu.regs[RSP], 0 - w);
    emu.SetReg(RSP, sp);
    emu.SetMem(Store(emu.mem, sp, w, v));
  }

  method PopWord(emu: Emu, w: Width) returns (v: nat)
    requires emu.Valid()
    modifies emu.regs
    ensures v == Top(old(emu.Value()), w) < Modulus(w)
    ensures emu.Value() == Drop(old(emu.Value()), w)
  {
    v := Load(emu.mem, emu.regs[RSP], w);
    emu.SetReg(RSP, Plus(emu.regs[RSP], w));
  }

  // ---------------------------------------------------------------- operations

  method ExecBinary(emu: Emu, i: Ins, op: BinOp, w: Width, dst: Place, src: Source)
    requires emu.Valid()
    modifies emu, emu.regs
    ensures Go(emu.Value()) == Perform(Binary(op, w, dst, src), i, old(emu.Value()), 0)
  {
    hide Compute, PlaceLoc, SourceValue, ReadLoc, WriteLoc;
    var y := ValueOf(emu, i, src, w);
    var l := LocOf(emu, i, dst);
    var x := ReadAt(emu, l, w);
    var e := Compute(op, emu.flags, x, y, w);
    if e.store {
      WriteAt(emu, l, w, e.value);
    }
    emu.SetFlags(e.flags);
  }

  method ExecUnary(emu: Emu, i: Ins, un: UnOp, w: Width)
    requires emu.Valid()
    modifies emu, emu.regs
    ensures Go(emu.Value()) == Perform(Unary(un, w), i, old(emu.Value()), 0)
  {
    hide ComputeUnary, ReadLoc, WriteLoc, Indirect;
    var l := LocOf(emu, i, Rm);
    var x := ReadAt(emu, l, w);
    var e := ComputeUnary(un, emu.flags, x, w);
    if e.store {
      WriteAt(emu, l, w, e.value);
    }
    emu.SetFlags(e.flags);
  }

  method ExecShift(emu: Emu, i: Ins, op: Shifts.ShiftOp, w: Width, c: Count) returns (st: Status)
    requires emu.Valid()
    modifies emu, emu.regs
    ensures Realizes(st, emu.Value(), PerformShift(old(emu.Value()), i, op, w, c))
  {
    hide Shifts.Apply, Shifts.Defined, Shifts.Masked, ReadLoc, WriteLoc, RmLoc, ToBits, FromBits, Half, Modulus, Pow2;
    var l := LocOf(emu, i, Rm);
    assert l == RmLoc(emu.Value(), i);
    var count := if c.CountImm? then i.imm % 256 else if c.CountOne? then 1 else emu.regs[RCX] % 256;
    var n := Shifts.Masked(count, 8 * w);
    if !Shifts.Defined(op, 8 * w, n) {
      return NotDefined;
    }
    var x := ReadAt(emu, l, w);
    var r := Shifts.Apply(op, emu.flags, BitString(x, w), n);
    Pow2AtWidth(w);
    WriteAt(emu, l, w, FromBits(r.bits));
    emu.SetFlags(r.flags);
    st := Running;
  }

  method ExecExchange(emu: Emu, i: Ins, w: Width, dst: Place, from: Place)
    requires emu.Valid()
    modifies emu, emu.regs
    ensures Go(emu.Value()) == Perform(Exchange(w, dst, from), i, old(emu.Value()), 0)
  {
    hide PlaceLoc, ReadLoc, WriteLoc;
    var r := LocOf(emu, i, from);
    var d := LocOf(emu, i, dst);
    var saved := ReadAt(emu, d, w);
    var x := ReadAt(emu, r, w);
    WriteAt(emu, d, w, x);
    WriteAt(emu, r, w, saved);
  }

  method ExecPopInto(emu: Emu, i: Ins, w: Width, dst: Place)
    requires emu.Valid()
    modifies emu, emu.regs
    ensures Go(emu.Value()) == Perform(PopInto(w, dst), i, old(emu.Value()), 0)
  {
    hide PlaceLoc, WriteLoc, Top, Drop;
    var l := LocOf(emu, i, dst);
    var v := PopWord(emu, w);
    WriteAt(emu, l, w, v);
  }

  method ExecPushFlags(emu: Emu, i: Ins, w: Width)
    requires emu.Valid()
    modifies emu, emu.regs
    ensures Go(emu.Value()) == Perform(PushFlags(w), i, old(emu.Value()), 0)
  {
    hide Push, Word, AndMask;
    PushWord(emu, w, if w == 8 then Word(AndMask(emu.flags, PUSHF_MASK)) else Word(emu.flags) % Modulus(w));
  }

  method ExecPopFlags(emu: Emu, i: Ins, w: Width)
    requires emu.Valid()
    modifies emu, emu.regs
    ensures Go(emu.Value()) == Perform(PopFlags(w), i, old(emu.Value()), 0)
  {
    hide Top, Drop, MergeFlags;
    var v := PopWord(emu, w);
    if w == 2 {
      emu.SetFlags(MergeFlags(emu.flags, v, POPF16_KEEP, POPF16_UPDATE));
    } else {
      emu.SetFlags(MergeFlags(emu.flags, v, POPF_KEEP, POPF_UPDATE));
    }
  }

  /** The string store loop: one element at a time, counting RCX or ECX down. */
  method ExecStoreString(emu: Emu, i: Ins, w: Width)
    requires emu.Valid()
    modifies emu, emu.regs
    ensures emu.Value() == PerformStoreString(old(emu.Value()), i, w)
  {
    hide Store;
    var a: u64 := if i.addressSz then emu.regs[RDI] % 0x1_0000_0000 else emu.regs[RDI];
    var v := emu.regs[RAX] % Modulus(w);
    if i.rep == 0 {
      emu.SetMem(Store(emu.mem, a, w, v));
      return;
    }
    var down := emu.flags[DF];
    var n := if i.addressSz then emu.regs[RCX] % 0x1_0000_0000 else emu.regs[RCX];
    ghost var goal := Fill(emu.mem, a, w, v, n, down);
    ghost var rest := emu.regs[RCX] - n;
    while n != 0
      invariant n >= 0 && rest >= 0 && rest + n < WORD
      invariant i.addressSz ==> rest % 0x1_0000_0000 == 0 && n < 0x1_0000_0000
      invariant emu.Value() == old(emu.Value()).SetReg(RCX, rest + n).(mem := emu.mem)
      invariant Fill(emu.mem, a, w, v, n, down) == goal
      decreases n
    {
      emu.SetMem(Store(emu.mem, a, w, v));
      a := Plus(a, if down then 0 - w else w);
      n := n - 1;
      emu.SetReg(RCX, emu.regs[RCX] - 1);
    }
  }

  method ExecReturn(emu: Emu, i: Ins, release: bool)
    requires emu.Valid()
    modifies emu, emu.regs
    ensures emu.Value() == PerformReturn(old(emu.Value()), i, release)
  {
    hide Top;
    if i.addressSz {
      var v := PopWord(emu, 4);
      emu.SetRip(SetLow(emu.rip, 4, v));
    } else {
      var v := PopWord(emu, 8);
      emu.SetRip(v);
    }
    if release {
      emu.SetReg(RSP, Plus(emu.regs[RSP], i.imm % 0x1_0000));
    }
  }

  method ExecPushReturn(emu: Emu, i: Ins)
    requires emu.Valid()
    modifies emu, emu.regs
    ensures emu.Value() == PushReturn(old(emu.Value()), i)
  {
    hide Push;
    if i.addressSz {
      PushWord(emu, 4, emu.rip % 0x1_0000_0000);
    } else {
      PushWord(emu, 8, emu.rip);
    }
  }

  method ExecJumpTo(emu: Emu, i: Ins)
    requires emu.Valid()
    modifies emu`rip
    ensures Go(emu.Value()) == Perform(JumpTo, i, old(emu.Value()), 0)
  {
    hide ReadLoc, Indirect;
    var l := LocOf(emu, i, Rm);
    var v := ReadAt(emu, l, 8);
    emu.SetRip(v);
  }

  /** The target is read after the return address has been pushed. */
  method ExecCallTo(emu: Emu, i: Ins)
    requires emu.Valid()
    modifies emu, emu.regs
    ensures Go(emu.Value()) == Perform(CallTo, i, old(emu.Value()), 0)
  {
    hide ReadLoc, Indirect, PushReturn;
    var l := LocOf(emu, i, Rm);
    ExecPushReturn(emu, i);
    var v := ReadAt(emu, l, 8);
    emu.SetRip(v);
  }

  method ExecLeave(emu: Emu, i: Ins)
    requires emu.Valid()
    modifies emu, emu.regs
    ensures emu.Value() == PerformLeave(old(emu.Value()), i)
  {
    hide Top;
    if i.operandSz {
      emu.SetReg(RSP, SetLow(emu.regs[RSP], 2, emu.regs[RBP] % 0x1_0000));
      var v := PopWord(emu, 2);
      emu.SetReg(RBP, SetLow(emu.regs[RBP], 2, v));
    } else {
      emu.SetReg(RSP, emu.regs[RBP]);
      var v := PopWord(emu, 8);
      emu.SetReg(RBP, v);
    }
  }

  method ExecSyscall(emu: Emu, io: u64) returns (st: Status)
    requires emu.Valid()
    modifies emu, emu.regs
    ensures Realizes(st, emu.Value(), PerformSyscall(old(emu.Value()), io))
  {
    hide Word;
    emu.SetReg(RCX, emu.rip);
    emu.SetReg(R11, Word(emu.flags));
    emu.SetFlags(Zeros(64));
    if emu.regs[RAX] == 1 {
      emu.SetReg(RAX, io);
      st := Running;
    } else if emu.regs[RAX] == 0x3C {
      st := Exited(Signed(emu.regs[RDI] % 0x1_0000_0000, 4));
    } else {
      st := Stopped;
    }
  }

  method ExecCpuid(emu: Emu)
    requires emu.Valid()
    modifies emu, emu.regs
    ensures Go(emu.Value()) == Perform(CpuId, ZERO_INS, old(emu.Value()), 0)
  {
    hide SetLow;
    emu.SetReg(RDX, ClearLow32(emu.regs[RDX]));
    emu.SetReg(RCX, ClearLow32(emu.regs[RCX]));
    emu.SetReg(RBX, ClearLow32(emu.regs[RBX]));
    emu.SetReg(RAX, ClearLow32(emu.regs[RAX]));
  }

  // ---------------------------------------------------------------- vector moves

  method ReadVec(emu: Emu, l: VecLoc, off: nat, n: nat) returns (b: seq<byte>)
    requires emu.Valid()
    ensures b == VecRead(emu.Value(), l, off, n)
  {
    match l
    case VecReg(o) => b := if o + off + n <= 384 then emu.vec[o + off..o + off + n] else [];
    case VecMem(a) => b := Read(emu.mem, Plus(a, off), n);
  }

  method WriteVec(emu: Emu, l: VecLoc, off: nat, b: seq<byte>)
    requires emu.Valid()
    modifies emu`mem, emu.vec
    ensures emu.Value() == VecWrite(old(emu.Value()), l, off, b)
  {
    match l
    case VecReg(o) =>
      if o + off + |b| <= 384 {
        forall j | 0 <= j < |b| {
          emu.vec[o + off + j] := b[j];
        }
        assert emu.vec[..] == old(emu.vec[..])[..o + off] + b + old(emu.vec[..])[o + off + |b|..];
      }
    case VecMem(a) =>
      emu.SetMem(Write(emu.mem, Plus(a, off), b));
  }

  method ExecVector(emu: Emu, i: Ins, xmm: bool, toRm: bool, moves: seq<Move>)
    requires emu.Valid()
    modifies emu`mem, emu.vec
    ensures emu.Value() == PerformVector(old(emu.Value()), i, xmm, toRm, moves)
  {
    hide VecRead, VecWrite, Pad, Indirect;
    var reg := VecRegLoc(i.RegIndex(), xmm);
    var rm := VecRegLoc(i.RmIndex(), xmm);
    if i.Mod() != 3 {
      var a := AddressOf(emu, i);
      rm := VecMem(a);
    }
    var dst, src := if toRm then rm else reg, if toRm then reg else rm;
    ghost var goal := DoMoves(emu.Value(), dst, src, moves);
    for k := 0 to |moves|
      invariant DoMoves(emu.Value(), dst, src, moves[k..]) == goal
    {
      var m := moves[k];
      assert moves[k..][1..] == moves[k + 1..];
      var b := ReadVec(emu, if m.fromDest then dst else src, m.src, m.n);
      WriteVec(emu, dst, m.dst, Pad(b, m.total));
    }
  }

  // ---------------------------------------------------------------- dispatch

  /** Operations that transfer control or leave the loop. */
  predicate IsControl(o: Operation)
  {
    o.JumpIf? || o.Jump? || o.JumpTo? || o.CallNear? || o.CallTo? || o.Return? || o.SystemCall? || o.Unimplemented?
  }

  method ExecControl(emu: Emu, i: Ins, o: Operation, io: u64) returns (st: Status)
    requires emu.Valid() && IsControl(o)
    modifies emu, emu.regs
    ensures Realizes(st, emu.Value(), Perform(o, i, old(emu.Value()), io))
  {
    hide Condition, ReadLoc, Indirect, PushReturn, PerformReturn, PerformSyscall, Realizes;
    st := Running;
    match o {
      case JumpIf(cc, k) =>
        if Condition(emu.flags, cc) {
          emu.SetRip(Plus(emu.rip, Distance(i, k)));
        }
        IsGo(emu.Value());
      case Jump(k) =>
        emu.SetRip(Plus(emu.rip, Distance(i, k)));
        IsGo(emu.Value());
      case JumpTo =>
        ExecJumpTo(emu, i);
        IsGo(emu.Value());
      case CallNear =>
        ExecPushReturn(emu, i);
        emu.SetRip(Plus(emu.rip, Distance(i, 4)));
        IsGo(emu.Value());
      case CallTo =>
        ExecCallTo(emu, i);
        IsGo(emu.Value());
      case Return(release) =>
        ExecReturn(emu, i, release);
        IsGo(emu.Value());
      case SystemCall =>
        st := ExecSyscall(emu, io);
      case Unimplemented =>
        st := Stopped;
        IsHalt(emu.Value());
    }
  }

  lemma IsGo(s: State)
    ensures Realizes(Running, s, Go(s))
  {
  }

  lemma IsHalt(s: State)
    ensures Realizes(Stopped, s, Halt(s))
  {
  }

  /** Operations that act on data and flags only. */
  method ExecData(emu: Emu, i: Ins, o: Operation, io: u64) returns (st: Status)
    requires emu.Valid() && !IsControl(o)
    modifies emu, emu.regs, emu.vec
    ensures Realizes(st, emu.Value(), Perform(o, i, old(emu.Value()), io))
  {
    hide Condition, ReadLoc, WriteLoc, Indirect, PerformLeave, PerformStoreString, PerformVector, PerformShift, PerformPop,
      Compute, ComputeUnary, SourceValue, Push, Top, Drop, MergeFlags, AhOfFlags, StoreEffect, SetLow, Word, AndMask, Realizes;
    ghost var s := emu.Value();
    st := Running;
    match o {
      case Binary(op, w, dst, src) => ExecBinary(emu, i, op, w, dst, src);
      case Unary(un, w) => ExecUnary(emu, i, un, w);
      case Shift(op, w, c) =>
        st := ExecShift(emu, i, op, w, c);
        return;
      case Exchange(w, dst, from) => ExecExchange(emu, i, w, dst, from);
      case LoadAddress(w) =>
        if i.Mod() == 3 {
          IsUndefined(emu.Value());
          return NotDefined;
        }
        var a := AddressOf(emu, i);
        WriteAt(emu, RegLoc(i.RegIndex()), w, a % Modulus(w));
      case PushValue(w, src) =>
        var v := ValueOf(emu, i, src, w);
        PushWord(emu, w, v);
      case PopInto(w, dst) => ExecPopInto(emu, i, w, dst);
      case PushFlags(w) => ExecPushFlags(emu, i, w);
      case PopFlags(w) => ExecPopFlags(emu, i, w);
      case StoreAh => emu.SetFlags(MergeFlags(emu.flags, AhByte(emu.regs[RAX]), AH_KEEP, AH_MASK));
      case LoadAh => emu.SetReg(RAX, SetAhByte(emu.regs[RAX], AhOfFlags(emu.flags)));
      case SetFlag(bit, value) =>
        if bit >= 64 {
          IsUndefined(emu.Value());
          return NotDefined;
        }
        emu.SetFlags(emu.flags[bit := value]);
      case ComplementCarry => emu.SetFlags(emu.flags[CF := !emu.flags[CF]]);
      case StoreString(w) => ExecStoreString(emu, i, w);
      case LeaveFrame => ExecLeave(emu, i);
      case MoveIf(cc, w) =>
        if Condition(emu.flags, cc) {
          var l := LocOf(emu, i, Rm);
          var v := ReadAt(emu, l, w);
          WriteAt(emu, RegLoc(i.RegIndex()), w, v);
        }
      case SetIf(cc) =>
        var l := LocOf(emu, i, Rm);
        WriteAt(emu, l, 1, if Condition(emu.flags, cc) then 1 else 0);
      case Nothing =>
      case CpuId => ExecCpuid(emu);
      case Vector(xmm, toRm, moves) => ExecVector(emu, i, xmm, toRm, moves);
    }
    assert Perform(o, i, s, io) == Go(emu.Value());
    IsGo(emu.Value());
  }

  lemma IsUndefined(s: State)
    ensures Realizes(NotDefined, s, Undefined)
  {
  }

  /** Execute a decoded instruction. */
  method ExecuteInstruction(emu: Emu, i: Ins, io: u64) returns (st: Status)
    requires emu.Valid()
    modifies emu, emu.regs, emu.vec
    ensures Realizes(st, emu.Value(), Execute(i, old(emu.Value()), io))
  {
    hide Perform, Select, Realizes;
    var o := Select(i);
    if IsControl(o) {
      st := ExecControl(emu, i, o, io);
    } else {
      st := ExecData(emu, i, o, io);
    }
  }

  // ---------------------------------------------------------------- the run loop

  /** The bytes of the current instruction are mapped, and short enough to trace. */
  predicate Fetchable(s: State, tracing: bool)
  {
    var d := Decode(Code(s.mem), s.rip);
    d.Done? && (tracing ==> d.pc <= s.rip + TRACE_BYTES)
  }

  /** An instruction with at most 13 legacy prefixes can be traced. */
  lemma TraceRoom(s: State)
    requires Decode(Code(s.mem), s.rip).Done? && Codec.LegacyCount(Code(s.mem), s.rip) <= 13
    ensures Fetchable(s, true)
  {
    var m := Code(s.mem);
    if Decode(m, s.rip).ok {
      Codec.LengthBound(m, s.rip);
    } else {
      Codec.PrefixLength(m, s.rip, ZERO_INS);
    }
  }

  /** One turn of the loop: a fresh record, decode, execute. */
  method StepOnce(emu: Emu, io: u64, tracing: bool) returns (st: Status)
    requires emu.Valid() && Fetchable(emu.Value(), tracing)
    modifies emu, emu.regs, emu.vec
    ensures Realizes(st, emu.Value(), Step(old(emu.Value()), io))
  {
    hide Decode, Execute, Code;
    var ins := new Instr(tracing);
    var ok := Decoder.DecodeInstruction(emu, ins);
    if !ok {
      return Stopped;
    }
    st := ExecuteInstruction(emu, ins.Value(), io);
  }

  /** The outcome of at most |io| turns, one system call result for each turn. */
  function RunFor(s: State, io: seq<u64>): Outcome
    decreases |io|
  {
    hide Step;
    if |io| == 0 then Go(s)
    else
      var r := Step(s, io[0]);
      if r.Go? then RunFor(r.s, io[1..]) else r
  }

  /** Every instruction the run reaches can be fetched. */
  predicate AllFetchable(s: State, io: seq<u64>, tracing: bool)
    decreases |io|
  {
    hide Step;
    |io| > 0 ==>
      && Fetchable(s, tracing)
      && (Step(s, io[0]).Go? ==> AllFetchable(Step(s, io[0]).s, io[1..], tracing))
  }

  /** The run loop, for a given number of turns: it does what the step function says. */
  method Run(emu: Emu, io: seq<u64>, tracing: bool) returns (st: Status)
    requires emu.Valid() && AllFetchable(emu.Value(), io, tracing)
    modifies emu, emu.regs, emu.vec
    ensures Realizes(st, emu.Value(), RunFor(old(emu.Value()), io))
  {
    hide Step, Fetchable;
    ghost var goal := RunFor(emu.Value(), io);
    st := Running;
    var k := 0;
    while k < |io|
      invariant 0 <= k <= |io| && st.Running?
      invariant RunFor(emu.Value(), io[k..]) == goal
      invariant AllFetchable(emu.Value(), io[k..], tracing)
    {
      assert io[k..][0] == io[k] && io[k..][1..] == io[k + 1..];
      st := StepOnce(emu, io[k], tracing);
      if !st.Running? {
        return;
      }
      k := k + 1;
    }
  }

  /**
   The states the loop goes through, whichever way it ends: all turns taken, the last
   instruction refused, or an exit or undefined expression met in the last of them.
   */
  lemma {:induction false} RunHasStates(s: State, io: seq<u64>) returns (ss: seq<State>)
    ensures 0 < |ss| <= |io| + 1 && ss[0] == s
    ensures var n := |ss| - 1;
      match RunFor(s, io)
      case Go(t) => FlagsInvariant.IsRun(ss, io) && ss[n] == t
      case Halt(t) => FlagsInvariant.IsWholeRun(ss, io[..n]) && ss[n] == t && n > 0 && Step(ss[n - 1], io[n - 1]).Halt?
      case _ => FlagsInvariant.IsRun(ss, io[..n]) && n < |io| && Step(ss[n], io[n]) == RunFor(s, io)
    decreases |io|
  {
    hide Step;
    if |io| == 0 {
      ss := [s];
    } else {
      var r := Step(s, io[0]);
      match r
      case Go(t) =>
        var rest := RunHasStates(t, io[1..]);
        ss := [s] + rest;
        RunGrows(s, io, rest);
      case Halt(t) => ss := [s, t];
      case _ => ss := [s];
    }
  }

  /** One more step in front of a run. */
  lemma RunGrows(s: State, io: seq<u64>, rest: seq<State>)
    requires 0 < |rest| <= |io| && Step(s, io[0]) == Go(rest[0])
    ensures var n := |rest|;
      && (FlagsInvariant.IsRun(rest, io[1..][..n - 1]) ==> FlagsInvariant.IsRun([s] + rest, io[..n]))
      && (FlagsInvariant.IsWholeRun(rest, io[1..][..n - 1]) ==> FlagsInvariant.IsWholeRun([s] + rest, io[..n]))
    ensures |rest| == |io| ==> io[..|rest|] == io && io[1..][..|rest| - 1] == io[1..]
  {
    hide Step;
    var n, ss, tail := |rest|, [s] + rest, io[1..][..|rest| - 1];
    assert forall j :: 0 <= j < n - 1 ==> tail[j] == io[..n][j + 1];
    assert forall j :: 0 <= j < n ==> ss[j + 1] == rest[j];
    forall k | 0 < k < n && FlagsInvariant.IsWholeRun(rest, tail)
      ensures FlagsInvariant.Reaches(Step(ss[k], io[..n][k]), ss[k + 1]) && (k + 1 < n ==> Step(ss[k], io[..n][k]).Go?)
    {
      assert FlagsInvariant.Reaches(Step(rest[k - 1], tail[k - 1]), rest[k - 1 + 1]);
    }
    forall k | 0 < k < n && FlagsInvariant.IsRun(rest, tail)
      ensures Step(ss[k], io[..n][k]) == Go(ss[k + 1])
    {
      assert Step(rest[k - 1], tail[k - 1]) == Go(rest[k - 1 + 1]);
    }
  }

  /**
   Whatever state the loop leaves after start-up has no unknown flag set, and its system
   bits are set exactly if no SYSCALL was met on the way.
   */
  lemma FlagsAfterRun(s: State, io: seq<u64>, t: State) returns (ss: seq<State>)
    requires s.flags == FlagsInvariant.BOOT_FLAGS && FlagsInvariant.Reaches(RunFor(s, io), t)
    ensures 0 < |ss| <= |io| + 1 && FlagsInvariant.IsWholeRun(ss, io[..|ss| - 1]) && ss[0] == s && ss[|ss| - 1] == t
    ensures FlagsInvariant.OnlyKnown(t.flags)
    ensures FlagsInvariant.SystemBits(t.flags, !FlagsInvariant.SyscallBefore(ss, |ss| - 1))
  {
    hide Step;
    ss := RunHasStates(s, io);
    if RunFor(s, io).Go? {
      assert io[..|ss| - 1] == io;
      FlagsInvariant.RunIsWhole(ss, io);
    }
    FlagsInvariant.FlagsOverRuns(ss, io[..|ss| - 1], |ss| - 1);
  }
}
