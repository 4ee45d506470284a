/**
 Call discipline over whole runs: a shadow stack of the words pushed, the fact that the
 machine's stack always holds it, and what returns and frames restore.
 */
module Calls {
  import opened Words
  import opened Bits
  import opened Flags
  import opened Memory
  import opened Instructions
  import opened Machine
  import opened Operations
  import opened Decoding
  import opened Codec
  import opened Semantics
  import opened FlagsInvariant
  import opened Programs
  import Shifts

  // ---------------------------------------------------------------- stack steps

  predicate IsCall(i: Ins) { (Select(i).CallNear? || Select(i).CallTo?) && !i.addressSz }

  predicate IsReturn(i: Ins) { Select(i) == Return(false) && !i.addressSz }

  /** Instructions that push one 64-bit word: PUSH, PUSHFQ, CALL. */
  predicate Pushes(i: Ins)
  {
    var o := Select(i);
    (o.PushValue? && o.w == 8) || (o.PushFlags? && o.w == 8) || IsCall(i)
  }

  /** Instructions that pop one 64-bit word: POP to a register but RSP, POPFQ, RET. */
  predicate Pops(i: Ins)
  {
    var o := Select(i);
    (o.PopInto? && o.w == 8 && o.dst.Gpr? && o.dst.i != RSP) || (o.PopFlags? && o.w == 8) || IsReturn(i)
  }

  /** Anything else that leaves the stack pointer and the words from there to `base` alone. */
  predicate Quiet(s: State, t: State, base: u64)
  {
    && !Pushes(Current(s)) && !Pops(Current(s))
    && t.Rsp() == s.Rsp()
    && forall x :: s.Rsp() <= x < base ==> t.mem[x] == s.mem[x]
  }

  /** Where the instruction after the current one starts. */
  function NextPc(s: State): nat
  {
    match Decode(Code(s.mem), s.rip)
    case Fault => 0
    case Done(ok, i, pc) => pc
  }

  /** The word on top of the stack. */
  function TopWord(s: State): u64 { Top(s, 8) }

  lemma PushStep(s: State, io: u64, t: State)
    requires Step(s, io) == Go(t) && Pushes(Current(s))
    ensures t.Rsp() == Plus(s.Rsp(), -8)
    ensures t.mem == Store(s.mem, t.Rsp(), 8, TopWord(t))
    ensures IsCall(Current(s)) ==> TopWord(t) == NextPc(s)
  {
    hide Decode, Select, Store, Load, SourceValue, Word, Plus, Code, ReadLoc;
    var d := Decode(Code(s.mem), s.rip);
    var u := s.(rip := d.pc);
    var o := Select(d.ins);
    var v: u64 := if o.PushValue? then SourceValue(u, d.ins, o.src, 8)
                  else if o.PushFlags? then Word(AndMask(u.flags, PUSHF_MASK))
                  else u.rip;
    LoadStore(u.mem, Plus(u.Rsp(), 0 - 8), 8, v);
    assert t.Rsp() == Plus(u.Rsp(), 0 - 8) && t.mem == Store(u.mem, t.Rsp(), 8, v);
  }

  lemma PopStep(s: State, io: u64, t: State)
    requires Step(s, io) == Go(t) && Pops(Current(s))
    ensures t.Rsp() == Plus(s.Rsp(), 8) && t.mem == s.mem
    ensures IsReturn(Current(s)) ==> t.rip == TopWord(s)
    ensures Select(Current(s)).PopInto? ==> t.regs[Select(Current(s)).dst.i] == TopWord(s)
  {
    hide Decode, Select, Load, Plus, MergeFlags, Code;
  }

  /** Operations that write no memory and no stack pointer. */
  predicate InRegisters(o: Operation, i: Ins)
  {
    match o
    case Binary(op, _, dst, _) => op.Cmp? || op.Test? || (dst.Gpr? && dst.i != RSP)
    case Unary(_, _) | Shift(_, _, _) | SetIf(_) => i.Mod() == 3 && i.RmIndex() != RSP
    case LoadAddress(_) | MoveIf(_, _) => i.RegIndex() != RSP
    case Exchange(_, dst, from) => dst.Gpr? && dst.i != RSP && from.Gpr? && from.i != RSP
    case JumpIf(_, _) | Jump(_) | JumpTo | Nothing | SetFlag(_, _) | ComplementCarry | StoreAh | LoadAh | CpuId => true
    case _ => false
  }

  /** Memory and the stack pointer are the same. */
  predicate SameStack(s: State, t: State) { t.mem == s.mem && t.Rsp() == s.Rsp() }

  lemma InRegistersKeepsStack(o: Operation, i: Ins, s: State, io: u64)
    requires InRegisters(o, i) && Perform(o, i, s, io).Go?
    ensures SameStack(s, Perform(o, i, s, io).s)
  {
    if o.Binary? || o.Unary? || o.Shift? {
      ArithmeticKeepsStack(o, i, s, io);
    } else {
      hide Load, ReadLoc, Indirect, SetLow, MergeFlags, AhOfFlags, Condition, Plus, Modulus, Half;
    }
  }

  lemma ArithmeticKeepsStack(o: Operation, i: Ins, s: State, io: u64)
    requires InRegisters(o, i) && Perform(o, i, s, io).Go? && (o.Binary? || o.Unary? || o.Shift?)
    ensures SameStack(s, Perform(o, i, s, io).s)
  {
    hide ReadLoc, SourceValue, Indirect, Compute, ComputeUnary, Shifts.Apply, Shifts.Defined, SetLow, FromBits, ToBits, Modulus, Half;
    if o.Binary? && (o.op.Cmp? || o.op.Test?) {
      FlagsOnly(o.op, s.flags, ReadLoc(s, PlaceLoc(s, i, o.dst), o.w), SourceValue(s, i, o.src, o.w), o.w);
    }
  }

  /** CMP and TEST store nothing. */
  lemma FlagsOnly(op: BinOp, f: Rflags, x: nat, y: nat, w: Width)
    requires x < Modulus(w) && y < Modulus(w) && (op.Cmp? || op.Test?)
    ensures !Compute(op, f, x, y, w).store
  {
  }

  lemma InRegistersIsNoStackStep(i: Ins)
    requires InRegisters(Select(i), i)
    ensures !Pushes(i) && !Pops(i)
  {
    hide Select;
  }

  /** Register-only instructions and jumps are quiet, whatever the base. */
  lemma RegisterInstructionsAreQuiet(s: State, io: u64, t: State, base: u64)
    requires Step(s, io) == Go(t) && InRegisters(Select(Current(s)), Current(s))
    ensures Quiet(s, t, base)
  {
    InRegistersIsNoStackStep(Current(s));
    assert |Code(s.mem)| == WORD - 1;
    hide Decode, Select, Code, Perform, InRegisters, Pushes, Pops;
    var d := Decode(Code(s.mem), s.rip);
    InRegistersKeepsStack(Select(d.ins), d.ins, s.(rip := d.pc), io);
  }

  // ---------------------------------------------------------------- the shadow stack

  /** The words pushed and not yet popped in the first `k` steps. */
  function Shadow(ss: seq<State>, k: nat): seq<u64>
    requires k < |ss|
  {
    if k == 0 then []
    else
      var sh, i := Shadow(ss, k - 1), Current(ss[k - 1]);
      if Pushes(i) then sh + [TopWord(ss[k])]
      else if Pops(i) && |sh| > 0 then sh[..|sh| - 1]
      else sh
  }

  /**
   A run whose every step is a push that does not wrap, a pop of a word pushed in the
   run, or quiet.
   */
  predicate Disciplined(ss: seq<State>, io: seq<u64>)
  {
    && IsRun(ss, io)
    && forall k :: 0 <= k < |io| ==>
         || (Pushes(Current(ss[k])) && ss[k].Rsp() >= 8)
         || (!Pushes(Current(ss[k])) && Pops(Current(ss[k])) && |Shadow(ss, k)| > 0)
         || Quiet(ss[k], ss[k + 1], ss[0].Rsp())
  }

  /** The stack of the machine, from its pointer up to `base`, is the shadow stack. */
  predicate Holds(s: State, base: u64, sh: seq<u64>)
  {
    && base - 8 * |sh| >= 0
    && s.Rsp() == base - 8 * |sh|
    && forall j :: 0 <= j < |sh| ==> Load(s.mem, base - 8 * (j + 1), 8) == sh[j]
  }

  lemma HoldsAfterPush(s: State, t: State, base: u64, sh: seq<u64>, v: u64)
    requires Holds(s, base, sh) && s.Rsp() >= 8
    requires t.Rsp() == Plus(s.Rsp(), -8) && t.mem == Store(s.mem, t.Rsp(), 8, v)
    ensures Holds(t, base, sh + [v])
  {
    var a := t.Rsp();
    assert a == s.Rsp() - 8;
    LoadStore(s.mem, a, 8, v);
    forall j | 0 <= j < |sh|
      ensures Load(t.mem, base - 8 * (j + 1), 8) == sh[j]
    {
      ReadWriteApart(s.mem, a, ToBytes(v, 8), base - 8 * (j + 1), 8);
    }
  }

  lemma HoldsAfterPop(s: State, t: State, base: u64, sh: seq<u64>)
    requires Holds(s, base, sh) && |sh| > 0
    requires t.Rsp() == Plus(s.Rsp(), 8) && t.mem == s.mem
    ensures Holds(t, base, sh[..|sh| - 1]) && TopWord(s) == sh[|sh| - 1]
  {
    hide Load;
    assert t.Rsp() == s.Rsp() + 8;
  }

  lemma HoldsAfterQuiet(s: State, t: State, base: u64, sh: seq<u64>)
    requires Holds(s, base, sh) && Quiet(s, t, base)
    ensures Holds(t, base, sh)
  {
    hide Pushes, Pops, Current;
    forall j | 0 <= j < |sh|
      ensures Load(t.mem, base - 8 * (j + 1), 8) == sh[j]
    {
      var a := base - 8 * (j + 1);
      var p, q := Read(t.mem, a, 8), Read(s.mem, a, 8);
      forall i | 0 <= i < 8
        ensures p[i] == q[i]
      {
        assert Plus(a, i) == a + i;
      }
      assert p == q;
    }
  }

  /** The invariant: at every point of a disciplined run the stack holds the shadow. */
  lemma {:induction false} StackHoldsShadow(ss: seq<State>, io: seq<u64>, k: nat)
    requires Disciplined(ss, io) && k < |ss|
    ensures Holds(ss[k], ss[0].Rsp(), Shadow(ss, k))
  {
    hide Step, Pushes, Pops, Current, Holds, Quiet, TopWord;
    if k == 0 {
      HoldsAtStart(ss[0]);
    } else {
      StackHoldsShadow(ss, io, k - 1);
      HoldsAfterStep(ss, io, k);
    }
  }

  lemma HoldsAtStart(s: State)
    ensures Holds(s, s.Rsp(), [])
  {
  }

  lemma HoldsAfterStep(ss: seq<State>, io: seq<u64>, k: nat)
    requires Disciplined(ss, io) && 0 < k < |ss| && Holds(ss[k - 1], ss[0].Rsp(), Shadow(ss, k - 1))
    ensures Holds(ss[k], ss[0].Rsp(), Shadow(ss, k))
  {
    hide Step, Pushes, Pops, Current, Holds, TopWord;
    var s, t, base, sh := ss[k - 1], ss[k], ss[0].Rsp(), Shadow(ss, k - 1);
    assert Step(s, io[k - 1]) == Go(ss[k - 1 + 1]);
    if Pushes(Current(s)) {
      PushStep(s, io[k - 1], t);
      HoldsAfterPush(s, t, base, sh, TopWord(t));
    } else if Pops(Current(s)) {
      PopStep(s, io[k - 1], t);
      HoldsAfterPop(s, t, base, sh);
    } else {
      HoldsAfterQuiet(s, t, base, sh);
    }
  }

  // ---------------------------------------------------------------- matching pops

  /** Step `j` pops the word that step `i` pushed: the shadow stays above its height between. */
  predicate Matches(ss: seq<State>, i: nat, j: nat)
  {
    && i < j < |ss|
    && Pushes(Current(ss[i]))
    && !Pushes(Current(ss[j])) && Pops(Current(ss[j]))
    && |Shadow(ss, j)| == |Shadow(ss, i)| + 1
    && forall k :: i < k <= j ==> |Shadow(ss, k)| > |Shadow(ss, i)|
  }

  lemma {:induction false} ShadowKept(ss: seq<State>, i: nat, k: nat)
    requires i < k < |ss| && Pushes(Current(ss[i]))
    requires forall l :: i < l <= k ==> |Shadow(ss, l)| > |Shadow(ss, i)|
    ensures Shadow(ss, k)[|Shadow(ss, i)|] == TopWord(ss[i + 1])
    decreases k
  {
    hide Pushes, Pops, Current, TopWord;
    if k > i + 1 {
      ShadowKept(ss, i, k - 1);
    }
  }

  /** Every pop of a disciplined run has its matching push. */
  lemma MatchingPush(ss: seq<State>, io: seq<u64>, j: nat) returns (i: nat)
    requires Disciplined(ss, io) && j < |io| && !Pushes(Current(ss[j])) && Pops(Current(ss[j])) && |Shadow(ss, j)| > 0
    ensures Matches(ss, i, j)
  {
    hide Step, Pushes, Pops, Current, Quiet, TopWord, Shadow, Matches;
    i := MatchingPushBefore(ss, io, j, j);
  }

  /** Searching downwards from `k`, above which the shadow is as high as at the pop. */
  lemma {:induction false} MatchingPushBefore(ss: seq<State>, io: seq<u64>, j: nat, k: nat) returns (i: nat)
    requires Disciplined(ss, io) && j < |io| && !Pushes(Current(ss[j])) && Pops(Current(ss[j])) && |Shadow(ss, j)| > 0
    requires k <= j && forall l :: k <= l <= j ==> |Shadow(ss, l)| >= |Shadow(ss, j)|
    ensures Matches(ss, i, j)
    decreases k
  {
    hide Step, Pushes, Pops, Current, Quiet, TopWord;
    assert |Shadow(ss, k)| >= |Shadow(ss, j)| && Shadow(ss, 0) == [];
    if |Shadow(ss, k - 1)| >= |Shadow(ss, j)| {
      i := MatchingPushBefore(ss, io, j, k - 1);
    } else {
      i := k - 1;
    }
  }

  /** In a disciplined run a pop takes the word its matching push left, and restores RSP. */
  lemma PopsTakeWhatWasPushed(ss: seq<State>, io: seq<u64>, i: nat, j: nat)
    requires Disciplined(ss, io) && Matches(ss, i, j) && j < |io|
    ensures TopWord(ss[j]) == TopWord(ss[i + 1])
    ensures ss[j + 1].Rsp() == ss[i].Rsp()
  {
    hide Step, Pushes, Pops, Current, Quiet;
    StackHoldsShadow(ss, io, i);
    StackHoldsShadow(ss, io, j);
    StackHoldsShadow(ss, io, j + 1);
    ShadowKept(ss, i, j);
    var sh := Shadow(ss, j);
    assert ss[j].Rsp() == ss[0].Rsp() - 8 * |sh|;
    assert Load(ss[j].mem, ss[0].Rsp() - 8 * (|sh| - 1 + 1), 8) == sh[|sh| - 1];
  }

  /**
   Every return lands on the instruction after its own call, with the stack pointer as
   it was before the call, however deep the nesting and whatever quiet instructions,
   pushes and pops come between.
   */
  lemma ReturnsLandAfterTheirCalls(ss: seq<State>, io: seq<u64>, i: nat, j: nat)
    requires Disciplined(ss, io) && Matches(ss, i, j) && j < |io|
    requires IsCall(Current(ss[i])) && IsReturn(Current(ss[j]))
    ensures ss[j + 1].rip == NextPc(ss[i]) && ss[j + 1].Rsp() == ss[i].Rsp()
  {
    hide Step, Pushes, Pops, IsCall, IsReturn, Current, Quiet, TopWord, NextPc, Shadow;
    PopsTakeWhatWasPushed(ss, io, i, j);
    assert Step(ss[i], io[i]) == Go(ss[i + 1]);
    PushStep(ss[i], io[i], ss[i + 1]);
    PopStep(ss[j], io[j], ss[j + 1]);
  }

  // ---------------------------------------------------------------- frames

  const PUSH_RBP: seq<byte> := [0x55]
  const MOV_RBP_RSP: seq<byte> := [0x48, 0x89, 0xE5]
  const LEAVE: seq<byte> := [0xC9]

  const PUSH_INS := ZERO_INS.(op0 := 0x55)
  const MOV_INS := ZERO_INS.(rex := 0x48, op0 := 0x89, modrm := 0xE5)
  const LEAVE_INS := ZERO_INS.(op0 := 0xC9)

  lemma PushRecord()
    ensures WellFormed(PUSH_INS) && Encode(PUSH_INS) == PUSH_RBP
    ensures Select(PUSH_INS) == PushValue(8, From(Gpr(RBP), 8, false))
  {
    assert LayoutOf(PUSH_INS) == Layout(false, NoImm);
    assert LegacyBytes(PUSH_INS) == [] && ModrmBytes(PUSH_INS) == [] && ImmBytes(PUSH_INS) == [];
    assert Pow256(0) == 1;
  }

  lemma MovRecord()
    ensures WellFormed(MOV_INS) && Encode(MOV_INS) == MOV_RBP_RSP
    ensures Select(MOV_INS) == Binary(Mov, 8, Rm, From(Gpr(RSP), 8, true))
    ensures MOV_INS.Mod() == 3 && MOV_INS.RmIndex() == RBP
  {
    assert LayoutOf(MOV_INS) == Layout(true, NoImm);
    assert LegacyBytes(MOV_INS) == [] && ModrmBytes(MOV_INS) == [0xE5] && ImmBytes(MOV_INS) == [];
    assert Pow256(0) == 1;
  }

  lemma LeaveRecord()
    ensures WellFormed(LEAVE_INS) && Encode(LEAVE_INS) == LEAVE && Select(LEAVE_INS) == LeaveFrame
  {
    assert LayoutOf(LEAVE_INS) == Layout(false, NoImm);
    assert LegacyBytes(LEAVE_INS) == [] && ModrmBytes(LEAVE_INS) == [] && ImmBytes(LEAVE_INS) == [];
    assert Pow256(0) == 1;
  }

  lemma PushRbpStep(s: State, io: u64)
    requires Stands(s, PUSH_RBP)
    ensures Step(s, io) == Go(Push(s.(rip := s.rip + 1), 8, s.regs[RBP]))
  {
    hide Decode, Code, Encode, WellFormed, Select, Push;
    PushRecord();
    DecodeStanding(s, PUSH_RBP, PUSH_INS);
  }

  lemma MovRbpRspStep(s: State, io: u64)
    requires Stands(s, MOV_RBP_RSP)
    ensures Step(s, io) == Go(s.(rip := s.rip + 3).SetReg(RBP, s.Rsp()))
  {
    hide Step, Execute, Encode, WellFormed;
    MovRecord();
    DecodeStanding(s, MOV_RBP_RSP, MOV_INS);
    StepIsExecute(s, io, MOV_INS, s.rip + 3);
    MovExecutes(s.(rip := s.rip + 3), io);
  }

  lemma MovExecutes(t: State, io: u64)
    ensures Execute(MOV_INS, t, io) == Go(t.SetReg(RBP, t.Rsp()))
  {
    MovRecord();
    FullWidth(t.regs[RBP], t.Rsp());
    hide Select, SetLow, Half, SignedOf;
  }

  lemma LeaveStep(s: State, io: u64)
    requires Stands(s, LEAVE)
    ensures var t := s.(rip := s.rip + 1).SetReg(RSP, s.regs[RBP]);
      Step(s, io) == Go(Drop(t, 8).SetReg(RBP, Top(t, 8)))
  {
    hide Decode, Code, Encode, WellFormed, Select, Drop, Top;
    LeaveRecord();
    DecodeStanding(s, LEAVE, LEAVE_INS);
  }

  /**
   PUSH rbp; MOV rbp, rsp; any body that preserves RBP and the saved word; LEAVE:
   the stack pointer and RBP are those before the frame was set up.
   */
  lemma FrameRestored(s0: State, s1: State, s2: State, s3: State, s4: State, io: u64)
    requires Stands(s0, PUSH_RBP) && Step(s0, io) == Go(s1)
    requires Stands(s1, MOV_RBP_RSP) && Step(s1, io) == Go(s2)
    requires s3.regs[RBP] == s2.regs[RBP]
    requires Load(s3.mem, s2.regs[RBP], 8) == Load(s2.mem, s2.regs[RBP], 8)
    requires Stands(s3, LEAVE) && Step(s3, io) == Go(s4)
    ensures s4.Rsp() == s0.Rsp() && s4.regs[RBP] == s0.regs[RBP]
  {
    hide Step, Code, Load, Store;
    PushRbpStep(s0, io);
    MovRbpRspStep(s1, io);
    LeaveStep(s3, io);
    PopPush(s0, 8, s0.regs[RBP]);
  }

  // ---------------------------------------------------------------- a call and its return

  const RET: seq<byte> := [0xC3]
  const RET_INS := ZERO_INS.(op0 := 0xC3)

  function CallIns(d: u64): Ins { ZERO_INS.(op0 := 0xE8, imm := d) }

  function CallBytes(d: u64): seq<byte> { [0xE8] + ToBytes(d, 4) }

  lemma CallRecord(d: u64)
    requires d < 0x1_0000_0000
    ensures WellFormed(CallIns(d)) && Encode(CallIns(d)) == CallBytes(d) && Select(CallIns(d)) == CallNear
    ensures Pushes(CallIns(d)) && IsCall(CallIns(d))
  {
    var i := CallIns(d);
    assert LayoutOf(i) == Layout(false, Imm32);
    Pow256AtWidth(4);
    hide ToBytes, Pow256;
    assert LegacyBytes(i) == [] && ModrmBytes(i) == [] && ImmBytes(i) == ToBytes(d, 4);
  }

  lemma ReturnRecord()
    ensures WellFormed(RET_INS) && Encode(RET_INS) == RET && Select(RET_INS) == Return(false)
    ensures IsReturn(RET_INS) && !Pushes(RET_INS) && Pops(RET_INS)
  {
    assert LayoutOf(RET_INS) == Layout(false, NoImm);
    assert LegacyBytes(RET_INS) == [] && ModrmBytes(RET_INS) == [] && ImmBytes(RET_INS) == [];
    assert Pow256(0) == 1;
  }

  /** The state after CALL with the distance `d`. */
  function AfterCall(s: State, d: u64): State
    requires s.rip + 5 < WORD
  {
    JumpBy(Push(s.(rip := s.rip + 5), 8, s.rip + 5), Distance(CallIns(d), 4))
  }

  lemma CallStep(s: State, d: u64, io: u64)
    requires d < 0x1_0000_0000 && Stands(s, CallBytes(d))
    ensures s.rip + 5 < WORD && Step(s, io) == Go(AfterCall(s, d))
    ensures Current(s) == CallIns(d) && NextPc(s) == s.rip + 5
  {
    hide Decode, Encode, WellFormed, Select, Push, JumpBy, Distance, ToBytes, Pushes, IsCall;
    CallRecord(d);
    DecodeStanding(s, CallBytes(d), CallIns(d));
  }

  lemma ReturnStep(s: State, io: u64)
    requires Stands(s, RET)
    ensures Step(s, io) == Go(Drop(s, 8).(rip := TopWord(s))) && Current(s) == RET_INS
  {
    hide Decode, Code, Encode, WellFormed, Select, Load, Pushes, Pops, IsReturn;
    ReturnRecord();
    DecodeStanding(s, RET, RET_INS);
  }

  /** A push and then a pop are a disciplined run. */
  lemma PushThenPop(ss: seq<State>, io: seq<u64>)
    requires IsRun(ss, io) && |io| == 2 && ss[0].Rsp() >= 8
    requires Pushes(Current(ss[0])) && !Pushes(Current(ss[1])) && Pops(Current(ss[1]))
    ensures Disciplined(ss, io) && Matches(ss, 0, 1)
  {
    hide Step, Current, TopWord, Quiet, Pushes, Pops;
    assert Shadow(ss, 0) == [] && Shadow(ss, 1) == [TopWord(ss[1])];
  }

  /**
   Wherever E8 and a 32-bit distance stand, and a RET stands that signed distance after
   them once the return address has been pushed, the two steps are a disciplined run:
   the first goes to the RET and the second to the instruction after the CALL.
   */
  lemma CallThenReturn(s: State, d: u64, io: seq<u64>) returns (ss: seq<State>)
    requires d < 0x1_0000_0000 && Stands(s, [0xE8] + ToBytes(d, 4)) && s.rip + 5 < WORD && s.regs[4] >= 8 && |io| == 2
    requires var at := (s.rip + 5 + Signed(d, 4)) % WORD;
      at < WORD - 1 && Store(s.mem, s.regs[4] - 8, 8, s.rip + 5)[at] == 0xC3
    ensures |ss| == 3 && ss[0] == s && Disciplined(ss, io) && Matches(ss, 0, 1)
    ensures IsCall(Current(ss[0])) && IsReturn(Current(ss[1]))
    ensures ss[1].rip == (s.rip + 5 + Signed(d, 4)) % WORD && ss[1].Rsp() == s.Rsp() - 8
    ensures ss[2].rip == s.rip + 5 && ss[2].Rsp() == s.Rsp()
  {
    CallTarget(s, d);
    var t := AfterCall(s, d);
    ss := [s, t, Drop(t, 8).(rip := TopWord(t))];
    hide Step, Current, NextPc, TopWord, Pushes, Pops, IsCall, IsReturn, Stands, AfterCall, Drop, Disciplined, Matches, CallIns, Store;
    CallStep(s, d, io[0]);
    ReturnStep(t, io[1]);
    CallRecord(d);
    ReturnRecord();
    PushThenPop(ss, io);
    ReturnsLandAfterTheirCalls(ss, io, 0, 1);
  }

  /** Where the call goes, and that the RET is met there. */
  lemma CallTarget(s: State, d: u64)
    requires d < 0x1_0000_0000 && s.rip + 5 < WORD && s.regs[4] >= 8
    requires var at := (s.rip + 5 + Signed(d, 4)) % WORD;
      at < WORD - 1 && Store(s.mem, s.regs[4] - 8, 8, s.rip + 5)[at] == 0xC3
    ensures var t := AfterCall(s, d);
      t.rip == (s.rip + 5 + Signed(d, 4)) % WORD && t.Rsp() == s.Rsp() - 8 && Stands(t, RET)
  {
    hide Store;
    var t := AfterCall(s, d);
    assert t.mem == Store(s.mem, s.regs[4] - 8, 8, s.rip + 5);
    assert Code(t.mem)[t.rip..t.rip + 1] == [t.mem[t.rip]];
  }
}
