/** Jumps, calls and returns by opcode number, from the bytes of the instruction to RIP. */
module BranchesByOpcode {
  import opened Words
  import opened Flags
  import opened Memory
  import opened Instructions
  import opened Machine
  import opened Operations
  import opened Decoding
  import opened Codec
  import opened Semantics
  import opened Comparisons
  import opened Manual
  import opened Programs
  import opened Dispatch
  import opened ArithmeticByOpcode
  import opened RegistersByOpcode

  // ---------------------------------------------------------------- immediate bytes

  /** The immediate of an accepted instruction is spelled by its last bytes. */
  lemma ImmediateStands(m: seq<byte>, pc: nat)
    requires Accepted(Decode(m, pc))
    ensures var d := Decode(m, pc);
      var k := ImmSize(LayoutOf(d.ins).imm, d.ins);
      pc + k < d.pc <= |m| && d.ins.imm == FromBytes(m[d.pc - k..d.pc])
  {
    hide OneByteLayout, TwoByteLayout, FetchPrefixes, FetchModrm, FromBytes, ImmSize;
    var c := FetchOp1(m, FetchPrefixes(m, pc, ZERO_INS));
    var l := LayoutOf(c.ins);
    PrefixesKeepRest(m, pc, ZERO_INS);
    if l.modrm {
      ModrmWellFormed(m, c);
      assert FetchModrm(m, c).ins.imm == 0;
    }
    var c1 := if l.modrm then FetchModrm(m, c) else c;
    ImmFetched(m, c1, l);
    ImmediateBytes(m, c1, l.imm);
    assert LayoutOf(Decode(m, pc).ins) == l;
  }

  lemma ImmediateBytes(m: seq<byte>, c: Cursor, kind: ImmKind)
    requires c.At? && c.pc <= |m| && c.ins.imm == 0 && FetchImm(m, c, kind).At?
    ensures var r, k := FetchImm(m, c, kind), ImmSize(kind, c.ins); r.pc == c.pc + k <= |m| && r.ins.imm == FromBytes(m[c.pc..r.pc])
  {
    assert m[c.pc..c.pc] == [];
  }

  // ---------------------------------------------------------------- relative branches

  /** Jcc rel8 and rel16/32, JMP rel8 and rel32. */
  predicate IsBranch(i: Ins)
  {
    0x70 <= i.op0 <= 0x7F || i.op0 in {0xE9, 0xEB} || (i.op0 == 0x0F && 0x80 <= i.op1 <= 0x8F)
  }

  /** Bytes of the distance. */
  function DistanceSize(i: Ins): Width
  {
    if i.op0 in {0xE8, 0xE9} then 4 else if i.op0 == 0x0F then (if i.operandSz then 2 else 4) else 1
  }

  predicate BranchTaken(i: Ins, f: Rflags)
  {
    if i.op0 == 0x0F then Holds(i.op1 % 16, f) else if i.op0 <= 0x7F then Holds(i.op0 % 16, f) else true
  }

  /** The signed distance that the `k` bytes before `pc` spell. */
  function DistanceBefore(m: seq<byte>, pc: nat, k: Width): int
  {
    if k <= pc <= |m| then Signed(FromBytes(m[pc - k..pc]) % Modulus(k), k) else 0
  }

  lemma BranchLayout(i: Ins)
    requires IsBranch(i) || i.op0 == 0xE8
    ensures LayoutOf(i).Layout? && ImmSize(LayoutOf(i).imm, i) == DistanceSize(i)
  {
  }

  lemma DistanceStands(m: seq<byte>, pc: nat)
    requires var d := Decode(m, pc); Accepted(d) && (IsBranch(d.ins) || d.ins.op0 == 0xE8)
    ensures var d := Decode(m, pc);
      var k := DistanceSize(d.ins);
      && k < d.pc <= |m| && FromBytes(m[d.pc - k..d.pc]) < Modulus(k)
      && Distance(d.ins, k) == DistanceBefore(m, d.pc, k) == Signed(FromBytes(m[d.pc - k..d.pc]), k)
  {
    hide Decode, LayoutOf, IsBranch, DistanceSize, ImmSize, FromBytes, Signed, Pow256;
    var d := Decode(m, pc);
    ImmediateStands(m, pc);
    BranchLayout(d.ins);
    Pow256AtWidth(DistanceSize(d.ins));
  }

  /**
   A branch taken goes to the end of the instruction plus the signed distance that its
   last bytes spell, modulo 2^64; one not taken goes to the end; nothing else changes.
   */
  lemma BranchByOpcode(s: State, io: u64)
    requires var d := Decode(Code(s.mem), s.rip); Accepted(d) && IsBranch(d.ins)
    ensures var m, d := Code(s.mem), Decode(Code(s.mem), s.rip);
      && s.rip < d.pc < WORD
      && Step(s, io) == Go(s.(rip :=
           if BranchTaken(d.ins, s.flags) then (d.pc + DistanceBefore(m, d.pc, DistanceSize(d.ins))) % WORD else d.pc))
  {
    hide *;
    AcceptedIsDone(Decode(Code(s.mem), s.rip));
    var d := Decode(Code(s.mem), s.rip);
    StepIsExecute(s, io, d.ins, d.pc);
    WordSize();
    DistanceStands(Code(s.mem), s.rip);
    BranchOnRecord(s.(rip := d.pc), d.ins, io);
  }

  lemma AcceptedIsDone(d: Decoded)
    ensures Accepted(d) ==> d == Done(true, d.ins, d.pc)
  {
  }

  lemma BranchOnRecord(t: State, i: Ins, io: u64)
    requires IsBranch(i)
    ensures Execute(i, t, io) ==
      Go(t.(rip := if BranchTaken(i, t.flags) then (t.rip + Distance(i, DistanceSize(i))) % WORD else t.rip))
  {
    hide Select, Holds, Condition, Distance, Perform;
    Dispatched(i);
    ConditionHolds(i.op0 % 16, t.flags);
    ConditionHolds(i.op1 % 16, t.flags);
    JumpPerforms(t, i, i.op0 % 16, DistanceSize(i), io);
    JumpPerforms(t, i, i.op1 % 16, DistanceSize(i), io);
  }

  lemma JumpPerforms(t: State, i: Ins, cc: nat, k: Width, io: u64)
    ensures Perform(JumpIf(cc, k), i, t, io) == Go(t.(rip := if Condition(t.flags, cc) then (t.rip + Distance(i, k)) % WORD else t.rip))
    ensures Perform(Jump(k), i, t, io) == Go(t.(rip := (t.rip + Distance(i, k)) % WORD))
  {
    hide Condition, Distance;
  }

  /** CALL rel32 pushes the address after it, with 67H its low half, and goes its distance on. */
  lemma CallByOpcode(s: State, io: u64)
    requires var d := Decode(Code(s.mem), s.rip); Accepted(d) && d.ins.op0 == 0xE8
    ensures var m, d, r := Code(s.mem), Decode(Code(s.mem), s.rip), Step(s, io);
      && r.Go? && r.s.rip == (d.pc + DistanceBefore(m, d.pc, 4)) % WORD
      && (if d.ins.addressSz then Pushed(s, r.s, 4, d.pc % 0x1_0000_0000) else Pushed(s, r.s, 8, d.pc))
  {
    hide *;
    AcceptedIsDone(Decode(Code(s.mem), s.rip));
    CallDistance(Decode(Code(s.mem), s.rip).ins);
    var d := Decode(Code(s.mem), s.rip);
    StepIsExecute(s, io, d.ins, d.pc);
    WordSize();
    DistanceStands(Code(s.mem), s.rip);
    CallOnRecord(s, d.ins, d.pc, io);
  }

  lemma CallDistance(i: Ins)
    ensures i.op0 == 0xE8 ==> DistanceSize(i) == 4
  {
  }

  lemma CallOnRecord(s: State, i: Ins, pc: u64, io: u64)
    requires i.op0 == 0xE8
    ensures var r := Execute(i, s.(rip := pc), io);
      && r.Go? && r.s.rip == (pc + Distance(i, 4)) % WORD
      && (if i.addressSz then Pushed(s, r.s, 4, pc % 0x1_0000_0000) else Pushed(s, r.s, 8, pc))
  {
    hide Select, Distance, PushReturn, Pushed;
    Dispatched(i);
    ReturnPushed(s, i, pc);
  }

  lemma ReturnPushed(s: State, i: Ins, pc: u64)
    ensures var t := PushReturn(s.(rip := pc), i);
      t.rip == pc && forall a: u64 :: if i.addressSz then Pushed(s, t.(rip := a), 4, pc % 0x1_0000_0000) else Pushed(s, t.(rip := a), 8, pc)
  {
    hide Push, Load;
    PushPushes(s.(rip := pc), 8, pc);
    PushPushes(s.(rip := pc), 4, pc % 0x1_0000_0000);
  }

  // ---------------------------------------------------------------- indirect branches and returns

  /** JMP r/m, FF with extension 4: RIP is the eight bytes of the operand. */
  lemma JumpToByOpcode(s: State, i: Ins, io: u64)
    requires i.op0 == 0xFF && ExtBy(i) == 4
    ensures Execute(i, s, io) == Go(s.(rip := ReadLoc(s, RmLoc(s, i), 8)))
  {
    hide Select, RmLoc, ReadLoc;
    Dispatched(i);
  }

  /** CALL r/m, FF with extension 2: the operand is located before and read after the push. */
  lemma CallToByOpcode(s: State, i: Ins, io: u64)
    requires i.op0 == 0xFF && ExtBy(i) == 2
    ensures var r := Execute(i, s, io);
      && r.Go? && r.s.rip == ReadLoc(r.s, RmLoc(s, i), 8)
      && (if i.addressSz then Pushed(s, r.s, 4, s.rip % 0x1_0000_0000) else Pushed(s, r.s, 8, s.rip))
  {
    hide Select, RmLoc, Push, Pushed, Load;
    Dispatched(i);
    ReturnPushed(s, i, s.rip);
  }

  /** RET, C3 and C2: RIP popped, with 67H its low half; C2 then drops imm16 bytes more. */
  lemma ReturnByOpcode(s: State, i: Ins, io: u64)
    requires i.op0 in {0xC2, 0xC3}
    ensures var r, k := Execute(i, s, io), if i.op0 == 0xC2 then i.imm % 0x1_0000 else 0;
      && r.Go? && r.s.flags == s.flags && Frame(s, r.s, {4}, 0, 0)
      && (if i.addressSz then
            && r.s.rip == s.rip - s.rip % 0x1_0000_0000 + Load(s.mem, s.regs[4], 4)
            && r.s.regs[4] == (s.regs[4] + 4 + k) % WORD
          else
            && r.s.rip == Load(s.mem, s.regs[4], 8)
            && r.s.regs[4] == (s.regs[4] + 8 + k) % WORD)
  {
    hide Select, Load, PerformReturn;
    Dispatched(i);
    ReturnPops(s, i, i.op0 == 0xC2);
  }

  lemma ReturnPops(s: State, i: Ins, release: bool)
    ensures var t, k := PerformReturn(s, i, release), if release then i.imm % 0x1_0000 else 0;
      && t.flags == s.flags && Frame(s, t, {4}, 0, 0)
      && (if i.addressSz then
            t.rip == s.rip - s.rip % 0x1_0000_0000 + Load(s.mem, s.regs[4], 4) && t.regs[4] == (s.regs[4] + 4 + k) % WORD
          else
            t.rip == Load(s.mem, s.regs[4], 8) && t.regs[4] == (s.regs[4] + 8 + k) % WORD)
  {
    hide Load;
  }

  // ---------------------------------------------------------------- compare and use

  /** The opcodes of CMP: 38 to 3D, and 80, 81 and 83 with extension 7. */
  predicate IsCompare(i: Ins) { 0x38 <= i.op0 <= 0x3D || (i.op0 in {0x80, 0x81, 0x83} && ExtBy(i) == 7) }

  lemma CompareIsKind7(i: Ins)
    ensures IsCompare(i) ==> IsTwoOperand(i) && KindBy(i) == 7
  {
  }

  /** After a compare each condition means its statement about the two integers. */
  lemma CompareMeans(s: State, i: Ins, io: u64, cc: nat)
    requires IsCompare(i) && cc < 16
    ensures var w := WidthOf(i);
      var x, y, r := ReadLoc(s, DestBy(s, i), w), SourceBy(s, i), Execute(i, s, io);
      && y < Modulus(w)
      && r.Go? && r.s == s.(flags := r.s.flags)
      && (Holds(cc, r.s.flags) <==> Asserts(cc, x, y, w))
  {
    hide Select, SourceBy, DestBy, DestPlace, SourcePlace, WidthOf, KindBy, IsTwoOperand, Perform, ReadLoc, SourceValue, PlaceLoc,
      Asserts, Holds, Condition;
    CompareIsKind7(i);
    Selects(i);
    Destination(s, i);
    SourceFits(s, i);
    CompareThenCondition(s, i, io, WidthOf(i), DestPlace(i), SourcePlace(i), cc);
    ConditionHolds(cc, Execute(i, s, io).s.flags);
  }

  /**
   CMP followed by Jcc, SETcc or CMOVcc, all by opcode number: with a = destination and b
   = source, the jump is taken, the byte is one and the value is moved exactly if the
   condition's statement about a and b holds.
   */
  lemma CompareThenUse(s: State, i: Ins, io: u64, cc: nat, j: Ins, next: u64)
    requires IsCompare(i) && cc < 16
    ensures var w := WidthOf(i);
      var x, y, r := ReadLoc(s, DestBy(s, i), w), SourceBy(s, i), Execute(i, s, io);
      && y < Modulus(w) && r.Go?
      && var t, q := r.s.(rip := next), Execute(j, r.s.(rip := next), io);
         && (j.op0 == 0x70 + cc ==>
               q == Go(t.(rip := if Asserts(cc, x, y, w) then (next + Signed(j.imm % 0x100, 1)) % WORD else next)))
         && (j.op0 == 0x0F && j.op1 == 0x80 + cc && !j.operandSz ==>
               q == Go(t.(rip := if Asserts(cc, x, y, w) then (next + Signed(j.imm % 0x1_0000_0000, 4)) % WORD else next)))
         && (j.op0 == 0x0F && j.op1 == 0x80 + cc && j.operandSz ==>
               q == Go(t.(rip := if Asserts(cc, x, y, w) then (next + Signed(j.imm % 0x1_0000, 2)) % WORD else next)))
         && (j.op0 == 0x0F && j.op1 == 0x90 + cc ==>
               q.Go? && ReadLoc(q.s, RmLoc(t, j), 1) == if Asserts(cc, x, y, w) then 1 else 0)
         && (j.op0 == 0x0F && j.op1 == 0x40 + cc ==>
               if Asserts(cc, x, y, w) then q.Go? && ReadLoc(q.s, RegBy(j), WidthBy(j)) == ReadLoc(t, RmLoc(t, j), WidthBy(j))
               else q == Go(t))
  {
    hide Execute, SourceBy, DestBy, WidthOf, ReadLoc, RmLoc, Asserts, Holds, IsCompare, Signed, OnlyAt;
    CompareMeans(s, i, io, cc);
    var t := Execute(i, s, io).s.(rip := next);
    BranchExecutes(t, j, io);
    if j.op0 == 0x0F && j.op1 == 0x90 + cc {
      SetccByOpcode(t, j, io);
    }
    if j.op0 == 0x0F && j.op1 == 0x40 + cc {
      CmovByOpcode(t, j, io);
    }
  }

  /** Conditional jumps on the record. */
  lemma BranchExecutes(t: State, j: Ins, io: u64)
    ensures 0x70 <= j.op0 <= 0x7F ==>
      Execute(j, t, io) == Go(t.(rip := if Holds(j.op0 - 0x70, t.flags) then (t.rip + Signed(j.imm % 0x100, 1)) % WORD else t.rip))
    ensures j.op0 == 0x0F && 0x80 <= j.op1 <= 0x8F && !j.operandSz ==>
      Execute(j, t, io) == Go(t.(rip := if Holds(j.op1 - 0x80, t.flags) then (t.rip + Signed(j.imm % 0x1_0000_0000, 4)) % WORD else t.rip))
    ensures j.op0 == 0x0F && 0x80 <= j.op1 <= 0x8F && j.operandSz ==>
      Execute(j, t, io) == Go(t.(rip := if Holds(j.op1 - 0x80, t.flags) then (t.rip + Signed(j.imm % 0x1_0000, 2)) % WORD else t.rip))
  {
    hide Select, Holds, Condition, Signed;
    Dispatched(j);
    if 0x70 <= j.op0 <= 0x7F {
      ConditionHolds(j.op0 - 0x70, t.flags);
    }
    if j.op0 == 0x0F && 0x80 <= j.op1 <= 0x8F {
      ConditionHolds(j.op1 - 0x80, t.flags);
    }
  }
}
