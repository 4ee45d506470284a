/**
 Agreement between what the decoder fetched and what execution reads, and where the
 instruction pointer stands after each instruction.
 */
module FetchUse {
  import opened Words
  import opened Flags
  import opened Memory
  import opened Instructions
  import opened Machine
  import opened Operations
  import opened Decoding
  import opened Codec
  import opened Semantics
  import opened FlagsInvariant
  import opened Programs
  import Comparisons
  import Shifts

  // ---------------------------------------------------------------- what an operation reads

  predicate PlaceUsesRm(p: Place) { p.Rm? }

  predicate SourceUsesRm(src: Source) { src.From? && src.p.Rm? }

  /** The operation looks at the ModR/M byte, SIB or displacement. */
  predicate UsesModrm(o: Operation)
  {
    match o
    case Binary(_, _, dst, src) => PlaceUsesRm(dst) || SourceUsesRm(src)
    case Unary(_, _) | Shift(_, _, _) | LoadAddress(_) | JumpTo | CallTo | MoveIf(_, _) | SetIf(_) | Vector(_, _, _) => true
    case Exchange(_, dst, from) => PlaceUsesRm(dst) || PlaceUsesRm(from)
    case PushValue(_, src) => SourceUsesRm(src)
    case PopInto(_, dst) => PlaceUsesRm(dst)
    case _ => false
  }

  function SourceImm(src: Source): nat { if src.Imm? then src.k else 0 }

  /** How many bytes of the immediate the operation reads. */
  function ImmUse(o: Operation): (k: nat)
  {
    match o
    case Binary(_, _, _, src) => SourceImm(src)
    case PushValue(_, src) => SourceImm(src)
    case Shift(_, _, c) => if c.CountImm? then 1 else 0
    case JumpIf(_, k) => k
    case Jump(k) => k
    case CallNear => 4
    case Return(release) => if release then 2 else 0
    case _ => 0
  }

  /**
   REX.W with 66H on an opcode whose immediate is 16 or 32 bits by 66H: the decoder
   fetches two bytes, execution reads four.
   */
  predicate Mixed(i: Ins)
  {
    && i.RexW() && i.operandSz
    && ((i.op0 < 0x40 && i.op0 % 8 == 5) || i.op0 == 0x81 || i.op0 == 0xA9
        || (i.op0 == 0xC7 && i.Reg() == 0) || (i.op0 == 0xF7 && i.Reg() <= 1))
  }

  /** The immediate operand of an operation that has one. */
  function ImmSource(o: Operation): Source
  {
    match o
    case Binary(_, _, _, src) => src
    case PushValue(_, src) => src
    case _ => Imm(1, true)
  }

  function ImmWidth(o: Operation): Width
  {
    match o
    case Binary(_, w, _, _) => w
    case PushValue(w, _) => w
    case _ => 1
  }

  /**
   How an operation's operands relate to the fields its layout fetches: ModR/M is used
   exactly if it was fetched (the hinting no-operations aside), and as many immediate
   bytes are read as were fetched, except under the mixed prefixes.
   */
  predicate ReadsFetched(o: Operation, i: Ins, l: Layout)
    requires l.Layout?
  {
    var n := ImmSize(l.imm, i);
    && (UsesModrm(o) ==> l.modrm)
    && (l.modrm && !o.Unimplemented? && !o.Nothing? ==> UsesModrm(o))
    && (o.Nothing? ==> l.modrm)
    && (o.Unimplemented? ==> ImmUse(o) == 0)
    && (!Mixed(i) && !o.Unimplemented? ==> ImmUse(o) == n)
    && (Mixed(i) ==> ImmUse(o) == 4 && n == 2)
    && ((o.Binary? || o.PushValue?) && ImmSource(o).Imm? ==>
          && n > 0
          && ImmSource(o).k <= ImmWidth(o)
          && (!Mixed(i) ==> ImmSource(o).k == n)
          && (Mixed(i) ==> ImmSource(o) == Imm(4, true) && ImmWidth(o) == 8))
  }

  lemma SelectUsesFetched(i: Ins)
    requires LayoutOf(i).Layout?
    ensures ReadsFetched(Select(i), i, LayoutOf(i))
  {
    hide LowOpcode, MiddleOpcode, HighOpcode, TwoByteOpcode, OneByteLayout, TwoByteLayout, ReadsFetched;
    var h := i.Head();
    if h.op0 == 0x0F {
      TwoByteUses(h);
    } else if h.op0 < 0x80 {
      LowUses(h);
    } else if h.op0 < 0xC0 {
      MiddleUses(h);
    } else {
      HighUses(h);
    }
    HeadReads(Select(i), i, LayoutOf(i));
  }

  lemma HeadReads(o: Operation, i: Ins, l: Layout)
    requires l.Layout?
    ensures ReadsFetched(o, i, l) == ReadsFetched(o, i.Head(), l)
  {
    hide UsesModrm, ImmUse;
  }

  lemma LowUses(i: Ins)
    requires i.op0 < 0x80 && i.op0 != 0x0F && OneByteLayout(i.op0).Layout?
    ensures ReadsFetched(LowOpcode(i), i, OneByteLayout(i.op0))
  {
  }

  lemma MiddleUses(i: Ins)
    requires 0x80 <= i.op0 < 0xC0 && OneByteLayout(i.op0).Layout?
    ensures ReadsFetched(MiddleOpcode(i), i, OneByteLayout(i.op0))
  {
    if i.op0 < 0x90 {
      hide GroupOp;
    } else {
      hide GroupOp;
    }
  }

  lemma HighUses(i: Ins)
    requires 0xC0 <= i.op0 && OneByteLayout(i.op0).Layout?
    ensures ReadsFetched(HighOpcode(i), i, OneByteLayout(i.op0))
  {
    hide HighOpcode, OneByteLayout, ReadsFetched;
    if i.op0 < 0xE0 {
      HighUsesBelow(i);
    } else {
      HighUsesAbove(i);
    }
  }

  lemma HighUsesBelow(i: Ins)
    requires 0xC0 <= i.op0 < 0xE0 && OneByteLayout(i.op0).Layout?
    ensures ReadsFetched(HighOpcode(i), i, OneByteLayout(i.op0))
  {
    hide ShiftGroup;
  }

  lemma HighUsesAbove(i: Ins)
    requires 0xE0 <= i.op0 && OneByteLayout(i.op0).Layout?
    ensures ReadsFetched(HighOpcode(i), i, OneByteLayout(i.op0))
  {
    hide ShiftGroup;
  }

  lemma TwoByteUses(i: Ins)
    requires i.op0 == 0x0F && TwoByteLayout(i.op1).Layout?
    ensures ReadsFetched(TwoByteOpcode(i), i, TwoByteLayout(i.op1))
  {
    hide InterleaveHigh, InterleaveLow;
  }

  // ---------------------------------------------------------------- filler does not matter

  /** Same fetched bytes; `j` may hold anything where the encoding carried nothing. */
  predicate SameFetched(i: Ins, j: Ins)
    requires LayoutOf(i).Layout?
  {
    var l := LayoutOf(i);
    && j.rep == i.rep && j.rex == i.rex && j.operandSz == i.operandSz && j.addressSz == i.addressSz
    && j.op0 == i.op0 && (i.op0 == 0x0F ==> j.op1 == i.op1)
    && (l.modrm ==> j.modrm == i.modrm)
    && (l.modrm && HasSib(i.modrm) ==> j.sib == i.sib)
    && (l.modrm ==> j.displ % Pow256(DisplSize(i.modrm, i.sib)) == i.displ % Pow256(DisplSize(i.modrm, i.sib)))
    && j.imm % Pow256(ImmSize(l.imm, i)) == i.imm % Pow256(ImmSize(l.imm, i))
  }

  lemma SelectIgnoresFiller(i: Ins, j: Ins)
    requires LayoutOf(i).Layout? && SameFetched(i, j)
    ensures Select(j) == Select(i)
  {
    hide SelectByHead, OneByteLayout, TwoByteLayout, Pow256, DisplSize, ImmSize;
    if LayoutOf(i).modrm {
      assert j.Head() == i.Head();
    } else {
      WithoutModrm(i.Head(), j.modrm);
      assert j.Head() == i.Head().(modrm := j.modrm);
    }
  }

  /** Opcodes without a ModR/M byte do not look at that field. */
  lemma WithoutModrm(h: Ins, b: byte)
    requires LayoutOf(h).Layout? && !LayoutOf(h).modrm
    ensures SelectByHead(h.(modrm := b)) == SelectByHead(h)
  {
    hide TwoByteOpcode, LowOpcode, MiddleOpcode, HighOpcode, OneByteLayout, TwoByteLayout;
    if h.op0 == 0x0F {
      TwoByteWithout(h, b);
    } else if h.op0 < 0x80 {
      LowWithout(h, b);
    } else if h.op0 < 0xC0 {
      MiddleWithout(h, b);
    } else {
      HighWithout(h, b);
    }
  }

  lemma LowWithout(h: Ins, b: byte)
    requires h.op0 < 0x80 && OneByteLayout(h.op0).Layout? && !OneByteLayout(h.op0).modrm
    ensures LowOpcode(h.(modrm := b)) == LowOpcode(h)
  {
    if h.op0 < 0x40 {
      assert h.op0 % 8 >= 4;
      hide GroupOp, TwoOperand, OneByteLayout;
      AccumulatorWithout(GroupOp(h.op0 / 8), h.op0 % 8, h, b);
    } else {
      assert h.op0 != 0x63;
      hide OneByteLayout;
    }
  }

  /** The forms on the accumulator and an immediate. */
  lemma AccumulatorWithout(op: BinOp, form: nat, h: Ins, b: byte)
    requires form >= 4
    ensures TwoOperand(op, form, h.(modrm := b)) == TwoOperand(op, form, h)
  {
  }

  lemma MiddleWithout(h: Ins, b: byte)
    requires 0x80 <= h.op0 < 0xC0 && OneByteLayout(h.op0).Layout? && !OneByteLayout(h.op0).modrm
    ensures MiddleOpcode(h.(modrm := b)) == MiddleOpcode(h)
  {
    assert h.op0 >= 0x90;
    hide OneByteLayout;
  }

  lemma HighWithout(h: Ins, b: byte)
    requires 0xC0 <= h.op0 && OneByteLayout(h.op0).Layout? && !OneByteLayout(h.op0).modrm
    ensures HighOpcode(h.(modrm := b)) == HighOpcode(h)
  {
    assert h.op0 in {0xC2, 0xC3, 0xC9, 0xE8, 0xE9, 0xEB, 0xF5, 0xF8, 0xF9, 0xFA, 0xFB, 0xFC, 0xFD};
    hide OneByteLayout, ShiftGroup;
  }

  lemma TwoByteWithout(h: Ins, b: byte)
    requires h.op0 == 0x0F && TwoByteLayout(h.op1).Layout? && !TwoByteLayout(h.op1).modrm
    ensures TwoByteOpcode(h.(modrm := b)) == TwoByteOpcode(h)
  {
  }

  lemma IndirectIgnoresFiller(s: State, i: Ins, j: Ins)
    requires LayoutOf(i).Layout? && LayoutOf(i).modrm && SameFetched(i, j)
    ensures Indirect(s, j) == Indirect(s, i) && RmLoc(s, j) == RmLoc(s, i)
  {
    hide OneByteLayout, TwoByteLayout, ImmSize;
    var k := DisplSize(i.modrm, i.sib);
    Pow256AtWidth(1);
    Pow256AtWidth(4);
    if k == 4 {
      assert Disp32(j) == Disp32(i);
    } else if k == 1 {
      assert Disp8(j) == Disp8(i);
    }
  }

  /** Remainders modulo a smaller width agree when those modulo a larger one do. */
  lemma ImmAgrees(x: u64, y: u64, k: Width, n: nat)
    requires k <= n && (n == 1 || n == 2 || n == 4 || n == 8)
    requires x % Pow256(n) == y % Pow256(n)
    ensures x % Modulus(k) == y % Modulus(k)
  {
    Pow256AtWidth(n);
    RemainderOfRemainder(x, k, n);
    RemainderOfRemainder(y, k, n);
  }

  lemma RemainderOfRemainder(x: u64, k: Width, n: Width)
    requires k <= n
    ensures (x % Modulus(n)) % Modulus(k) == x % Modulus(k)
  {
    var m := Modulus(k);
    var t := if k == n then 1 else if n == 2 then 0x100 else if n == 4 then 0x1_0000_0000 / m else WORD / m;
    assert Modulus(n) == m * t;
    RemainderOfMultiple(x, m, t);
  }

  lemma RemainderOfMultiple(x: nat, m: nat, t: nat)
    requires m > 0 && t > 0
    ensures m * t > 0 && (x % (m * t)) % m == x % m
  {
    var q, r := x / (m * t), x % (m * t);
    var a, b := r / m, r % m;
    assert x == (m * t) * q + r && r == m * a + b;
    assert (m * t) * q == m * (t * q);
    assert x == m * (t * q + a) + b;
    DivModUnique(m, t * q + a, b);
  }

  /** Two records with the same prefixes, location and low immediate bytes. */
  ghost predicate SameUse(o: Operation, i: Ins, j: Ins, s: State)
  {
    && j.rep == i.rep && j.rex == i.rex && j.operandSz == i.operandSz && j.addressSz == i.addressSz
    && (UsesModrm(o) ==> j.modrm == i.modrm && Indirect(s, j) == Indirect(s, i) && RmLoc(s, j) == RmLoc(s, i))
    && forall k: Width :: k <= ImmUse(o) ==> j.imm % Modulus(k) == i.imm % Modulus(k)
  }

  /** An operation reads ModR/M only through its location, and the immediate's low bytes. */
  lemma PerformDepends(o: Operation, i: Ins, j: Ins, s: State, io: u64)
    requires SameUse(o, i, j, s)
    ensures Perform(o, j, s, io) == Perform(o, i, s, io)
  {
    if o.Binary? || o.PushValue? || o.Shift? || o.Unary? || o.Exchange? || o.PopInto? {
      OperandsDepend(o, i, j, s, io);
    } else if o.JumpIf? || o.Jump? || o.CallNear? || o.Return? {
      DistancesDepend(o, i, j, s, io);
    } else if UsesModrm(o) {
      LocationsDepend(o, i, j, s, io);
    } else {
      hide Load, Store, ReadLoc, WriteLoc, Indirect, RmLoc, MergeFlags, Word, Fill, DoMoves, Condition, AhOfFlags, Push, Top,
        Drop, Modulus, Half, SetLow, Signed, ImmUse, UsesModrm;
    }
  }

  lemma LocationsDepend(o: Operation, i: Ins, j: Ins, s: State, io: u64)
    requires SameUse(o, i, j, s)
    requires o.LoadAddress? || o.JumpTo? || o.CallTo? || o.MoveIf? || o.SetIf? || o.Vector?
    ensures Perform(o, j, s, io) == Perform(o, i, s, io)
  {
    hide Load, Store, ReadLoc, WriteLoc, Indirect, RmLoc, DoMoves, Condition, Push, Modulus, Half, SetLow, Signed, ImmUse;
  }

  lemma DistancesDepend(o: Operation, i: Ins, j: Ins, s: State, io: u64)
    requires SameUse(o, i, j, s)
    requires o.JumpIf? || o.Jump? || o.CallNear? || o.Return?
    ensures Perform(o, j, s, io) == Perform(o, i, s, io)
  {
    assert ImmUse(o) >= 2 ==> j.imm % Modulus(2) == i.imm % Modulus(2);
    assert ImmUse(o) >= 4 ==> j.imm % Modulus(4) == i.imm % Modulus(4);
    hide Load, Store, Condition, Push, Top, Drop, SetLow;
  }

  lemma OperandsDepend(o: Operation, i: Ins, j: Ins, s: State, io: u64)
    requires SameUse(o, i, j, s)
    requires o.Binary? || o.PushValue? || o.Shift? || o.Unary? || o.Exchange? || o.PopInto?
    ensures Perform(o, j, s, io) == Perform(o, i, s, io)
  {
    assert ImmUse(o) >= 1 ==> j.imm % Modulus(1) == i.imm % Modulus(1);
    hide Load, Store, ReadLoc, WriteLoc, Indirect, RmLoc, Compute, ComputeUnary, Shifts.Apply, Push, Top, Drop, Convert, StoreEffect;
  }

  /**
   Execution of an accepted instruction reads nothing the decoder did not fetch: the
   outcome is the same whatever stands in the unfetched bytes of the record.
   */
  lemma FillerIrrelevant(i: Ins, j: Ins, s: State, io: u64)
    requires WellFormed(i) && SameFetched(i, j) && !Mixed(i)
    ensures Execute(j, s, io) == Execute(i, s, io)
  {
    hide Select, Perform, OneByteLayout, TwoByteLayout, Indirect, RmLoc;
    SelectUsesFetched(i);
    SelectIgnoresFiller(i, j);
    var o := Select(i);
    if UsesModrm(o) {
      IndirectIgnoresFiller(s, i, j);
    }
    forall k: Width | k <= ImmUse(o)
      ensures j.imm % Modulus(k) == i.imm % Modulus(k)
    {
      ImmAgrees(j.imm, i.imm, k, ImmSize(LayoutOf(i).imm, i));
    }
    PerformDepends(o, i, j, s, io);
  }

  /**
   The immediate operand is the fetched bytes extended to the operand width, exactly
   when REX.W and 66H are not combined on a 16/32-bit immediate, or the 16-bit
   immediate is not negative.
   */
  lemma ImmediateValueIff(i: Ins, s: State)
    requires WellFormed(i)
    requires (Select(i).Binary? || Select(i).PushValue?) && ImmSource(Select(i)).Imm?
    ensures var o, n := Select(i), ImmSize(LayoutOf(i).imm, i);
      && n > 0
      && (SourceValue(s, i, ImmSource(o), ImmWidth(o)) == Convert(i.imm % Modulus(n), n, ImmWidth(o), ImmSource(o).signed)
          <==> !Mixed(i) || i.imm < 0x8000)
  {
    hide OneByteLayout, TwoByteLayout, Select;
    SelectUsesFetched(i);
    var n := ImmSize(LayoutOf(i).imm, i);
    Pow256AtWidth(n);
  }

  /** ADD rax, imm under 66H and REX.W, with the two immediate bytes 00 80. */
  const MIXED_ADD: seq<byte> := [0x66, 0x48, 0x05, 0x00, 0x80]
  const MIXED_ADD_INS := ZERO_INS.(operandSz := true, rex := 0x48, op0 := 0x05, imm := 0x8000)

  lemma MixedRecord()
    ensures WellFormed(MIXED_ADD_INS) && Encode(MIXED_ADD_INS) == MIXED_ADD && Mixed(MIXED_ADD_INS)
    ensures Select(MIXED_ADD_INS) == Binary(Add, 8, Gpr(RAX), Imm(4, true))
  {
    var i := MIXED_ADD_INS;
    assert LayoutOf(i) == Layout(false, Imm16_32);
    Pow256AtWidth(2);
    assert ToBytes(0x8000, 2) == [0x00] + ToBytes(0x80, 1) && ToBytes(0x80, 1) == [0x80] + ToBytes(0, 0);
    assert LegacyBytes(i) == [0x66] && OpcodeBytes(i) == [0x48, 0x05] && ModrmBytes(i) == [] && ImmBytes(i) == [0x00, 0x80];
  }

  /** The step adds 8000H, where the two bytes sign-extended are minus 8000H. */
  lemma MixedAdds(s: State, io: u64)
    requires Stands(s, MIXED_ADD)
    ensures var r := Step(s, io);
      r.Go? && r.s.regs[RAX] == (s.regs[RAX] + 0x8000) % WORD
    ensures Convert(MIXED_ADD_INS.imm, 2, 8, true) == WORD - 0x8000
  {
    hide Step, Select, Perform, Encode, WellFormed, Stands;
    MixedRecord();
    StepStanding(s, io, MIXED_ADD, MIXED_ADD_INS);
    MixedExecutes(s.(rip := s.rip + 5), io);
  }

  lemma MixedExecutes(t: State, io: u64)
    ensures var r := Perform(Binary(Add, 8, Gpr(RAX), Imm(4, true)), MIXED_ADD_INS, t, io);
      r.Go? && r.s.regs[RAX] == (t.regs[RAX] + 0x8000) % WORD
  {
    hide Perform, Comparisons.StatusMeans;
    Comparisons.AddSubOnMachine(t, MIXED_ADD_INS, io, false, 8, Gpr(RAX), Imm(4, true));
  }

  /** From a zero RAX the result is 8000H and not the wrapped minus 8000H. */
  lemma MixedFails(io: u64) returns (s: State)
    ensures Stands(s, MIXED_ADD) && s.regs[RAX] == 0
    ensures var r := Step(s, io);
      r.Go? && r.s.regs[RAX] == 0x8000 != (s.regs[RAX] + Convert(MIXED_ADD_INS.imm, 2, 8, true)) % WORD
  {
    hide Step;
    s := Loaded(MIXED_ADD);
    MixedAdds(s, io);
  }

  // ---------------------------------------------------------------- instruction pointer

  /** The control transfers. */
  predicate Transfers(o: Operation)
  {
    o.JumpIf? || o.Jump? || o.JumpTo? || o.CallNear? || o.CallTo? || o.Return?
  }

  lemma VectorKeepsRip(s: State, dst: VecLoc, src: VecLoc, ms: seq<Move>)
    ensures DoMoves(s, dst, src, ms).rip == s.rip
    decreases |ms|
  {
    hide VecRead, Pad, Write;
    if |ms| > 0 {
      VectorKeepsRip(DoMove(s, dst, src, ms[0]), dst, src, ms[1..]);
    }
  }

  lemma PerformKeepsRip(o: Operation, i: Ins, s: State, io: u64)
    requires !Transfers(o)
    ensures var r := Perform(o, i, s, io); (r.Go? || r.Halt?) ==> r.s.rip == s.rip
  {
    hide Load, Store, ReadLoc, SetLow, Word, Condition, SourceValue, Indirect, Fill, DoMoves, AhOfFlags, Compute,
      ComputeUnary, Shifts.Apply, MergeFlags;
    if o.Vector? {
      var a, b := VecRegLoc(i.RegIndex(), o.xmm), VecRmLoc(s, i, o.xmm);
      VectorKeepsRip(s, a, b, o.moves);
      VectorKeepsRip(s, b, a, o.moves);
    }
  }

  /**
   Every executed instruction but the control transfers leaves RIP at its start plus
   its decoded length.
   */
  lemma RipTracksLength(s: State, io: u64, t: State)
    requires Reaches(Step(s, io), t) && Accepted(Decode(Code(s.mem), s.rip))
    requires !Transfers(Select(Current(s)))
    ensures t.rip == Decode(Code(s.mem), s.rip).pc > s.rip
  {
    hide Decode, Select, Perform, Transfers;
    var d := Decode(Code(s.mem), s.rip);
    PerformKeepsRip(Select(d.ins), d.ins, s.(rip := d.pc), io);
  }

  /**
   A RIP-relative operand is the start plus the whole length, immediate included, plus
   the displacement the encoding carries.
   */
  lemma RipRelativeOperand(s: State)
    requires var d := Decode(Code(s.mem), s.rip);
      Accepted(d) && LayoutOf(d.ins).modrm && d.ins.Mod() == 0 && d.ins.Rm() == 5 && !d.ins.addressSz
    ensures var d := Decode(Code(s.mem), s.rip);
      var at := d.pc - ImmSize(LayoutOf(d.ins).imm, d.ins) - 4;
      && s.rip < at
      && RmLoc(s.(rip := d.pc), d.ins) == MemLoc(Plus(d.pc, Signed(FromBytes(Code(s.mem)[at..at + 4]), 4)))
  {
    assert |Code(s.mem)| == WORD - 1;
    hide Decode, LayoutOf, ImmSize, Code, FromBytes, RmLoc;
    var d := Decode(Code(s.mem), s.rip);
    RipRelativeText(Code(s.mem), s.rip);
    RipRelativeLoc(s.(rip := d.pc), d.ins);
  }

  /** The displacement of the record is what stands in front of the immediate. */
  lemma RipRelativeText(m: seq<byte>, pc: nat)
    requires |m| < WORD
    requires var d := Decode(m, pc); Accepted(d) && LayoutOf(d.ins).modrm && d.ins.Mod() == 0 && d.ins.Rm() == 5
    ensures var d := Decode(m, pc);
      var at := d.pc - ImmSize(LayoutOf(d.ins).imm, d.ins) - 4;
      pc < at && d.ins.displ == FromBytes(m[at..at + 4]) < 0x1_0000_0000
  {
    hide OneByteLayout, TwoByteLayout, FetchPrefixes, FromBytes, FetchModrm, Field;
    var c := FetchOp1(m, FetchPrefixes(m, pc, ZERO_INS));
    var l := LayoutOf(c.ins);
    var c1 := FetchModrm(m, c);
    ImmFetched(m, c1, l);
    RipRelativeField(m, c);
    assert LayoutOf(Decode(m, pc).ins) == l;
    FieldIsBytes(m, c1.pc - 4);
  }

  lemma FieldIsBytes(m: seq<byte>, pc: nat)
    requires pc + 4 <= |m|
    ensures Field(m, pc, 4) == FromBytes(m[pc..pc + 4]) < 0x1_0000_0000
  {
    Pow256AtWidth(4);
  }

  /** A RIP-relative ModR/M byte is followed directly by its displacement. */
  lemma RipRelativeField(m: seq<byte>, c: Cursor)
    requires c.At? && c.pc <= |m| && FetchModrm(m, c).At?
    requires FetchModrm(m, c).ins.Mod() == 0 && FetchModrm(m, c).ins.Rm() == 5
    ensures var c1 := FetchModrm(m, c);
      && c1.pc == c.pc + 5 <= |m|
      && c1.ins == c.ins.(modrm := c1.ins.modrm, displ := Field(m, c1.pc - 4, 4))
  {
  }

  lemma RipRelativeLoc(s: State, i: Ins)
    requires i.Mod() == 0 && i.Rm() == 5 && !i.addressSz && i.displ < 0x1_0000_0000
    ensures RmLoc(s, i) == MemLoc(Plus(s.rip, Signed(i.displ, 4)))
  {
  }
}
