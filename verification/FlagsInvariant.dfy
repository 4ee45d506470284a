/**
 Which flag bits instructions can change, the invariant this gives over whole runs,
 and the flag instructions that undo each other.
 */
module FlagsInvariant {
  import opened Words
  import opened Bits
  import opened Flags
  import opened Memory
  import opened Instructions
  import opened Machine
  import opened Operations
  import opened Decoding
  import opened Semantics
  import Alu
  import Shifts

  /** Bits 1, 12 and 13: the reserved bit and the two of IOPL. */
  const SYSTEM_BITS: set<nat> := {1, 12, 13}

  /** The flags a program can set or clear one by one. */
  const STATUS_BITS: set<nat> := {0, 2, 4, 6, 7, 9, 10, 11}

  /** Only status bits differ. */
  predicate OnlyStatus(f: Rflags, g: Rflags)
  {
    forall i :: 0 <= i < 64 && i !in STATUS_BITS ==> g[i] == f[i]
  }

  /** No bit outside the mask 0x247FD7 is set. */
  predicate OnlyKnown(f: Rflags)
  {
    forall i :: 0 <= i < 64 && f[i] ==> i < 32 && Bit(EVER_SET, i)
  }

  predicate SystemBits(f: Rflags, b: bool) { f[1] == b && f[12] == b && f[13] == b }

  /** No new unknown bit, and the system bits as before. */
  predicate Preserves(f: Rflags, g: Rflags)
  {
    && (OnlyKnown(f) ==> OnlyKnown(g))
    && g[1] == f[1] && g[12] == f[12] && g[13] == f[13]
  }

  lemma StatusPreserves(f: Rflags, g: Rflags)
    requires OnlyStatus(f, g)
    ensures Preserves(f, g)
  {
    hide Bit;
    forall i: nat | i < 64 && g[i] && OnlyKnown(f)
      ensures i < 32 && Bit(EVER_SET, i)
    {
      if i < 32 {
        EverSetBits(i);
      }
    }
  }

  // ---------------------------------------------------------------- the flag writers

  lemma AluTouchesStatus(op: BinOp, f: Rflags, x: nat, y: nat, w: Width)
    requires x < Modulus(w) && y < Modulus(w)
    ensures OnlyStatus(f, Compute(op, f, x, y, w).flags)
  {
    hide ByteParity, Alu.Low8, Alu.Wrap, SignedOf, Alu.UnsignedOf, FromBits, ToBits, BitAnd, BitOr, BitXor, Half, Modulus;
  }

  lemma UnaryTouchesStatus(un: UnOp, f: Rflags, x: nat, w: Width)
    requires x < Modulus(w)
    ensures OnlyStatus(f, ComputeUnary(un, f, x, w).flags)
  {
    hide ByteParity, Alu.Low8, Alu.Wrap, SignedOf, Alu.UnsignedOf, Half, Modulus;
  }

  lemma ShiftTouchesStatus(op: Shifts.ShiftOp, f: Rflags, x: Bits, s: nat)
    requires s < |x|
    ensures OnlyStatus(f, Shifts.Apply(op, f, x, s).flags)
  {
    hide ByteParity, Alu.Low8, Shifts.SignedBits, Narrow, BitOr, ShiftLeft, ShiftRight, BitAt, Shifts.ArithmeticShift;
  }

  /** Masked replacement keeps what `keep` covers and lets through only what `update` covers. */
  lemma MergePreserves(f: Rflags, v: u64, keep: bv32, update: bv32)
    requires forall i: nat :: i < 32 && Bit(update, i) ==> Bit(EVER_SET, i)
    requires Bit(keep, 1) && Bit(keep, 12) && Bit(keep, 13)
    requires !Bit(update, 1) && !Bit(update, 12) && !Bit(update, 13)
    ensures Preserves(f, MergeFlags(f, v, keep, update))
  {
    hide Bit, ToBits;
    var g := MergeFlags(f, v, keep, update);
    forall i: nat | i < 64 && g[i] && OnlyKnown(f)
      ensures i < 32 && Bit(EVER_SET, i)
    {
    }
  }

  lemma PopfPreserves(f: Rflags, v: u64)
    ensures Preserves(f, MergeFlags(f, v, POPF_KEEP, POPF_UPDATE))
    ensures Preserves(f, MergeFlags(f, v, POPF16_KEEP, POPF16_UPDATE))
    ensures Preserves(f, MergeFlags(f, v, AH_KEEP, AH_MASK))
  {
    hide Bit, MergeFlags, Preserves;
    forall i: nat | i < 32
      ensures Bit(POPF_UPDATE, i) || Bit(POPF16_UPDATE, i) || Bit(AH_MASK, i) ==> Bit(EVER_SET, i)
    {
      PopfUpdateBits(i); Popf16UpdateBits(i); AhMaskBits(i); EverSetBits(i);
    }
    KeepsSystem(1);
    KeepsSystem(12);
    KeepsSystem(13);
    MergePreserves(f, v, POPF_KEEP, POPF_UPDATE);
    MergePreserves(f, v, POPF16_KEEP, POPF16_UPDATE);
    MergePreserves(f, v, AH_KEEP, AH_MASK);
  }

  lemma KeepsSystem(i: nat)
    requires i in SYSTEM_BITS
    ensures Bit(POPF_KEEP, i) && Bit(POPF16_KEEP, i) && Bit(AH_KEEP, i)
    ensures !Bit(POPF_UPDATE, i) && !Bit(POPF16_UPDATE, i) && !Bit(AH_MASK, i)
  {
    hide Bit;
    PopfKeepBits(i); Popf16KeepBits(i); AhKeepBits(i); AhMaskBits(i); PopfUpdateBits(i); Popf16UpdateBits(i);
  }

  // ---------------------------------------------------------------- one instruction

  /** The state after a step that is not undefined and not an exit. */
  predicate Reaches(r: Outcome, t: State) { (r.Go? || r.Halt?) && r.s == t }

  lemma VectorKeepsFlags(s: State, dst: VecLoc, src: VecLoc, ms: seq<Move>)
    ensures DoMoves(s, dst, src, ms).flags == s.flags
    decreases |ms|
  {
    hide VecRead, Pad, Write;
    if |ms| > 0 {
      VectorKeepsFlags(DoMove(s, dst, src, ms[0]), dst, src, ms[1..]);
    }
  }

  /** The operations whose only effect on the flags is none at all. */
  predicate LeavesFlags(o: Operation)
  {
    !(o.Binary? || o.Unary? || o.Shift? || o.PopFlags? || o.StoreAh? || o.SetFlag? || o.ComplementCarry? || o.SystemCall?)
  }

  lemma OthersKeepFlags(o: Operation, i: Ins, s: State, io: u64)
    requires LeavesFlags(o)
    ensures var r := Perform(o, i, s, io); (r.Go? || r.Halt?) ==> r.s.flags == s.flags
  {
    hide Load, Store, ReadLoc, SetLow, Word, Condition, SourceValue, Indirect, Fill, DoMoves, AhOfFlags;
    if o.Vector? {
      var a, b := VecRegLoc(i.RegIndex(), o.xmm), VecRmLoc(s, i, o.xmm);
      VectorKeepsFlags(s, a, b, o.moves);
      VectorKeepsFlags(s, b, a, o.moves);
    }
  }

  /** Every instruction but SYSCALL preserves the flag invariant; SYSCALL clears all flags. */
  lemma PerformPreservesFlags(i: Ins, s: State, io: u64, t: State)
    requires Reaches(Execute(i, s, io), t)
    ensures if Select(i).SystemCall? then t.flags == Zeros(64) else Preserves(s.flags, t.flags)
  {
    hide Load, Store, ReadLoc, WriteLoc, Indirect, SourceValue, Compute, ComputeUnary, Shifts.Apply, MergeFlags, Preserves, Select;
    var o := Select(i);
    if LeavesFlags(o) {
      OthersKeepFlags(o, i, s, io);
      StatusPreserves(s.flags, s.flags);
    } else {
      WritersPreserve(o, i, s, io, t);
    }
  }

  lemma WritersPreserve(o: Operation, i: Ins, s: State, io: u64, t: State)
    requires o == Select(i) && !LeavesFlags(o) && Reaches(Perform(o, i, s, io), t)
    ensures if o.SystemCall? then t.flags == Zeros(64) else Preserves(s.flags, t.flags)
  {
    hide Load, Store, ReadLoc, WriteLoc, Indirect, SourceValue, Compute, ComputeUnary, Shifts.Apply, MergeFlags, Preserves, Select, Word, BitString;
    match o
    case Binary(op, w, dst, src) =>
      var l := PlaceLoc(s, i, dst);
      var x, y := ReadLoc(s, l, w), SourceValue(s, i, src, w);
      AluTouchesStatus(op, s.flags, x, y, w);
      StatusPreserves(s.flags, Compute(op, s.flags, x, y, w).flags);
    case Unary(un, w) =>
      var x := ReadLoc(s, RmLoc(s, i), w);
      UnaryTouchesStatus(un, s.flags, x, w);
      StatusPreserves(s.flags, ComputeUnary(un, s.flags, x, w).flags);
    case Shift(op, w, c) =>
      var b := BitString(ReadLoc(s, RmLoc(s, i), w), w);
      var n := Shifts.Masked(ShiftCount(s, i, c), 8 * w);
      ShiftTouchesStatus(op, s.flags, b, n);
      StatusPreserves(s.flags, Shifts.Apply(op, s.flags, b, n).flags);
    case PopFlags(w) => PopfPreserves(s.flags, Top(s, w));
    case StoreAh => PopfPreserves(s.flags, AhByte(s.regs[RAX]));
    case SetFlag(bit, value) =>
      OnlyKnownFlagsSet(i);
      StatusPreserves(s.flags, s.flags[bit := value]);
    case ComplementCarry => StatusPreserves(s.flags, s.flags[CF := !s.flags[CF]]);
    case SystemCall =>
  }

  /** CLC to STD name only CF, IF and DF. */
  lemma OnlyKnownFlagsSet(i: Ins)
    requires Select(i).SetFlag?
    ensures Select(i).bit in {CF, IF, DF}
  {
    hide InterleaveHigh, InterleaveLow;
  }

  // ---------------------------------------------------------------- runs

  /** A run: consecutive states of the loop, with the results of its system calls. */
  predicate IsRun(ss: seq<State>, io: seq<u64>)
  {
    |ss| == |io| + 1 && forall k :: 0 <= k < |io| ==> Step(ss[k], io[k]) == Go(ss[k + 1])
  }

  /** A whole run: the instruction of its last step may be refused, which is how the loop ends. */
  predicate IsWholeRun(ss: seq<State>, io: seq<u64>)
  {
    && |ss| == |io| + 1
    && forall k :: 0 <= k < |io| ==>
         Reaches(Step(ss[k], io[k]), ss[k + 1]) && (k + 1 < |io| ==> Step(ss[k], io[k]).Go?)
  }

  lemma RunIsWhole(ss: seq<State>, io: seq<u64>)
    requires IsRun(ss, io)
    ensures IsWholeRun(ss, io)
  {
    hide Step;
    forall k | 0 <= k < |io|
      ensures Reaches(Step(ss[k], io[k]), ss[k + 1]) && Step(ss[k], io[k]).Go?
    {
      assert Step(ss[k], io[k]) == Go(ss[k + 1]);
    }
  }

  /** The instruction at the instruction pointer. */
  function Current(s: State): Ins
  {
    match Decode(Code(s.mem), s.rip)
    case Fault => ZERO_INS
    case Done(ok, i, pc) => i
  }

  /** Whether one of the first `k` steps was a SYSCALL. */
  predicate SyscallBefore(ss: seq<State>, k: nat)
    requires k <= |ss|
  {
    exists j :: 0 <= j < k && Select(Current(ss[j])).SystemCall?
  }

  /** The flags set up by the emulator before the first instruction. */
  const BOOT_FLAGS: Rflags := Zeros(64)[RESERVED1 := true][IOPL0 := true][IOPL1 := true]

  /** A byte string the decoder refuses does not name SYSCALL. */
  lemma RefusedIsNoSyscall(m: seq<byte>, pc: nat)
    requires Decode(m, pc).Done? && !Decode(m, pc).ok
    ensures !Select(Decode(m, pc).ins).SystemCall?
  {
    hide FetchPrefixes, FetchOperands, LowOpcode, MiddleOpcode, HighOpcode, VectorOpcode;
    NotTheOthers(Decode(m, pc).ins.Head());
  }

  lemma NotTheOthers(h: Ins)
    ensures h.op0 < 0x80 ==> !LowOpcode(h).SystemCall?
    ensures 0x80 <= h.op0 < 0xC0 ==> !MiddleOpcode(h).SystemCall?
    ensures 0xC0 <= h.op0 ==> !HighOpcode(h).SystemCall?
    ensures !VectorOpcode(h).SystemCall?
  {
    hide GroupOp, InterleaveHigh, InterleaveLow;
  }

  lemma StepFlags(s: State, io: u64, t: State)
    requires Reaches(Step(s, io), t)
    ensures if Select(Current(s)).SystemCall? then t.flags == Zeros(64) else Preserves(s.flags, t.flags)
  {
    hide Execute, Select, Preserves, Decode;
    var d := Decode(Code(s.mem), s.rip);
    if d.ok {
      PerformPreservesFlags(d.ins, s.(rip := d.pc), io, t);
    } else {
      RefusedIsNoSyscall(Code(s.mem), s.rip);
      StatusPreserves(s.flags, s.flags);
    }
  }

  /**
   In every state of every run from start-up, the one a refused instruction leaves
   included, no flag outside 0x247FD7 is set, and bits 1, 12 and 13 are all set until the
   first SYSCALL and all clear from then on.
   */
  lemma {:induction false} FlagsOverRuns(ss: seq<State>, io: seq<u64>, k: nat)
    requires IsWholeRun(ss, io) && ss[0].flags == BOOT_FLAGS && k < |ss|
    ensures OnlyKnown(ss[k].flags)
    ensures SystemBits(ss[k].flags, !SyscallBefore(ss, k))
  {
    hide Bit, Step, Select, Current, Reaches;
    if k == 0 {
      EverSetBits(1);
      EverSetBits(12);
      EverSetBits(13);
    } else {
      FlagsOverRuns(ss, io, k - 1);
      StepFlags(ss[k - 1], io[k - 1], ss[k]);
      assert SyscallBefore(ss, k) <==> SyscallBefore(ss, k - 1) || Select(Current(ss[k - 1])).SystemCall?;
    }
  }

  // ---------------------------------------------------------------- inverse pairs

  /** PUSHFQ then POPFQ, with no 66H: the stack pointer and every flag but RF are restored. */
  lemma PushfPopf(s: State, i: Ins, j: Ins, io: u64)
    ensures var r := Perform(PushFlags(8), i, s, io);
      && r.Go?
      && var q := Perform(PopFlags(8), j, r.s, io);
         q.Go? && q.s.regs == s.regs && q.s.flags == s.flags[RF := false]
  {
    hide Load, Store, ToBits, FromBits, Bit, Word, OfWord, AndMask, MergeFlags;
    var v := Word(AndMask(s.flags, PUSHF_MASK));
    PopPush(s, 8, v);
    MergeOfPushed(s.flags);
  }

  lemma MergeOfPushed(f: Rflags)
    ensures MergeFlags(f, Word(AndMask(f, PUSHF_MASK)), POPF_KEEP, POPF_UPDATE) == f[RF := false]
  {
    hide Bit, ToBits, FromBits;
    var p := AndMask(f, PUSHF_MASK);
    WordsRoundTrip(p, 0);
    var g := MergeFlags(f, Word(p), POPF_KEEP, POPF_UPDATE);
    forall i: nat | i < 32
      ensures g[i] == f[RF := false][i]
    {
      PushfMaskBits(i); PopfKeepBits(i); PopfUpdateBits(i);
    }
  }

  /** LAHF then SAHF restores every flag. */
  lemma LahfSahf(s: State, i: Ins, j: Ins, io: u64)
    ensures var r := Perform(LoadAh, i, s, io);
      r.Go? && Perform(StoreAh, j, r.s, io) == Go(r.s)
  {
    hide Bit, ToBits, FromBits, MergeFlags, AhOfFlags, AhByte, SetAhByte;
    AhReadsBack(s.regs[RAX], AhOfFlags(s.flags));
    MergeOfAh(s.flags);
  }

  lemma AhReadsBack(x: u64, v: byte)
    ensures AhByte(SetAhByte(x, v)) == v
  {
    var hi, lo := x / 0x1_0000, x % 0x100;
    assert x == 0x1_0000 * hi + 0x100 * AhByte(x) + lo;
    QuotientRemainder(SetAhByte(x, v), 0x100, 0x100 * hi + v, lo);
    QuotientRemainder(0x100 * hi + v, 0x100, hi, v);
  }

  lemma MergeOfAh(f: Rflags)
    ensures MergeFlags(f, AhOfFlags(f), AH_KEEP, AH_MASK) == f
  {
    hide Bit, ToBits, FromBits;
    var b := AndMask(f[..8], AH_MASK)[RESERVED1 := true];
    var v := AhOfFlags(f);
    LowBitsOf(b, 64);
    var g := MergeFlags(f, v, AH_KEEP, AH_MASK);
    forall i: nat | i < 32
      ensures g[i] == f[i]
    {
      AhMaskBits(i); AhKeepBits(i);
    }
  }

  /** Widening a bit string to `n` bits keeps its bits. */
  lemma {:induction false} LowBitsOf(b: Bits, n: nat)
    requires |b| <= n
    ensures forall i :: 0 <= i < |b| ==> ToBits(FromBits(b), n)[i] == b[i]
  {
    if |b| > 0 {
      LowBitsOf(b[1..], n - 1);
      var x := FromBits(b);
      assert x / 2 == FromBits(b[1..]) && (x % 2 == 1) == b[0];
      forall i | 0 <= i < |b|
        ensures ToBits(x, n)[i] == b[i]
      {
        if i > 0 {
          assert ToBits(x, n)[i] == ToBits(x / 2, n - 1)[i - 1];
        }
      }
    }
  }
}
