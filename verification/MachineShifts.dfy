/** Shifts, rotates and bitwise operations on machine operands, at the operand widths. */
module MachineShifts {
  import opened Words
  import opened Bits
  import opened Flags
  import opened Memory
  import opened Instructions
  import opened Machine
  import opened Operations
  import opened Semantics
  import opened Comparisons
  import Alu
  import Shifts

  /**
   The count of a shift instruction: the immediate byte, one, or CL, in each case modulo
   the operand length in bits.
   */
  function CountOf(s: State, i: Ins, c: Count, w: Width): (n: nat)
    ensures n < 8 * w
  {
    match c
    case CountImm => (i.imm % 0x100) % (8 * w)
    case CountOne => 1
    case CountCl => ReadLoc(s, RegLoc(1), 1) % (8 * w)
  }

  lemma CountIsMasked(s: State, i: Ins, c: Count, w: Width)
    ensures Shifts.Masked(ShiftCount(s, i, c), 8 * w) == CountOf(s, i, c, w)
  {
  }

  /** An operand is the value of its bit string, and its sign is the top bit. */
  lemma BitStringValue(x: nat, w: Width)
    requires x < Modulus(w)
    ensures FromBits(BitString(x, w)) == x && Shifts.SignedBits(BitString(x, w)) == Signed(x, w)
  {
    hide ToBits, FromBits, Pow2;
    Pow2AtWidth(w);
    FromBitsOfToBits(x, 8 * w);
  }

  lemma SignedOfBits(b: Bits, w: Width)
    requires |b| == 8 * w
    ensures FromBits(b) < Modulus(w) && Shifts.SignedBits(b) == Signed(FromBits(b), w)
  {
    hide ToBits, FromBits, Pow2;
    Pow2AtWidth(w);
  }

  /** The destination and flags after a shift that is defined. */
  lemma ShiftStores(s: State, i: Ins, io: u64, op: Shifts.ShiftOp, w: Width, c: Count)
    requires Shifts.Defined(op, 8 * w, CountOf(s, i, c, w))
    ensures var l := RmLoc(s, i);
      var q := Shifts.Apply(op, s.flags, BitString(ReadLoc(s, l, w), w), CountOf(s, i, c, w));
      var r := Perform(Shift(op, w, c), i, s, io);
      && r.Go? && r.s.flags == q.flags
      && |q.bits| == 8 * w && ReadLoc(r.s, l, w) == FromBits(q.bits) && FromBits(q.bits) < Modulus(w)
  {
    CountIsMasked(s, i, c, w);
    hide Shifts.Apply, Shifts.Defined, RmLoc, ReadLoc, WriteLoc, FromBits, ToBits, Pow2, CountOf, ShiftCount, Shifts.Masked;
    Pow2AtWidth(w);
    var l := RmLoc(s, i);
    var q := Shifts.Apply(op, s.flags, BitString(ReadLoc(s, l, w), w), CountOf(s, i, c, w));
    StoredEffect(s, l, w, Effect(q.flags, FromBits(q.bits), true));
  }

  predicate IsShift(op: Shifts.ShiftOp) { op.Shl? || op.Shr? || op.Sar? }

  /** SF, ZF and PF after a shift are those of the result. */
  lemma ShiftStatus(op: Shifts.ShiftOp, f: Rflags, b: Bits, n: nat, w: Width)
    requires IsShift(op) && |b| == 8 * w && 0 < n < 8 * w
    ensures var q := Shifts.Apply(op, f, b, n); Alu.ResultMeans(q.flags, FromBits(q.bits), Half(w))
  {
    hide FromBits, Pow2, ByteParity, Alu.Low8, Alu.EvenOnes, Narrow, ShiftLeft, ShiftRight, BitAt;
    var q := Shifts.Apply(op, f, b, n);
    SignedOfBits(q.bits, w);
    Alu.ResultFlagsMean(f, Shifts.SignedBits(q.bits), Half(w));
  }

  /**
   SHL, SHR and SAR by a non-zero masked count n: multiplication by 2^n modulo the word,
   unsigned and signed floor division by 2^n; CF is the last bit shifted out, SF, ZF and
   PF are those of the result.
   */
  lemma ShiftsAreArithmetic(s: State, i: Ins, io: u64, w: Width, c: Count)
    requires CountOf(s, i, c, w) > 0
    ensures var l, n := RmLoc(s, i), CountOf(s, i, c, w);
      var x := ReadLoc(s, l, w);
      var bits := BitString(x, w);
      var shl, shr, sar := Perform(Shift(Shifts.Shl, w, c), i, s, io), Perform(Shift(Shifts.Shr, w, c), i, s, io),
        Perform(Shift(Shifts.Sar, w, c), i, s, io);
      && shl.Go? && ReadLoc(shl.s, l, w) == (x * Pow2(n)) % Modulus(w) && shl.s.flags[CF] == bits[8 * w - n]
      && Alu.ResultMeans(shl.s.flags, ReadLoc(shl.s, l, w), Half(w))
      && shr.Go? && ReadLoc(shr.s, l, w) == x / Pow2(n) && shr.s.flags[CF] == bits[n - 1]
      && Alu.ResultMeans(shr.s.flags, ReadLoc(shr.s, l, w), Half(w))
      && sar.Go? && Signed(ReadLoc(sar.s, l, w), w) == Signed(x, w) / Pow2(n) && sar.s.flags[CF] == bits[n - 1]
      && Alu.ResultMeans(sar.s.flags, ReadLoc(sar.s, l, w), Half(w))
  {
    hide RmLoc, ReadLoc, FromBits, ToBits, Pow2, Perform, Shifts.ShlOp, Shifts.ShrOp, Shifts.SarOp, CountOf, Signed, Modulus, Half,
      Alu.ResultMeans;
    var l, n := RmLoc(s, i), CountOf(s, i, c, w);
    var x := ReadLoc(s, l, w);
    var bits := BitString(x, w);
    BitStringValue(x, w);
    Pow2AtWidth(w);
    ShiftStores(s, i, io, Shifts.Shl, w, c);
    ShiftStores(s, i, io, Shifts.Shr, w, c);
    ShiftStores(s, i, io, Shifts.Sar, w, c);
    Shifts.ShlIsMultiplication(s.flags, bits, n);
    Shifts.ShrIsDivision(s.flags, bits, n);
    Shifts.SarIsSignedDivision(s.flags, bits, n);
    SignedOfBits(Shifts.SarOp(s.flags, bits, n).bits, w);
    ShiftStatus(Shifts.Shl, s.flags, bits, n, w);
    ShiftStatus(Shifts.Shr, s.flags, bits, n, w);
    ShiftStatus(Shifts.Sar, s.flags, bits, n, w);
  }

  /** A masked count of zero leaves operand and flags alone. */
  lemma ZeroCountKeeps(s: State, i: Ins, io: u64, op: Shifts.ShiftOp, w: Width, c: Count)
    requires IsShift(op) && CountOf(s, i, c, w) == 0
    ensures var r := Perform(Shift(op, w, c), i, s, io);
      r.Go? && r.s.flags == s.flags && ReadLoc(r.s, RmLoc(s, i), w) == ReadLoc(s, RmLoc(s, i), w)
  {
    hide RmLoc, ReadLoc, FromBits, ToBits, Pow2, Perform;
    var x := ReadLoc(s, RmLoc(s, i), w);
    var bits := BitString(x, w);
    BitStringValue(x, w);
    ShiftStores(s, i, io, op, w, c);
    assert Shifts.Apply(op, s.flags, bits, 0).bits == bits;
  }

  /** OF after a shift by one: the doubled operand does not fit; its top bit; never. */
  lemma ShiftByOneOverflow(s: State, i: Ins, io: u64, w: Width)
    ensures var l := RmLoc(s, i);
      var x := Signed(ReadLoc(s, l, w), w);
      var shl, shr, sar := Perform(Shift(Shifts.Shl, w, CountOne), i, s, io),
        Perform(Shift(Shifts.Shr, w, CountOne), i, s, io), Perform(Shift(Shifts.Sar, w, CountOne), i, s, io);
      && shl.Go? && (shl.s.flags[OF] <==> !InRange(2 * x, Half(w)))
      && shr.Go? && (shr.s.flags[OF] <==> x < 0)
      && sar.Go? && !sar.s.flags[OF]
  {
    hide RmLoc, ReadLoc, FromBits, ToBits, Pow2, Perform, Shifts.ShlOp, Shifts.ShrOp, Shifts.SarOp, Shifts.SignedBits, Signed;
    var x := ReadLoc(s, RmLoc(s, i), w);
    var bits := BitString(x, w);
    assert CountOf(s, i, CountOne, w) == 1;
    BitStringValue(x, w);
    ShiftStores(s, i, io, Shifts.Shl, w, CountOne);
    ShiftStores(s, i, io, Shifts.Shr, w, CountOne);
    ShiftStores(s, i, io, Shifts.Sar, w, CountOne);
    OverflowByOne(s.flags, bits, w);
  }

  lemma OverflowByOne(f: Rflags, b: Bits, w: Width)
    requires |b| == 8 * w
    ensures Shifts.ShlOp(f, b, 1).flags[OF] <==> !InRange(2 * Shifts.SignedBits(b), Half(w))
    ensures Shifts.ShrOp(f, b, 1).flags[OF] <==> Shifts.SignedBits(b) < 0
    ensures !Shifts.SarOp(f, b, 1).flags[OF]
  {
    hide FromBits, ToBits, Pow2, Shifts.ShlOp, Shifts.ShrOp, Shifts.SarOp, Shifts.SignedBits;
    Pow2AtWidth(w);
    Shifts.ShlOverflow(f, b);
    Shifts.ShrIsDivision(f, b, 1);
    Shifts.SarIsSignedDivision(f, b, 1);
    Shifts.SignedValue(b);
  }

  /** A store through the operand's own location does not move the operand. */
  lemma LocationStays(s: State, i: Ins, w: Width, v: nat, f: Rflags)
    requires v < Modulus(w)
    ensures RmLoc(WriteLoc(s, RmLoc(s, i), w, v).(flags := f), i) == RmLoc(s, i)
  {
    hide Load, Store, SetLow, Pow2;
  }

  /**
   RCL then RCR by the same count, where the count is not the operand itself: the
   destination and CF are as they were. Likewise ROL then ROR restores the destination.
   */
  lemma RotatesUndo(s: State, i: Ins, io: u64, w: Width, c: Count, carry: bool)
    requires c.CountCl? ==> RmLoc(s, i) != RegLoc(1)
    requires var n := CountOf(s, i, c, w);
      if carry then Shifts.Defined(Shifts.Rcl, 8 * w, n) && Shifts.Defined(Shifts.Rcr, 8 * w, n)
      else Shifts.Defined(Shifts.Rol, 8 * w, n)
    ensures var l := RmLoc(s, i);
      var r := Perform(Shift(if carry then Shifts.Rcl else Shifts.Rol, w, c), i, s, io);
      && r.Go?
      && var q := Perform(Shift(if carry then Shifts.Rcr else Shifts.Ror, w, c), i, r.s, io);
         q.Go? && ReadLoc(q.s, l, w) == ReadLoc(s, l, w) && (carry ==> q.s.flags[CF] == s.flags[CF])
  {
    hide ReadLoc, ToBits, FromBits, Pow2, Shifts.RclOp, Shifts.RcrOp, Shifts.RolOp, Shifts.RorOp, RmLoc, Perform, Half, Modulus;
    var l, n := RmLoc(s, i), CountOf(s, i, c, w);
    var x := ReadLoc(s, l, w);
    var up, down := if carry then Shifts.Rcl else Shifts.Rol, if carry then Shifts.Rcr else Shifts.Ror;
    var r := Perform(Shift(up, w, c), i, s, io);
    var a := Shifts.Apply(up, s.flags, BitString(x, w), n);
    ShiftStores(s, i, io, up, w, c);
    AfterShift(s, i, io, up, w, c);
    ShiftStores(r.s, i, io, down, w, c);
    ToBitsOfFromBits(a.bits);
    if carry {
      Shifts.RclRcrInverse(s.flags, BitString(x, w), n);
    } else {
      Shifts.RolLaws(s.flags, a.flags, BitString(x, w), n, n);
    }
    BitStringValue(x, w);
  }

  /** A shift moves neither its operand nor its count. */
  lemma AfterShift(s: State, i: Ins, io: u64, op: Shifts.ShiftOp, w: Width, c: Count)
    requires c.CountCl? ==> RmLoc(s, i) != RegLoc(1)
    requires Shifts.Defined(op, 8 * w, CountOf(s, i, c, w))
    ensures var r := Perform(Shift(op, w, c), i, s, io);
      r.Go? && RmLoc(r.s, i) == RmLoc(s, i) && CountOf(r.s, i, c, w) == CountOf(s, i, c, w)
  {
    CountIsMasked(s, i, c, w);
    hide Shifts.Apply, Shifts.Defined, RmLoc, ReadLoc, FromBits, ToBits, Pow2, Store, SetLow, CountOf, ShiftCount, Shifts.Masked;
    Pow2AtWidth(w);
    var q := Shifts.Apply(op, s.flags, BitString(ReadLoc(s, RmLoc(s, i), w), w), CountOf(s, i, c, w));
    LocationStays(s, i, w, FromBits(q.bits), q.flags);
    CountStays(s, Perform(Shift(op, w, c), i, s, io).s, i, c, w);
  }

  lemma CountStays(s: State, t: State, i: Ins, c: Count, w: Width)
    requires c.CountCl? ==> t.regs[1] == s.regs[1]
    ensures CountOf(t, i, c, w) == CountOf(s, i, c, w)
  {
  }

  // ---------------------------------------------------------------- bitwise operations

  /** Flags after AND, OR, XOR and TEST: no carry, no overflow, and the result's own status. */
  lemma BitwiseFlagsMean(f: Rflags, b: Bits, w: Width, store: bool)
    requires |b| == 8 * w
    ensures var e := BitwiseEffect(f, b, w, store);
      e.value == FromBits(b) && !e.flags[CF] && !e.flags[OF] && Alu.ResultMeans(e.flags, e.value, Half(w))
  {
    hide ByteParity, Alu.Low8, Alu.EvenOnes, FromBits, Pow2;
    Pow2AtWidth(w);
    Alu.ResultFlagsMean(f, SignedOf(FromBits(b), Half(w)), Half(w));
  }

  predicate IsBitwise(op: BinOp) { op.And? || op.Or? || op.Xor? || op.Test? }

  /** The operation on one bit. */
  predicate OnBits(op: BinOp, a: bool, b: bool)
  {
    if op.Or? then a || b else if op.Xor? then a != b else a && b
  }

  /** The result of a bitwise operation, bit by bit. */
  function BitwiseResult(op: BinOp, x: nat, y: nat, w: Width): (b: Bits)
    ensures |b| == 8 * w
  {
    seq(8 * w, k requires 0 <= k < 8 * w => OnBits(op, BitString(x, w)[k], BitString(y, w)[k]))
  }

  lemma BitwiseAtWidth(op: BinOp, f: Rflags, x: nat, y: nat, w: Width)
    requires IsBitwise(op) && x < Modulus(w) && y < Modulus(w)
    ensures Compute(op, f, x, y, w) == BitwiseEffect(f, BitwiseResult(op, x, y, w), w, !op.Test?)
  {
    hide ToBits, BitwiseEffect;
    var a, b, r := BitString(x, w), BitString(y, w), BitwiseResult(op, x, y, w);
    assert r == if op.Or? then BitOr(a, b) else if op.Xor? then BitXor(a, b) else BitAnd(a, b);
  }

  /**
   AND, OR, XOR and TEST on any operands: each bit of the result is that of the operand
   bits, TEST stores nothing, CF and OF are clear and SF, ZF and PF those of the result.
   */
  lemma BitwiseOnMachine(s: State, i: Ins, io: u64, op: BinOp, w: Width, dst: Place, src: Source)
    requires IsBitwise(op)
    ensures var l := PlaceLoc(s, i, dst);
      var b := BitwiseResult(op, ReadLoc(s, l, w), SourceValue(s, i, src, w), w);
      var r := Perform(Binary(op, w, dst, src), i, s, io);
      && r.Go?
      && (if op.Test? then r.s == s.(flags := r.s.flags) else ReadLoc(r.s, l, w) == FromBits(b))
      && !r.s.flags[CF] && !r.s.flags[OF]
      && Alu.ResultMeans(r.s.flags, FromBits(b), Half(w))
      && r.s.rip == s.rip
  {
    hide Compute, BitwiseEffect, BitwiseResult, PlaceLoc, SourceValue, ReadLoc, WriteLoc, FromBits, Alu.ResultMeans;
    var l := PlaceLoc(s, i, dst);
    var x, y := ReadLoc(s, l, w), SourceValue(s, i, src, w);
    var e := Compute(op, s.flags, x, y, w);
    BitwiseAtWidth(op, s.flags, x, y, w);
    BitwiseFlagsMean(s.flags, BitwiseResult(op, x, y, w), w, !op.Test?);
    BitwiseStores(s.flags, BitwiseResult(op, x, y, w), w, !op.Test?);
    if e.store {
      StoredEffect(s, l, w, e);
      WriteKeepsRest(s, l, w, e.value);
    }
  }

  lemma BitwiseStores(f: Rflags, b: Bits, w: Width, store: bool)
    requires |b| == 8 * w
    ensures BitwiseEffect(f, b, w, store).store == store
  {
  }

  /** XOR of an operand with itself clears it, at every width, and sets ZF. */
  lemma XorSelfIsZero(s: State, i: Ins, io: u64, w: Width, p: Place)
    ensures var r := Perform(Binary(Xor, w, p, From(p, w, true)), i, s, io);
      r.Go? && ReadLoc(r.s, PlaceLoc(s, i, p), w) == 0 && r.s.flags[ZF]
  {
    hide Perform, PlaceLoc, SourceValue, ReadLoc, FromBits, ToBits;
    var x := ReadLoc(s, PlaceLoc(s, i, p), w);
    SameOperand(s, i, w, p);
    BitwiseOnMachine(s, i, io, Xor, w, p, From(p, w, true));
    assert BitwiseResult(Xor, x, x, w) == Zeros(8 * w);
    FromZeros(8 * w);
  }

  lemma SameOperand(s: State, i: Ins, w: Width, p: Place)
    ensures SourceValue(s, i, From(p, w, true), w) == ReadLoc(s, PlaceLoc(s, i, p), w)
  {
    hide ReadLoc, PlaceLoc;
  }
}
