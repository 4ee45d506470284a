/** Rotates and shifts by opcode number: operand, width, count, result and flags. */
module ShiftsByOpcode {
  import opened Words
  import opened Bits
  import opened Flags
  import opened Instructions
  import opened Machine
  import opened Operations
  import opened Semantics
  import opened MachineShifts
  import opened Manual
  import opened Dispatch
  import Alu
  import Shifts

  predicate IsShiftOpcode(i: Ins) { i.op0 in {0xC0, 0xC1, 0xD0, 0xD1, 0xD2, 0xD3} }

  function ShiftWidth(i: Ins): Width { if i.op0 in {0xC0, 0xD0, 0xD2} then 1 else WidthBy(i) }

  /** The count: immediate byte, one, or register 1, modulo the operand length. */
  function CountBy(s: State, i: Ins): nat
  {
    var n := 8 * ShiftWidth(i);
    if i.op0 in {0xC0, 0xC1} then (i.imm % 0x100) % n
    else if i.op0 in {0xD0, 0xD1} then 1
    else (s.regs[1] % 0x100) % n
  }

  /** The bits of the operand, lowest first. */
  function OperandBits(s: State, i: Ins): (b: Bits)
    ensures |b| == 8 * ShiftWidth(i)
  {
    ToBits(ReadLoc(s, RmLoc(s, i), ShiftWidth(i)), 8 * ShiftWidth(i))
  }

  function CountKind(i: Ins): Count
  {
    if i.op0 in {0xC0, 0xC1} then CountImm else if i.op0 in {0xD0, 0xD1} then CountOne else CountCl
  }

  lemma ShiftSelected(s: State, i: Ins)
    requires IsShiftOpcode(i)
    ensures Select(i) == Shift(ShiftOfExt(ExtBy(i)), ShiftWidth(i), CountKind(i))
    ensures CountOf(s, i, CountKind(i), ShiftWidth(i)) == CountBy(s, i) < 8 * ShiftWidth(i)
  {
    hide Select, ShiftOfExt;
    Dispatched(i);
  }

  /** What a defined shift does, for the operation of its extension. */
  lemma ShiftPerforms(s: State, i: Ins, io: u64)
    requires IsShiftOpcode(i)
    ensures var op, w, n, l := ShiftOfExt(ExtBy(i)), ShiftWidth(i), CountBy(s, i), RmLoc(s, i);
      n < 8 * w &&
      var q, r := Shifts.Apply(op, s.flags, OperandBits(s, i), n), Execute(i, s, io);
      if !Shifts.Defined(op, 8 * w, n) then r.Undefined?
      else
        && r.Go? && r.s.flags == q.flags && OnlyAt(s, r.s, l, w)
        && |q.bits| == 8 * w && ReadLoc(r.s, l, w) == FromBits(q.bits) && ToBits(ReadLoc(r.s, l, w), 8 * w) == q.bits
  {
    hide Select, ShiftOfExt, CountBy, CountKind, CountOf, ShiftCount, Shifts.Masked, Shifts.Apply, Shifts.Defined, RmLoc, ReadLoc, WriteLoc,
      FromBits, ToBits, Pow2, OnlyAt;
    ShiftSelected(s, i);
    var op, n, l := ShiftOfExt(ExtBy(i)), CountBy(s, i), RmLoc(s, i);
    var w: int := ShiftWidth(i);
    CountIsMasked(s, i, CountKind(i), w);
    Pow2AtWidth(w);
    if Shifts.Defined(op, 8 * w, n) {
      var q := Shifts.Apply(op, s.flags, OperandBits(s, i), n);
      WriteOnlyAt(s, l, w, FromBits(q.bits), q.flags);
      ToBitsOfFromBits(q.bits);
    }
  }

  /**
   SHL (extensions 4 and 6), SHR (5) and SAR (7): multiplication by 2^n modulo the word,
   unsigned and signed floor division by 2^n, and every status flag.
   */
  lemma ShiftsByOpcode(s: State, i: Ins, io: u64)
    requires IsShiftOpcode(i) && ExtBy(i) >= 4
    ensures var l, w, n, ext := RmLoc(s, i), ShiftWidth(i), CountBy(s, i), ExtBy(i);
      n < 8 * w &&
      var x, bits, r := ReadLoc(s, l, w), OperandBits(s, i), Execute(i, s, io);
      && r.Go? && OnlyAt(s, r.s, l, w) && StatusOnly(s.flags, r.s.flags)
      && (n == 0 ==> r.s.flags == s.flags && ReadLoc(r.s, l, w) == x)
      && (n > 0 ==>
            && r.s.flags[0] == (if ext == 5 || ext == 7 then bits[n - 1] else bits[8 * w - n])
            && Alu.ResultMeans(r.s.flags, ReadLoc(r.s, l, w), Half(w))
            && (if ext == 5 then ReadLoc(r.s, l, w) == x / Pow2(n)
                else if ext == 7 then Signed(ReadLoc(r.s, l, w), w) == Signed(x, w) / Pow2(n)
                else ReadLoc(r.s, l, w) == (x * Pow2(n)) % Modulus(w)))
      && (n == 1 ==> (r.s.flags[11] <==>
            if ext == 5 then Signed(x, w) < 0 else if ext == 7 then false else !InRange(2 * Signed(x, w), Half(w))))
  {
    hide Select, CountBy, RmLoc, ReadLoc, FromBits, ToBits, Pow2, Half, Modulus, Signed, Execute, OnlyAt, Alu.ResultMeans,
      Shifts.ShlOp, Shifts.ShrOp, Shifts.SarOp, Shifts.SignedBits, ShiftWidth, ExtBy, InRange, StatusOnly;
    var op, w, n := ShiftOfExt(ExtBy(i)), ShiftWidth(i), CountBy(s, i);
    var x, bits := ReadLoc(s, RmLoc(s, i), w), OperandBits(s, i);
    ShiftPerforms(s, i, io);
    ExtensionShifts(ExtBy(i));
    ShiftStatusOnly(op, s.flags, bits, n);
    BitStringValue(x, w);
    Pow2AtWidth(w);
    if n > 0 {
      ShiftStatus(op, s.flags, bits, n, w);
      SignedOfBits(Shifts.Apply(op, s.flags, bits, n).bits, w);
      ShiftArithmetic(op, s.flags, bits, n);
    } else {
      ZeroShift(op, s.flags, bits);
    }
    if n == 1 {
      OverflowByOne(s.flags, bits, w);
    }
  }

  lemma ShiftStatusOnly(op: Shifts.ShiftOp, f: Rflags, b: Bits, n: nat)
    requires IsShift(op) && n < |b|
    ensures StatusOnly(f, Shifts.Apply(op, f, b, n).flags)
  {
    hide Narrow, ShiftLeft, ShiftRight, BitAt, ByteParity, Alu.Low8, Shifts.SignedBits;
  }

  lemma ExtensionShifts(ext: nat)
    requires 4 <= ext
    ensures ShiftOfExt(ext) == if ext == 5 then Shifts.Shr else if ext == 7 then Shifts.Sar else Shifts.Shl
  {
  }

  lemma ZeroShift(op: Shifts.ShiftOp, f: Rflags, b: Bits)
    requires IsShift(op) && |b| > 0
    ensures Shifts.Apply(op, f, b, 0) == Shifts.Shifted(f, b)
  {
    assert Shifts.Apply(op, f, b, 0).bits == b;
  }

  /** The three arithmetic theorems, by operation. */
  lemma ShiftArithmetic(op: Shifts.ShiftOp, f: Rflags, b: Bits, n: nat)
    requires IsShift(op) && 0 < n < |b|
    ensures var q := Shifts.Apply(op, f, b, n);
      && q.flags[0] == (if op.Shl? then b[|b| - n] else b[n - 1])
      && (op.Shl? ==> FromBits(q.bits) == (FromBits(b) * Pow2(n)) % Pow2(|b|))
      && (op.Shr? ==> FromBits(q.bits) == FromBits(b) / Pow2(n))
      && (op.Sar? ==> Shifts.SignedBits(q.bits) == Shifts.SignedBits(b) / Pow2(n))
  {
    hide FromBits, Pow2, Shifts.ShlOp, Shifts.ShrOp, Shifts.SarOp, Shifts.SignedBits;
    match op
    case Shl => Shifts.ShlIsMultiplication(f, b, n);
    case Shr => Shifts.ShrIsDivision(f, b, n);
    case _ => Shifts.SarIsSignedDivision(f, b, n);
  }

  // ---------------------------------------------------------------- rotates

  /** The counts, by extension and operand length, for which the C expressions are defined. */
  predicate DefinedBy(ext: nat, len: nat, n: nat)
  {
    || len <= 16
    || (ext <= 1 && n > 0)
    || (ext >= 2 && len == 32 && n >= 2)
    || (ext == 2 && len == 64 && 2 <= n <= 31)
    || (ext == 3 && len == 64 && n >= 34)
  }

  /** Only CF and OF may differ. */
  predicate OnlyCarryAndOverflow(f: Rflags, g: Rflags) { forall k :: 0 <= k < 64 && k != 0 && k != 11 ==> g[k] == f[k] }

  /**
   ROL (extension 0), ROR (1), RCL (2) and RCR (3), wherever C defines them: the operand,
   for RCL and RCR with CF on top, is rotated by the count, CF and for a count of one OF with it.
   */
  lemma RotatesByOpcode(s: State, i: Ins, io: u64)
    requires IsShiftOpcode(i) && ExtBy(i) < 4
    ensures var l, w, n, ext := RmLoc(s, i), ShiftWidth(i), CountBy(s, i), ExtBy(i);
      n < 8 * w &&
      var x, r := OperandBits(s, i), Execute(i, s, io);
      if !DefinedBy(ext, 8 * w, n) then r.Undefined?
      else
        && r.Go? && OnlyAt(s, r.s, l, w) && OnlyCarryAndOverflow(s.flags, r.s.flags)
        && var y, z := ToBits(ReadLoc(r.s, l, w), 8 * w), x + [s.flags[0]];
           && (ext == 0 ==> y == x[8 * w - n..] + x[..8 * w - n] && (n > 0 ==> r.s.flags[0] == y[0]))
           && (ext == 1 ==> y == x[n..] + x[..n] && (n > 0 ==> r.s.flags[0] == y[8 * w - 1]))
           && (ext == 2 ==> y + [r.s.flags[0]] == z[8 * w + 1 - n..] + z[..8 * w + 1 - n])
           && (ext == 3 ==> y + [r.s.flags[0]] == z[n..] + z[..n])
           && (n == 1 ==> (r.s.flags[11] <==>
                 if ext == 0 || ext == 2 then r.s.flags[0] != y[8 * w - 1]
                 else if ext == 1 then y[8 * w - 1] != y[8 * w - 2]
                 else s.flags[0] != x[8 * w - 1]))
  {
    hide Select, CountBy, RmLoc, ReadLoc, FromBits, ToBits, Execute, OnlyAt, ShiftWidth, ExtBy, OperandBits,
      Shifts.RolOp, Shifts.RorOp, Shifts.RclOp, Shifts.RcrOp, OnlyCarryAndOverflow;
    var w, n, x := ShiftWidth(i), CountBy(s, i), OperandBits(s, i);
    ShiftPerforms(s, i, io);
    RotateDefined(ExtBy(i), w, n);
    RotateFlags(ShiftOfExt(ExtBy(i)), s.flags, x, n);
    Shifts.RolRorAreRotations(s.flags, x, n);
    Shifts.RclRcrRotateWithCarry(s.flags, x, n);
    Shifts.CarryRotateOverflow(s.flags, x);
  }

  lemma RotateDefined(ext: nat, w: Width, n: nat)
    requires ext < 4
    ensures Shifts.Defined(ShiftOfExt(ext), 8 * w, n) <==> DefinedBy(ext, 8 * w, n)
  {
  }

  lemma RotateFlags(op: Shifts.ShiftOp, f: Rflags, x: Bits, n: nat)
    requires op.Rol? || op.Ror? || op.Rcl? || op.Rcr?
    requires n < |x|
    ensures OnlyCarryAndOverflow(f, Shifts.Apply(op, f, x, n).flags)
  {
    hide Narrow, BitOr, ShiftLeft, ShiftRight, BitAt;
  }
}
