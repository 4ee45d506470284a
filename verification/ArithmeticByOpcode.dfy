/**
 Two-operand instructions by opcode number: which operand is the destination, what the
 source is, at which width, and what is stored and set.
 */
module ArithmeticByOpcode {
  import opened Words
  import opened Bits
  import opened Flags
  import opened Instructions
  import opened Machine
  import opened Operations
  import opened Semantics
  import opened Comparisons
  import opened CarryArithmetic
  import opened MachineShifts
  import opened Manual
  import Alu

  // ---------------------------------------------------------------- operands

  /** The opcodes of ADD to CMP, TEST, and the moves of general registers. */
  predicate IsTwoOperand(i: Ins)
  {
    || (i.op0 < 0x40 && i.op0 % 8 < 6)
    || i.op0 in {0x63, 0x80, 0x81, 0x83, 0x84, 0x85, 0x88, 0x89, 0x8A, 0x8B, 0x98, 0x99, 0xA8, 0xA9}
    || 0xB0 <= i.op0 <= 0xBF
    || (i.op0 in {0xC6, 0xC7} && ExtBy(i) == 0)
    || (i.op0 in {0xF6, 0xF7} && ExtBy(i) <= 1)
    || (i.op0 == 0x0F && i.op1 in {0xB6, 0xB7})
  }

  /**
   The operand form of an opcode:
     0, 1   r/m from reg, byte and full width      6   r/m from a byte immediate
     2, 3   reg from r/m, byte and full width      7   r/m from an immediate of up to 32 bits
     4, 5   accumulator from an immediate          8   r/m from a sign-extended byte
   */
  function FormBy(op: byte): nat
  {
    if op < 0x40 then op % 8
    else if op in {0x84, 0x88} then 0
    else if op in {0x85, 0x89} then 1
    else if op == 0x8A then 2
    else if op == 0x8B then 3
    else if op == 0xA8 then 4
    else if op == 0xA9 then 5
    else if op in {0x80, 0xC6, 0xF6} then 6
    else if op in {0x81, 0xC7, 0xF7} then 7
    else if op == 0x83 then 8
    else 9
  }

  function WidthOf(i: Ins): Width
  {
    if FormBy(i.op0) in {0, 2, 4, 6} || 0xB0 <= i.op0 <= 0xB7 then 1 else WidthBy(i)
  }

  function DestBy(s: State, i: Ins): Loc
  {
    var form := FormBy(i.op0);
    if i.op0 == 0x0F || i.op0 == 0x63 || form in {2, 3} then RegBy(i)
    else if form in {0, 1, 6, 7, 8} then RmLoc(s, i)
    else if 0xB0 <= i.op0 <= 0xBF then OpBy(i)
    else if i.op0 == 0x99 then RegLoc(2)
    else RegLoc(0)
  }

  /** An immediate of at most four bytes for a destination of `w` bytes. */
  function ImmUpTo32(i: Ins, w: Width): nat { SignedImm(i, if w == 2 then 2 else 4, w) }

  /** A location read at `k` bytes and sign-extended to `w`. */
  function SignedFrom(s: State, l: Loc, k: Width, w: Width): nat { Signed(ReadLoc(s, l, k), k) % Modulus(w) }

  function SourceBy(s: State, i: Ins): (v: nat)
    ensures v < Modulus(WidthOf(i)) || !IsTwoOperand(i)
  {
    var form, w := FormBy(i.op0), WidthBy(i);
    if i.op0 == 0x0F then (if i.op1 == 0xB6 then ReadLoc(s, RmLoc(s, i), 1) else ReadLoc(s, RmLoc(s, i), 2))
    else if i.op0 == 0x63 then SignedFrom(s, RmLoc(s, i), if w == 2 then 2 else 4, w)
    else if i.op0 in {0x98, 0x99} then SignedFrom(s, RegLoc(0), if w == 8 then 4 else if w == 4 then 2 else 1, w)
    else if 0xB0 <= i.op0 <= 0xB7 then i.imm % 0x100
    else if 0xB8 <= i.op0 <= 0xBF then i.imm % Modulus(w)
    else if form == 0 then ReadLoc(s, RegBy(i), 1)
    else if form == 1 then ReadLoc(s, RegBy(i), w)
    else if form == 2 then ReadLoc(s, RmLoc(s, i), 1)
    else if form == 3 then ReadLoc(s, RmLoc(s, i), w)
    else if form == 4 || form == 6 then i.imm % 0x100
    else if form == 8 then SignedImm(i, 1, w)
    else ImmUpTo32(i, w)
  }

  // ---------------------------------------------------------------- effects

  /** 0 to 7 are ADD, OR, ADC, SBB, AND, SUB, XOR and CMP; 8 is TEST and 9 a move. */
  function KindBy(i: Ins): nat
  {
    if i.op0 < 0x40 && i.op0 != 0x0F then i.op0 / 8
    else if i.op0 in {0x80, 0x81, 0x83} then ExtBy(i)
    else if i.op0 in {0x84, 0x85, 0xA8, 0xA9, 0xF6, 0xF7} then 8
    else 9
  }

  /** The bits of OR, XOR and otherwise AND. */
  function BitsBy(kind: nat, x: nat, y: nat, w: Width): (b: Bits)
    ensures |b| == 8 * w
  {
    var a, c := ToBits(x, 8 * w), ToBits(y, 8 * w);
    seq(8 * w, k requires 0 <= k < 8 * w => if kind == 1 then a[k] || c[k] else if kind == 6 then a[k] != c[k] else a[k] && c[k])
  }

  /** What is computed from `x` (destination) and `y` (source) and the flags before. */
  function ValueBy(kind: nat, x: nat, y: nat, w: Width): nat
  {
    match kind
    case 0 => (x + y) % Modulus(w)
    case 2 => (x + y) % Modulus(w)
    case 3 => (x - y) % Modulus(w)
    case 5 => (x - y) % Modulus(w)
    case 7 => (x - y) % Modulus(w)
    case 9 => y
    case _ => FromBits(BitsBy(kind, x, y, w))
  }

  /** The flags `g` after an instruction that computed from `x` and `y` under flags `f`. */
  predicate FlagsBy(kind: nat, f: Rflags, x: nat, y: nat, w: Width, g: Rflags)
    requires x < Modulus(w) && y < Modulus(w)
  {
    match kind
    case 0 => StatusMeans(g, Signed(x, w) + Signed(y, w), (x + y) % Modulus(w), w) && (g[0] <==> x + y >= Modulus(w))
    case 2 => AdcFlags(f, x, y, g, Half(w))
    case 3 => SbbFlags(f, x, y, g, Half(w))
    case 5 => StatusMeans(g, Signed(x, w) - Signed(y, w), (x - y) % Modulus(w), w) && (g[0] <==> x < y)
    case 7 => StatusMeans(g, Signed(x, w) - Signed(y, w), (x - y) % Modulus(w), w) && (g[0] <==> x < y)
    case 9 => g == f
    case _ => !g[0] && !g[11] && Alu.ResultMeans(g, FromBits(BitsBy(kind, x, y, w)), Half(w))
  }

  // ---------------------------------------------------------------- the opcodes select them

  function OpOfKind(kind: nat): BinOp
  {
    match kind
    case 0 => Add
    case 1 => Or
    case 2 => Adc
    case 3 => Sbb
    case 4 => And
    case 5 => Sub
    case 6 => Xor
    case 7 => Cmp
    case 8 => Test
    case _ => Mov
  }

  function RegPlace(i: Ins): Place { Gpr((i.modrm / 8) % 8 + 8 * ((i.rex / 4) % 2)) }

  function DestPlace(i: Ins): Place
  {
    var form := FormBy(i.op0);
    if i.op0 == 0x0F || i.op0 == 0x63 || form in {2, 3} then RegPlace(i)
    else if form in {0, 1, 6, 7, 8} then Rm
    else if 0xB0 <= i.op0 <= 0xBF then Gpr(i.op0 % 8 + 8 * (i.rex % 2))
    else if i.op0 == 0x99 then Gpr(2)
    else Gpr(0)
  }

  function SourcePlace(i: Ins): Source
  {
    var form, w := FormBy(i.op0), WidthBy(i);
    if i.op0 == 0x0F then From(Rm, if i.op1 == 0xB6 then 1 else 2, false)
    else if i.op0 == 0x63 then From(Rm, if w == 2 then 2 else 4, true)
    else if i.op0 in {0x98, 0x99} then From(Gpr(0), if w == 8 then 4 else if w == 4 then 2 else 1, true)
    else if 0xB0 <= i.op0 <= 0xB7 then Imm(1, false)
    else if 0xB8 <= i.op0 <= 0xBF then Imm(w, false)
    else if form == 0 then From(RegPlace(i), 1, true)
    else if form == 1 then From(RegPlace(i), w, true)
    else if form == 2 then From(Rm, 1, true)
    else if form == 3 then From(Rm, w, true)
    else if form == 4 || form == 6 || form == 8 then Imm(1, true)
    else Imm(if w == 2 then 2 else 4, true)
  }

  predicate Selected(o: Operation, i: Ins)
  {
    o == Binary(OpOfKind(KindBy(i)), WidthOf(i), DestPlace(i), SourcePlace(i))
  }

  lemma LowSelected(i: Ins)
    requires IsTwoOperand(i) && i.op0 < 0x80 && i.op0 != 0x0F
    ensures Selected(LowOpcode(i), i)
  {
  }

  lemma GroupsSelected(i: Ins)
    requires IsTwoOperand(i) && 0x80 <= i.op0 < 0x84
    ensures Selected(MiddleOpcode(i), i)
  {
  }

  lemma MiddleSelected(i: Ins)
    requires IsTwoOperand(i) && 0x84 <= i.op0 < 0xC0
    ensures Selected(MiddleOpcode(i), i)
  {
    hide GroupOp;
  }

  lemma HighSelected(i: Ins)
    requires IsTwoOperand(i) && 0xC0 <= i.op0
    ensures Selected(HighOpcode(i), i)
  {
    hide GroupOp, ShiftGroup;
  }

  lemma TwoByteSelected(i: Ins)
    requires IsTwoOperand(i) && i.op0 == 0x0F
    ensures Selected(TwoByteOpcode(i), i)
  {
    hide GroupOp, VectorOpcode;
  }

  lemma HeadSelects(o: Operation, i: Ins)
    ensures IsTwoOperand(i.Head()) == IsTwoOperand(i) && Selected(o, i.Head()) == Selected(o, i)
  {
    hide OpOfKind;
  }

  lemma Selects(i: Ins)
    requires IsTwoOperand(i)
    ensures Selected(Select(i), i)
  {
    hide LowOpcode, MiddleOpcode, HighOpcode, TwoByteOpcode, Selected, IsTwoOperand;
    var h := i.Head();
    HeadSelects(Select(i), i);
    if h.op0 == 0x0F {
      TwoByteSelected(h);
    } else if h.op0 < 0x80 {
      LowSelected(h);
    } else if h.op0 < 0x84 {
      GroupsSelected(h);
    } else if h.op0 < 0xC0 {
      MiddleSelected(h);
    } else {
      HighSelected(h);
    }
  }

  // ---------------------------------------------------------------- their operands

  lemma Destination(s: State, i: Ins)
    ensures PlaceLoc(s, i, DestPlace(i)) == DestBy(s, i)
  {
    hide RmLoc;
  }

  lemma SourceOfImm(s: State, i: Ins, k: Width, w: Width, signed: bool)
    requires k <= w
    ensures SourceValue(s, i, Imm(k, signed), w) == if signed then SignedImm(i, k, w) else i.imm % Modulus(k)
  {
    ExtensionIsRemainder(i.imm % Modulus(k), k, w);
  }

  lemma SourceOfPlace(s: State, i: Ins, p: Place, k: Width, w: Width, signed: bool)
    requires k <= w
    ensures SourceValue(s, i, From(p, k, signed), w) ==
      if signed then SignedFrom(s, PlaceLoc(s, i, p), k, w) else ReadLoc(s, PlaceLoc(s, i, p), k)
  {
    hide ReadLoc, PlaceLoc;
    ExtensionIsRemainder(ReadLoc(s, PlaceLoc(s, i, p), k), k, w);
  }

  /** Extension to the same width is the value itself. */
  lemma SameWidth(x: nat, w: Width)
    requires x < Modulus(w)
    ensures Signed(x, w) % Modulus(w) == x
  {
    ExtensionIsRemainder(x, w, w);
  }

  lemma SourceFits(s: State, i: Ins)
    requires IsTwoOperand(i)
    ensures SourceValue(s, i, SourcePlace(i), WidthOf(i)) == SourceBy(s, i)
  {
    hide ReadLoc, RmLoc, Modulus, Half, Signed, SourceValue, SignedImm, SignedFrom;
    var src, w := SourcePlace(i), WidthOf(i);
    assert src.k <= w;
    match src
    case Imm(k, signed) =>
      SourceOfImm(s, i, k, w, signed);
      ByteImmediate(i);
    case From(p, k, signed) =>
      SourceOfPlace(s, i, p, k, w, signed);
      if k == w {
        SameRead(s, PlaceLoc(s, i, p), w);
      }
  }

  lemma ByteImmediate(i: Ins)
    ensures SignedImm(i, 1, 1) == i.imm % 0x100 && Modulus(1) == 0x100
  {
    SameWidth(i.imm % 0x100, 1);
  }

  lemma SameRead(s: State, l: Loc, w: Width)
    ensures SignedFrom(s, l, w, w) == ReadLoc(s, l, w)
  {
    hide ReadLoc;
    SameWidth(ReadLoc(s, l, w), w);
  }

  // ---------------------------------------------------------------- what they do

  /**
   Every two-operand instruction, by opcode: the value computed from destination and
   source is stored at the destination and nowhere else, CMP and TEST store nothing, and
   the flags are those of its kind.
   */
  lemma TwoOperandByOpcode(s: State, i: Ins, io: u64)
    requires IsTwoOperand(i)
    ensures var l, w, kind := DestBy(s, i), WidthOf(i), KindBy(i);
      var x, y, r := ReadLoc(s, l, w), SourceBy(s, i), Execute(i, s, io);
      && r.Go?
      && (if kind == 7 || kind == 8 then r.s == s.(flags := r.s.flags)
          else OnlyAt(s, r.s, l, w) && ReadLoc(r.s, l, w) == ValueBy(kind, x, y, w))
      && FlagsBy(kind, s.flags, x, y, w, r.s.flags) && StatusOnly(s.flags, r.s.flags)
  {
    hide Select, SourceBy, DestBy, DestPlace, SourcePlace, WidthOf, KindBy, IsTwoOperand, Perform, ReadLoc, SourceValue, PlaceLoc, OnlyAt,
      FlagsBy, ValueBy, StatusOnly;
    Selects(i);
    Destination(s, i);
    SourceFits(s, i);
    KindIsSmall(i);
    BinaryByKind(s, i, io, KindBy(i), WidthOf(i), DestPlace(i), SourcePlace(i));
  }

  lemma KindIsSmall(i: Ins)
    ensures KindBy(i) < 10
  {
  }

  lemma BinaryByKind(s: State, i: Ins, io: u64, kind: nat, w: Width, dst: Place, src: Source)
    requires kind < 10
    ensures var l := PlaceLoc(s, i, dst);
      var x, y, r := ReadLoc(s, l, w), SourceValue(s, i, src, w), Perform(Binary(OpOfKind(kind), w, dst, src), i, s, io);
      && r.Go?
      && (if kind == 7 || kind == 8 then r.s == s.(flags := r.s.flags)
          else OnlyAt(s, r.s, l, w) && ReadLoc(r.s, l, w) == ValueBy(kind, x, y, w))
      && FlagsBy(kind, s.flags, x, y, w, r.s.flags) && StatusOnly(s.flags, r.s.flags)
  {
    hide ReadLoc, SourceValue, PlaceLoc, OnlyAt, FlagsBy, ValueBy, Compute, WriteLoc, StatusOnly;
    var l := PlaceLoc(s, i, dst);
    var x, y := ReadLoc(s, l, w), SourceValue(s, i, src, w);
    var e := Compute(OpOfKind(kind), s.flags, x, y, w);
    ComputeByKind(kind, s.flags, x, y, w);
    WriteOnlyAt(s, l, w, e.value, e.flags);
  }

  lemma ComputeByKind(kind: nat, f: Rflags, x: nat, y: nat, w: Width)
    requires kind < 10 && x < Modulus(w) && y < Modulus(w)
    ensures var e := Compute(OpOfKind(kind), f, x, y, w);
      && e.store == (kind != 7 && kind != 8)
      && (e.store ==> e.value == ValueBy(kind, x, y, w))
      && FlagsBy(kind, f, x, y, w, e.flags) && StatusOnly(f, e.flags)
  {
    hide Compute, FlagsBy, ValueBy, StatusOnly;
    ComputeStatusOnly(kind, f, x, y, w);
    match kind
    case 0 => SumByKind(kind, f, x, y, w);
    case 2 => CarryByKind(kind, f, x, y, w);
    case 3 => CarryByKind(kind, f, x, y, w);
    case 5 => SumByKind(kind, f, x, y, w);
    case 7 => SumByKind(kind, f, x, y, w);
    case 9 => MoveByKind(f, x, y, w);
    case _ => BitwiseByKind(kind, f, x, y, w);
  }

  /** What the theorem says of one kind. */
  predicate Computes(kind: nat, f: Rflags, x: nat, y: nat, w: Width, e: Effect)
    requires x < Modulus(w) && y < Modulus(w)
  {
    && e.store == (kind != 7 && kind != 8)
    && (e.store ==> e.value == ValueBy(kind, x, y, w))
    && FlagsBy(kind, f, x, y, w, e.flags)
  }

  lemma SumByKind(kind: nat, f: Rflags, x: nat, y: nat, w: Width)
    requires kind in {0, 5, 7} && x < Modulus(w) && y < Modulus(w)
    ensures Computes(kind, f, x, y, w, Compute(OpOfKind(kind), f, x, y, w))
  {
    hide Compute, StatusMeans, FromBits, BitsBy, Half, Modulus, Signed, AdcFlags, SbbFlags;
    AddSubAtWidth(f, x, y, kind != 0, w);
    DifferenceBorrow(x, y, w);
    CmpIsSub(f, x, y, w);
  }

  lemma CarryByKind(kind: nat, f: Rflags, x: nat, y: nat, w: Width)
    requires kind in {2, 3} && x < Modulus(w) && y < Modulus(w)
    ensures Computes(kind, f, x, y, w, Compute(OpOfKind(kind), f, x, y, w))
  {
    hide Compute, StatusMeans, FromBits, BitsBy, Half, Modulus, AdcFlags, SbbFlags;
    CarryAtWidth(f, x, y, kind == 3, w);
  }

  lemma MoveByKind(f: Rflags, x: nat, y: nat, w: Width)
    requires x < Modulus(w) && y < Modulus(w)
    ensures Computes(9, f, x, y, w, Compute(Mov, f, x, y, w))
  {
  }

  lemma ComputeStatusOnly(kind: nat, f: Rflags, x: nat, y: nat, w: Width)
    requires kind < 10 && x < Modulus(w) && y < Modulus(w)
    ensures StatusOnly(f, Compute(OpOfKind(kind), f, x, y, w).flags)
  {
    hide StatusOnly, Half, Modulus, SignedOf, Alu.Add, Alu.Sub, Alu.Adc, Alu.Sbb, BitAnd, BitOr, BitXor, ToBits, FromBits, Alu.UnsignedOf,
      BitwiseEffect, BitwiseResult;
    var h, a, b := Half(w), SignedOf(x, Half(w)), SignedOf(y, Half(w));
    match kind
    case 0 => SumsStatusOnly(f, a, b, h);
    case 2 => CarriesStatusOnly(f, a, b, h);
    case 3 => CarriesStatusOnly(f, a, b, h);
    case 5 => SumsStatusOnly(f, a, b, h);
    case 7 => SumsStatusOnly(f, a, b, h);
    case 9 => SameStatus(f);
    case _ =>
      BitwiseAtWidth(OpOfKind(kind), f, x, y, w);
      BitwiseStatusOnly(f, BitwiseResult(OpOfKind(kind), x, y, w), w, kind != 8);
  }

  lemma SameStatus(f: Rflags)
    ensures StatusOnly(f, f)
  {
  }

  lemma SumsStatusOnly(f: Rflags, a: int, b: int, h: nat)
    ensures StatusOnly(f, Alu.Add(f, a, b, h).flags) && StatusOnly(f, Alu.Sub(f, a, b, h).flags)
  {
    hide ByteParity, Alu.Low8, Alu.Wrap, Alu.UnsignedOf;
  }

  lemma CarriesStatusOnly(f: Rflags, a: int, b: int, h: nat)
    ensures StatusOnly(f, Alu.Adc(f, a, b, h).flags) && StatusOnly(f, Alu.Sbb(f, a, b, h).flags)
  {
    hide ByteParity, Alu.Low8, Alu.Wrap, Alu.UnsignedOf;
  }

  lemma BitwiseStatusOnly(f: Rflags, b: Bits, w: Width, store: bool)
    requires |b| == 8 * w
    ensures StatusOnly(f, BitwiseEffect(f, b, w, store).flags)
  {
    hide ByteParity, Alu.Low8, FromBits;
  }

  lemma DifferenceBorrow(x: nat, y: nat, w: Width)
    requires x < Modulus(w) && y < Modulus(w)
    ensures x - y < 0 || x - y >= Modulus(w) <==> x < y
    ensures !(x + y < 0)
  {
  }

  lemma BitwiseByKind(kind: nat, f: Rflags, x: nat, y: nat, w: Width)
    requires kind in {1, 4, 6, 8} && x < Modulus(w) && y < Modulus(w)
    ensures Computes(kind, f, x, y, w, Compute(OpOfKind(kind), f, x, y, w))
  {
    hide Compute, Alu.ResultMeans, FromBits, ToBits, Half, BitwiseEffect;
    var op := OpOfKind(kind);
    var b := BitwiseResult(op, x, y, w);
    assert b == BitsBy(kind, x, y, w);
    BitwiseAtWidth(op, f, x, y, w);
    BitwiseFlagsMean(f, b, w, !op.Test?);
    BitwiseStores(f, b, w, !op.Test?);
  }
}
