/** The decoded-instruction record, its bit fields, and the opcode maps. */
module Instructions {
  import opened Words

  /** Fields that an encoding does not carry are zero. */
  datatype Ins = Ins(
    rep: byte,            // last F2/F3 prefix
    rex: byte,            // REX prefix
    operandSz: bool,      // 66H present
    addressSz: bool,      // 67H present
    op0: byte,
    op1: byte,            // second opcode byte after 0F
    modrm: byte,
    sib: byte,
    displ: u64,
    imm: u64)
  {
    predicate RexW() { (rex / 8) % 2 == 1 }
    function RexR(): (n: nat) ensures n <= 1 { (rex / 4) % 2 }
    function RexX(): (n: nat) ensures n <= 1 { (rex / 2) % 2 }
    function RexB(): (n: nat) ensures n <= 1 { rex % 2 }

    function Mod(): (n: nat) ensures n <= 3 { modrm / 64 }
    function Reg(): (n: nat) ensures n <= 7 { (modrm / 8) % 8 }
    function Rm(): (n: nat) ensures n <= 7 { modrm % 8 }

    function SibScale(): (n: nat) ensures n <= 3 { sib / 64 }
    function SibIndex(): (n: nat) ensures n <= 7 { (sib / 8) % 8 }
    function SibBase(): (n: nat) ensures n <= 7 { sib % 8 }

    /** A register number widened by a REX bit. */
    function RegIndex(): RegIdx { Reg() + 8 * RexR() }
    function RmIndex(): RegIdx { Rm() + 8 * RexB() }
    function OpIndex(): RegIdx { op0 % 8 + 8 * RexB() }

    /** The fields that decide which operation is performed. */
    function Head(): Ins { Ins(rep, rex, operandSz, false, op0, if op0 == 0x0F then op1 else 0, modrm, 0, 0, 0) }

    /** Operand width selected by REX.W and 66H. */
    function OpWidth(): Width { if RexW() then 8 else if operandSz then 2 else 4 }
  }

  const ZERO_INS := Ins(0, 0, false, false, 0, 0, 0, 0, 0, 0)

  // ---------------------------------------------------------------- opcode maps

  /** Which immediate follows the operand bytes. */
  datatype ImmKind =
    | NoImm
    | Imm8
    | Imm16
    | Imm32
    | Imm16_32        // by 66H
    | Imm16_32_64     // by REX.W, then 66H
    | TestImm8        // only for ModR/M extensions 0 and 1
    | TestImm16_32

  datatype Layout = Invalid | Layout(modrm: bool, imm: ImmKind)

  function ImmSize(kind: ImmKind, i: Ins): (k: nat)
    ensures k == 0 || k == 1 || k == 2 || k == 4 || k == 8
  {
    match kind
    case NoImm => 0
    case Imm8 => 1
    case Imm16 => 2
    case Imm32 => 4
    case Imm16_32 => if i.operandSz then 2 else 4
    case Imm16_32_64 => if i.RexW() then 8 else if i.operandSz then 2 else 4
    case TestImm8 => if i.Reg() <= 1 then 1 else 0
    case TestImm16_32 => if i.Reg() > 1 then 0 else if i.operandSz then 2 else 4
  }

  /** The one-byte opcode map, 0F excluded. */
  function OneByteLayout(op: byte): Layout
  {
    if op < 0x40 then
      if op % 8 <= 3 then Layout(true, NoImm)
      else if op % 8 == 4 then Layout(false, Imm8)
      else if op % 8 == 5 then Layout(false, Imm16_32)
      else Invalid
    else if 0x50 <= op <= 0x5F then Layout(false, NoImm)
    else if op == 0x63 then Layout(true, NoImm)
    else if op == 0x68 then Layout(false, Imm16_32)
    else if op == 0x6A then Layout(false, Imm8)
    else if 0x70 <= op <= 0x7F then Layout(false, Imm8)
    else if op == 0x80 || op == 0x83 then Layout(true, Imm8)
    else if op == 0x81 then Layout(true, Imm16_32)
    else if 0x84 <= op <= 0x8B || op == 0x8D || op == 0x8F then Layout(true, NoImm)
    else if 0x90 <= op <= 0x99 || 0x9C <= op <= 0x9F then Layout(false, NoImm)
    else if op == 0xA8 then Layout(false, Imm8)
    else if op == 0xA9 then Layout(false, Imm16_32)
    else if 0xAA <= op <= 0xAB then Layout(false, NoImm)
    else if 0xB0 <= op <= 0xB7 then Layout(false, Imm8)
    else if 0xB8 <= op <= 0xBF then Layout(false, Imm16_32_64)
    else if 0xC0 <= op <= 0xC1 then Layout(true, Imm8)
    else if op == 0xC2 then Layout(false, Imm16)
    else if op == 0xC3 || op == 0xC9 then Layout(false, NoImm)
    else if op == 0xC6 then Layout(true, Imm8)
    else if op == 0xC7 then Layout(true, Imm16_32)
    else if 0xD0 <= op <= 0xD3 then Layout(true, NoImm)
    else if 0xE8 <= op <= 0xE9 then Layout(false, Imm32)
    else if op == 0xEB then Layout(false, Imm8)
    else if op == 0xF5 || 0xF8 <= op <= 0xFD then Layout(false, NoImm)
    else if op == 0xF6 then Layout(true, TestImm8)
    else if op == 0xF7 then Layout(true, TestImm16_32)
    else if 0xFE <= op <= 0xFF then Layout(true, NoImm)
    else Invalid
  }

  /** The two-byte opcode map, indexed by the byte after 0F. */
  function TwoByteLayout(op: byte): Layout
  {
    if op == 0x05 || op == 0xA2 then Layout(false, NoImm)
    else if op == 0x0D || 0x10 <= op <= 0x1F || 0x28 <= op <= 0x2F || 0x40 <= op <= 0x6F then Layout(true, NoImm)
    else if 0x70 <= op <= 0x73 then Layout(true, Imm8)
    else if 0x74 <= op <= 0x76 || 0x7C <= op <= 0x7F then Layout(true, NoImm)
    else if 0x80 <= op <= 0x8F then Layout(false, Imm16_32)
    else if 0x90 <= op <= 0x9F || 0xB6 <= op <= 0xB7 then Layout(true, NoImm)
    else Invalid
  }

  function LayoutOf(i: Ins): Layout
  {
    if i.op0 == 0x0F then TwoByteLayout(i.op1) else OneByteLayout(i.op0)
  }

  /** A ModR/M byte is followed by a SIB byte. */
  predicate HasSib(modrm: byte) { modrm / 64 != 3 && modrm % 8 == 4 }

  /** Length of the displacement after ModR/M and SIB. */
  function DisplSize(modrm: byte, sib: byte): (k: nat)
    ensures k == 0 || k == 1 || k == 4
  {
    var mod, rm := modrm / 64, modrm % 8;
    if mod == 0 then (if rm == 5 || (rm == 4 && sib % 8 == 5) then 4 else 0)
    else if mod == 1 then 1
    else if mod == 2 then 4
    else 0
  }
}
