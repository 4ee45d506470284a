/**
 The decoder as a function from a byte string and a start position. Reading past the
 end of the string, a fault in the emulator, is `OffEnd`.
 */
module Decoding {
  import opened Words
  import opened Instructions

  /** A partly decoded instruction and the position of the next byte to fetch. */
  datatype Cursor = OffEnd | At(ins: Ins, pc: nat)

  /** The decoder's verdict: whether it accepts, the record it filled in, and where it stopped. */
  datatype Decoded = Fault | Done(ok: bool, ins: Ins, pc: nat)

  predicate IsRex(b: byte) { 0x40 <= b <= 0x4F }

  /** Prefix bytes after which the prefix loop goes round again. */
  predicate IsLegacy(b: byte) { b in {0x26, 0x2E, 0x36, 0x3E, 0x66, 0x67, 0xF2, 0xF3} }

  /** Segment overrides by FS and GS, and LOCK, are turned into an invalid opcode. */
  predicate IsRefused(b: byte) { b in {0x64, 0x65, 0xF0} }

  /** What one legacy prefix records. */
  function NotePrefix(b: byte, i: Ins): Ins
  {
    if b == 0x66 then i.(operandSz := true)
    else if b == 0x67 then i.(addressSz := true)
    else if b == 0xF2 || b == 0xF3 then i.(rep := b)
    else i
  }

  /** Prefixes up to and including the first opcode byte, stored in `op0`. */
  function FetchPrefixes(m: seq<byte>, pc: nat, i: Ins): (c: Cursor)
    ensures c.At? ==> pc < c.pc <= |m|
    decreases |m| - pc
  {
    if pc >= |m| then OffEnd
    else if IsRex(m[pc]) then
      if pc + 1 >= |m| then OffEnd else At(i.(rex := m[pc], op0 := m[pc + 1]), pc + 2)
    else if IsRefused(m[pc]) then At(i.(op0 := 6), pc + 1)
    else if IsLegacy(m[pc]) then FetchPrefixes(m, pc + 1, NotePrefix(m[pc], i))
    else At(i.(op0 := m[pc]), pc + 1)
  }

  function FetchOp1(m: seq<byte>, c: Cursor): (r: Cursor)
    ensures r.At? ==> c.At? && c.pc <= r.pc
    ensures c.At? && r.At? && c.pc <= |m| ==> r.pc <= |m|
  {
    if c.OffEnd? || c.ins.op0 != 0x0F then c
    else if c.pc >= |m| then OffEnd
    else At(c.ins.(op1 := m[c.pc]), c.pc + 1)
  }

  function FetchSib(m: seq<byte>, c: Cursor): (r: Cursor)
    ensures r.At? ==> c.At? && c.pc <= r.pc
    ensures c.At? && r.At? && c.pc <= |m| ==> r.pc <= |m|
  {
    if c.OffEnd? || !HasSib(c.ins.modrm) then c
    else if c.pc >= |m| then OffEnd
    else At(c.ins.(sib := m[c.pc]), c.pc + 1)
  }

  /** A little-endian field of `k` bytes. */
  function Field(m: seq<byte>, pc: nat, k: nat): (v: u64)
    requires pc + k <= |m| && k <= 8
  {
    Pow256Monotone(k, 8);
    Pow256AtWidth(8);
    FromBytes(m[pc..pc + k])
  }

  function FetchDispl(m: seq<byte>, c: Cursor): (r: Cursor)
    ensures r.At? ==> c.At? && c.pc <= r.pc
    ensures c.At? && r.At? && c.pc <= |m| ==> r.pc <= |m|
  {
    if c.OffEnd? then c else
    var k := DisplSize(c.ins.modrm, c.ins.sib);
    if k == 0 then c
    else if c.pc + k > |m| then OffEnd
    else At(c.ins.(displ := Field(m, c.pc, k)), c.pc + k)
  }

  /** ModR/M, SIB and displacement. */
  function FetchModrm(m: seq<byte>, c: Cursor): (r: Cursor)
    ensures r.At? ==> c.At? && c.pc <= r.pc
    ensures c.At? && r.At? && c.pc <= |m| ==> r.pc <= |m|
  {
    if c.OffEnd? then c
    else if c.pc >= |m| then OffEnd
    else FetchDispl(m, FetchSib(m, At(c.ins.(modrm := m[c.pc]), c.pc + 1)))
  }

  function FetchImm(m: seq<byte>, c: Cursor, kind: ImmKind): (r: Cursor)
    ensures r.At? ==> c.At? && c.pc <= r.pc
    ensures c.At? && r.At? && c.pc <= |m| ==> r.pc <= |m|
  {
    if c.OffEnd? then c else
    var k := ImmSize(kind, c.ins);
    if k == 0 then c
    else if c.pc + k > |m| then OffEnd
    else At(c.ins.(imm := Field(m, c.pc, k)), c.pc + k)
  }

  /** The fields that the opcode's layout asks for. */
  function FetchOperands(m: seq<byte>, c: Cursor, l: Layout): (r: Cursor)
    requires l.Layout?
    ensures r.At? ==> c.At? && c.pc <= r.pc
    ensures c.At? && r.At? && c.pc <= |m| ==> r.pc <= |m|
  {
    FetchImm(m, if l.modrm then FetchModrm(m, c) else c, l.imm)
  }

  /** Everything after the prefixes and the first opcode byte. */
  function DecodeRest(m: seq<byte>, c0: Cursor): (d: Decoded)
    ensures d.Done? ==> c0.At? && c0.pc <= d.pc && (c0.pc <= |m| ==> d.pc <= |m|)
  {
    var c := FetchOp1(m, c0);
    if c.OffEnd? then Fault
    else if LayoutOf(c.ins).Invalid? then Done(false, c.ins, c.pc)
    else
      var r := FetchOperands(m, c, LayoutOf(c.ins));
      if r.OffEnd? then Fault else Done(true, r.ins, r.pc)
  }

  function Decode(m: seq<byte>, pc: nat): (d: Decoded)
    ensures d.Done? ==> pc < d.pc <= |m|
  {
    DecodeRest(m, FetchPrefixes(m, pc, ZERO_INS))
  }

  predicate Accepted(d: Decoded) { d.Done? && d.ok }
}
