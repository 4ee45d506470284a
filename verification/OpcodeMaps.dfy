/**
 The opcode maps as tables by opcode number, and the grammar of instructions that they
 give: which byte strings are accepted, how long they are, and what each field holds.
 */
module OpcodeMaps {
  import opened Words
  import opened Instructions
  import opened Decoding
  import opened Codec

  /*
   One character for each opcode, high digit by row and low digit by column:
     .  not accepted                        M  ModR/M
     N  nothing follows                     B  ModR/M and an immediate byte
     b  an immediate byte                   Z  ModR/M and two bytes with 66H, else four
     w  two immediate bytes                 t  ModR/M, and a byte if its reg field is 0 or 1
     d  four immediate bytes                T  ModR/M, and two or four if its reg field is 0 or 1
     z  two bytes with 66H, else four       v  eight with REX.W, else two with 66H, else four
   */
  function OneByteRow(high: nat): (row: string)
    ensures |row| == 16
  {
    match high
    case 0 => "MMMMbz..MMMMbz.."
    case 1 => "MMMMbz..MMMMbz.."
    case 2 => "MMMMbz..MMMMbz.."
    case 3 => "MMMMbz..MMMMbz.."
    case 4 => "................"
    case 5 => "NNNNNNNNNNNNNNNN"
    case 6 => "...M....z.b....."
    case 7 => "bbbbbbbbbbbbbbbb"
    case 8 => "BZ.BMMMMMMMM.M.M"
    case 9 => "NNNNNNNNNN..NNNN"
    case 0xA => "........bzNN...."
    case 0xB => "bbbbbbbbvvvvvvvv"
    case 0xC => "BBwN..BZ.N......"
    case 0xD => "MMMM............"
    case 0xE => "........dd.b...."
    case _ => ".....NtTNNNNNNMM"
  }

  /** After the byte 0F. */
  function TwoByteRow(high: nat): (row: string)
    ensures |row| == 16
  {
    match high
    case 0 => ".....N.......M.."
    case 1 => "MMMMMMMMMMMMMMMM"
    case 2 => "........MMMMMMMM"
    case 3 => "................"
    case 4 => "MMMMMMMMMMMMMMMM"
    case 5 => "MMMMMMMMMMMMMMMM"
    case 6 => "MMMMMMMMMMMMMMMM"
    case 7 => "BBBBMMM.....MMMM"
    case 8 => "zzzzzzzzzzzzzzzz"
    case 9 => "MMMMMMMMMMMMMMMM"
    case 0xA => "..N............."
    case 0xB => "......MM........"
    case 0xC => "................"
    case 0xD => "................"
    case 0xE => "................"
    case _ => "................"
  }

  function OneByteEntry(op: byte): char { OneByteRow(op / 16)[op % 16] }

  function TwoByteEntry(op: byte): char { TwoByteRow(op / 16)[op % 16] }

  /** The character of a layout. */
  function EntryOf(l: Layout): char
  {
    match l
    case Invalid => '.'
    case Layout(modrm, imm) =>
      match imm
      case NoImm => if modrm then 'M' else 'N'
      case Imm8 => if modrm then 'B' else 'b'
      case Imm16 => if modrm then '?' else 'w'
      case Imm32 => if modrm then '?' else 'd'
      case Imm16_32 => if modrm then 'Z' else 'z'
      case Imm16_32_64 => if modrm then '?' else 'v'
      case TestImm8 => if modrm then 't' else '?'
      case TestImm16_32 => if modrm then 'T' else '?'
  }

  lemma OneByteMapHolds(op: byte)
    ensures EntryOf(OneByteLayout(op)) == OneByteEntry(op)
  {
    hide OneByteLayout, OneByteEntry, EntryOf;
    if op < 0x40 {
      OneByteRows0To3(op);
    } else if op < 0x80 {
      OneByteRows4To7(op);
    } else if op < 0xA0 {
      OneByteRows8To9(op);
    } else if op < 0xC0 {
      OneByteRowsAToB(op);
    } else if op < 0xE0 {
      OneByteRowsCToD(op);
    } else {
      OneByteRowsEToF(op);
    }
  }

  lemma OneByteRows0To3(op: byte)
    requires op < 0x40
    ensures EntryOf(OneByteLayout(op)) == OneByteEntry(op)
  {
  }

  lemma OneByteRows4To7(op: byte)
    requires 0x40 <= op < 0x80
    ensures EntryOf(OneByteLayout(op)) == OneByteEntry(op)
  {
  }

  lemma OneByteRows8To9(op: byte)
    requires 0x80 <= op < 0xA0
    ensures EntryOf(OneByteLayout(op)) == OneByteEntry(op)
  {
  }

  lemma OneByteRowsAToB(op: byte)
    requires 0xA0 <= op < 0xC0
    ensures EntryOf(OneByteLayout(op)) == OneByteEntry(op)
  {
  }

  lemma OneByteRowsCToD(op: byte)
    requires 0xC0 <= op < 0xE0
    ensures EntryOf(OneByteLayout(op)) == OneByteEntry(op)
  {
  }

  lemma OneByteRowsEToF(op: byte)
    requires 0xE0 <= op
    ensures EntryOf(OneByteLayout(op)) == OneByteEntry(op)
  {
  }

  lemma TwoByteMapHolds(op: byte)
    ensures EntryOf(TwoByteLayout(op)) == TwoByteEntry(op)
  {
    hide TwoByteLayout, TwoByteEntry, EntryOf;
    if op < 0x40 {
      TwoByteRows0To3(op);
    } else if op < 0x80 {
      TwoByteRows4To7(op);
    } else {
      TwoByteRows8ToF(op);
    }
  }

  lemma TwoByteRows0To3(op: byte)
    requires op < 0x40
    ensures EntryOf(TwoByteLayout(op)) == TwoByteEntry(op)
  {
  }

  lemma TwoByteRows4To7(op: byte)
    requires 0x40 <= op < 0x80
    ensures EntryOf(TwoByteLayout(op)) == TwoByteEntry(op)
  {
  }

  lemma TwoByteRows8ToF(op: byte)
    requires 0x80 <= op
    ensures EntryOf(TwoByteLayout(op)) == TwoByteEntry(op)
  {
  }

  // ---------------------------------------------------------------- lengths by number

  predicate HasModrm(c: char) { c in {'M', 'B', 'Z', 't', 'T'} }

  /**
   Bytes of ModR/M, SIB and displacement at the start of `t`, by the manual's table of
   addressing forms; more than there are if `t` stops short.
   */
  function FormLength(t: seq<byte>): nat
  {
    if |t| == 0 then 1
    else
      var mod, rm := t[0] / 64, t[0] % 8;
      if mod == 3 then 1
      else if rm == 4 then
        if mod == 1 then 3
        else if mod == 2 then 6
        else if |t| == 1 then 2
        else if t[1] % 8 == 5 then 6
        else 2
      else if mod == 1 then 2
      else if mod == 2 then 5
      else if rm == 5 then 5
      else 1
  }

  function FormOf(c: char, t: seq<byte>): nat { if HasModrm(c) then FormLength(t) else 0 }

  /** Bytes of immediate, by the character of the opcode, the prefixes and the ModR/M reg field. */
  function ImmediateOf(c: char, t: seq<byte>, wide: bool, short: bool): nat
  {
    match c
    case 'b' => 1
    case 'B' => 1
    case 'w' => 2
    case 'd' => 4
    case 'z' => if short then 2 else 4
    case 'Z' => if short then 2 else 4
    case 'v' => if wide then 8 else if short then 2 else 4
    case 't' => if |t| > 0 && (t[0] / 8) % 8 <= 1 then 1 else 0
    case 'T' => if |t| == 0 || (t[0] / 8) % 8 > 1 then 0 else if short then 2 else 4
    case _ => 0
  }

  /** The value of bytes `a` to `b` of `t`. */
  function Slice(t: seq<byte>, a: nat, b: nat): nat
  {
    if a <= b <= |t| then FromBytes(t[a..b]) else 0
  }

  /** What a record `r`, complete up to its opcode, becomes when the operand bytes are those of `t`. */
  predicate Filled(r: Ins, i: Ins, c: char, t: seq<byte>)
  {
    var form := FormOf(c, t);
    var sib := form >= 2 && t != [] && t[0] % 8 == 4;
    var n := form + ImmediateOf(c, t, (r.rex / 8) % 2 == 1, r.operandSz);
    && i == r.(modrm := i.modrm, sib := i.sib, displ := i.displ, imm := i.imm)
    && i.modrm == Slice(t, 0, if form > 0 then 1 else 0)
    && i.sib == Slice(t, 1, if sib then 2 else 1)
    && i.displ == Slice(t, if sib then 2 else if form > 0 then 1 else 0, form)
    && i.imm == Slice(t, form, n)
  }

  // ---------------------------------------------------------------- the operand bytes

  lemma FormText(m: seq<byte>, p: nat, i: Ins)
    requires p <= |m| && i.modrm == 0 && i.sib == 0 && i.displ == 0
    ensures var t, c := m[p..], FetchModrm(m, At(i, p));
      var n := FormLength(t);
      var sib := n >= 2 && t != [] && t[0] % 8 == 4;
      && (c.At? <==> n <= |t|)
      && (c.At? ==>
            && c.pc == p + n
            && c.ins == i.(modrm := t[0], sib := Slice(t, 1, if sib then 2 else 1), displ := Slice(t, if sib then 2 else 1, n)))
  {
    var t, n := m[p..], FormLength(m[p..]);
    assert forall k :: 0 <= k < |t| ==> t[k] == m[p + k];
    if 0 < n <= |t| {
      assert t[1..n] == m[p + 1..p + n];
      if n >= 2 {
        assert t[1..2] == [t[1]];
        assert t[2..n] == m[p + 2..p + n];
      }
    }
    hide ToBytes;
  }

  lemma SlicesOfRest(m: seq<byte>, p: nat, a: nat, b: nat)
    requires p <= |m| && a <= b
    ensures a <= b <= |m[p..]| ==> p + b <= |m| && m[p..][a..b] == m[p + a..p + b]
  {
  }

  lemma ImmText(m: seq<byte>, q: nat, i: Ins, kind: ImmKind)
    requires q <= |m| && i.imm == 0
    ensures var c, k := FetchImm(m, At(i, q), kind), ImmSize(kind, i);
      && (c.At? <==> q + k <= |m|)
      && (c.At? ==> c == At(i.(imm := FromBytes(m[q..q + k])), q + k))
  {
    hide ImmSize;
    assert m[q..q] == [] && FromBytes([]) == 0;
  }

  /** The size by layout is the size by character. */
  lemma SizeByCharacter(l: Layout, r: Ins, t: seq<byte>)
    requires l.Layout? && EntryOf(l) != '?' && (l.modrm ==> t != [] && r.modrm == t[0])
    ensures HasModrm(EntryOf(l)) == l.modrm
    ensures ImmSize(l.imm, r) == ImmediateOf(EntryOf(l), t, (r.rex / 8) % 2 == 1, r.operandSz)
  {
  }

  /** Without ModR/M bytes there is nothing left to read them from. */
  lemma CharacterOfModrm(l: Layout)
    requires l.Layout? && EntryOf(l) != '?'
    ensures HasModrm(EntryOf(l)) == l.modrm
  {
  }

  /** Operand bytes by layout and by the character of the layout. */
  lemma OperandsText(m: seq<byte>, p: nat, r: Ins, l: Layout, c: char)
    requires l.Layout? && EntryOf(l) == c && c != '?'
    requires p <= |m| && r.modrm == 0 && r.sib == 0 && r.displ == 0 && r.imm == 0
    ensures var t, d := m[p..], FetchOperands(m, At(r, p), l);
      var n := FormOf(c, t) + ImmediateOf(c, t, (r.rex / 8) % 2 == 1, r.operandSz);
      && (d.At? <==> n <= |t|)
      && (d.At? ==> d.pc == p + n && Filled(r, d.ins, c, t))
  {
    hide FetchModrm, FormLength, EntryOf, HasModrm, ImmSize, FetchImm, ImmediateOf, FromBytes;
    var t := m[p..];
    CharacterOfModrm(l);
    FirstSlices(t);
    if l.modrm {
      FormText(m, p, r);
      if FormLength(t) <= |t| {
        var i := FetchModrm(m, At(r, p)).ins;
        FormNotEmpty(t);
        SizeByCharacter(l, i, t);
        ImmText(m, p + FormLength(t), i, l.imm);
        SlicesOfRest(m, p, FormLength(t), FormLength(t) + ImmSize(l.imm, i));
      }
    } else {
      SizeByCharacter(l, r, t);
      ImmText(m, p, r, l.imm);
      SlicesOfRest(m, p, 0, ImmSize(l.imm, r));
    }
  }

  lemma FormNotEmpty(t: seq<byte>)
    ensures FormLength(t) > 0
  {
  }

  lemma FirstSlices(t: seq<byte>)
    ensures Slice(t, 0, 0) == 0 && Slice(t, 1, 1) == 0
    ensures t != [] ==> Slice(t, 0, 1) == t[0]
  {
    if t != [] {
      assert t[0..1] == [t[0]];
    }
  }

  // ---------------------------------------------------------------- whole instructions

  /** Any number of these may stand in front. */
  predicate LegacyPrefixes(ps: seq<byte>)
  {
    forall k :: 0 <= k < |ps| ==> ps[k] in {0x26, 0x2E, 0x36, 0x3E, 0x66, 0x67, 0xF2, 0xF3}
  }

  /** No REX prefix, or one. */
  predicate RexPrefix(rx: seq<byte>) { rx == [] || (|rx| == 1 && 0x40 <= rx[0] <= 0x4F) }

  /** Without REX, an opcode byte is not itself a legacy or REX prefix. */
  predicate OpcodeAfter(rx: seq<byte>, op: byte)
  {
    rx == [] ==> op !in {0x26, 0x2E, 0x36, 0x3E, 0x66, 0x67, 0xF2, 0xF3} && !(0x40 <= op <= 0x4F)
  }

  /** The record when prefixes and the opcode have been read. */
  function Opened(ps: seq<byte>, rx: seq<byte>, op0: byte, op1: byte): Ins
  {
    Ins(LastRep(ps, 0), if rx == [] then 0 else rx[0], 0x66 in ps, 0x67 in ps, op0, op1, 0, 0, 0, 0)
  }

  /** The decoder's cursor when it has read prefixes and the first opcode byte. */
  lemma OpeningText(ps: seq<byte>, rx: seq<byte>, op: byte, t: seq<byte>)
    requires LegacyPrefixes(ps) && RexPrefix(rx) && OpcodeAfter(rx, op)
    ensures FetchPrefixes(ps + rx + [op] + t, 0, ZERO_INS) ==
      At(Opened(ps, rx, if rx == [] && op in {0x64, 0x65, 0xF0} then 6 else op, 0), |ps| + |rx| + 1)
  {
    var m, i := ps + rx + [op] + t, ZERO_INS.(operandSz := 0x66 in ps, addressSz := 0x67 in ps, rep := LastRep(ps, 0));
    assert m == ps + (rx + [op] + t);
    PrefixRunMeaning(ps, rx + [op] + t);
    hide LastRep;
    if rx == [] {
      assert m[|ps|] == op;
    } else {
      assert m[|ps|] == rx[0] && m[|ps| + 1] == op;
    }
  }

  /**
   A text of prefixes, one opcode byte and `t` is accepted exactly if the map has the
   opcode; it is as long as the map, the addressing form and the prefixes say, and too
   short a `t` is a fault. The record holds the prefixes, the opcode and the operand bytes.
   */
  lemma OneByteText(ps: seq<byte>, rx: seq<byte>, op: byte, t: seq<byte>)
    requires LegacyPrefixes(ps) && RexPrefix(rx) && OpcodeAfter(rx, op) && op != 0x0F
    ensures var c, p, d := OneByteEntry(op), |ps| + |rx| + 1, Decode(ps + rx + [op] + t, 0);
      var n := FormOf(c, t) + ImmediateOf(c, t, rx != [] && (rx[0] / 8) % 2 == 1, 0x66 in ps);
      if c == '.' then d.Done? && !d.ok && d.pc == p
      else if n > |t| then d.Fault?
      else d.Done? && d.ok && d.pc == p + n && Filled(Opened(ps, rx, op, 0), d.ins, c, t)
  {
    hide OneByteLayout, OneByteRow, FetchOperands, EntryOf, Filled, FormOf, ImmediateOf, FetchPrefixes;
    var m, p := ps + rx + [op] + t, |ps| + |rx| + 1;
    OpeningText(ps, rx, op, t);
    OneByteMapHolds(op);
    Refused64();
    EntryInvalid(OneByteLayout(op));
    assert m[p..] == t;
    if OneByteEntry(op) != '.' {
      OneByteMapIsFull(op);
      OperandsText(m, p, Opened(ps, rx, op, 0), OneByteLayout(op), OneByteEntry(op));
    }
  }

  /** The same after 0F: the second opcode byte decides. */
  lemma TwoByteText(ps: seq<byte>, rx: seq<byte>, op: byte, t: seq<byte>)
    requires LegacyPrefixes(ps) && RexPrefix(rx)
    ensures var c, p, d := TwoByteEntry(op), |ps| + |rx| + 2, Decode(ps + rx + [0x0F, op] + t, 0);
      var n := FormOf(c, t) + ImmediateOf(c, t, rx != [] && (rx[0] / 8) % 2 == 1, 0x66 in ps);
      if c == '.' then d.Done? && !d.ok && d.pc == p
      else if n > |t| then d.Fault?
      else d.Done? && d.ok && d.pc == p + n && Filled(Opened(ps, rx, 0x0F, op), d.ins, c, t)
  {
    hide TwoByteLayout, TwoByteRow, FetchOperands, EntryOf, Filled, FormOf, ImmediateOf, FetchPrefixes;
    var m, p := ps + rx + [0x0F, op] + t, |ps| + |rx| + 2;
    assert m == ps + rx + [0x0F] + ([op] + t);
    OpeningText(ps, rx, 0x0F, [op] + t);
    assert m[p - 1] == op;
    TwoByteMapHolds(op);
    EntryInvalid(TwoByteLayout(op));
    assert m[p..] == t;
    if TwoByteEntry(op) != '.' {
      TwoByteMapIsFull(op);
      OperandsText(m, p, Opened(ps, rx, 0x0F, op), TwoByteLayout(op), TwoByteEntry(op));
    }
  }

  lemma EntryInvalid(l: Layout)
    ensures EntryOf(l) == '.' <==> l.Invalid?
  {
  }

  lemma Refused64()
    ensures OneByteLayout(6).Invalid? && OneByteEntry(0x64) == '.' && OneByteEntry(0x65) == '.' && OneByteEntry(0xF0) == '.'
  {
  }

  lemma OneByteMapIsFull(op: byte)
    ensures EntryOf(OneByteLayout(op)) != '?'
  {
  }

  lemma TwoByteMapIsFull(op: byte)
    ensures EntryOf(TwoByteLayout(op)) != '?'
  {
  }
}
