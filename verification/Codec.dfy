/**
 What the decoder's verdict depends on, the canonical encoder, their round trips, the
 prefix loop as a whole, and the length bound.
 */
module Codec {
  import opened Words
  import opened Instructions
  import opened Decoding

  // ---------------------------------------------------------------- locality

  /** `n` shows at `x + off` what `m` shows at `x`, for `lo <= x < hi`. */
  predicate Agree(m: seq<byte>, n: seq<byte>, off: int, lo: nat, hi: nat)
  {
    && hi <= |m|
    && 0 <= lo + off
    && hi + off <= |n|
    && forall x :: lo <= x < hi ==> n[x + off] == m[x]
  }

  function Shift(c: Cursor, off: int): Cursor
    requires c.At? ==> c.pc + off >= 0
  {
    if c.At? then At(c.ins, c.pc + off) else c
  }

  lemma {:induction false} PrefixesLocal(m: seq<byte>, n: seq<byte>, off: int, pc: nat, i: Ins, hi: nat)
    requires FetchPrefixes(m, pc, i).At? && FetchPrefixes(m, pc, i).pc <= hi
    requires Agree(m, n, off, pc, hi)
    ensures FetchPrefixes(n, pc + off, i) == Shift(FetchPrefixes(m, pc, i), off)
    decreases |m| - pc
  {
    assert n[pc + off] == m[pc];
    if IsRex(m[pc]) {
      assert n[pc + 1 + off] == m[pc + 1];
    } else if !IsRefused(m[pc]) && IsLegacy(m[pc]) {
      PrefixesLocal(m, n, off, pc + 1, NotePrefix(m[pc], i), hi);
    }
  }

  lemma FieldLocal(m: seq<byte>, n: seq<byte>, off: int, pc: nat, k: nat)
    requires k <= 8 && Agree(m, n, off, pc, pc + k)
    ensures Field(n, pc + off, k) == Field(m, pc, k)
  {
    assert n[pc + off..pc + off + k] == m[pc..pc + k];
  }

  lemma Op1Local(m: seq<byte>, n: seq<byte>, off: int, c: Cursor, hi: nat)
    requires c.At? && FetchOp1(m, c).At? && FetchOp1(m, c).pc <= hi && Agree(m, n, off, c.pc, hi)
    ensures FetchOp1(n, Shift(c, off)) == Shift(FetchOp1(m, c), off)
  {
  }

  lemma ModrmLocal(m: seq<byte>, n: seq<byte>, off: int, c: Cursor, hi: nat)
    requires c.At? && FetchModrm(m, c).At? && FetchModrm(m, c).pc <= hi && Agree(m, n, off, c.pc, hi)
    ensures FetchModrm(n, Shift(c, off)) == Shift(FetchModrm(m, c), off)
  {
    var c1 := At(c.ins.(modrm := m[c.pc]), c.pc + 1);
    assert n[c.pc + off] == m[c.pc];
    var c2 := FetchSib(m, c1);
    assert FetchSib(n, Shift(c1, off)) == Shift(c2, off) by {
      if HasSib(c1.ins.modrm) {
        assert n[c1.pc + off] == m[c1.pc];
      }
    }
    var k := DisplSize(c2.ins.modrm, c2.ins.sib);
    if k > 0 {
      FieldLocal(m, n, off, c2.pc, k);
    }
  }

  lemma ImmLocal(m: seq<byte>, n: seq<byte>, off: int, c: Cursor, kind: ImmKind, hi: nat)
    requires c.At? && FetchImm(m, c, kind).At? && FetchImm(m, c, kind).pc <= hi && Agree(m, n, off, c.pc, hi)
    ensures FetchImm(n, Shift(c, off), kind) == Shift(FetchImm(m, c, kind), off)
  {
    var k := ImmSize(kind, c.ins);
    if k > 0 {
      FieldLocal(m, n, off, c.pc, k);
    }
  }

  lemma RestLocal(m: seq<byte>, n: seq<byte>, off: int, c0: Cursor)
    requires var d := DecodeRest(m, c0); d.Done? && Agree(m, n, off, c0.pc, d.pc)
    ensures var d := DecodeRest(m, c0); DecodeRest(n, Shift(c0, off)) == Done(d.ok, d.ins, d.pc + off)
  {
    var hi := DecodeRest(m, c0).pc;
    var c := FetchOp1(m, c0);
    Op1Local(m, n, off, c0, hi);
    var l := LayoutOf(c.ins);
    if l.Layout? {
      var c1 := if l.modrm then FetchModrm(m, c) else c;
      if l.modrm {
        ModrmLocal(m, n, off, c, hi);
      }
      ImmLocal(m, n, off, c1, l.imm, hi);
    }
  }

  /**
   Verdict, record and consumed length depend only on the bytes consumed: they are the
   same wherever those bytes stand and whatever follows them.
   */
  lemma DecodeIsLocal(m: seq<byte>, n: seq<byte>, pc: nat, off: int)
    requires var d := Decode(m, pc); d.Done? && Agree(m, n, off, pc, d.pc)
    ensures var d := Decode(m, pc); Decode(n, pc + off) == Done(d.ok, d.ins, d.pc + off)
  {
    PrefixesLocal(m, n, off, pc, ZERO_INS, Decode(m, pc).pc);
    RestLocal(m, n, off, FetchPrefixes(m, pc, ZERO_INS));
  }

  // ---------------------------------------------------------------- well-formed records

  /** The records the decoder can produce: unfetched fields are zero, fetched ones fit. */
  predicate WellFormed(i: Ins)
  {
    var l := LayoutOf(i);
    && (i.rep == 0 || i.rep == 0xF2 || i.rep == 0xF3)
    && (i.rex == 0 || IsRex(i.rex))
    && (i.op0 != 0x0F ==> i.op1 == 0)
    && l.Layout?
    && (!l.modrm ==> i.modrm == 0 && i.sib == 0 && i.displ == 0)
    && (l.modrm && !HasSib(i.modrm) ==> i.sib == 0)
    && (l.modrm ==> i.displ < Pow256(DisplSize(i.modrm, i.sib)))
    && i.imm < Pow256(ImmSize(l.imm, i))
  }

  /** Only prefix fields and the opcode have been written. */
  predicate PrefixOnly(i: Ins)
  {
    && (i.rep == 0 || i.rep == 0xF2 || i.rep == 0xF3)
    && (i.rex == 0 || IsRex(i.rex))
    && i.op1 == 0 && i.modrm == 0 && i.sib == 0 && i.displ == 0 && i.imm == 0
  }

  lemma {:induction false} PrefixesKeepRest(m: seq<byte>, pc: nat, i: Ins)
    requires PrefixOnly(i) && FetchPrefixes(m, pc, i).At?
    ensures PrefixOnly(FetchPrefixes(m, pc, i).ins)
    decreases |m| - pc
  {
    if !IsRex(m[pc]) && !IsRefused(m[pc]) && IsLegacy(m[pc]) {
      PrefixesKeepRest(m, pc + 1, NotePrefix(m[pc], i));
    }
  }

  lemma AcceptedIsWellFormed(m: seq<byte>, pc: nat)
    requires Accepted(Decode(m, pc))
    ensures WellFormed(Decode(m, pc).ins)
  {
    hide OneByteLayout, TwoByteLayout, WellFormed, FetchOperands;
    PrefixesKeepRest(m, pc, ZERO_INS);
    OperandsWellFormed(m, FetchOp1(m, FetchPrefixes(m, pc, ZERO_INS)));
  }

  /** ModR/M bytes fill in exactly the fields they carry. */
  lemma ModrmWellFormed(m: seq<byte>, c: Cursor)
    requires c.At? && FetchModrm(m, c).At? && c.ins.sib == 0 && c.ins.displ == 0
    ensures var i := FetchModrm(m, c).ins;
      && i == c.ins.(modrm := i.modrm, sib := i.sib, displ := i.displ)
      && (!HasSib(i.modrm) ==> i.sib == 0)
      && i.displ < Pow256(DisplSize(i.modrm, i.sib))
  {
  }

  /** Immediate bytes fill in only their field, and move the cursor by their number. */
  lemma ImmFetched(m: seq<byte>, c: Cursor, l: Layout)
    requires l.Layout? && c.At? && FetchImm(m, c, l.imm).At?
    ensures var r := FetchImm(m, c, l.imm);
      && r.ins == c.ins.(imm := r.ins.imm)
      && ImmSize(l.imm, r.ins) == ImmSize(l.imm, c.ins)
      && r.pc == c.pc + ImmSize(l.imm, r.ins)
      && (c.ins.imm == 0 ==> r.ins.imm < Pow256(ImmSize(l.imm, r.ins)))
  {
  }

  lemma OperandsWellFormed(m: seq<byte>, c: Cursor)
    requires c.At? && LayoutOf(c.ins).Layout?
    requires PrefixOnly(c.ins.(op1 := 0)) && (c.ins.op0 != 0x0F ==> c.ins.op1 == 0)
    requires FetchOperands(m, c, LayoutOf(c.ins)).At?
    ensures WellFormed(FetchOperands(m, c, LayoutOf(c.ins)).ins)
  {
    hide OneByteLayout, TwoByteLayout, FetchModrm, DisplSize, FetchImm, ImmSize, Pow256;
    var l := LayoutOf(c.ins);
    var c1 := c;
    if l.modrm {
      ModrmWellFormed(m, c);
      c1 := FetchModrm(m, c);
    }
    ImmFetched(m, c1, l);
    assert LayoutOf(FetchImm(m, c1, l.imm).ins) == l;
  }

  // ---------------------------------------------------------------- the encoder

  function LegacyBytes(i: Ins): seq<byte>
  {
    (if i.operandSz then [0x66] else []) +
    (if i.addressSz then [0x67] else []) +
    (if i.rep != 0 then [i.rep] else [])
  }

  function OpcodeBytes(i: Ins): seq<byte>
  {
    (if i.rex != 0 then [i.rex] else []) + [i.op0] + (if i.op0 == 0x0F then [i.op1] else [])
  }

  function ModrmBytes(i: Ins): seq<byte>
  {
    if LayoutOf(i).Layout? && LayoutOf(i).modrm then
      [i.modrm] + (if HasSib(i.modrm) then [i.sib] else []) + ToBytes(i.displ, DisplSize(i.modrm, i.sib))
    else []
  }

  function ImmBytes(i: Ins): seq<byte>
  {
    if LayoutOf(i).Layout? then ToBytes(i.imm, ImmSize(LayoutOf(i).imm, i)) else []
  }

  /** The canonical encoding: each prefix at most once, 66H, 67H, F2/F3 and REX in this order. */
  function Encode(i: Ins): seq<byte>
  {
    LegacyBytes(i) + OpcodeBytes(i) + ModrmBytes(i) + ImmBytes(i)
  }

  // ---------------------------------------------------------------- the prefix loop

  predicate AllLegacy(ps: seq<byte>) { forall j :: 0 <= j < |ps| ==> IsLegacy(ps[j]) }

  /** What a run of legacy prefixes records. */
  function NoteAll(ps: seq<byte>, i: Ins): Ins
  {
    if |ps| == 0 then i else NoteAll(ps[1..], NotePrefix(ps[0], i))
  }

  lemma {:induction false} PrefixRun(m: seq<byte>, pc: nat, ps: seq<byte>, i: Ins)
    requires AllLegacy(ps) && pc + |ps| <= |m| && m[pc..pc + |ps|] == ps
    ensures FetchPrefixes(m, pc, i) == FetchPrefixes(m, pc + |ps|, NoteAll(ps, i))
    decreases |ps|
  {
    if |ps| > 0 {
      assert m[pc] == ps[0];
      assert m[pc + 1..pc + |ps|] == ps[1..];
      PrefixRun(m, pc + 1, ps[1..], NotePrefix(ps[0], i));
    }
  }

  /** The last F2 or F3 of a run, or `d` if there is none. */
  function LastRep(ps: seq<byte>, d: byte): byte
  {
    if |ps| == 0 then d
    else LastRep(ps[1..], if ps[0] == 0xF2 || ps[0] == 0xF3 then ps[0] else d)
  }

  lemma {:induction false} NoteAllMeaning(ps: seq<byte>, i: Ins)
    ensures NoteAll(ps, i) == i.(operandSz := i.operandSz || 0x66 in ps,
                                 addressSz := i.addressSz || 0x67 in ps,
                                 rep := LastRep(ps, i.rep))
  {
    if |ps| > 0 {
      NoteAllMeaning(ps[1..], NotePrefix(ps[0], i));
      assert ps == [ps[0]] + ps[1..];
    }
  }

  /** The F2/F3 bytes of a run, in order. */
  function Reps(ps: seq<byte>): seq<byte>
  {
    if |ps| == 0 then []
    else (if ps[0] == 0xF2 || ps[0] == 0xF3 then [ps[0]] else []) + Reps(ps[1..])
  }

  lemma {:induction false} LastRepOfReps(ps: seq<byte>, d: byte)
    ensures LastRep(ps, d) == if |Reps(ps)| == 0 then d else Reps(ps)[|Reps(ps)| - 1]
  {
    if |ps| > 0 {
      var rest := Reps(ps[1..]);
      if ps[0] == 0xF2 || ps[0] == 0xF3 {
        LastRepOfReps(ps[1..], ps[0]);
        assert Reps(ps) == [ps[0]] + rest;
      } else {
        LastRepOfReps(ps[1..], d);
        assert Reps(ps) == rest;
      }
    }
  }

  /**
   Legacy prefixes before any instruction text `t`: 66H and 67H count by presence, F2/F3
   by the last one, and the rest of the decoding is that of `t` with these three noted.
   */
  lemma PrefixRunMeaning(ps: seq<byte>, t: seq<byte>)
    requires AllLegacy(ps)
    ensures FetchPrefixes(ps + t, 0, ZERO_INS) ==
            FetchPrefixes(ps + t, |ps|, ZERO_INS.(operandSz := 0x66 in ps, addressSz := 0x67 in ps, rep := LastRep(ps, 0)))
  {
    assert (ps + t)[0..0 + |ps|] == ps;
    PrefixRun(ps + t, 0, ps, ZERO_INS);
    NoteAllMeaning(ps, ZERO_INS);
  }

  /** Reordering legacy prefixes without disturbing the F2/F3 bytes changes nothing. */
  lemma PrefixOrderIrrelevant(ps: seq<byte>, qs: seq<byte>, t: seq<byte>)
    requires AllLegacy(ps) && multiset(ps) == multiset(qs) && Reps(ps) == Reps(qs)
    ensures Decode(ps + t, 0) == Decode(qs + t, 0)
  {
    assert |ps| == |multiset(ps)| == |multiset(qs)| == |qs|;
    forall j | 0 <= j < |qs|
      ensures IsLegacy(qs[j])
    {
      assert qs[j] in multiset(qs);
      assert qs[j] in multiset(ps);
      assert qs[j] in ps;
    }
    assert forall b :: b in ps <==> b in multiset(ps);
    assert forall b :: b in qs <==> b in multiset(qs);
    PrefixRunMeaning(ps, t);
    PrefixRunMeaning(qs, t);
    LastRepOfReps(ps, 0);
    LastRepOfReps(qs, 0);
    var i := ZERO_INS.(operandSz := 0x66 in ps, addressSz := 0x67 in ps, rep := LastRep(ps, 0));
    if Decode(ps + t, 0).Done? {
      Resume(ps + t, qs + t, |ps|, i);
    }
    if Decode(qs + t, 0).Done? {
      Resume(qs + t, ps + t, |ps|, i);
    }
  }

  /** Two strings whose prefixes lead to the same record, and that agree from there on. */
  lemma Resume(m: seq<byte>, n: seq<byte>, pc: nat, i: Ins)
    requires pc <= |m| == |n| && m[pc..] == n[pc..]
    requires FetchPrefixes(m, 0, ZERO_INS) == FetchPrefixes(m, pc, i)
    requires FetchPrefixes(n, 0, ZERO_INS) == FetchPrefixes(n, pc, i)
    requires Decode(m, 0).Done?
    ensures Decode(n, 0) == Decode(m, 0)
  {
    var hi := Decode(m, 0).pc;
    forall x | pc <= x < |m|
      ensures m[x] == n[x]
    {
      assert m[x] == m[pc..][x - pc] && n[x] == n[pc..][x - pc];
    }
    assert Agree(m, n, 0, pc, hi);
    PrefixesLocal(m, n, 0, pc, i, hi);
    RestLocal(m, n, 0, FetchPrefixes(m, pc, i));
  }

  // ---------------------------------------------------------------- round trips

  lemma FieldOfBytes(m: seq<byte>, pc: nat, v: u64, k: nat)
    requires k <= 8 && v < Pow256(k) && pc + k <= |m| && m[pc..pc + k] == ToBytes(v, k)
    ensures Field(m, pc, k) == v
  {
    FromBytesOfToBytes(v, k);
  }

  /** The prefix fields of a record, before anything else is fetched. */
  function Prefixes(i: Ins): Ins { ZERO_INS.(operandSz := i.operandSz, addressSz := i.addressSz, rep := i.rep) }

  /** The record when everything up to the opcode has been fetched. */
  function Opcodes(i: Ins): Ins { Prefixes(i).(rex := i.rex, op0 := i.op0, op1 := i.op1) }

  lemma LegacyDecoded(m: seq<byte>, i: Ins)
    requires i.rep == 0 || i.rep == 0xF2 || i.rep == 0xF3
    requires |LegacyBytes(i)| <= |m| && m[..|LegacyBytes(i)|] == LegacyBytes(i)
    ensures FetchPrefixes(m, 0, ZERO_INS) == FetchPrefixes(m, |LegacyBytes(i)|, Prefixes(i))
  {
    var a, b := (if i.operandSz then [0x66] else []), (if i.addressSz then [0x67] else []);
    var c := if i.rep != 0 then [i.rep] else [];
    PrefixRun(m, 0, LegacyBytes(i), ZERO_INS);
    NoteAllConcat(a + b, c, ZERO_INS);
    NoteAllConcat(a, b, ZERO_INS);
    NoteOne(i.operandSz, 0x66, ZERO_INS);
    NoteOne(i.addressSz, 0x67, NoteAll(a, ZERO_INS));
    NoteOne(i.rep != 0, i.rep, NoteAll(a + b, ZERO_INS));
  }

  lemma NoteOne(present: bool, b: byte, i: Ins)
    ensures NoteAll(if present then [b] else [], i) == if present then NotePrefix(b, i) else i
  {
    assert [b][1..] == [];
  }

  lemma {:induction false} NoteAllConcat(ps: seq<byte>, qs: seq<byte>, i: Ins)
    ensures NoteAll(ps + qs, i) == NoteAll(qs, NoteAll(ps, i))
  {
    if |ps| == 0 {
      assert ps + qs == qs;
    } else {
      assert (ps + qs)[1..] == ps[1..] + qs;
      NoteAllConcat(ps[1..], qs, NotePrefix(ps[0], i));
    }
  }

  lemma OpcodeDecoded(m: seq<byte>, pc: nat, i: Ins)
    requires WellFormed(i)
    requires var o := OpcodeBytes(i); pc + |o| <= |m| && m[pc..pc + |o|] == o
    ensures FetchOp1(m, FetchPrefixes(m, pc, Prefixes(i))) == At(Opcodes(i), pc + |OpcodeBytes(i)|)
  {
    var o := OpcodeBytes(i);
    assert m[pc] == o[0];
    if |o| > 1 {
      assert m[pc + 1] == o[1];
    }
    if |o| > 2 {
      assert m[pc + 2] == o[2];
    }
  }

  lemma ModrmDecoded(m: seq<byte>, pc: nat, i: Ins)
    requires WellFormed(i) && LayoutOf(i).modrm
    requires var b := ModrmBytes(i); pc + |b| <= |m| && m[pc..pc + |b|] == b
    ensures FetchModrm(m, At(Opcodes(i), pc)) == At(i.(imm := 0), pc + |ModrmBytes(i)|)
  {
    hide OneByteLayout, TwoByteLayout;
    var b, k := ModrmBytes(i), DisplSize(i.modrm, i.sib);
    assert m[pc] == b[0] == i.modrm;
    var q := pc + 1;
    if HasSib(i.modrm) {
      assert m[pc + 1] == b[1] == i.sib;
      q := pc + 2;
    }
    assert m[q..q + k] == b[q - pc..] == ToBytes(i.displ, k);
    FieldOfBytes(m, q, i.displ, k);
  }

  lemma ImmDecoded(m: seq<byte>, pc: nat, i: Ins)
    requires WellFormed(i)
    requires var c := ImmBytes(i); pc + |c| <= |m| && m[pc..pc + |c|] == c
    ensures FetchImm(m, At(i.(imm := 0), pc), LayoutOf(i).imm) == At(i, pc + |ImmBytes(i)|)
  {
    hide OneByteLayout, TwoByteLayout;
    var k := ImmSize(LayoutOf(i).imm, i);
    assert ImmSize(LayoutOf(i).imm, i.(imm := 0)) == k;
    FieldOfBytes(m, pc, i.imm, k);
  }

  lemma OperandsDecoded(m: seq<byte>, pc: nat, i: Ins)
    requires WellFormed(i)
    requires var t := ModrmBytes(i) + ImmBytes(i); pc + |t| <= |m| && m[pc..pc + |t|] == t
    ensures LayoutOf(Opcodes(i)) == LayoutOf(i)
    ensures FetchOperands(m, At(Opcodes(i), pc), LayoutOf(i)) == At(i, pc + |ModrmBytes(i)| + |ImmBytes(i)|)
  {
    hide OneByteLayout, TwoByteLayout, DisplSize, FetchModrm, FetchImm;
    var b, c := ModrmBytes(i), ImmBytes(i);
    assert m[pc..pc + |b|] == (b + c)[..|b|] == b;
    assert m[pc + |b|..pc + |b| + |c|] == (b + c)[|b|..] == c;
    if LayoutOf(i).modrm {
      ModrmDecoded(m, pc, i);
    } else {
      assert Opcodes(i) == i.(imm := 0);
    }
    ImmDecoded(m, pc + |b|, i);
  }

  /** Decoding the canonical encoding gives the record back and consumes all of it. */
  lemma DecodeOfEncode(i: Ins)
    requires WellFormed(i)
    ensures Decode(Encode(i), 0) == Done(true, i, |Encode(i)|)
  {
    hide OneByteLayout, TwoByteLayout, FetchOperands, FetchPrefixes, FetchOp1, LegacyBytes, OpcodeBytes, ModrmBytes, ImmBytes;
    var m := Encode(i);
    var a, o, t := LegacyBytes(i), OpcodeBytes(i), ModrmBytes(i) + ImmBytes(i);
    var p := |a| + |o|;
    assert m == a + o + t;
    assert m[..|a|] == a && m[|a|..p] == o && m[p..p + |t|] == t;
    LegacyDecoded(m, i);
    OpcodeDecoded(m, |a|, i);
    OperandsDecoded(m, p, i);
  }

  /** The canonical encoding decodes the same at any position and before any suffix. */
  lemma DecodeOfEncodeInContext(m: seq<byte>, pc: nat, i: Ins)
    requires WellFormed(i)
    requires var e := Encode(i); pc + |e| <= |m| && m[pc..pc + |e|] == e
    ensures Decode(m, pc) == Done(true, i, pc + |Encode(i)|)
  {
    hide Encode, Decode, WellFormed;
    var e := Encode(i);
    DecodeOfEncode(i);
    forall x | 0 <= x < |e|
      ensures m[x + pc] == e[x]
    {
      assert m[pc..pc + |e|][x] == m[x + pc];
    }
    DecodeIsLocal(e, m, 0, pc);
  }

  /** Decode, encode, decode is decode, on every accepted byte string. */
  lemma DecodeEncodeDecode(m: seq<byte>, pc: nat)
    requires Accepted(Decode(m, pc))
    ensures var i := Decode(m, pc).ins; Decode(Encode(i), 0) == Done(true, i, |Encode(i)|)
  {
    AcceptedIsWellFormed(m, pc);
    DecodeOfEncode(Decode(m, pc).ins);
  }

  // ---------------------------------------------------------------- unique parsing

  /** `e` is the whole encoding of one accepted instruction. */
  predicate IsEncoding(e: seq<byte>) { var d := Decode(e, 0); Accepted(d) && d.pc == |e| }

  /** What an accepted string decodes to is decided by the bytes consumed alone. */
  lemma AcceptedPrefix(m: seq<byte>)
    requires Accepted(Decode(m, 0))
    ensures var e := m[..Decode(m, 0).pc]; IsEncoding(e) && Decode(e, 0) == Decode(m, 0)
  {
    DecodeIsLocal(m, m[..Decode(m, 0).pc], 0, 0);
  }

  lemma SuffixIrrelevant(e: seq<byte>, t: seq<byte>)
    requires Decode(e, 0).Done?
    ensures Decode(e + t, 0) == Decode(e, 0)
  {
    DecodeIsLocal(e, e + t, 0, 0);
  }

  /** No accepted encoding is a proper prefix of another. */
  lemma PrefixFree(e: seq<byte>, t: seq<byte>)
    requires IsEncoding(e) && IsEncoding(e + t)
    ensures t == []
  {
    SuffixIrrelevant(e, t);
  }

  function Concat(es: seq<seq<byte>>): seq<byte>
  {
    if |es| == 0 then [] else es[0] + Concat(es[1..])
  }

  predicate AllEncodings(es: seq<seq<byte>>) { forall j :: 0 <= j < |es| ==> IsEncoding(es[j]) }

  lemma ConcatEmpty(es: seq<seq<byte>>)
    requires AllEncodings(es)
    ensures Concat(es) == [] <==> es == []
  {
    assert |es| > 0 ==> |es[0]| > 0;
  }

  /** A byte stream splits into instructions in one way only. */
  lemma {:induction false} UniqueSplit(xs: seq<seq<byte>>, ys: seq<seq<byte>>)
    requires AllEncodings(xs) && AllEncodings(ys) && Concat(xs) == Concat(ys)
    ensures xs == ys
    decreases |xs|
  {
    ConcatEmpty(xs);
    ConcatEmpty(ys);
    if |xs| > 0 {
      var x, y := xs[0], ys[0];
      SuffixIrrelevant(x, Concat(xs[1..]));
      SuffixIrrelevant(y, Concat(ys[1..]));
      assert |x| == |y|;
      assert x == Concat(xs)[..|x|] && y == Concat(ys)[..|y|];
      assert Concat(xs[1..]) == Concat(xs)[|x|..];
      assert Concat(ys[1..]) == Concat(ys)[|y|..];
      UniqueSplit(xs[1..], ys[1..]);
    }
  }

  // ---------------------------------------------------------------- length bound

  /** How many legacy prefix bytes stand at `pc`. */
  function LegacyCount(m: seq<byte>, pc: nat): (n: nat)
    decreases |m| - pc
  {
    if pc < |m| && IsLegacy(m[pc]) then 1 + LegacyCount(m, pc + 1) else 0
  }

  lemma {:induction false} PrefixLength(m: seq<byte>, pc: nat, i: Ins)
    requires FetchPrefixes(m, pc, i).At?
    ensures FetchPrefixes(m, pc, i).pc <= pc + LegacyCount(m, pc) + 2
    decreases |m| - pc
  {
    if IsLegacy(m[pc]) {
      PrefixLength(m, pc + 1, NotePrefix(m[pc], i));
    }
  }

  /** The longest tail after REX and the opcode; a 66H prefix shortens immediates. */
  function TailBound(operandSz: bool): nat { if operandSz then 8 else 10 }

  lemma TailLength(m: seq<byte>, c0: Cursor)
    requires c0.At? && Accepted(DecodeRest(m, c0))
    ensures DecodeRest(m, c0).pc <= c0.pc + TailBound(c0.ins.operandSz)
  {
    var c := FetchOp1(m, c0);
    var l := LayoutOf(c.ins);
    LayoutShapes(c.ins);
    hide OneByteLayout, TwoByteLayout;
    var c1 := if l.modrm then FetchModrm(m, c) else c;
    assert c1.pc <= c.pc + if l.modrm then 6 else 0;
    assert c1.ins.operandSz == c0.ins.operandSz;
  }

  /** Long immediates and two-byte opcodes come without ModR/M or with short immediates. */
  lemma LayoutShapes(i: Ins)
    ensures var l := LayoutOf(i);
      l.Layout? && l.modrm ==>
        && l.imm != Imm16_32_64 && l.imm != Imm32
        && (i.op0 == 0x0F ==> l.imm.NoImm? || l.imm.Imm8?)
    ensures var l := LayoutOf(i);
      l.Layout? && i.op0 == 0x0F ==> l.imm.NoImm? || l.imm.Imm8? || l.imm.Imm16_32?
  {
  }

  /**
   An accepted instruction with p legacy prefixes is at most p + 12 bytes long, and at
   most p + 10 if one of them is 66H.
   */
  lemma LengthBound(m: seq<byte>, pc: nat)
    requires Accepted(Decode(m, pc))
    ensures var d := Decode(m, pc);
      d.pc <= pc + LegacyCount(m, pc) + 2 + TailBound(d.ins.operandSz)
  {
    var c0 := FetchPrefixes(m, pc, ZERO_INS);
    PrefixLength(m, pc, ZERO_INS);
    TailLength(m, c0);
    RestKeepsPrefixes(m, c0);
  }

  lemma RestKeepsPrefixes(m: seq<byte>, c0: Cursor)
    requires c0.At? && DecodeRest(m, c0).Done?
    ensures DecodeRest(m, c0).ins.operandSz == c0.ins.operandSz
  {
    hide OneByteLayout, TwoByteLayout;
  }

  /** ADD with REX, ModR/M, SIB, 32-bit displacement and 32-bit immediate. */
  const LONGEST: seq<byte> := [0x48, 0x81, 0x84, 0x00, 1, 2, 3, 4, 5, 6, 7, 8]

  /** The bound is attained for every number and choice of legacy prefixes. */
  lemma LengthBoundAttained(ps: seq<byte>)
    requires AllLegacy(ps)
    ensures var d := Decode(ps + LONGEST, 0);
      Accepted(d) && d.pc == |ps| + 2 + TailBound(0x66 in ps) && LegacyCount(ps + LONGEST, 0) == |ps|
  {
    var m, p := ps + LONGEST, |ps|;
    var i := ZERO_INS.(operandSz := 0x66 in ps, addressSz := 0x67 in ps, rep := LastRep(ps, 0));
    PrefixRunMeaning(ps, LONGEST);
    assert m[p..] == LONGEST;
    LongestTail(m, p, i);
    CountFrom(ps, LONGEST, 0);
  }

  lemma LongestTail(m: seq<byte>, p: nat, i: Ins)
    requires p <= |m| && m[p..] == LONGEST
    ensures var d := DecodeRest(m, FetchPrefixes(m, p, i)); Accepted(d) && d.pc == p + 2 + TailBound(i.operandSz)
  {
    assert m[p] == m[p..][0] && m[p + 1] == m[p..][1] && m[p + 2] == m[p..][2] && m[p + 3] == m[p..][3];
    var c0 := At(i.(rex := 0x48, op0 := 0x81), p + 2);
    assert FetchPrefixes(m, p, i) == c0;
    var c1 := FetchModrm(m, c0);
    assert c1.At? && c1.pc == p + 8;
  }

  lemma {:induction false} CountFrom(ps: seq<byte>, t: seq<byte>, k: nat)
    requires AllLegacy(ps) && |t| > 0 && !IsLegacy(t[0]) && k <= |ps|
    ensures LegacyCount(ps + t, k) == |ps| - k
    decreases |ps| - k
  {
    if k < |ps| {
      CountFrom(ps, t, k + 1);
    }
  }
}
