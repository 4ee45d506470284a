/**
 Arithmetic instructions on the machine: what ADD, SUB, INC, DEC and CMP leave in the
 destination and the flags, and what the sixteen conditions mean after a comparison.
 */
module Comparisons {
  import opened Words
  import opened Flags
  import opened Memory
  import opened Instructions
  import opened Machine
  import opened Operations
  import opened Semantics
  import Alu

  /** The status flags say what they should of the exact signed result `t` and the stored word `u`. */
  predicate StatusMeans(f: Rflags, t: int, u: nat, w: Width)
  {
    && (f[OF] <==> !InRange(t, Half(w)))
    && (f[SF] != f[OF] <==> t < 0)
    && Alu.ResultMeans(f, u, Half(w))
  }

  /** The exact meaning of ADD and SUB at a machine width. */
  lemma AddSubAtWidth(f: Rflags, x: nat, y: nat, sub: bool, w: Width)
    requires x < Modulus(w) && y < Modulus(w)
    ensures var z: int := if sub then x - y as int else x + y;
      var t := if sub then Signed(x, w) - Signed(y, w) else Signed(x, w) + Signed(y, w);
      var e := Compute(if sub then Sub else Add, f, x, y, w);
      && e.store
      && e.value == z % Modulus(w)
      && StatusMeans(e.flags, t, e.value, w)
      && (e.flags[CF] <==> z < 0 || z >= Modulus(w))
  {
    hide *;
    if sub {
      SubAtWidth(f, x, y, w);
    } else {
      AddAtWidth(f, x, y, w);
    }
  }

  lemma AddAtWidth(f: Rflags, x: nat, y: nat, w: Width)
    requires x < Modulus(w) && y < Modulus(w)
    ensures var e := Compute(Add, f, x, y, w);
      && e.store
      && e.value == (x + y) % Modulus(w)
      && StatusMeans(e.flags, Signed(x, w) + Signed(y, w), e.value, w)
      && (e.flags[CF] <==> x + y >= Modulus(w))
  {
    hide Alu.Add, Alu.EvenOnes, Half;
    Alu.AddExact(f, x, y, Half(w));
    ModOnce(x + y, w);
  }

  lemma SubAtWidth(f: Rflags, x: nat, y: nat, w: Width)
    requires x < Modulus(w) && y < Modulus(w)
    ensures var z: int := x - y as int;
      var e := Compute(Sub, f, x, y, w);
      && e.store
      && e.value == z % Modulus(w)
      && StatusMeans(e.flags, Signed(x, w) - Signed(y, w), e.value, w)
      && (e.flags[CF] <==> z < 0)
  {
    hide Alu.Sub, Alu.EvenOnes, Half;
    Alu.SubExact(f, x, y, Half(w));
    ModOnce(x - y as int, w);
  }

  /** Reading back what an effect stored. */
  lemma StoredEffect(s: State, l: Loc, w: Width, e: Effect)
    requires e.value < Modulus(w) && e.store
    ensures ReadLoc(StoreEffect(s, l, w, e), l, w) == e.value
  {
    hide SetLow, Store, Load;
    ReadWriteLoc(s, l, w, e.value);
    ReadIgnoresFlags(WriteLoc(s, l, w, e.value), e.flags, l, w);
  }

  /** ADD and SUB, for any operands, the same register included. */
  lemma AddSubOnMachine(s: State, i: Ins, io: u64, sub: bool, w: Width, dst: Place, src: Source)
    ensures var l := PlaceLoc(s, i, dst);
      var x, y := ReadLoc(s, l, w), SourceValue(s, i, src, w);
      var z: int := if sub then x - y as int else x + y;
      var t := if sub then Signed(x, w) - Signed(y, w) else Signed(x, w) + Signed(y, w);
      var r := Perform(Binary(if sub then Sub else Add, w, dst, src), i, s, io);
      && r.Go?
      && ReadLoc(r.s, l, w) == z % Modulus(w)
      && StatusMeans(r.s.flags, t, z % Modulus(w), w)
      && (r.s.flags[CF] <==> z < 0 || z >= Modulus(w))
      && r.s.rip == s.rip
  {
    hide Compute, StatusMeans, PlaceLoc, SourceValue, ReadLoc, WriteLoc;
    var l := PlaceLoc(s, i, dst);
    var x, y := ReadLoc(s, l, w), SourceValue(s, i, src, w);
    AddSubAtWidth(s.flags, x, y, sub, w);
    StoredEffect(s, l, w, Compute(if sub then Sub else Add, s.flags, x, y, w));
    WriteKeepsRest(s, l, w, Compute(if sub then Sub else Add, s.flags, x, y, w).value);
  }

  lemma WriteKeepsRest(s: State, l: Loc, w: Width, v: nat)
    requires v < Modulus(w)
    ensures var t := WriteLoc(s, l, w, v); t.rip == s.rip && t.flags == s.flags && t.vec == s.vec
  {
  }

  lemma ReadIgnoresFlags(s: State, f: Rflags, l: Loc, w: Width)
    ensures ReadLoc(s.(flags := f), l, w) == ReadLoc(s, l, w)
  {
  }

  lemma ModOnce(z: int, w: Width)
    requires 0 - Modulus(w) <= z < 2 * Modulus(w)
    ensures z % Modulus(w) == if z < 0 then z + Modulus(w) else if z < Modulus(w) then z else z - Modulus(w)
  {
    var m := Modulus(w);
    if z < 0 {
      DivModUnique(m, -1, z + m);
    } else if z < m {
      DivModUnique(m, 0, z);
    } else {
      DivModUnique(m, 1, z - m);
    }
  }

  lemma IncDecAtWidth(f: Rflags, x: nat, inc: bool, w: Width)
    requires x < Modulus(w)
    ensures var d := if inc then 1 else -1;
      var e := ComputeUnary(if inc then Inc else Dec, f, x, w);
      && e.store
      && e.value == (x + d) % Modulus(w)
      && StatusMeans(e.flags, Signed(x, w) + d, e.value, w)
      && e.flags[CF] == f[CF]
  {
    hide Alu.AddCore, Alu.SubCore, Alu.EvenOnes;
    Alu.IncDecExact(f, x, inc, Half(w));
    ModOnce(x + if inc then 1 else -1, w);
  }

  /** INC and DEC: exact like ADD and SUB of one, with CF preserved. */
  lemma IncDecOnMachine(s: State, i: Ins, io: u64, inc: bool, w: Width)
    ensures var l := RmLoc(s, i);
      var x, d := ReadLoc(s, l, w), if inc then 1 else -1;
      var r := Perform(Unary(if inc then Inc else Dec, w), i, s, io);
      && r.Go?
      && ReadLoc(r.s, l, w) == (x + d) % Modulus(w)
      && StatusMeans(r.s.flags, Signed(x, w) + d, (x + d) % Modulus(w), w)
      && r.s.flags[CF] == s.flags[CF]
      && r.s.rip == s.rip
  {
    hide ComputeUnary, StatusMeans, RmLoc, ReadLoc, WriteLoc;
    var l := RmLoc(s, i);
    var x := ReadLoc(s, l, w);
    var e := ComputeUnary(if inc then Inc else Dec, s.flags, x, w);
    IncDecAtWidth(s.flags, x, inc, w);
    StoredEffect(s, l, w, e);
    WriteKeepsRest(s, l, w, e.value);
  }

  /** What condition code `cc` asserts of a comparison of `x` with `y`. */
  predicate Asserts(cc: nat, x: nat, y: nat, w: Width)
    requires x < Modulus(w) && y < Modulus(w)
  {
    var a, b := Signed(x, w), Signed(y, w);
    var d := (x - y) % Modulus(w);
    match cc
    case 0 => !InRange(a - b, Half(w))   // O
    case 1 => InRange(a - b, Half(w))    // NO
    case 2 => x < y                      // B
    case 3 => x >= y                     // AE
    case 4 => x == y                     // E
    case 5 => x != y                     // NE
    case 6 => x <= y                     // BE
    case 7 => x > y                      // A
    case 8 => Signed(d, w) < 0           // S
    case 9 => Signed(d, w) >= 0          // NS
    case 10 => Alu.EvenOnes(d)           // P
    case 11 => !Alu.EvenOnes(d)          // NP
    case 12 => a < b                     // L
    case 13 => a >= b                    // GE
    case 14 => a <= b                    // LE
    case 15 => a > b                     // G
    case _ => false
  }

  lemma CompareAtWidth(f: Rflags, x: nat, y: nat, w: Width, cc: nat)
    requires x < Modulus(w) && y < Modulus(w) && cc < 16
    ensures var e := Compute(Cmp, f, x, y, w);
      !e.store && (Condition(e.flags, cc) <==> Asserts(cc, x, y, w))
  {
    hide Compute, Alu.EvenOnes;
    CmpIsSub(f, x, y, w);
    AddSubAtWidth(f, x, y, true, w);
    ModOnce(x - y as int, w);
  }

  /** CMP is SUB without the store. */
  lemma CmpIsSub(f: Rflags, x: nat, y: nat, w: Width)
    requires x < Modulus(w) && y < Modulus(w)
    ensures Compute(Cmp, f, x, y, w) == Compute(Sub, f, x, y, w).(store := false)
  {
  }

  /** After CMP each of the sixteen conditions holds exactly when its assertion does. */
  lemma CompareThenCondition(s: State, i: Ins, io: u64, w: Width, dst: Place, src: Source, cc: nat)
    requires cc < 16
    ensures var x, y := ReadLoc(s, PlaceLoc(s, i, dst), w), SourceValue(s, i, src, w);
      var r := Perform(Binary(Cmp, w, dst, src), i, s, io);
      && r.Go?
      && r.s == s.(flags := r.s.flags)
      && (Condition(r.s.flags, cc) <==> Asserts(cc, x, y, w))
  {
    hide Compute, Condition, Asserts, PlaceLoc, SourceValue, ReadLoc, WriteLoc;
    CompareAtWidth(s.flags, ReadLoc(s, PlaceLoc(s, i, dst), w), SourceValue(s, i, src, w), w, cc);
  }

  /** Each odd condition is the negation of its even partner. */
  lemma OddConditionsNegate(f: Rflags, k: nat)
    requires k < 8
    ensures Condition(f, 2 * k + 1) <==> !Condition(f, 2 * k)
  {
  }

  /**
   CMP followed by Jcc, SETcc or CMOVcc with the same condition: the jump is taken, the
   byte is one and the value is moved in exactly the same, arithmetically described, case.
   */
  lemma CompareAndUse(s: State, i: Ins, io: u64, w: Width, dst: Place, src: Source, j: Ins, next: u64, cc: nat, k: Width, v: Width)
    requires cc < 16
    ensures var x, y := ReadLoc(s, PlaceLoc(s, i, dst), w), SourceValue(s, i, src, w);
      var t := Perform(Binary(Cmp, w, dst, src), i, s, io).s.(rip := next);
      var jump, setcc, move := Perform(JumpIf(cc, k), j, t, io), Perform(SetIf(cc), j, t, io), Perform(MoveIf(cc, v), j, t, io);
      && jump == Go(t.(rip := if Asserts(cc, x, y, w) then (next + Signed(j.imm % Modulus(k), k)) % WORD else next))
      && setcc.Go? && ReadLoc(setcc.s, RmLoc(t, j), 1) == (if Asserts(cc, x, y, w) then 1 else 0)
      && move.Go?
      && ReadLoc(move.s, RegLoc(j.RegIndex()), v) ==
           ReadLoc(t, if Asserts(cc, x, y, w) then RmLoc(t, j) else RegLoc(j.RegIndex()), v)
  {
    hide Condition, Asserts, Compute, PlaceLoc, SourceValue, RmLoc, ReadLoc, WriteLoc;
    CompareThenCondition(s, i, io, w, dst, src, cc);
    var t := Perform(Binary(Cmp, w, dst, src), i, s, io).s.(rip := next);
    ReadWriteLoc(t, RmLoc(t, j), 1, if Condition(t.flags, cc) then 1 else 0);
    ReadWriteLoc(t, RegLoc(j.RegIndex()), v, ReadLoc(t, RmLoc(t, j), v));
  }
}
