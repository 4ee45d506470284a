/**
 What the manual says by number: register, flag and condition numbers, operand widths,
 and what it means that only certain places change.
 */
module Manual {
  import opened Words
  import opened Flags
  import opened Memory
  import opened Instructions
  import opened Machine
  import opened Semantics

  // ---------------------------------------------------------------- operands by number

  /** Eight bytes with REX.W, else two with 66H, else four. */
  function WidthBy(i: Ins): Width { if (i.rex / 8) % 2 == 1 then 8 else if i.operandSz then 2 else 4 }

  /** Stack operands: two bytes with 66H, else eight. */
  function StackBy(i: Ins): Width { if i.operandSz then 2 else 8 }

  /** The register of the ModR/M reg field, with REX.R. */
  function RegBy(i: Ins): Loc { RegLoc((i.modrm / 8) % 8 + 8 * ((i.rex / 4) % 2)) }

  /** The register of the low opcode bits, with REX.B. */
  function OpBy(i: Ins): Loc { RegLoc(i.op0 % 8 + 8 * (i.rex % 2)) }

  /** The opcode extension. */
  function ExtBy(i: Ins): nat { (i.modrm / 8) % 8 }

  /** The operand of the ModR/M r/m field is a register, with REX.B, exactly if mod is 3. */
  lemma RegisterOperand(s: State, i: Ins)
    ensures RmLoc(s, i) == if i.modrm / 64 == 3 then RegLoc(i.modrm % 8 + 8 * (i.rex % 2)) else MemLoc(Indirect(s, i))
  {
    hide Indirect;
  }

  /** The low `k` bytes of the immediate, sign-extended to `w`. */
  function SignedImm(i: Ins, k: Width, w: Width): nat { Signed(i.imm % Modulus(k), k) % Modulus(w) }

  lemma ExtensionIsRemainder(x: nat, k: Width, w: Width)
    requires x < Modulus(k) && k <= w
    ensures Convert(x, k, w, true) == Signed(x, k) % Modulus(w)
  {
    var v, m := Signed(x, k), Modulus(w);
    DivModUnique(m, if v < 0 then -1 else 0, if v < 0 then v + m else v);
  }

  /** The standard's register and flag numbers are those the names stand for. */
  lemma Numbers()
    ensures RAX == 0 && RCX == 1 && RDX == 2 && RBX == 3 && RSP == 4 && RBP == 5 && RSI == 6 && RDI == 7 && R11 == 11
    ensures CF == 0 && PF == 2 && AF == 4 && ZF == 6 && SF == 7 && IF == 9 && DF == 10 && OF == 11 && RF == 16
  {
  }

  // ---------------------------------------------------------------- conditions by number

  /** Condition codes over flag bits: each odd code negates the even one before it. */
  predicate Holds(cc: nat, f: Rflags)
  {
    match cc
    case 0 => f[11]
    case 1 => !f[11]
    case 2 => f[0]
    case 3 => !f[0]
    case 4 => f[6]
    case 5 => !f[6]
    case 6 => f[0] || f[6]
    case 7 => !(f[0] || f[6])
    case 8 => f[7]
    case 9 => !f[7]
    case 10 => f[2]
    case 11 => !f[2]
    case 12 => f[7] != f[11]
    case 13 => !(f[7] != f[11])
    case 14 => f[6] || f[7] != f[11]
    case _ => !(f[6] || f[7] != f[11])
  }

  lemma ConditionHolds(cc: nat, f: Rflags)
    requires cc < 16
    ensures Condition(f, cc) <==> Holds(cc, f)
  {
  }

  // ---------------------------------------------------------------- what stays

  /** Flags other than CF, PF, AF, ZF, SF and OF are the same. */
  predicate StatusOnly(f: Rflags, g: Rflags)
  {
    forall k :: 0 <= k < 64 && k !in {0, 2, 4, 6, 7, 11} ==> g[k] == f[k]
  }

  /** Registers but those in `ks`, memory but `n` bytes from `a`, and the vector file are the same. */
  predicate Frame(s: State, t: State, ks: set<int>, a: u64, n: nat)
  {
    && (forall k :: 0 <= k < 16 && k !in ks ==> t.regs[k] == s.regs[k])
    && (forall x :: 0 <= x < WORD && (x - a) % WORD >= n ==> t.mem[x] == s.mem[x])
    && t.vec == s.vec
  }

  /** Nothing but registers in `ks` and flags. */
  predicate OnlyRegs(s: State, t: State, ks: set<int>) { Frame(s, t, ks, 0, 0) && t.rip == s.rip }

  /** Nothing but the `w` bytes at a location, and flags; of a register the upper bytes stay. */
  predicate OnlyAt(s: State, t: State, l: Loc, w: Width)
  {
    && t.rip == s.rip
    && match l
       case RegLoc(k) => Frame(s, t, {k as int}, 0, 0) && t.regs[k] / Modulus(w) == s.regs[k] / Modulus(w)
       case MemLoc(a) => Frame(s, t, {}, a, w)
  }

  lemma WriteOnlyAt(s: State, l: Loc, w: Width, v: nat, f: Rflags)
    requires v < Modulus(w)
    ensures OnlyAt(s, WriteLoc(s, l, w, v).(flags := f), l, w)
    ensures ReadLoc(WriteLoc(s, l, w, v).(flags := f), l, w) == v
  {
    ReadWriteLoc(s, l, w, v);
    hide SetLow, ToBytes, FromBytes;
    match l
    case RegLoc(k) =>
    case MemLoc(a) =>
      assert |ToBytes(v, w)| == w;
      assert forall x :: 0 <= x < WORD && (x - a) % WORD >= w ==> Above(a, x) >= w;
  }

  lemma StoreOnlyAt(s: State, l: Loc, w: Width, v: nat)
    requires v < Modulus(w)
    ensures var t := WriteLoc(s, l, w, v);
      OnlyAt(s, t, l, w) && ReadLoc(t, l, w) == v && t.flags == s.flags && t.rip == s.rip
  {
    WriteOnlyAt(s, l, w, v, s.flags);
    hide SetLow, Store, OnlyAt;
    var t := WriteLoc(s, l, w, v);
    assert t.(flags := s.flags) == t;
  }

  /** Pushing `w` bytes: RSP goes down by `w`, the value stands there, all else stays. */
  predicate Pushed(s: State, t: State, w: Width, v: nat)
  {
    && t.regs[4] == (s.regs[4] - w) % WORD
    && Load(t.mem, t.regs[4], w) == v
    && Frame(s, t, {4}, t.regs[4], w)
    && t.flags == s.flags
  }

  lemma PushPushes(s: State, w: Width, v: nat)
    requires v < Modulus(w)
    ensures Pushed(s, Push(s, w, v), w, v) && Push(s, w, v).rip == s.rip
  {
    var sp: u64 := (s.regs[4] - w) % WORD;
    LoadStore(s.mem, sp, w, v);
    hide ToBytes, FromBytes, Load;
    assert |ToBytes(v, w)| == w;
    assert forall x :: 0 <= x < WORD && (x - sp) % WORD >= w ==> Above(sp, x) >= w;
  }
}
