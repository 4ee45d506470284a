/** String stores: what the bytes of memory are after any number of elements. */
module Strings {
  import opened Words
  import opened Flags
  import opened Memory
  import opened Instructions
  import opened Machine
  import opened Operations
  import opened Semantics
  import opened Manual
  import opened Dispatch

  /** How far `x` lies below the last byte of the first element, going round the address space. */
  function Below(a: u64, w: Width, x: int): u64 { (a + w - 1 - x) % WORD }

  /** Whether a fill of `n` elements from `a` covers address `x`. */
  predicate Covered(a: u64, w: Width, n: nat, down: bool, x: int)
  {
    (if down then Below(a, w, x) else Above(a, x)) < n * w
  }

  /** The byte of the repeated value that belongs at `x`. */
  function PatternByte(a: u64, w: Width, v: nat, x: int): byte { ToBytes(v, w)[Above(a, x) % w] }

  /** Moving the start by one element keeps the phase of the pattern. */
  lemma SamePhase(a: u64, w: Width, d: int, x: int)
    requires d == w || d == 0 - w
    ensures Above(Plus(a, d), x) % w == Above(a, x) % w
  {
    var p, q := Above(a, x), Above(Plus(a, d), x);
    AboveShift(a, d, x);
    hide Above, Plus;
    var t := WORD / w;
    assert WORD == w * t;
    var k := (if d == w then -1 else 1) + (if p - d < 0 then t else if p - d >= WORD then -t else 0);
    assert q == p + w * k;
    RemainderOfShift(p, w, k);
  }

  lemma RemainderOfShift(p: int, w: nat, k: int)
    requires w > 0
    ensures (p + w * k) % w == p % w
  {
    var a, b := p / w, p % w;
    assert p + w * k == w * (a + k) + b;
    DivModUnique(w, a + k, b);
  }

  /** Distances shift with the start, going round once at most. */
  lemma AboveShift(a: u64, d: int, x: int)
    requires -8 <= d <= 8
    ensures var p, q := Above(a, x), Above(Plus(a, d), x);
      q == if p - d < 0 then p - d + WORD else if p - d >= WORD then p - d - WORD else p - d
  {
  }

  lemma BelowShift(a: u64, w: Width, x: int)
    ensures var p, q := Below(a, w, x), Below(Plus(a, 0 - w), w, x);
      q == if p < w then p - w + WORD else p - w
  {
  }

  lemma BelowInFirst(a: u64, w: Width, x: int)
    ensures Below(a, w, x) < w <==> Above(a, x) < w
  {
  }

  /**
   After `n` stores of one element each, covered bytes hold the repeating pattern and
   every other byte is unchanged, for every count, going round the address space included.
   */
  lemma {:induction false} FillAt(m: Memory, a: u64, w: Width, v: nat, n: nat, down: bool, x: u64)
    requires v < Modulus(w)
    ensures Fill(m, a, w, v, n, down)[x] == if Covered(a, w, n, down, x) then PatternByte(a, w, v, x) else m[x]
    decreases n
  {
    if n > 0 {
      var d := if down then 0 - w else w;
      FillAt(Store(m, a, w, v), Plus(a, d), w, v, n - 1, down, x);
      FillStep(m, a, w, v, n, down, x);
    }
  }

  lemma FillStep(m: Memory, a: u64, w: Width, v: nat, n: nat, down: bool, x: u64)
    requires v < Modulus(w) && n > 0
    ensures var b := Plus(a, if down then 0 - w else w);
      (if Covered(b, w, n - 1, down, x) then PatternByte(b, w, v, x) else Store(m, a, w, v)[x])
      == if Covered(a, w, n, down, x) then PatternByte(a, w, v, x) else m[x]
  {
    hide ToBytes, Covered;
    var d := if down then 0 - w else w;
    SamePhase(a, w, d, x);
    CoverStep(a, w, n, down, x);
    hide Plus, Above;
    if Above(a, x) < w {
      assert Above(a, x) % w == Above(a, x);
    }
  }

  /** The first element is covered, and what else is covered is what the rest covers. */
  lemma CoverStep(a: u64, w: Width, n: nat, down: bool, x: u64)
    requires n > 0
    ensures var b := Plus(a, if down then 0 - w else w);
      && (Above(a, x) < w ==> Covered(a, w, n, down, x))
      && (Above(a, x) >= w ==> (Covered(a, w, n, down, x) <==> Covered(b, w, n - 1, down, x)))
  {
    AboveShift(a, w, x);
    BelowShift(a, w, x);
    BelowInFirst(a, w, x);
    hide Plus, Above, Below;
    assert (n - 1) * w == n * w - w;
    assert (n - 1) * w >= 0;
  }

  /**
   STOS with a repeat prefix: the count register (ECX with 67H) ends at zero, the counted
   elements from the start address in the direction of DF hold the accumulator, and every
   other byte of memory, register and flag is as before.
   */
  lemma RepeatedStore(s: State, i: Ins, io: u64, w: Width, x: u64)
    requires i.rep != 0
    ensures var r := Perform(StoreString(w), i, s, io);
      var n := if i.addressSz then s.regs[RCX] % 0x1_0000_0000 else s.regs[RCX];
      var a := if i.addressSz then s.regs[RDI] % 0x1_0000_0000 else s.regs[RDI];
      && r.Go?
      && (if i.addressSz then r.s.regs[RCX] % 0x1_0000_0000 == 0 && r.s.regs[RCX] / 0x1_0000_0000 == s.regs[RCX] / 0x1_0000_0000
          else r.s.regs[RCX] == 0)
      && (forall k :: 0 <= k < 16 && k != RCX ==> r.s.regs[k] == s.regs[k])
      && r.s.flags == s.flags && r.s.rip == s.rip && r.s.vec == s.vec
      && r.s.mem[x] == if Covered(a, w, n, s.flags[DF], x) then PatternByte(a, w, s.regs[RAX] % Modulus(w), x) else s.mem[x]
  {
    hide Fill, Covered, PatternByte;
    var n := if i.addressSz then s.regs[RCX] % 0x1_0000_0000 else s.regs[RCX];
    var a := if i.addressSz then s.regs[RDI] % 0x1_0000_0000 else s.regs[RDI];
    FillAt(s.mem, a, w, s.regs[RAX] % Modulus(w), n, s.flags[DF], x);
  }

  /** Without going round, the covered bytes are the counted elements upwards or downwards. */
  lemma CoveredWithoutWrap(a: u64, w: Width, n: nat, down: bool, x: u64)
    requires if down then a + w <= WORD && (n > 0 ==> (n - 1) * w <= a) else a + n * w <= WORD
    ensures Covered(a, w, n, down, x) <==>
      if down then n > 0 && a - (n - 1) * w <= x < a + w else a <= x < a + n * w
  {
    var p := n * w;
    assert n > 0 ==> (n - 1) * w == p - w;
    assert n == 0 ==> p == 0;
    if down {
      if x < a + w {
        assert Below(a, w, x) == a + w - 1 - x;
      } else {
        assert Below(a, w, x) == a + w - 1 - x + WORD;
      }
    } else {
      if x >= a {
        assert Above(a, x) == x - a;
      } else {
        assert Above(a, x) == x - a + WORD;
      }
    }
  }

  // ---------------------------------------------------------------- by opcode number

  /** The address and the count of a string store: registers 7 and 1, with 67H their low halves. */
  function StartBy(s: State, i: Ins): u64 { if i.addressSz then s.regs[7] % 0x1_0000_0000 else s.regs[7] }
  function CountBy(s: State, i: Ins): u64 { if i.addressSz then s.regs[1] % 0x1_0000_0000 else s.regs[1] }

  /**
   STOS, AA by bytes and AB by the operand width. Without a repeat prefix one element is
   stored. With one, register 1 (with 67H its low half) ends at zero, the counted elements
   from register 7 in the direction of flag 10 hold register 0, and all else is as before.
   */
  lemma StosByOpcode(s: State, i: Ins, io: u64)
    requires i.op0 in {0xAA, 0xAB}
    ensures var w, a, n, r := if i.op0 == 0xAA then 1 else WidthBy(i), StartBy(s, i), CountBy(s, i), Execute(i, s, io);
      && r.Go? && r.s.flags == s.flags && r.s.rip == s.rip && r.s.vec == s.vec
      && (i.rep == 0 ==> Load(r.s.mem, a, w) == s.regs[0] % Modulus(w) && Frame(s, r.s, {}, a, w))
      && (i.rep != 0 ==>
            && r.s.regs[1] == s.regs[1] - n
            && (forall k :: 0 <= k < 16 && k != 1 ==> r.s.regs[k] == s.regs[k])
            && forall x: u64 :: r.s.mem[x] == if Covered(a, w, n, s.flags[10], x) then PatternByte(a, w, s.regs[0] % Modulus(w), x) else s.mem[x])
  {
    hide Select, Fill, Covered, PatternByte, Load, Modulus, Half;
    Dispatched(i);
    var w, a, n := if i.op0 == 0xAA then 1 else WidthBy(i), StartBy(s, i), CountBy(s, i);
    if i.rep == 0 {
      OneStore(s, a, w, s.regs[0] % Modulus(w));
    } else {
      forall x: u64
        ensures Fill(s.mem, a, w, s.regs[0] % Modulus(w), n, s.flags[10])[x] ==
          if Covered(a, w, n, s.flags[10], x) then PatternByte(a, w, s.regs[0] % Modulus(w), x) else s.mem[x]
      {
        FillAt(s.mem, a, w, s.regs[0] % Modulus(w), n, s.flags[10], x);
      }
    }
  }

  lemma OneStore(s: State, a: u64, w: Width, v: nat)
    requires v < Modulus(w)
    ensures var t := s.(mem := Store(s.mem, a, w, v)); Load(t.mem, a, w) == v && Frame(s, t, {}, a, w)
  {
    StoreOnlyAt(s, MemLoc(a), w, v);
    hide Load, Store;
  }
}
