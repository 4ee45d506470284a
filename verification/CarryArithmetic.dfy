/**
 ADC and SBB on the machine: what they store and set, and for which operands that is
 what the architecture stores and sets.
 */
module CarryArithmetic {
  import opened Words
  import opened Bits
  import opened Flags
  import opened Machine
  import opened Operations
  import opened Semantics
  import opened Instructions
  import opened Comparisons
  import opened Alu

  // ---------------------------------------------------------------- parity next door

  /** How many of the low `n` bits, from the lowest up, are set before the first clear one. */
  function TrailingOnes(x: nat, n: nat): (k: nat)
    ensures k <= n
  {
    if n == 0 || x % 2 == 0 then 0 else 1 + TrailingOnes(x / 2, n - 1)
  }

  function TrailingZeros(x: nat, n: nat): (k: nat)
    ensures k <= n
  {
    if n == 0 || x % 2 == 1 then 0 else 1 + TrailingZeros(x / 2, n - 1)
  }

  /** Adding one clears the trailing ones and sets the next bit, if there is one. */
  lemma {:induction false} SuccessorOnes(x: nat, n: nat)
    ensures Ones(ToBits(x + 1, n)) ==
      Ones(ToBits(x, n)) - TrailingOnes(x, n) + if TrailingOnes(x, n) < n then 1 else 0
    ensures TrailingZeros(x + 1, n) == TrailingOnes(x, n)
  {
    if n > 0 {
      SuccessorOnes(x / 2, n - 1);
      assert ToBits(x, n)[1..] == ToBits(x / 2, n - 1);
      assert ToBits(x + 1, n)[1..] == ToBits((x + 1) / 2, n - 1);
    }
  }

  /** A byte and its successor have ones of the same parity. */
  predicate SameParityUp(b: byte) { TrailingOnes(b, 8) % 2 == 1 || b == 0xFF }

  /** A byte and its predecessor have ones of the same parity. */
  predicate SameParityDown(b: byte) { TrailingZeros(b, 8) % 2 == 1 || b == 0 }

  lemma {:induction false} AllOnes(x: nat, n: nat)
    requires x < Pow2(n)
    ensures TrailingOnes(x, n) == n <==> x == Pow2(n) - 1
  {
    if n > 0 {
      AllOnes(x / 2, n - 1);
    }
  }

  /** Bits beyond the n-th do not matter. */
  lemma {:induction false} PowerHasNoLowBits(n: nat)
    ensures ToBits(Pow2(n), n) == ToBits(0, n)
  {
    if n > 0 {
      PowerHasNoLowBits(n - 1);
      assert Pow2(n) / 2 == Pow2(n - 1) && Pow2(n) % 2 == 0;
    }
  }

  lemma {:induction false} ZerosOfZero(n: nat)
    ensures TrailingZeros(0, n) == n
  {
    if n > 0 {
      ZerosOfZero(n - 1);
    }
  }

  lemma ByteSuccessorParity(b: byte)
    ensures var c := (b + 1) % 256;
      && ((Ones(ToBits(b, 8)) % 2 == Ones(ToBits(c, 8)) % 2) <==> SameParityUp(b))
      && (SameParityUp(b) <==> SameParityDown(c))
  {
    hide ToBits, Ones, Pow2, TrailingOnes, TrailingZeros;
    Pow2Table();
    SuccessorOnes(b, 8);
    AllOnes(b, 8);
    PowerHasNoLowBits(8);
    assert b == 0xFF || (b + 1) % 256 == b + 1;
    assert TrailingZeros(0, 8) == 8 by { ZerosOfZero(8); }
  }

  /** Reduction by a multiple of 256 does not touch the low byte. */
  lemma LowOfReduced(z: int, h: nat)
    requires h > 0 && h % 128 == 0
    ensures Low8(z % (2 * h)) == Low8(z)
  {
    var q, k := z / (2 * h), h / 128;
    assert z == (2 * h) * q + z % (2 * h);
    assert (2 * h) * q == 256 * (k * q) by { assert 2 * h == 256 * k; }
    assert (256 * (k * q) + z % (2 * h)) % 256 == (z % (2 * h)) % 256;
  }

  lemma LowOfNext(z: int)
    ensures Low8(z + 1) == (Low8(z) + 1) % 256
  {
  }

  /** When a word and the next one, modulo 2h, have low bytes of the same parity. */
  lemma NextParity(z: int, h: nat)
    requires h > 0 && h % 128 == 0
    ensures var u, a := z % (2 * h), (z + 1) % (2 * h);
      && ((EvenOnes(u) <==> EvenOnes(a)) <==> SameParityUp(Low8(u)))
      && (SameParityUp(Low8(u)) <==> SameParityDown(Low8(a)))
  {
    LowOfReduced(z, h);
    LowOfReduced(z + 1, h);
    LowOfNext(z);
    ByteSuccessorParity(Low8(z));
    hide ToBits, Ones, SameParityUp, SameParityDown, Low8;
  }

  // ---------------------------------------------------------------- sign, zero and parity

  /** A reduced word next to another. */
  lemma NextReduced(z: int, h: nat)
    requires h > 0
    ensures var u, a := z % (2 * h), (z + 1) % (2 * h);
      a == if u == 2 * h - 1 then 0 else u + 1
  {
    var m := 2 * h;
    var q, u := z / m, z % m;
    assert z == m * q + u;
    if u == m - 1 {
      assert z + 1 == m * (q + 1) + 0;
      DivModUnique(m, q + 1, 0);
    } else {
      DivModUnique(m, q, u + 1);
    }
  }

  /** SF, ZF and PF taken from one word and asked of another. */
  predicate SignRight(f: Rflags, a: nat, h: nat) { f[SF] <==> a >= h }
  predicate ZeroRight(f: Rflags, a: nat) { f[ZF] <==> a == 0 }
  predicate ParityRight(f: Rflags, a: nat) { f[PF] <==> EvenOnes(a) }

  /** The carry as a number. */
  function CarryIn(f: Rflags): (c: int)
    ensures c == 0 || c == 1
  {
    if f[CF] then 1 else 0
  }

  lemma AdcStores(f: Rflags, a: int, b: int, h: nat)
    ensures Alu.Adc(f, a, b, h).value == Wrap(a + b, h)
  {
  }

  lemma SbbStores(f: Rflags, a: int, b: int, h: nat)
    ensures Alu.Sbb(f, a, b, h).value == Wrap(a - b, h)
  {
  }

  /** Adding a carry to `z` changes its remainder exactly if there is one. */
  lemma CarryShows(z: int, c: int, m: int)
    requires m > 1 && -1 <= c <= 1
    ensures (z + c) % m == z % m <==> c == 0
  {
    var q, u := z / m, z % m;
    assert z == m * q + u;
    var k := if u + c < 0 then -1 else if u + c >= m then 1 else 0;
    assert m * (q + k) == m * q + m * k;
    DivModUnique(m, q + k, u + c - m * k);
  }

  // ---------------------------------------------------------------- ADC

  /**
   When each status flag `q` after ADC is the architecture's, in terms of the operands and
   the flags `f` before. With a clear carry only a stale OF is wrong. With a set carry CF
   misses the carry that alone goes past the end, OF is misled by the two partial sums,
   and SF, ZF and PF are those of the sum without the carry.
   */
  predicate AdcFlags(f: Rflags, x: nat, y: nat, q: Rflags, h: nat)
    requires h > 0
  {
    var a, b := SignedOf(x, h), SignedOf(y, h);
    var u, exact := (x + y) % (2 * h), (x + y + CarryIn(f)) % (2 * h);
    && ((q[CF] <==> x + y + CarryIn(f) >= 2 * h) <==> !f[CF] || x + y != 2 * h - 1 || y == 0)
    && ((q[OF] <==> !InRange(a + b + CarryIn(f), h)) <==>
          if f[CF] then a + b != 0 - h - 1 && (a + b == h - 1 ==> b == 0) && (a == h - 1 ==> b >= 0)
          else !f[OF] || !InRange(a + b, h))
    && (SignRight(q, exact, h) <==> !f[CF] || (u != h - 1 && u != 2 * h - 1))
    && (ZeroRight(q, exact) <==> !f[CF] || (u != 0 && u != 2 * h - 1))
    && (ParityRight(q, exact) <==> !f[CF] || SameParityUp(Low8(u)))
  }

  lemma AdcFlagsIff(f: Rflags, x: nat, y: nat, h: nat)
    requires h > 0 && h % 128 == 0 && x < 2 * h && y < 2 * h
    ensures AdcFlags(f, x, y, Alu.Adc(f, SignedOf(x, h), SignedOf(y, h), h).flags, h)
  {
    hide Low8, SameParityUp, Alu.Adc, InRange, SignedOf, SignRight, ZeroRight, ParityRight;
    AdcCarryAndOverflow(f, x, y, h);
    AdcResult(f, x, y, h);
  }

  lemma AdcResult(f: Rflags, x: nat, y: nat, h: nat)
    requires h > 0 && h % 128 == 0 && x < 2 * h && y < 2 * h
    ensures var q := Alu.Adc(f, SignedOf(x, h), SignedOf(y, h), h).flags;
      var u, exact := (x + y) % (2 * h), (x + y + CarryIn(f)) % (2 * h);
      && (SignRight(q, exact, h) <==> !f[CF] || (u != h - 1 && u != 2 * h - 1))
      && (ZeroRight(q, exact) <==> !f[CF] || (u != 0 && u != 2 * h - 1))
      && (ParityRight(q, exact) <==> !f[CF] || SameParityUp(Low8(u)))
  {
    hide Low8, SameParityUp, SameParityDown, EvenOnes, Alu.Adc, Wrap, SignedOf;
    AdcValue(x, y, h);
    AdcFlagsAreResult(f, x, y, h);
    NextReduced(x + y, h);
    NextParity(x + y, h);
  }

  /** The stored sum is the architecture's exactly if the carry is clear. */
  lemma AdcExactIff(f: Rflags, x: nat, y: nat, h: nat)
    requires h > 0 && x < 2 * h && y < 2 * h
    ensures UnsignedOf(Alu.Adc(f, SignedOf(x, h), SignedOf(y, h), h).value, h) == (x + y + CarryIn(f)) % (2 * h) <==> !f[CF]
  {
    hide Alu.Adc, Wrap, UnsignedOf;
    AdcStores(f, SignedOf(x, h), SignedOf(y, h), h);
    AdcValue(x, y, h);
    CarryShows(x + y, CarryIn(f), 2 * h);
  }

  lemma AdcCarryAndOverflow(f: Rflags, x: nat, y: nat, h: nat)
    requires h > 0 && x < 2 * h && y < 2 * h
    ensures var a, b, q := SignedOf(x, h), SignedOf(y, h), Alu.Adc(f, SignedOf(x, h), SignedOf(y, h), h).flags;
      && ((q[CF] <==> x + y + CarryIn(f) >= 2 * h) <==> !f[CF] || x + y != 2 * h - 1 || y == 0)
      && ((q[OF] <==> !InRange(a + b + CarryIn(f), h)) <==>
            if f[CF] then a + b != 0 - h - 1 && (a + b == h - 1 ==> b == 0) && (a == h - 1 ==> b >= 0)
            else !f[OF] || !InRange(a + b, h))
  {
    hide Low8, ByteParity;
  }

  lemma AdcValue(x: nat, y: nat, h: nat)
    requires h > 0 && x < 2 * h && y < 2 * h
    ensures UnsignedOf(Wrap(SignedOf(x, h) + SignedOf(y, h), h), h) == (x + y) % (2 * h)
  {
    DivModUnique(2 * h, if x + y < 2 * h then 0 else 1, if x + y < 2 * h then x + y else x + y - 2 * h);
  }

  lemma AdcFlagsAreResult(f: Rflags, x: nat, y: nat, h: nat)
    requires h > 0 && h % 128 == 0 && x < 2 * h && y < 2 * h
    ensures var r := Wrap(SignedOf(x, h) + SignedOf(y, h), h);
      ResultMeans(Alu.Adc(f, SignedOf(x, h), SignedOf(y, h), h).flags, UnsignedOf(r, h), h)
  {
    hide Low8, ByteParity, EvenOnes;
    ResultFlagsMean(f, Wrap(SignedOf(x, h) + SignedOf(y, h), h), h);
  }

  // ---------------------------------------------------------------- SBB

  /** The same for SBB, whose result without the borrow is the word after the architecture's. */
  predicate SbbFlags(f: Rflags, x: nat, y: nat, q: Rflags, h: nat)
    requires h > 0
  {
    var a, b := SignedOf(x, h), SignedOf(y, h);
    var u, exact := (x - y) % (2 * h), (x - y - CarryIn(f)) % (2 * h);
    && ((q[CF] <==> x - y - CarryIn(f) < 0) <==> !f[CF] || x != y || x == 0)
    && ((q[OF] <==> !InRange(a - b - CarryIn(f), h)) <==>
          if f[CF] then a - b != h && (a - b == 0 - h ==> b == 0) && (a == 0 - h ==> b >= 0)
          else !f[OF] || !InRange(a - b, h))
    && (SignRight(q, exact, h) <==> !f[CF] || (u != 0 && u != h))
    && (ZeroRight(q, exact) <==> !f[CF] || (u != 0 && u != 1))
    && (ParityRight(q, exact) <==> !f[CF] || SameParityDown(Low8(u)))
  }

  lemma SbbFlagsIff(f: Rflags, x: nat, y: nat, h: nat)
    requires h > 0 && h % 128 == 0 && x < 2 * h && y < 2 * h
    ensures SbbFlags(f, x, y, Alu.Sbb(f, SignedOf(x, h), SignedOf(y, h), h).flags, h)
  {
    hide Low8, SameParityDown, Alu.Sbb, InRange, SignedOf, SignRight, ZeroRight, ParityRight;
    SbbCarryAndOverflow(f, x, y, h);
    SbbResult(f, x, y, h);
  }

  lemma SbbResult(f: Rflags, x: nat, y: nat, h: nat)
    requires h > 0 && h % 128 == 0 && x < 2 * h && y < 2 * h
    ensures var q := Alu.Sbb(f, SignedOf(x, h), SignedOf(y, h), h).flags;
      var u, exact := (x - y) % (2 * h), (x - y - CarryIn(f)) % (2 * h);
      && (SignRight(q, exact, h) <==> !f[CF] || (u != 0 && u != h))
      && (ZeroRight(q, exact) <==> !f[CF] || (u != 0 && u != 1))
      && (ParityRight(q, exact) <==> !f[CF] || SameParityDown(Low8(u)))
  {
    hide Low8, SameParityUp, SameParityDown, EvenOnes, Alu.Sbb, Wrap, SignedOf;
    SbbValue(x, y, h);
    SbbFlagsAreResult(f, x, y, h);
    NextReduced(x - y - 1, h);
    NextParity(x - y - 1, h);
  }

  /** The stored difference is the architecture's exactly if the carry is clear. */
  lemma SbbExactIff(f: Rflags, x: nat, y: nat, h: nat)
    requires h > 0 && x < 2 * h && y < 2 * h
    ensures UnsignedOf(Alu.Sbb(f, SignedOf(x, h), SignedOf(y, h), h).value, h) == (x - y - CarryIn(f)) % (2 * h) <==> !f[CF]
  {
    hide Alu.Sbb, Wrap, UnsignedOf;
    SbbStores(f, SignedOf(x, h), SignedOf(y, h), h);
    SbbValue(x, y, h);
    CarryShows(x - y, -CarryIn(f), 2 * h);
  }

  lemma SbbCarryAndOverflow(f: Rflags, x: nat, y: nat, h: nat)
    requires h > 0 && x < 2 * h && y < 2 * h
    ensures var a, b, q := SignedOf(x, h), SignedOf(y, h), Alu.Sbb(f, SignedOf(x, h), SignedOf(y, h), h).flags;
      && ((q[CF] <==> x - y - CarryIn(f) < 0) <==> !f[CF] || x != y || x == 0)
      && ((q[OF] <==> !InRange(a - b - CarryIn(f), h)) <==>
            if f[CF] then a - b != h && (a - b == 0 - h ==> b == 0) && (a == 0 - h ==> b >= 0)
            else !f[OF] || !InRange(a - b, h))
  {
    hide Low8, ByteParity;
  }

  lemma SbbValue(x: nat, y: nat, h: nat)
    requires h > 0 && x < 2 * h && y < 2 * h
    ensures UnsignedOf(Wrap(SignedOf(x, h) - SignedOf(y, h), h), h) == (x - y) % (2 * h)
  {
    DivModUnique(2 * h, if x >= y then 0 else -1, if x >= y then x - y else x - y + 2 * h);
  }

  lemma SbbFlagsAreResult(f: Rflags, x: nat, y: nat, h: nat)
    requires h > 0 && h % 128 == 0 && x < 2 * h && y < 2 * h
    ensures var r := Wrap(SignedOf(x, h) - SignedOf(y, h), h);
      ResultMeans(Alu.Sbb(f, SignedOf(x, h), SignedOf(y, h), h).flags, UnsignedOf(r, h), h)
  {
    hide Low8, ByteParity, EvenOnes;
    ResultFlagsMean(f, Wrap(SignedOf(x, h) - SignedOf(y, h), h), h);
  }

  // ---------------------------------------------------------------- on the machine

  /** What ADC and SBB compute at a width: the sum or difference without the carry. */
  lemma CarryAtWidth(f: Rflags, x: nat, y: nat, sub: bool, w: Width)
    requires x < Modulus(w) && y < Modulus(w)
    ensures var z: int := if sub then x - y as int else x + y;
      var e := Compute(if sub then Sbb else Adc, f, x, y, w);
      && e.store
      && e.value == z % Modulus(w)
      && if sub then SbbFlags(f, x, y, e.flags, Half(w)) else AdcFlags(f, x, y, e.flags, Half(w))
  {
    hide Alu.Adc, Alu.Sbb, Half, AdcFlags, SbbFlags, Wrap, UnsignedOf;
    if sub {
      SbbFlagsIff(f, x, y, Half(w));
      SbbValue(x, y, Half(w));
      SbbStores(f, SignedOf(x, Half(w)), SignedOf(y, Half(w)), Half(w));
    } else {
      AdcFlagsIff(f, x, y, Half(w));
      AdcValue(x, y, Half(w));
      AdcStores(f, SignedOf(x, Half(w)), SignedOf(y, Half(w)), Half(w));
    }
  }

  /**
   ADC and SBB on any operands: the stored word is the sum or difference without the
   carry, which is the architecture's exactly if the carry was clear, and each flag is
   the architecture's exactly under its condition.
   */
  lemma AdcSbbOnMachine(s: State, i: Ins, io: u64, sub: bool, w: Width, dst: Place, src: Source)
    ensures var l := PlaceLoc(s, i, dst);
      var x, y := ReadLoc(s, l, w), SourceValue(s, i, src, w);
      var z: int := if sub then x - y as int else x + y;
      var exact := (if sub then z - CarryIn(s.flags) else z + CarryIn(s.flags)) % Modulus(w);
      var r := Perform(Binary(if sub then Sbb else Adc, w, dst, src), i, s, io);
      && r.Go?
      && ReadLoc(r.s, l, w) == z % Modulus(w)
      && (ReadLoc(r.s, l, w) == exact <==> !s.flags[CF])
      && (if sub then SbbFlags(s.flags, x, y, r.s.flags, Half(w)) else AdcFlags(s.flags, x, y, r.s.flags, Half(w)))
      && r.s.rip == s.rip
  {
    hide Compute, AdcFlags, SbbFlags, PlaceLoc, SourceValue, ReadLoc, WriteLoc;
    var l := PlaceLoc(s, i, dst);
    var x, y := ReadLoc(s, l, w), SourceValue(s, i, src, w);
    var e := Compute(if sub then Sbb else Adc, s.flags, x, y, w);
    CarryAtWidth(s.flags, x, y, sub, w);
    StoredEffect(s, l, w, e);
    WriteKeepsRest(s, l, w, e.value);
    CarryShows(if sub then x - y as int else x + y, if sub then -CarryIn(s.flags) else CarryIn(s.flags), Modulus(w));
  }

  /** With the carry set, 1 + 1 stores 2 and 1 - 1 stores 0. */
  lemma CarryIsLost(s: State, i: Ins, io: u64, sub: bool)
    requires s.regs[RAX] == 1 && s.flags[CF] && i.imm == 1
    ensures var r := Perform(Binary(if sub then Sbb else Adc, 8, Gpr(RAX), Imm(4, true)), i, s, io);
      r.Go? && r.s.regs[RAX] == if sub then 0 else 2
  {
    hide Perform, AdcFlags, SbbFlags, CarryIn;
    AdcSbbOnMachine(s, i, io, sub, 8, Gpr(RAX), Imm(4, true));
  }
}
