/**
 The two-operand and one-operand arithmetic macros, as functions on the signed
 readings of their operands, and what their flags mean over the unbounded integers.
 `h` is half the number of values of the operand type, so every statement about
 arithmetic holds at all four widths at once.
 */
module Alu {
  import opened Words
  import opened Flags
  import opened Bits

  /** The cast of a signed value to the unsigned type of the same width. */
  function UnsignedOf(z: int, h: nat): (x: int)
    ensures InRange(z, h) ==> 0 <= x < 2 * h
  {
    if z < 0 then z + 2 * h else z
  }

  /** Storing a sum or difference in the signed type wraps once around. */
  function Wrap(z: int, h: nat): (r: int)
    ensures 0 - 2 * h <= z < 2 * h ==> InRange(r, h)
  {
    if z < 0 - h then z + 2 * h else if z >= h then z - 2 * h else z
  }

  /** The cast to uint8_t. */
  function Low8(z: int): byte { z % 256 }

  /** Flags after an operation, and its signed result. */
  datatype Result = Result(flags: Rflags, value: int)

  function ResultFlags(f: Rflags, r: int): Rflags
  {
    Put(Put(Put(f, SF, r < 0), ZF, r == 0), PF, ByteParity(Low8(r)))
  }

  /** Assignment to a one-bit field of the flags union. */
  function Put(f: Rflags, bit: nat, b: bool): Rflags
    requires bit < 64
  {
    f[bit := b]
  }

  // ---------------------------------------------------------------- the macros

  /** Shared part of ADD and INC: everything but the carry flag. */
  function AddCore(f: Rflags, a: int, b: int, h: nat): (q: Result)
    ensures InRange(a, h) && InRange(b, h) ==> InRange(q.value, h)
  {
    var r := Wrap(a + b, h);
    var f1 := Put(ResultFlags(f, r), AF, Low8(r) < Low8(a));
    Result(Put(f1, OF, (b < 0 && a < 0 && r >= 0) || (b >= 0 && a >= 0 && r < 0)), r)
  }

  /** Shared part of SUB, CMP and DEC: everything but the carry flag. */
  function SubCore(f: Rflags, a: int, b: int, h: nat): (q: Result)
    ensures InRange(a, h) && InRange(b, h) ==> InRange(q.value, h)
  {
    var r := Wrap(a - b, h);
    var f1 := Put(ResultFlags(f, r), AF, Low8(r) > Low8(a));
    Result(Put(f1, OF, (b >= 0 && a < 0 && r >= 0) || (b < 0 && a >= 0 && r < 0)), r)
  }

  function Add(f: Rflags, a: int, b: int, h: nat): (q: Result)
    ensures InRange(a, h) && InRange(b, h) ==> InRange(q.value, h)
  {
    var c := AddCore(f, a, b, h);
    Result(Put(c.flags, CF, UnsignedOf(c.value, h) < UnsignedOf(a, h)), c.value)
  }

  function Sub(f: Rflags, a: int, b: int, h: nat): (q: Result)
    ensures InRange(a, h) && InRange(b, h) ==> InRange(q.value, h)
  {
    var c := SubCore(f, a, b, h);
    Result(Put(c.flags, CF, UnsignedOf(c.value, h) > UnsignedOf(a, h)), c.value)
  }

  /** ADC: the incremented value only feeds the flags; the stored sum starts over. */
  function Adc(f: Rflags, a: int, b: int, h: nat): (q: Result)
    ensures InRange(a, h) && InRange(b, h) ==> InRange(q.value, h)
  {
    var g := if f[CF] then
               var r1 := Wrap(a + 1, h);
               var f1 := Put(Put(f, CF, UnsignedOf(r1, h) < UnsignedOf(a, h)), AF, Low8(r1) < Low8(a));
               Put(f1, OF, a >= 0 && r1 < 0)
             else f;
    var r := Wrap(a + b, h);
    var g1 := ResultFlags(g, r);
    var g2 := Put(g1, CF, g1[CF] || UnsignedOf(r, h) < UnsignedOf(a, h));
    var g3 := Put(g2, AF, g2[AF] || Low8(r) < Low8(a));
    Result(Put(g3, OF, g3[OF] || (b < 0 && a < 0 && r >= 0) || (b >= 0 && a >= 0 && r < 0)), r)
  }

  /** SBB, with the same shape as ADC. */
  function Sbb(f: Rflags, a: int, b: int, h: nat): (q: Result)
    ensures InRange(a, h) && InRange(b, h) ==> InRange(q.value, h)
  {
    var g := if f[CF] then
               var r1 := Wrap(a - 1, h);
               var f1 := Put(Put(f, CF, UnsignedOf(r1, h) > UnsignedOf(a, h)), AF, Low8(r1) > Low8(a));
               Put(f1, OF, a < 0 && r1 >= 0)
             else f;
    var r := Wrap(a - b, h);
    var g1 := ResultFlags(g, r);
    var g2 := Put(g1, CF, g1[CF] || UnsignedOf(r, h) > UnsignedOf(a, h));
    var g3 := Put(g2, AF, g2[AF] || Low8(r) > Low8(a));
    Result(Put(g3, OF, g3[OF] || (b >= 0 && a < 0 && r >= 0) || (b < 0 && a >= 0 && r < 0)), r)
  }

  /** Flags of AND, OR, XOR and TEST for the signed result `r`. */
  function BitwiseFlags(f: Rflags, r: int): Rflags
  {
    Put(Put(ResultFlags(f, r), OF, false), CF, false)
  }

  // ---------------------------------------------------------------- exact meaning

  /** The low byte of a value is the same in both readings. */
  lemma LowByte(z: int, h: nat)
    requires h % 128 == 0
    ensures Low8(UnsignedOf(z, h)) == Low8(z)
  {
    var k := h / 128;
    assert 2 * h == 256 * k;
    if z < 0 {
      assert (z + 256 * k) % 256 == z % 256;
    }
  }

  predicate EvenOnes(x: nat) { Ones(ToBits(Low8(x), 8)) % 2 == 0 }

  /** SF, ZF and PF are those of the stored word `u`. */
  predicate ResultMeans(f: Rflags, u: nat, h: nat)
  {
    (f[SF] <==> u >= h) && (f[ZF] <==> u == 0) && (f[PF] <==> EvenOnes(u))
  }

  /** The sign test, the zero test and the folded low byte of a signed result. */
  lemma ResultFlagsMean(f: Rflags, r: int, h: nat)
    requires h % 128 == 0 && InRange(r, h)
    ensures ResultMeans(ResultFlags(f, r), UnsignedOf(r, h), h)
  {
    hide Low8, ByteParity;
    LowByte(r, h);
    ByteParityIsEvenOnes(Low8(r));
  }

  /**
   ADD on unsigned operands `x` and `y`: the stored word is the sum modulo 2h, CF says
   the unsigned sum did not fit, OF that the signed sum did not, and SF differs from OF
   exactly when the unbounded signed sum is negative.
   */
  lemma AddExact(f: Rflags, x: nat, y: nat, h: nat)
    requires h % 128 == 0 && x < 2 * h && y < 2 * h
    ensures var t := SignedOf(x, h) + SignedOf(y, h);
      var q := Add(f, SignedOf(x, h), SignedOf(y, h), h);
      var u := UnsignedOf(q.value, h);
      && u == (if x + y < 2 * h then x + y else x + y - 2 * h)
      && (q.flags[CF] <==> x + y >= 2 * h)
      && (q.flags[OF] <==> !InRange(t, h))
      && (q.flags[SF] != q.flags[OF] <==> t < 0)
      && (q.flags[ZF] <==> u == 0)
      && (q.flags[SF] <==> u >= h)
      && (q.flags[PF] <==> EvenOnes(u))
  {
    hide Low8, ByteParity;
    var a, b := SignedOf(x, h), SignedOf(y, h);
    var r := Wrap(a + b, h);
    LowByte(r, h);
    ByteParityIsEvenOnes(Low8(r));
  }

  /** SUB and CMP on unsigned operands: CF is the unsigned borrow, OF signed overflow. */
  lemma SubExact(f: Rflags, x: nat, y: nat, h: nat)
    requires h % 128 == 0 && x < 2 * h && y < 2 * h
    ensures var t := SignedOf(x, h) - SignedOf(y, h);
      var q := Sub(f, SignedOf(x, h), SignedOf(y, h), h);
      var u := UnsignedOf(q.value, h);
      && u == (if x >= y then x - y else x - y + 2 * h)
      && (q.flags[CF] <==> x < y)
      && (q.flags[OF] <==> !InRange(t, h))
      && (q.flags[SF] != q.flags[OF] <==> t < 0)
      && (q.flags[ZF] <==> x == y)
      && (q.flags[SF] <==> u >= h)
      && (q.flags[PF] <==> EvenOnes(u))
  {
    hide Low8, ByteParity;
    var a, b := SignedOf(x, h), SignedOf(y, h);
    var r := Wrap(a - b, h);
    LowByte(r, h);
    ByteParityIsEvenOnes(Low8(r));
  }

  /** INC (`d` = 1) and DEC (`d` = -1): exact result and OF, and CF is left alone. */
  lemma IncDecExact(f: Rflags, x: nat, inc: bool, h: nat)
    requires h % 128 == 0 && x < 2 * h && h > 1
    ensures var d := if inc then 1 else -1;
      var t := SignedOf(x, h) + d;
      var q := if inc then AddCore(f, SignedOf(x, h), 1, h) else SubCore(f, SignedOf(x, h), 1, h);
      var u := UnsignedOf(q.value, h);
      && u == (if x + d == 2 * h then 0 else if x + d < 0 then 2 * h - 1 else x + d)
      && q.flags[CF] == f[CF]
      && (q.flags[OF] <==> !InRange(t, h))
      && (q.flags[SF] != q.flags[OF] <==> t < 0)
      && (q.flags[ZF] <==> u == 0)
      && (q.flags[PF] <==> EvenOnes(u))
  {
    hide Low8, ByteParity;
    var a := SignedOf(x, h);
    var r := Wrap(if inc then a + 1 else a - 1, h);
    LowByte(r, h);
    ByteParityIsEvenOnes(Low8(r));
  }
}
