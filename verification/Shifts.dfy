/**
 Shift and rotate macros on bit strings of any length `n`, with the masked count `s`,
 and what they mean as rotations and as arithmetic.
 */
module Shifts {
  import opened Words
  import opened Bits
  import opened Flags
  import opened Alu

  datatype ShiftOp = Rol | Ror | Rcl | Rcr | Shl | Shr | Sar

  datatype Shifted = Shifted(flags: Rflags, bits: Bits)

  /** The count is masked by the operand length, a power of two. */
  function Masked(count: nat, n: nat): (s: nat)
    requires n > 0
    ensures s < n
  {
    count % n
  }

  /**
   The counts for which the C expressions are defined: no shift by the promoted
   operand's length or more, and the carry, an int, is not shifted into its sign.
   */
  predicate Defined(op: ShiftOp, n: nat, s: nat)
  {
    match op
    case Rol | Ror => n <= 16 || s > 0
    case Rcl => n <= 16 || (n == 32 && s >= 2) || (n == 64 && 2 <= s <= 31)
    case Rcr => n <= 16 || (n == 32 && s >= 2) || (n == 64 && 34 <= s)
    case _ => true
  }

  // ---------------------------------------------------------------- the macros

  /** CF is bit n-s of the operand; at count one OF is CF xor the result's top bit. */
  function LeftFlags(f: Rflags, x: Bits, s: nat, d: Bits): Rflags
    requires 0 < s < |x| && |d| == |x|
  {
    var g := Put(f, CF, BitAt(ShiftRight(x, |x| - s), 0));
    if s == 1 then Put(g, OF, g[CF] != d[|d| - 1]) else g
  }

  /** CF is bit s-1 of the operand; at count one OF is the xor of the result's top two bits. */
  function RightFlags(f: Rflags, x: Bits, s: nat, d: Bits): Rflags
    requires 0 < s < |x| && |d| == |x|
  {
    var g := Put(f, CF, BitAt(ShiftRight(x, s - 1), 0));
    if s == 1 then Put(g, OF, BitAt(ShiftRight(d, |d| - 2), 0) != d[|d| - 1]) else g
  }

  /** The result as a value of the signed type. */
  function SignedBits(d: Bits): int
    requires |d| > 0
  {
    SignedOf(FromBits(d), Pow2(|d| - 1))
  }

  function RolOp(f: Rflags, x: Bits, s: nat): Shifted
    requires s < |x|
  {
    var n := |x|;
    var d := Narrow(BitOr(ShiftLeft(x, s), ShiftRight(x, n - s)), n);
    Shifted(if s > 0 then LeftFlags(f, x, s, d) else f, d)
  }

  function RorOp(f: Rflags, x: Bits, s: nat): Shifted
    requires s < |x|
  {
    var n := |x|;
    var d := Narrow(BitOr(ShiftRight(x, s), ShiftLeft(x, n - s)), n);
    Shifted(if s > 0 then RightFlags(f, x, s, d) else f, d)
  }

  function RclOp(f: Rflags, x: Bits, s: nat): Shifted
    requires s < |x|
  {
    var n := |x|;
    var carry := if s > 0 then ShiftLeft([f[CF]], s - 1) else [];
    var d := Narrow(BitOr(BitOr(ShiftLeft(x, s), ShiftRight(x, n + 1 - s)), carry), n);
    Shifted(if s > 0 then LeftFlags(f, x, s, d) else f, d)
  }

  function RcrOp(f: Rflags, x: Bits, s: nat): Shifted
    requires s < |x|
  {
    var n := |x|;
    var d := Narrow(BitOr(BitOr(ShiftRight(x, s), ShiftLeft(x, n + 1 - s)), ShiftLeft([f[CF]], n - s)), n);
    Shifted(if s > 0 then RightFlags(f, x, s, d) else f, d)
  }

  function ShlOp(f: Rflags, x: Bits, s: nat): Shifted
    requires s < |x|
  {
    var n := |x|;
    var d := Narrow(ShiftLeft(x, s), n);
    if s == 0 then Shifted(f, d) else
    var g := Put(f, CF, BitAt(ShiftRight(x, n - s), 0));
    var g1 := ResultFlags(g, SignedBits(d));
    Shifted(if s == 1 then Put(g1, OF, g1[CF] != d[n - 1]) else g1, d)
  }

  /** Shared by SHR and SAR, which differ in the bits shifted in. */
  function ShiftRightFlags(f: Rflags, x: Bits, s: nat, d: Bits): Rflags
    requires 0 < s < |x| && |d| == |x|
  {
    var g := Put(f, CF, BitAt(ShiftRight(x, s - 1), 0));
    var g1 := ResultFlags(g, SignedBits(d));
    if s == 1 then Put(g1, OF, BitAt(ShiftRight(d, |d| - 2), 0) != d[|d| - 1]) else g1
  }

  function ShrOp(f: Rflags, x: Bits, s: nat): Shifted
    requires s < |x|
  {
    var d := Narrow(ShiftRight(x, s), |x|);
    Shifted(if s > 0 then ShiftRightFlags(f, x, s, d) else f, d)
  }

  /** `>>` of a signed value copies the sign bit into the vacated positions. */
  function ArithmeticShift(x: Bits, s: nat): (d: Bits)
    requires s < |x|
    ensures |d| == |x|
  {
    var top := x[|x| - 1];
    x[s..] + seq(s, _ => top)
  }

  function SarOp(f: Rflags, x: Bits, s: nat): Shifted
    requires s < |x|
  {
    var d := ArithmeticShift(x, s);
    Shifted(if s > 0 then ShiftRightFlags(f, x, s, d) else f, d)
  }

  function Apply(op: ShiftOp, f: Rflags, x: Bits, s: nat): (r: Shifted)
    requires s < |x|
    ensures |r.bits| == |x|
  {
    match op
    case Rol => RolOp(f, x, s)
    case Ror => RorOp(f, x, s)
    case Rcl => RclOp(f, x, s)
    case Rcr => RcrOp(f, x, s)
    case Shl => ShlOp(f, x, s)
    case Shr => ShrOp(f, x, s)
    case Sar => SarOp(f, x, s)
  }

  // ---------------------------------------------------------------- rotations

  /** Rotation towards the high end: the top `s` bits move to the bottom. */
  function RotateUp(x: Bits, s: nat): (r: Bits)
    requires s <= |x|
    ensures |r| == |x|
  {
    x[|x| - s..] + x[..|x| - s]
  }

  function RotateDown(x: Bits, s: nat): (r: Bits)
    requires s <= |x|
    ensures |r| == |x|
  {
    x[s..] + x[..s]
  }

  lemma RotationsAreInverse(x: Bits, s: nat)
    requires s <= |x|
    ensures RotateDown(RotateUp(x, s), s) == x && RotateUp(RotateDown(x, s), s) == x
  {
  }

  lemma RotationsCompose(x: Bits, s: nat, t: nat)
    requires s < |x| && t < |x|
    ensures RotateUp(RotateUp(x, s), t) == RotateUp(x, (s + t) % |x|)
  {
    hide RotateUp;
    var n, y := |x|, RotateUp(x, s);
    var u := if s + t < n then s + t else s + t - n;
    QuotientRemainder(s + t, n, if s + t < n then 0 else 1, u);
    forall i | 0 <= i < n
      ensures RotateUp(y, t)[i] == RotateUp(x, u)[i]
    {
      RotateUpAt(y, t, i);
      RotateUpAt(x, s, if i < t then n - t + i else i - t);
      RotateUpAt(x, u, i);
    }
  }

  lemma RotateUpAt(x: Bits, s: nat, i: nat)
    requires s <= |x| && i < |x|
    ensures RotateUp(x, s)[i] == x[if i < s then |x| - s + i else i - s]
  {
  }

  /** ROL and ROR are the rotations; with a non-zero count CF is the bit carried around. */
  lemma RolRorAreRotations(f: Rflags, x: Bits, s: nat)
    requires s < |x|
    ensures var r := RolOp(f, x, s);
      && r.bits == RotateUp(x, s)
      && (s > 0 ==> r.flags[CF] == r.bits[0] == x[|x| - s])
      && (s == 1 ==> r.flags[OF] == (r.bits[|x| - 1] != r.bits[0]))
    ensures var r := RorOp(f, x, s);
      && r.bits == RotateDown(x, s)
      && (s > 0 ==> r.flags[CF] == r.bits[|x| - 1] == x[s - 1])
      && (s == 1 && |x| > 1 ==> r.flags[OF] == (r.bits[|x| - 1] != r.bits[|x| - 2]))
  {
    RolRotates(f, x, s);
    RorRotates(f, x, s);
    RolFlags(f, x, s);
    RorFlags(f, x, s);
    hide RolOp, RorOp;
  }

  lemma RolFlags(f: Rflags, x: Bits, s: nat)
    requires 0 <= s < |x|
    ensures var r := RolOp(f, x, s);
      && (s > 0 ==> r.flags[CF] == x[|x| - s])
      && (s == 1 ==> r.flags[OF] == (r.bits[|x| - 1] != x[|x| - 1]))
  {
    hide BitOr, Narrow;
  }

  lemma RorFlags(f: Rflags, x: Bits, s: nat)
    requires 0 <= s < |x|
    ensures var r := RorOp(f, x, s);
      && (s > 0 ==> r.flags[CF] == x[s - 1])
      && (s == 1 && |x| > 1 ==> r.flags[OF] == (r.bits[|x| - 1] != r.bits[|x| - 2]))
  {
    hide BitOr, Narrow;
  }

  lemma RolRotates(f: Rflags, x: Bits, s: nat)
    requires s < |x|
    ensures RolOp(f, x, s).bits == RotateUp(x, s)
  {
  }

  lemma RorRotates(f: Rflags, x: Bits, s: nat)
    requires s < |x|
    ensures RorOp(f, x, s).bits == RotateDown(x, s)
  {
  }

  /** ROL then ROR by the same count is the identity, and ROL counts add modulo n. */
  lemma RolLaws(f: Rflags, g: Rflags, x: Bits, s: nat, t: nat)
    requires s < |x| && t < |x|
    ensures RorOp(g, RolOp(f, x, s).bits, s).bits == x
    ensures RolOp(g, RolOp(f, x, s).bits, t).bits == RolOp(f, x, Masked(s + t, |x|)).bits
  {
    RolRorAreRotations(f, x, s);
    RolRorAreRotations(g, RotateUp(x, s), s);
    RolRorAreRotations(g, RotateUp(x, s), t);
    RolRorAreRotations(f, x, Masked(s + t, |x|));
    RotationsAreInverse(x, s);
    RotationsCompose(x, s, t);
  }

  /** The operand with the carry on top: the value RCL and RCR rotate. */
  function WithCarry(f: Rflags, x: Bits): (y: Bits)
    ensures |y| == |x| + 1
  {
    x + [f[CF]]
  }

  /** RCL and RCR rotate the operand extended by CF, flag and all. */
  lemma RclRcrRotateWithCarry(f: Rflags, x: Bits, s: nat)
    requires s < |x|
    ensures var r := RclOp(f, x, s); |r.bits| == |x| && WithCarry(r.flags, r.bits) == RotateUp(WithCarry(f, x), s)
    ensures var r := RcrOp(f, x, s); |r.bits| == |x| && WithCarry(r.flags, r.bits) == RotateDown(WithCarry(f, x), s)
  {
    RclRotates(f, x, s);
    RcrRotates(f, x, s);
  }

  lemma RclRotates(f: Rflags, x: Bits, s: nat)
    requires s < |x|
    ensures var r := RclOp(f, x, s); WithCarry(r.flags, r.bits) == RotateUp(WithCarry(f, x), s)
  {
    RclBits(f, x, s);
    RclCarry(f, x, s);
    hide RclOp;
    var n, r, up := |x|, RclOp(f, x, s), RotateUp(WithCarry(f, x), s);
    assert up == up[..n] + [up[n]];
  }

  lemma RclBits(f: Rflags, x: Bits, s: nat)
    requires s < |x|
    ensures RclOp(f, x, s).bits == RotateUp(WithCarry(f, x), s)[..|x|]
  {
    hide LeftFlags;
    var n, r, y := |x|, RclOp(f, x, s), WithCarry(f, x);
    var up := RotateUp(y, s);
    forall i | 0 <= i < n
      ensures r.bits[i] == up[i]
    {
      if s > 0 && i == s - 1 {
        assert up[i] == y[n];
      } else if i < s {
        assert up[i] == y[n + 1 - s + i] == x[n + 1 - s + i];
      } else {
        assert up[i] == y[i - s] == x[i - s];
      }
    }
  }

  lemma RclCarry(f: Rflags, x: Bits, s: nat)
    requires s < |x|
    ensures RclOp(f, x, s).flags[CF] == RotateUp(WithCarry(f, x), s)[|x|]
  {
    hide BitOr, Narrow;
    var n, y := |x|, WithCarry(f, x);
    if s > 0 {
      assert RotateUp(y, s)[n] == y[n - s] == x[n - s];
    }
  }

  lemma RcrRotates(f: Rflags, x: Bits, s: nat)
    requires s < |x|
    ensures var r := RcrOp(f, x, s); WithCarry(r.flags, r.bits) == RotateDown(WithCarry(f, x), s)
  {
    RcrBits(f, x, s);
    RcrCarry(f, x, s);
    hide RcrOp;
    var n, r, down := |x|, RcrOp(f, x, s), RotateDown(WithCarry(f, x), s);
    assert down == down[..n] + [down[n]];
  }

  lemma RcrBits(f: Rflags, x: Bits, s: nat)
    requires s < |x|
    ensures RcrOp(f, x, s).bits == RotateDown(WithCarry(f, x), s)[..|x|]
  {
    hide RightFlags;
    var n, r, y := |x|, RcrOp(f, x, s), WithCarry(f, x);
    var down := RotateDown(y, s);
    forall i | 0 <= i < n
      ensures r.bits[i] == down[i]
    {
      if i < n - s {
        assert down[i] == y[i + s] == x[i + s];
      } else if i == n - s {
        assert down[i] == y[n];
      } else {
        assert down[i] == y[i - (n + 1 - s)] == x[i - (n + 1 - s)];
      }
    }
  }

  lemma RcrCarry(f: Rflags, x: Bits, s: nat)
    requires s < |x|
    ensures RcrOp(f, x, s).flags[CF] == RotateDown(WithCarry(f, x), s)[|x|]
  {
    hide BitOr, Narrow;
    var n, y := |x|, WithCarry(f, x);
    if s > 0 {
      assert RotateDown(y, s)[n] == y[s - 1] == x[s - 1];
    }
  }

  /** RCL then RCR by the same count restores the operand and CF. */
  lemma RclRcrInverse(f: Rflags, x: Bits, s: nat)
    requires s < |x|
    ensures var r := RclOp(f, x, s);
      var q := RcrOp(r.flags, r.bits, s);
      q.bits == x && q.flags[CF] == f[CF]
  {
    var r := RclOp(f, x, s);
    var q := RcrOp(r.flags, r.bits, s);
    RclRotates(f, x, s);
    RcrRotates(r.flags, r.bits, s);
    RotationsAreInverse(WithCarry(f, x), s);
    var y := WithCarry(f, x);
    assert WithCarry(q.flags, q.bits) == y;
    assert q.bits == y[..|x|] == x;
    assert q.flags[CF] == y[|x|] == f[CF];
  }

  /** OF after a carry rotate by one: for RCL new CF xor new top bit, for RCR old CF xor old top bit. */
  lemma CarryRotateOverflow(f: Rflags, x: Bits)
    requires |x| > 1
    ensures var r := RclOp(f, x, 1); r.flags[OF] == (r.flags[CF] != r.bits[|x| - 1])
    ensures RcrOp(f, x, 1).flags[OF] == (f[CF] != x[|x| - 1])
  {
    var n, r := |x|, RcrOp(f, x, 1);
    RcrRotates(f, x, 1);
    var down := RotateDown(WithCarry(f, x), 1);
    assert r.bits[n - 1] == down[n - 1] == f[CF];
    assert r.bits[n - 2] == down[n - 2] == x[n - 1];
  }

  // ---------------------------------------------------------------- arithmetic

  /** The parts of an operand split at bit `k`, as a quotient and a remainder. */
  lemma SplitValue(x: Bits, k: nat)
    requires k <= |x|
    ensures FromBits(x) / Pow2(k) == FromBits(x[k..]) && FromBits(x) % Pow2(k) == FromBits(x[..k])
  {
    var lo, hi := x[..k], x[k..];
    assert x == lo + hi;
    FromBitsConcat(lo, hi);
    QuotientRemainder(FromBits(x), Pow2(k), FromBits(hi), FromBits(lo));
  }

  /** SHL multiplies by 2^s modulo 2^n; CF is the last bit shifted out. */
  lemma ShlIsMultiplication(f: Rflags, x: Bits, s: nat)
    requires 0 < s < |x|
    ensures var r := ShlOp(f, x, s);
      && |r.bits| == |x|
      && FromBits(r.bits) == (FromBits(x) * Pow2(s)) % Pow2(|x|)
      && r.flags[CF] == x[|x| - s]
  {
    ShlBits(f, x, s);
    hide ShlOp, FromBits, Pow2;
    ShlValue(x, s);
  }

  lemma ShlBits(f: Rflags, x: Bits, s: nat)
    requires 0 < s < |x|
    ensures var r := ShlOp(f, x, s); r.bits == Zeros(s) + x[..|x| - s] && r.flags[CF] == x[|x| - s]
  {
    hide FromBits, Pow2, SignedBits, ByteParity, Low8;
  }

  lemma ShlValue(x: Bits, s: nat)
    requires s <= |x|
    ensures FromBits(Zeros(s) + x[..|x| - s]) == (FromBits(x) * Pow2(s)) % Pow2(|x|)
  {
    hide *;
    var p, q, l, h := ShlParts(x, s);
    ShlAlgebra(p, q, l, h, FromBits(x));
  }

  lemma ShlParts(x: Bits, s: nat) returns (p: nat, q: nat, l: nat, h: nat)
    requires s <= |x|
    ensures p == Pow2(s) && q * p == Pow2(|x|)
    ensures FromBits(Zeros(s) + x[..|x| - s]) == p * l
    ensures FromBits(x) == l + q * h && l < q
  {
    hide *;
    var n, lo, hi := |x|, x[..|x| - s], x[|x| - s..];
    p, q, l, h := Pow2(s), Pow2(n - s), FromBits(lo), FromBits(hi);
    FromBitsConcat(Zeros(s), lo);
    FromZeros(s);
    assert x == lo + hi;
    FromBitsConcat(lo, hi);
    Pow2Add(n - s, s);
  }

  lemma ShlAlgebra(p: nat, q: nat, l: nat, h: nat, v: nat)
    requires v == l + q * h && l < q && p > 0
    ensures q * p > 0 && (v * p) % (q * p) == p * l
  {
    assert v * p == l * p + (q * h) * p;
    assert (q * h) * p == (q * p) * h;
    assert p * l < q * p by { MulAtLeast(p, q - l); MulSub(p, q, l); }
    QuotientRemainder(v * p, q * p, h, p * l);
  }

  /** SHR is floor division of the unsigned value by 2^s; CF is the last bit shifted out. */
  lemma ShrIsDivision(f: Rflags, x: Bits, s: nat)
    requires 0 < s < |x|
    ensures var r := ShrOp(f, x, s);
      && FromBits(r.bits) == FromBits(x) / Pow2(s)
      && r.flags[CF] == x[s - 1]
      && (s == 1 ==> r.flags[OF] == x[|x| - 1])
  {
    var n, r := |x|, ShrOp(f, x, s);
    assert r.bits == x[s..] + Zeros(s);
    FromBitsConcat(x[s..], Zeros(s));
    FromZeros(s);
    SplitValue(x, s);
  }

  /** The signed value of a bit string: the top bit counts negatively. */
  lemma SignedValue(x: Bits)
    requires |x| > 0
    ensures var n := |x|;
      SignedBits(x) == FromBits(x[..n - 1]) - (if x[n - 1] then Pow2(n - 1) else 0)
  {
    var n := |x|;
    assert x == x[..n - 1] + [x[n - 1]];
    FromBitsAppend(x[..n - 1], x[n - 1]);
  }

  /** SAR is floor division of the signed value by 2^s; CF is the last bit shifted out. */
  lemma {:induction false} SarIsSignedDivision(f: Rflags, x: Bits, s: nat)
    requires 0 < s < |x|
    ensures var r := SarOp(f, x, s);
      && |r.bits| == |x|
      && SignedBits(r.bits) == SignedBits(x) / Pow2(s)
      && r.flags[CF] == x[s - 1]
      && (s == 1 ==> !r.flags[OF])
  {
    SarValue(x, s);
  }

  lemma {:induction false} SarValue(x: Bits, s: nat)
    requires s < |x|
    ensures SignedBits(ArithmeticShift(x, s)) == SignedBits(x) / Pow2(s)
  {
    if s == 0 {
      assert ArithmeticShift(x, s) == x;
    } else {
      assert Pow2(s) == 2 * Pow2(s - 1);
      hide SignedBits, ArithmeticShift, Pow2;
      var y, z := ArithmeticShift(x, s - 1), ArithmeticShift(x, s);
      SarValue(x, s - 1);
      SarShape(x, s);
      SarStep(y, z);
      DivTwice(SignedBits(x), Pow2(s - 1), SignedBits(z));
    }
  }

  /** One more position shifts the bits down by one and keeps the top bit. */
  lemma SarShape(x: Bits, s: nat)
    requires 0 < s < |x|
    ensures var y, z := ArithmeticShift(x, s - 1), ArithmeticShift(x, s);
      z[..|x| - 1] == y[1..] && z[|x| - 1] == y[|x| - 1]
  {
  }

  /** Dropping the lowest bit and repeating the sign bit halves the signed value. */
  lemma SarStep(y: Bits, z: Bits)
    requires |y| == |z| > 1
    requires z[..|y| - 1] == y[1..] && z[|y| - 1] == y[|y| - 1]
    ensures SignedBits(y) == (if y[0] then 1 else 0) + 2 * SignedBits(z)
  {
    var n := |y|;
    var t := if y[n - 1] then Pow2(n - 1) else 0;
    SignedValue(y);
    SignedValue(z);
    assert y[..n - 1][1..] == y[1..n - 1];
    assert y[1..] == y[1..n - 1] + [y[n - 1]];
    FromBitsAppend(y[1..n - 1], y[n - 1]);
    assert Pow2(n - 1) == 2 * Pow2(n - 2);
  }

  lemma DivTwice(v: int, p: nat, z: int)
    requires p > 0 && (v / p == 2 * z || v / p == 2 * z + 1)
    ensures v / (2 * p) == z
  {
    var q, r := v / p, v % p;
    assert v == p * q + r;
    if q == 2 * z {
      assert p * (2 * z) == (2 * p) * z;
      DivModUnique(2 * p, z, r);
    } else {
      assert p * (2 * z + 1) == (2 * p) * z + p;
      DivModUnique(2 * p, z, p + r);
    }
  }

  /** OF after SHL by one says that doubling the signed operand does not fit. */
  lemma ShlOverflow(f: Rflags, x: Bits)
    requires |x| > 1
    ensures ShlOp(f, x, 1).flags[OF] <==> !InRange(2 * SignedBits(x), Pow2(|x| - 1))
  {
    var n, r := |x|, ShlOp(f, x, 1);
    assert r.bits[n - 1] == x[n - 2];
    TopTwoBits(x);
  }

  /** Twice a signed value fits exactly when its top two bits agree. */
  lemma TopTwoBits(x: Bits)
    requires |x| > 1
    ensures InRange(2 * SignedBits(x), Pow2(|x| - 1)) <==> x[|x| - 1] == x[|x| - 2]
  {
    hide *;
    var n := |x|;
    var lo := x[..n - 2];
    assert x[..n - 1] == lo + [x[n - 2]];
    SignedValue(x);
    FromBitsAppend(lo, x[n - 2]);
    Pow2Add(n - 2, 1);
    PowerOfOne();
    TopTwoWeights(FromBits(lo), Pow2(n - 2), x[n - 1], x[n - 2]);
  }

  lemma PowerOfOne()
    ensures Pow2(1) == 2
  {
    assert Pow2(0) == 1;
  }

  lemma TopTwoWeights(v: nat, p: nat, top: bool, next: bool)
    requires v < p
    ensures InRange(2 * (v + (if next then p else 0) - (if top then 2 * p else 0)), 2 * p) <==> top == next
  {
  }
}
