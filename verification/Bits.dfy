/**
 Words as bit strings, least significant bit first, with the C operators the
 emulator applies to them.
 */
module Bits {
  import opened Words

  type Bits = seq<bool>

  function Pow2(k: nat): (p: nat)
    ensures p > 0
  {
    if k == 0 then 1 else 2 * Pow2(k - 1)
  }

  /** The low `n` bits of `x`. */
  function ToBits(x: nat, n: nat): (b: Bits)
    ensures |b| == n
  {
    if n == 0 then [] else [x % 2 == 1] + ToBits(x / 2, n - 1)
  }

  function FromBits(b: Bits): (x: nat)
    ensures x < Pow2(|b|)
  {
    if |b| == 0 then 0 else (if b[0] then 1 else 0) + 2 * FromBits(b[1..])
  }

  lemma {:induction false} FromBitsOfToBits(x: nat, n: nat)
    requires x < Pow2(n)
    ensures FromBits(ToBits(x, n)) == x
  {
    if n > 0 {
      FromBitsOfToBits(x / 2, n - 1);
      assert ToBits(x, n)[1..] == ToBits(x / 2, n - 1);
    }
  }

  lemma {:induction false} ToBitsOfFromBits(b: Bits)
    ensures ToBits(FromBits(b), |b|) == b
  {
    if |b| > 0 {
      var x := FromBits(b);
      assert x / 2 == FromBits(b[1..]) && (x % 2 == 1) == b[0];
      ToBitsOfFromBits(b[1..]);
    }
  }

  /** A bit string splits into its low part and its high part. */
  lemma {:induction false} FromBitsConcat(lo: Bits, hi: Bits)
    ensures FromBits(lo + hi) == FromBits(lo) + Pow2(|lo|) * FromBits(hi)
  {
    if |lo| == 0 {
      assert lo + hi == hi;
    } else {
      assert (lo + hi)[1..] == lo[1..] + hi;
      FromBitsConcat(lo[1..], hi);
      FromBitsConcatStep(lo, FromBits(lo[1..] + hi), FromBits(hi));
    }
  }

  lemma FromBitsConcatStep(lo: Bits, rest: nat, h: nat)
    requires |lo| > 0 && rest == FromBits(lo[1..]) + Pow2(|lo| - 1) * h
    ensures (if lo[0] then 1 else 0) + 2 * rest == FromBits(lo) + Pow2(|lo|) * h
  {
    TwiceProduct(Pow2(|lo| - 1), h);
  }

  lemma TwiceProduct(p: int, q: int)
    ensures 2 * (p * q) == (2 * p) * q
  {
  }

  lemma {:induction false} Pow2Add(a: nat, b: nat)
    ensures Pow2(a + b) == Pow2(a) * Pow2(b)
  {
    if a > 0 {
      Pow2Add(a - 1, b);
      TwiceProduct(Pow2(a - 1), Pow2(b));
    }
  }

  lemma Pow2Plus8(k: nat)
    ensures Pow2(k + 8) == 256 * Pow2(k)
  {
    assert Pow2(k + 2) == 4 * Pow2(k);
    assert Pow2(k + 4) == 4 * Pow2(k + 2);
    assert Pow2(k + 6) == 4 * Pow2(k + 4);
  }

  /** The weights of the top bits of the operand widths, and the sizes of the widths. */
  lemma Pow2Table()
    ensures Pow2(7) == 0x80 && Pow2(15) == 0x8000 && Pow2(31) == 0x8000_0000 && Pow2(63) == 0x8000_0000_0000_0000
    ensures Pow2(8) == 0x100 && Pow2(16) == 0x1_0000 && Pow2(32) == 0x1_0000_0000 && Pow2(64) == WORD
  {
    Pow2Plus8(0); Pow2Plus8(8); Pow2Plus8(16); Pow2Plus8(24);
    Pow2Plus8(32); Pow2Plus8(40); Pow2Plus8(48); Pow2Plus8(56);
    assert Pow2(7) == 0x80;
    Pow2Plus8(7); Pow2Plus8(15); Pow2Plus8(23); Pow2Plus8(31);
    Pow2Plus8(39); Pow2Plus8(47); Pow2Plus8(55);
  }

  /** A bit on top counts with its weight. */
  lemma {:induction false} FromBitsAppend(lo: Bits, top: bool)
    ensures FromBits(lo + [top]) == FromBits(lo) + if top then Pow2(|lo|) else 0
  {
    if |lo| == 0 {
      assert lo + [top] == [top];
      assert [top][1..] == [];
    } else {
      assert (lo + [top])[1..] == lo[1..] + [top];
      FromBitsAppend(lo[1..], top);
    }
  }

  function Zeros(n: nat): (b: Bits)
    ensures |b| == n && forall i :: 0 <= i < n ==> !b[i]
  {
    seq(n, _ => false)
  }

  lemma {:induction false} FromZeros(n: nat)
    ensures FromBits(Zeros(n)) == 0
  {
    if n > 0 {
      assert Zeros(n)[1..] == Zeros(n - 1);
      FromZeros(n - 1);
    }
  }

  /** `x << k`, before the result is narrowed to its type. */
  function ShiftLeft(x: Bits, k: nat): Bits { Zeros(k) + x }

  /** `x >> k` of an unsigned value. */
  function ShiftRight(x: Bits, k: nat): Bits { if k <= |x| then x[k..] else [] }

  /** Bit `i`, where bits above the top are zero. */
  predicate BitAt(x: Bits, i: nat) { i < |x| && x[i] }

  /** Conversion to an unsigned type of `n` bits: drop the bits above, zero-fill below. */
  function Narrow(x: Bits, n: nat): (r: Bits)
    ensures |r| == n && forall i :: 0 <= i < n ==> r[i] == BitAt(x, i)
  {
    seq(n, i requires 0 <= i < n => BitAt(x, i))
  }

  function BitOr(x: Bits, y: Bits): (r: Bits)
    ensures |r| == (if |x| > |y| then |x| else |y|)
    ensures forall i :: 0 <= i < |r| ==> r[i] == (BitAt(x, i) || BitAt(y, i))
  {
    var n := if |x| > |y| then |x| else |y|;
    seq(n, i requires 0 <= i < n => BitAt(x, i) || BitAt(y, i))
  }

  function BitAnd(x: Bits, y: Bits): (r: Bits)
    requires |x| == |y|
    ensures |r| == |x| && forall i :: 0 <= i < |r| ==> r[i] == (x[i] && y[i])
  {
    seq(|x|, i requires 0 <= i < |x| => x[i] && y[i])
  }

  function BitXor(x: Bits, y: Bits): (r: Bits)
    requires |x| == |y|
    ensures |r| == |x| && forall i :: 0 <= i < |r| ==> r[i] == (x[i] != y[i])
  {
    seq(|x|, i requires 0 <= i < |x| => x[i] != y[i])
  }

  // ---------------------------------------------------------------- parity

  /** How many bits are set. */
  function Ones(b: Bits): nat
  {
    if |b| == 0 then 0 else (if b[0] then 1 else 0) + Ones(b[1..])
  }

  /** One folding step of the parity computation, `x ^= x >> k`. */
  function Fold(b: Bits, k: nat): (r: Bits)
    ensures |r| == |b|
  {
    BitXor(b, Narrow(ShiftRight(b, k), |b|))
  }

  /** The parity bit by three folds, as the emulator computes it. */
  function ByteParity(x: byte): bool
  {
    !Fold(Fold(Fold(ToBits(x, 8), 4), 2), 1)[0]
  }

  lemma FoldAt(b: Bits, k: nat, i: nat)
    requires i + k < |b|
    ensures Fold(b, k)[i] == (b[i] != b[i + k])
  {
  }

  lemma OnesOfEight(b: Bits)
    requires |b| == 8
    ensures Ones(b) % 2 == 0 <==>
      (b[0] == b[1]) == ((b[2] == b[3]) == ((b[4] == b[5]) == (b[6] == b[7])))
  {
    var c := b[1..]; var d := c[1..]; var e := d[1..]; var f := e[1..];
    var g := f[1..]; var h := g[1..]; var l := h[1..];
    assert Ones(l) == if b[7] then 1 else 0;
    assert Ones(g) == (if b[5] then 1 else 0) + (if b[6] then 1 else 0) + Ones(l);
    assert Ones(e) == (if b[3] then 1 else 0) + (if b[4] then 1 else 0) + Ones(g);
    assert Ones(c) == (if b[1] then 1 else 0) + (if b[2] then 1 else 0) + Ones(e);
  }

  /** The folded bit is set exactly when the byte has an even number of ones. */
  lemma ByteParityIsEvenOnes(x: byte)
    ensures ByteParity(x) <==> Ones(ToBits(x, 8)) % 2 == 0
  {
    var b := ToBits(x, 8);
    var b4 := Fold(b, 4);
    var b2 := Fold(b4, 2);
    FoldAt(b, 4, 0); FoldAt(b, 4, 1); FoldAt(b, 4, 2); FoldAt(b, 4, 3);
    FoldAt(b4, 2, 0); FoldAt(b4, 2, 1);
    FoldAt(b2, 1, 0);
    OnesOfEight(b);
  }
}
