/** Machine words: bytes, 64-bit words, operand widths, and little-endian byte strings. */
module Words {

  const WORD: int := 0x1_0000_0000_0000_0000

  type byte = x: int | 0 <= x < 256
  type u64 = x: int | 0 <= x < 0x1_0000_0000_0000_0000
  type RegIdx = i: int | 0 <= i < 16

  /** Operand width in bytes. */
  type Width = w: int | w == 1 || w == 2 || w == 4 || w == 8 witness 1

  /** Half the number of values of a `w`-byte word: the weight of its sign bit. */
  function Half(w: Width): (h: nat)
    ensures h >= 128 && h % 128 == 0 && 2 * h <= WORD
  {
    if w == 1 then 0x80 else if w == 2 then 0x8000
    else if w == 4 then 0x8000_0000 else 0x8000_0000_0000_0000
  }

  function Modulus(w: Width): (m: nat)
    ensures m == 2 * Half(w)
  {
    if w == 1 then 0x100 else if w == 2 then 0x1_0000
    else if w == 4 then 0x1_0000_0000 else WORD
  }

  /** The values of a signed type with `2h` values. */
  predicate InRange(z: int, h: nat) { 0 - h <= z < h }

  /** Two's complement reading of a word below 2h. */
  function SignedOf(x: nat, h: nat): (z: int)
    ensures x < 2 * h ==> InRange(z, h)
  {
    if x < h then x else x - 2 * h
  }

  /** Two's complement reading of a `w`-byte word. */
  function Signed(x: nat, w: Width): int
    requires x < Modulus(w)
  {
    SignedOf(x, Half(w))
  }

  /** A `k`-byte word sign- or zero-extended to `w` bytes. */
  function Extend(x: nat, k: Width, w: Width, signed: bool): (r: nat)
    requires x < Modulus(k) && k <= w
    ensures r < Modulus(w)
    ensures signed ==> Signed(r, w) == Signed(x, k)
    ensures !signed ==> r == x
  {
    if signed && x >= Half(k) then x + (Modulus(w) - Modulus(k)) else x
  }

  /** Address and instruction-pointer arithmetic wraps. */
  function Plus(a: int, d: int): u64 { (a + d) % WORD }

  /** Replace the low `w` bytes of a 64-bit word, as a store through a narrower pointer does. */
  function SetLow(x: u64, w: Width, v: nat): (r: u64)
    requires v < Modulus(w)
    ensures r % Modulus(w) == v
    ensures r / Modulus(w) == x / Modulus(w)
  {
    SetLowFits(x, w, v);
    x - x % Modulus(w) + v
  }

  /** Eight bytes are the whole word. */
  lemma FullWidth(x: u64, v: u64)
    ensures SetLow(x, 8, v) == v && v % Modulus(8) == v
  {
  }

  /** For contexts that hide constants. */
  lemma WordSize()
    ensures WORD == 0x1_0000_0000_0000_0000
  {
  }

  lemma SetLowFits(x: u64, w: Width, v: nat)
    requires v < Modulus(w)
    ensures 0 <= x - x % Modulus(w) + v < WORD
    ensures (x - x % Modulus(w) + v) % Modulus(w) == v
    ensures (x - x % Modulus(w) + v) / Modulus(w) == x / Modulus(w)
  {
    var m := Modulus(w);
    var q := x / m;
    assert x == m * q + x % m;
    DivModUnique(m, q, v);
    if w == 1 {
      assert q <= 0xFF_FFFF_FFFF_FFFF;
    } else if w == 2 {
      assert q <= 0xFFFF_FFFF_FFFF;
    } else if w == 4 {
      assert q <= 0xFFFF_FFFF;
    } else {
      assert q == 0;
    }
  }

  /** Quotient and remainder are determined by the division identity. */
  lemma DivModUnique(m: nat, q: int, r: int)
    requires 0 <= r < m
    ensures (m * q + r) / m == q && (m * q + r) % m == r
  {
    var n := m * q + r;
    var a, b := n / m, n % m;
    assert n == m * a + b;
    var d := q - a;
    assert m * q - m * a == m * d by { MulSub(m, q, a); }
    MulAtLeast(m, d);
    MulAtLeast(m, -d);
    assert m * d == -(m * -d) by { MulSub(m, 0, d); }
  }

  lemma QuotientRemainder(v: int, m: nat, q: int, r: int)
    requires 0 <= r < m && v == m * q + r
    ensures v / m == q && v % m == r
  {
    DivModUnique(m, q, r);
  }

  lemma MulSub(m: int, x: int, y: int)
    ensures m * x - m * y == m * (x - y)
  {
  }

  lemma MulAtLeast(m: nat, d: int)
    ensures d >= 1 ==> m * d >= m
  {
    if d >= 1 {
      assert m * d == m * (d - 1) + m;
      assert m * (d - 1) >= 0;
    }
  }

  // ---------------------------------------------------------------- byte strings

  function Pow256(k: nat): (p: nat)
    ensures p > 0
  {
    if k == 0 then 1 else 256 * Pow256(k - 1)
  }

  lemma Pow256AtWidth(w: Width)
    ensures Pow256(w) == Modulus(w)
  {
    assert Pow256(2) == 0x1_0000;
    assert Pow256(4) == 256 * (256 * Pow256(2));
    assert Pow256(6) == 256 * (256 * Pow256(4));
    assert Pow256(8) == 256 * (256 * Pow256(6));
  }

  lemma {:induction false} Pow256Monotone(a: nat, b: nat)
    requires a <= b
    ensures Pow256(a) <= Pow256(b)
    decreases b
  {
    if a < b {
      Pow256Monotone(a, b - 1);
    }
  }

  /** Little-endian value of a byte string. */
  function FromBytes(b: seq<byte>): (v: nat)
    ensures v < Pow256(|b|)
  {
    if |b| == 0 then 0 else b[0] + 256 * FromBytes(b[1..])
  }

  /** The low `k` bytes of `v`, least significant first. */
  function ToBytes(v: nat, k: nat): (b: seq<byte>)
    ensures |b| == k
  {
    if k == 0 then [] else [v % 256] + ToBytes(v / 256, k - 1)
  }

  lemma {:induction false} ToBytesOfFromBytes(b: seq<byte>)
    ensures ToBytes(FromBytes(b), |b|) == b
  {
    if |b| > 0 {
      var v := FromBytes(b);
      assert v / 256 == FromBytes(b[1..]) && v % 256 == b[0];
      ToBytesOfFromBytes(b[1..]);
    }
  }

  lemma {:induction false} FromBytesOfToBytes(v: nat, k: nat)
    requires v < Pow256(k)
    ensures FromBytes(ToBytes(v, k)) == v
  {
    if k > 0 {
      assert v / 256 < Pow256(k - 1);
      FromBytesOfToBytes(v / 256, k - 1);
      assert ToBytes(v, k)[1..] == ToBytes(v / 256, k - 1);
    }
  }
}
