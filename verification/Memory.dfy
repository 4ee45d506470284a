/**
 The address space: one byte at each 64-bit address, accesses wrapping at the top.
 */
module Memory {
  import opened Words

  type Memory = m: seq<byte> | |m| == WORD witness seq(WORD, _ => 0)

  /** The `k` bytes from address `a`. */
  function Read(m: Memory, a: u64, k: nat): (b: seq<byte>)
    ensures |b| == k
  {
    seq(k, i requires 0 <= i < k => m[Plus(a, i)])
  }

  /** How far `x` lies above `a`, going round the address space. */
  function Above(a: u64, x: int): u64 { (x - a) % WORD }

  function Write(m: Memory, a: u64, b: seq<byte>): (r: Memory)
    ensures forall x :: 0 <= x < WORD ==> r[x] == if Above(a, x) < |b| then b[Above(a, x)] else m[x]
  {
    seq(WORD, x requires 0 <= x < WORD => if Above(a, x) < |b| then b[Above(a, x)] else m[x])
  }

  function Load(m: Memory, a: u64, w: Width): (v: nat)
    ensures v < Modulus(w)
  {
    Pow256AtWidth(w);
    FromBytes(Read(m, a, w))
  }

  function Store(m: Memory, a: u64, w: Width, v: nat): Memory
    requires v < Modulus(w)
  {
    Write(m, a, ToBytes(v, w))
  }

  lemma AbovePlus(a: u64, i: int)
    requires 0 <= i < WORD
    ensures Above(a, Plus(a, i)) == i
  {
  }

  lemma ReadWrite(m: Memory, a: u64, b: seq<byte>)
    requires |b| <= WORD
    ensures Read(Write(m, a, b), a, |b|) == b
  {
    var r := Read(Write(m, a, b), a, |b|);
    forall i | 0 <= i < |b|
      ensures r[i] == b[i]
    {
      AbovePlus(a, i);
    }
  }

  /** A load at the address and width of the last store returns what was stored. */
  lemma LoadStore(m: Memory, a: u64, w: Width, v: nat)
    requires v < Modulus(w)
    ensures Load(Store(m, a, w, v), a, w) == v
  {
    ReadWrite(m, a, ToBytes(v, w));
    Pow256AtWidth(w);
    FromBytesOfToBytes(v, w);
  }

  /** Two ranges that do not wrap and do not overlap. */
  predicate Apart(a: u64, k: nat, b: u64, n: nat)
  {
    a + k <= b || b + n <= a
  }

  lemma ReadWriteApart(m: Memory, a: u64, b: seq<byte>, c: u64, k: nat)
    requires a + |b| <= WORD && c + k <= WORD && Apart(a, |b|, c, k)
    ensures Read(Write(m, a, b), c, k) == Read(m, c, k)
  {
    var r, q := Read(Write(m, a, b), c, k), Read(m, c, k);
    forall i | 0 <= i < k
      ensures r[i] == q[i]
    {
      assert Plus(c, i) == c + i;
      if c + i >= a {
        assert Above(a, c + i) == c + i - a;
      } else {
        assert Above(a, c + i) == c + i - a + WORD;
      }
    }
  }

  /** Without wrapping, a read is a slice and a write replaces a slice. */
  lemma FlatAccess(m: Memory, a: u64, b: seq<byte>)
    requires a + |b| <= WORD
    ensures Read(m, a, |b|) == m[a..a + |b|]
    ensures Write(m, a, b) == m[..a] + b + m[a + |b|..]
  {
    var n := |b|;
    var r, f := Read(m, a, n), m[a..a + n];
    forall i | 0 <= i < n
      ensures r[i] == f[i]
    {
      assert Plus(a, i) == a + i;
    }
    var w, g := Write(m, a, b), m[..a] + b + m[a + n..];
    forall x | 0 <= x < WORD
      ensures w[x] == g[x]
    {
      if x >= a {
        assert Above(a, x) == x - a;
      } else {
        assert Above(a, x) == x - a + WORD;
      }
    }
  }

  /** A load of eight bytes that spell a word. */
  lemma LoadOfSlice(m: Memory, a: u64, v: u64)
    requires a + 8 <= WORD && m[a..a + 8] == ToBytes(v, 8)
    ensures Load(m, a, 8) == v
  {
    FlatAccess(m, a, ToBytes(v, 8));
    Pow256AtWidth(8);
    FromBytesOfToBytes(v, 8);
  }
}
