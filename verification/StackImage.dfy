/**
 The initial stack as a value: the words and strings that process entry finds between
 the stack pointer and the top of the stack.
 */
module StackImage {
  import opened Words
  import opened Memory

  /** A C string, without its terminator. */
  type CString = s: seq<byte> | 0 !in s witness []

  /** What the emulated program is started with. */
  datatype Context = Context(entry: u64, stackBase: u64, stackSize: nat, argv: seq<CString>, envv: seq<CString>)
  {
    function Top(): nat { stackBase + stackSize }
  }

  /**
   What the host supplies: the auxiliary values whose lookup leaves errno other than
   ENOENT, and four random 32-bit words.
   */
  datatype Host = Host(aux: map<u64, u64>, random: seq<nat>)
  {
    predicate Valid() { |random| == 4 && forall k :: 0 <= k < 4 ==> random[k] < 0x1_0000_0000 }
  }

  const STACK_ALIGN := 16

  /** The size the initial stack is mapped with: 1 GB. */
  const STACK_SIZE := 0x4000_0000

  const AT_NULL: u64 := 0
  const AT_PAGESZ: u64 := 6
  const AT_FLAGS: u64 := 8
  const AT_ENTRY: u64 := 9
  const AT_UID: u64 := 11
  const AT_EUID: u64 := 12
  const AT_GID: u64 := 13
  const AT_EGID: u64 := 14
  const AT_PLATFORM: u64 := 15
  const AT_SECURE: u64 := 23
  const AT_RANDOM: u64 := 25
  const AT_EXECFN: u64 := 31

  const PLATFORM: CString := [0x78, 0x38, 0x36, 0x5F, 0x36, 0x34]

  // ---------------------------------------------------------------- strings

  function Terminated(s: CString): (b: seq<byte>)
    ensures |b| == |s| + 1
  {
    s + [0]
  }

  /** Strings pushed in order: the first one ends up highest. */
  function Strings(strs: seq<CString>): seq<byte>
  {
    if |strs| == 0 then [] else Terminated(strs[|strs| - 1]) + Strings(strs[..|strs| - 1])
  }

  /** The sizes of the strings with their terminators. */
  function TotalSize(strs: seq<CString>): nat
  {
    if |strs| == 0 then 0 else TotalSize(strs[..|strs| - 1]) + |strs[|strs| - 1]| + 1
  }

  lemma {:induction false} StringsSize(strs: seq<CString>)
    ensures |Strings(strs)| == TotalSize(strs)
  {
    if |strs| > 0 {
      StringsSize(strs[..|strs| - 1]);
    }
  }

  /** Where the string of index `k` starts when the strings are pushed below `top`. */
  function StringAddress(strs: seq<CString>, top: int, k: nat): int
    requires k < |strs|
  {
    top - |Strings(strs[..k + 1])|
  }

  /** Each string stands intact, counted from the end of the string area. */
  lemma {:induction false} StringStands(strs: seq<CString>, k: nat)
    requires k < |strs|
    ensures var n := |Strings(strs)| - |Strings(strs[..k + 1])|;
      && 0 <= n && n + |strs[k]| + 1 <= |Strings(strs)|
      && Strings(strs)[n..n + |strs[k]| + 1] == Terminated(strs[k])
    decreases |strs|
  {
    var last := |strs| - 1;
    if k == last {
      assert strs[..k + 1] == strs;
    } else {
      var rest := strs[..last];
      StringStands(rest, k);
      assert rest[..k + 1] == strs[..k + 1];
      var n := |Strings(rest)| - |Strings(strs[..k + 1])|;
      SliceOfSuffix(Terminated(strs[last]), Strings(rest), n, |strs[k]| + 1);
    }
  }

  lemma SliceOfSuffix(a: seq<byte>, b: seq<byte>, off: nat, n: nat)
    requires off + n <= |b|
    ensures (a + b)[|a| + off..|a| + off + n] == b[off..off + n]
  {
  }

  // ---------------------------------------------------------------- tables

  /** 64-bit words, one after the other. */
  function Quads(vs: seq<u64>): (b: seq<byte>)
    ensures |b| == 8 * |vs|
  {
    if |vs| == 0 then [] else ToBytes(vs[0], 8) + Quads(vs[1..])
  }

  lemma {:induction false} WordAt(vs: seq<u64>, k: nat)
    requires k < |vs|
    ensures Quads(vs)[8 * k..8 * k + 8] == ToBytes(vs[k], 8)
  {
    if k > 0 {
      WordAt(vs[1..], k - 1);
      assert Quads(vs)[8 * k..8 * k + 8] == Quads(vs[1..])[8 * (k - 1)..8 * (k - 1) + 8];
    }
  }

  /** The entries of an auxiliary vector, as words: type then value. */
  function Flatten(ps: seq<(u64, u64)>): (vs: seq<u64>)
    ensures |vs| == 2 * |ps|
    ensures forall k :: 0 <= k < |ps| ==> vs[2 * k] == ps[k].0 && vs[2 * k + 1] == ps[k].1
  {
    if |ps| == 0 then []
    else
      var rest := Flatten(ps[1..]);
      var vs := [ps[0].0, ps[0].1] + rest;
      assert forall k :: 0 < k < |ps| ==> vs[2 * k] == rest[2 * (k - 1)] && vs[2 * k + 1] == rest[2 * (k - 1) + 1];
      vs
  }

  /** An entry the host may or may not know. */
  function Known(h: Host, t: u64): seq<(u64, u64)> { if t in h.aux then [(t, h.aux[t])] else [] }

  /** The entries of the auxiliary vector, in memory order. */
  function AuxvEntries(h: Host, entry: u64, execfn: u64, platform: u64, random: u64): seq<(u64, u64)>
  {
    [(AT_EXECFN, execfn), (AT_RANDOM, random)] + Known(h, AT_SECURE) + [(AT_PLATFORM, platform)]
    + Known(h, AT_EGID) + Known(h, AT_GID) + Known(h, AT_EUID) + Known(h, AT_UID)
    + [(AT_ENTRY, entry)] + Known(h, AT_FLAGS) + Known(h, AT_PAGESZ)
  }

  /** The whole vector, with its terminator. */
  function Auxv(h: Host, entry: u64, execfn: u64, platform: u64, random: u64): seq<(u64, u64)>
  {
    AuxvEntries(h, entry, execfn, platform, random) + [(AT_NULL, 0)]
  }

  function Pointers(strs: seq<CString>, top: int): (ps: seq<u64>)
    requires |Strings(strs)| <= top < WORD
    ensures |ps| == |strs|
  {
    PointersFit(strs, top);
    seq(|strs|, k requires 0 <= k < |strs| => StringAddress(strs, top, k))
  }

  lemma PointersFit(strs: seq<CString>, top: int)
    requires |Strings(strs)| <= top < WORD
    ensures forall k :: 0 <= k < |strs| ==> 0 <= StringAddress(strs, top, k) < WORD
  {
    forall k | 0 <= k < |strs|
      ensures 0 <= StringAddress(strs, top, k) < WORD
    {
      StringStands(strs, k);
    }
  }

  // ---------------------------------------------------------------- the whole image

  function RandomBytes(h: Host): (b: seq<byte>)
    requires h.Valid()
    ensures |b| == 16
  {
    ToBytes(h.random[3], 4) + ToBytes(h.random[2], 4) + ToBytes(h.random[1], 4) + ToBytes(h.random[0], 4)
  }

  /** Strings and random bytes, before alignment. */
  function RawData(c: Context, h: Host): seq<byte>
    requires h.Valid()
  {
    RandomBytes(h) + Terminated(PLATFORM) + Strings(c.envv) + Strings(c.argv)
  }

  /** The zero bytes that align what is pushed next. */
  function Padding(c: Context, h: Host): nat
    requires h.Valid()
  {
    (c.Top() - |RawData(c, h)|) % STACK_ALIGN
  }

  function Data(c: Context, h: Host): seq<byte>
    requires h.Valid()
  {
    seq(Padding(c, h), _ => 0) + RawData(c, h)
  }

  /** The data fits below the top of the stack, and the top is an address. */
  predicate DataFits(c: Context, h: Host)
    requires h.Valid()
  {
    c.Top() < WORD && |Data(c, h)| <= c.Top()
  }

  function PlatformAddress(c: Context): int { c.Top() - |Strings(c.argv)| - |Strings(c.envv)| - 7 }

  function RandomAddress(c: Context): int { PlatformAddress(c) - 16 }

  lemma AddressesFit(c: Context, h: Host)
    requires h.Valid() && DataFits(c, h)
    ensures 0 <= RandomAddress(c) < PlatformAddress(c) < WORD
    ensures |Strings(c.argv)| + |Strings(c.envv)| <= c.Top()
  {
  }

  function ArgPointers(c: Context, h: Host): (ps: seq<u64>)
    requires h.Valid() && DataFits(c, h)
    ensures |ps| == |c.argv|
  {
    AddressesFit(c, h);
    Pointers(c.argv, c.Top())
  }

  function EnvPointers(c: Context, h: Host): (ps: seq<u64>)
    requires h.Valid() && DataFits(c, h)
    ensures |ps| == |c.envv|
  {
    AddressesFit(c, h);
    Pointers(c.envv, c.Top() - |Strings(c.argv)|)
  }

  function AuxvOf(c: Context, h: Host): seq<(u64, u64)>
    requires h.Valid() && DataFits(c, h) && |c.argv| > 0
  {
    AddressesFit(c, h);
    Auxv(h, c.entry, ArgPointers(c, h)[0], PlatformAddress(c), RandomAddress(c))
  }

  /** The words at the low end: argc, argv, NULL, envp, NULL, auxiliary vector. */
  function Table(c: Context, h: Host): seq<u64>
    requires h.Valid() && DataFits(c, h) && 0 < |c.argv| < WORD
  {
    [|c.argv|] + ArgPointers(c, h) + [0] + EnvPointers(c, h) + [0] + Flatten(AuxvOf(c, h))
  }

  function Image(c: Context, h: Host): seq<byte>
    requires h.Valid() && DataFits(c, h) && 0 < |c.argv| < WORD
  {
    Quads(Table(c, h)) + Data(c, h)
  }

  /** There is at least one argument, and everything fits into the mapped stack. */
  predicate Fits(c: Context, h: Host)
  {
    h.Valid() && 0 < |c.argv| < 0x8000_0000 && |c.envv| < 0x8000_0000
    && DataFits(c, h) && |Image(c, h)| <= c.stackSize <= STACK_SIZE
  }

  function EntryRsp(c: Context, h: Host): (a: u64)
    requires Fits(c, h)
  {
    c.Top() - |Image(c, h)|
  }

  // ---------------------------------------------------------------- accounting

  /** How many of the seven optional entries the host knows. */
  function KnownCount(h: Host): nat
  {
    |Known(h, AT_SECURE)| + |Known(h, AT_EGID)| + |Known(h, AT_GID)| + |Known(h, AT_EUID)| + |Known(h, AT_UID)|
    + |Known(h, AT_FLAGS)| + |Known(h, AT_PAGESZ)|
  }

  /**
   The bytes used: strings, platform string, random bytes, padding, auxiliary entries
   and pointers; and the alignment of the final stack pointer.
   */
  lemma Accounting(c: Context, h: Host)
    requires Fits(c, h)
    ensures |Image(c, h)| ==
      TotalSize(c.argv) + TotalSize(c.envv) + 7 + 16 + Padding(c, h) + 16 * (KnownCount(h) + 5)
      + 8 * (|c.argv| + |c.envv| + 3)
    ensures Padding(c, h) < 16
    ensures EntryRsp(c, h) % 8 == 0
    ensures EntryRsp(c, h) % 16 == 0 <==> (|c.argv| + |c.envv|) % 2 == 1
  {
    hide Strings, TotalSize, Quads, Flatten, Known, ArgPointers, EnvPointers, RawData;
    StringsSize(c.argv);
    StringsSize(c.envv);
    ImageSize(c, h);
    AlignedDown(c.Top() - |RawData(c, h)|);
    var n, aligned := |c.argv| + |c.envv|, c.Top() - |Data(c, h)|;
    hide Padding, Data, KnownCount;
    assert EntryRsp(c, h) == aligned - 8 * (n + 3) - 16 * (KnownCount(h) + 5);
    EntryAlignment(aligned, n, KnownCount(h) + 5);
  }

  lemma EntryAlignment(aligned: int, n: nat, pairs: nat)
    requires aligned % 16 == 0
    ensures var sp := aligned - 8 * (n + 3) - 16 * pairs;
      sp % 8 == 0 && (sp % 16 == 0 <==> n % 2 == 1)
  {
  }

  lemma ImageSize(c: Context, h: Host)
    requires Fits(c, h)
    ensures |Data(c, h)| == Padding(c, h) + |RawData(c, h)|
    ensures |RawData(c, h)| == 16 + 7 + |Strings(c.envv)| + |Strings(c.argv)|
    ensures |Image(c, h)| == |Data(c, h)| + 8 * (|c.argv| + |c.envv| + 3) + 16 * (KnownCount(h) + 5)
  {
    hide Strings, Quads, Flatten, Known, ArgPointers, EnvPointers, Padding;
  }

  lemma AlignedDown(a: int)
    ensures (a - a % 16) % 16 == 0
  {
  }

  // ---------------------------------------------------------------- reading it back

  /** Memory shows the image from `sp` on. */
  predicate Shows(m: Memory, sp: u64, img: seq<byte>)
  {
    sp + |img| <= WORD && m[sp..sp + |img|] == img
  }

  lemma ShownSlice(m: Memory, sp: u64, img: seq<byte>, off: nat, n: nat)
    requires Shows(m, sp, img) && off + n <= |img|
    ensures sp + off + n <= WORD
    ensures m[sp + off..sp + off + n] == img[off..off + n]
  {
    var a, b := m[sp + off..sp + off + n], img[off..off + n];
    forall x | 0 <= x < n
      ensures a[x] == b[x]
    {
      assert m[sp..sp + |img|][off + x] == m[sp + off + x];
    }
  }

  lemma QuadInImage(vs: seq<u64>, data: seq<byte>, k: nat)
    requires k < |vs|
    ensures 8 * k + 8 <= |Quads(vs) + data|
    ensures (Quads(vs) + data)[8 * k..8 * k + 8] == ToBytes(vs[k], 8)
  {
    hide Quads, ToBytes;
    WordAt(vs, k);
    SliceOfPrefix(Quads(vs), data, 8 * k, 8);
  }

  lemma SliceOfPrefix(a: seq<byte>, b: seq<byte>, off: nat, n: nat)
    requires off + n <= |a|
    ensures (a + b)[off..off + n] == a[off..off + n]
  {
  }

  /** The k-th word of the table, as the program loads it. */
  lemma TableWord(m: Memory, sp: u64, vs: seq<u64>, data: seq<byte>, k: nat, a: int)
    requires Shows(m, sp, Quads(vs) + data) && k < |vs| && a == sp + 8 * k
    ensures a + 8 <= WORD && Load(m, a, 8) == vs[k]
  {
    hide Quads, ToBytes, Load, Shows;
    QuadInImage(vs, data, k);
    ShownWord(m, sp, Quads(vs) + data, 8 * k, a, vs[k]);
  }

  lemma ShownWord(m: Memory, sp: u64, img: seq<byte>, off: nat, a: int, v: u64)
    requires Shows(m, sp, img) && off + 8 <= |img| && img[off..off + 8] == ToBytes(v, 8) && a == sp + off
    ensures a + 8 <= WORD && Load(m, a, 8) == v
  {
    hide ToBytes, Load, Shows;
    ShownSlice(m, sp, img, off, 8);
    LoadOfSlice(m, a, v);
  }

  /** A pointer designates an intact NUL-terminated copy. */
  predicate PointsAt(m: Memory, p: int, s: CString)
  {
    0 <= p && p + |s| + 1 <= WORD && m[p..p + |s| + 1] == Terminated(s)
  }

  /** The table at `a` holds these pointers, each at its string, and then a null pointer. */
  predicate PointerTable(m: Memory, a: int, ps: seq<u64>, strs: seq<CString>)
  {
    && |ps| == |strs|
    && 0 <= a && a + 8 * |ps| + 8 <= WORD
    && (forall k :: 0 <= k < |ps| ==> Load(m, a + 8 * k, 8) == ps[k] && PointsAt(m, ps[k], strs[k]))
    && Load(m, a + 8 * |ps|, 8) == 0
  }

  /** The two words at `a` are this entry. */
  predicate EntryAt(m: Memory, a: int, p: (u64, u64))
  {
    0 <= a && a + 16 <= WORD && Load(m, a, 8) == p.0 && Load(m, a + 8, 8) == p.1
  }

  /** The words at `a` are these entries. */
  predicate AuxvAt(m: Memory, a: int, ps: seq<(u64, u64)>)
  {
    forall k :: 0 <= k < |ps| ==> EntryAt(m, a + 16 * k, ps[k])
  }

  /** The layout of process entry at `sp`. */
  predicate ProcessEntry(m: Memory, sp: int, c: Context, h: Host)
    requires Fits(c, h)
  {
    var n, e := |c.argv|, |c.envv|;
    && 0 <= sp < WORD
    && Load(m, sp, 8) == n
    && PointerTable(m, sp + 8, ArgPointers(c, h), c.argv)
    && PointerTable(m, sp + 8 * (n + 2), EnvPointers(c, h), c.envv)
    && AuxvAt(m, sp + 8 * (n + e + 3), AuxvOf(c, h))
    && PointsAt(m, PlatformAddress(c), PLATFORM)
    && (0 <= RandomAddress(c) && m[RandomAddress(c)..RandomAddress(c) + 16] == RandomBytes(h))
  }

  /** A string of an area whose end is at `top` stands where its pointer says. */
  lemma StringShown(m: Memory, strs: seq<CString>, top: int, k: nat)
    requires k < |strs| && |Strings(strs)| <= top < WORD
    requires m[top - |Strings(strs)|..top] == Strings(strs)
    ensures PointsAt(m, Pointers(strs, top)[k], strs[k])
  {
    hide Strings;
    StringStands(strs, k);
    var img := Strings(strs);
    var sp, n := top - |img|, |img| - |Strings(strs[..k + 1])|;
    assert Pointers(strs, top)[k] == sp + n;
    ShownSlice(m, sp, img, n, |strs[k]| + 1);
  }

  /** The parts of the data area, each where it was put. */
  lemma DataShown(m: Memory, c: Context, h: Host)
    requires Fits(c, h) && Shows(m, EntryRsp(c, h), Image(c, h))
    ensures m[c.Top() - |Strings(c.argv)|..c.Top()] == Strings(c.argv)
    ensures var t := c.Top() - |Strings(c.argv)|;
      |Strings(c.envv)| <= t && m[t - |Strings(c.envv)|..t] == Strings(c.envv)
    ensures PointsAt(m, PlatformAddress(c), PLATFORM)
    ensures 0 <= RandomAddress(c) && m[RandomAddress(c)..RandomAddress(c) + 16] == RandomBytes(h)
  {
    hide Strings, Table, Quads, RandomBytes, Shows, Terminated;
    var w := Quads(Table(c, h)) + seq(Padding(c, h), _ => 0);
    var r, p, e, a := RandomBytes(h), Terminated(PLATFORM), Strings(c.envv), Strings(c.argv);
    assert Image(c, h) == w + r + p + e + a;
    PartsShown(m, EntryRsp(c, h), c.Top(), w, r, p, e, a);
    assert |p| == 7;
  }

  /** Five parts shown one after the other, each found from the top. */
  lemma PartsShown(m: Memory, sp: u64, top: int, w: seq<byte>, r: seq<byte>, p: seq<byte>, e: seq<byte>, a: seq<byte>)
    requires Shows(m, sp, w + r + p + e + a) && top == sp + |w| + |r| + |p| + |e| + |a|
    ensures top <= WORD
    ensures m[top - |a|..top] == a
    ensures m[top - |a| - |e|..top - |a|] == e
    ensures m[top - |a| - |e| - |p|..top - |a| - |e|] == p
    ensures m[top - |a| - |e| - |p| - |r|..top - |a| - |e| - |p|] == r
  {
    var img, q := w + r + p + e + a, |w|;
    FourParts(w, r, p, e, a);
    hide Shows;
    ShownSlice(m, sp, img, q, |r|);
    ShownSlice(m, sp, img, q + |r|, |p|);
    ShownSlice(m, sp, img, q + |r| + |p|, |e|);
    ShownSlice(m, sp, img, q + |r| + |p| + |e|, |a|);
  }

  lemma FourParts(x: seq<byte>, r: seq<byte>, p: seq<byte>, e: seq<byte>, a: seq<byte>)
    ensures var img, q := x + r + p + e + a, |x|;
      && img[q..q + |r|] == r
      && img[q + |r|..q + |r| + |p|] == p
      && img[q + |r| + |p|..q + |r| + |p| + |e|] == e
      && img[q + |r| + |p| + |e|..q + |r| + |p| + |e| + |a|] == a
  {
  }

  /** A pointer table inside the word table, over strings that stand in memory. */
  lemma TableOfPointers(m: Memory, sp: u64, vs: seq<u64>, data: seq<byte>, at: nat, strs: seq<CString>, top: int)
    requires Shows(m, sp, Quads(vs) + data)
    requires |Strings(strs)| <= top < WORD && m[top - |Strings(strs)|..top] == Strings(strs)
    requires at + |strs| < |vs| && vs[at + |strs|] == 0
    requires forall k :: 0 <= k < |strs| ==> vs[at + k] == Pointers(strs, top)[k]
    ensures PointerTable(m, sp + 8 * at, Pointers(strs, top), strs)
  {
    hide *;
    WordSize();
    var ps, at8 := Pointers(strs, top), sp + 8 * at;
    TableWord(m, sp, vs, data, at + |strs|, at8 + 8 * |strs|);
    forall k | 0 <= k < |ps|
      ensures at8 + 8 * k + 8 <= WORD && Load(m, at8 + 8 * k, 8) == ps[k] && PointsAt(m, ps[k], strs[k])
    {
      TableWord(m, sp, vs, data, at + k, at8 + 8 * k);
      StringShown(m, strs, top, k);
    }
    TablePacked(m, at8, ps, strs);
  }

  lemma TablePacked(m: Memory, a: u64, ps: seq<u64>, strs: seq<CString>)
    requires |ps| == |strs| && a + 8 * |ps| + 8 <= WORD && Load(m, a + 8 * |ps|, 8) == 0
    requires forall k :: 0 <= k < |ps| ==>
      a + 8 * k + 8 <= WORD && Load(m, a + 8 * k, 8) == ps[k] && PointsAt(m, ps[k], strs[k])
    ensures PointerTable(m, a, ps, strs)
  {
    hide Load, PointsAt;
  }

  /** Words `x` and `x + 1` are an auxiliary entry. */
  predicate EntryIn(vs: seq<u64>, x: nat, p: (u64, u64)) { x + 1 < |vs| && vs[x] == p.0 && vs[x + 1] == p.1 }

  lemma TableOfAuxv(m: Memory, sp: u64, vs: seq<u64>, data: seq<byte>, at: nat, a: int, ps: seq<(u64, u64)>)
    requires Shows(m, sp, Quads(vs) + data) && a == sp + 8 * at && at + 2 * |ps| <= |vs|
    requires forall k :: 0 <= k < |ps| ==> EntryIn(vs, at + 2 * k, ps[k])
    ensures AuxvAt(m, a, ps)
  {
    hide Quads, Load, Shows, EntryIn, EntryAt;
    forall k | 0 <= k < |ps|
      ensures EntryAt(m, a + 16 * k, ps[k])
    {
      EntryShown(m, sp, vs, data, at + 2 * k, a + 16 * k, ps[k]);
    }
  }

  lemma EntryShown(m: Memory, sp: u64, vs: seq<u64>, data: seq<byte>, k: nat, a: int, p: (u64, u64))
    requires Shows(m, sp, Quads(vs) + data) && EntryIn(vs, k, p) && a == sp + 8 * k
    ensures EntryAt(m, a, p)
  {
    hide Quads, Load, Shows;
    TableWord(m, sp, vs, data, k, a);
    TableWord(m, sp, vs, data, k + 1, a + 8);
  }

  /** Memory that shows the image has the layout of process entry. */
  lemma ImageIsProcessEntry(m: Memory, c: Context, h: Host)
    requires Fits(c, h) && Shows(m, EntryRsp(c, h), Image(c, h))
    ensures ProcessEntry(m, EntryRsp(c, h), c, h)
  {
    hide Strings, Quads, Flatten, RandomBytes, PointsAt, Load, AuxvOf, Data, Padding, RawData, PointerTable, AuxvAt, Table, Pointers;
    DataShown(m, c, h);
    TableParts(c, h);
    AddressesFit(c, h);
    var sp, n, e, vs := EntryRsp(c, h), |c.argv|, |c.envv|, Table(c, h);
    TableWord(m, sp, vs, Data(c, h), 0, sp);
    var t := c.Top() - |Strings(c.argv)|;
    forall k | 0 <= k < n
      ensures vs[1 + k] == Pointers(c.argv, c.Top())[k]
    {
      assert ArgPointers(c, h)[k] == Pointers(c.argv, c.Top())[k];
    }
    forall k | 0 <= k < e
      ensures vs[n + 2 + k] == Pointers(c.envv, t)[k]
    {
      assert EnvPointers(c, h)[k] == Pointers(c.envv, t)[k];
    }
    TableOfPointers(m, sp, vs, Data(c, h), 1, c.argv, c.Top());
    TableOfPointers(m, sp, vs, Data(c, h), n + 2, c.envv, t);
    TableOfAuxv(m, sp, vs, Data(c, h), n + e + 3, sp + 8 * (n + e + 3), AuxvOf(c, h));
  }

  lemma TableParts(c: Context, h: Host)
    requires Fits(c, h)
    ensures var n, e, vs := |c.argv|, |c.envv|, Table(c, h);
      && |vs| == n + e + 3 + 2 * |AuxvOf(c, h)|
      && vs[0] == n
      && (forall k :: 0 <= k < n ==> vs[1 + k] == ArgPointers(c, h)[k])
      && vs[1 + n] == 0
      && (forall k :: 0 <= k < e ==> vs[n + 2 + k] == EnvPointers(c, h)[k])
      && vs[n + 2 + e] == 0
      && (forall k :: 0 <= k < |AuxvOf(c, h)| ==> EntryIn(vs, n + e + 3 + 2 * k, AuxvOf(c, h)[k]))
  {
    hide ArgPointers, EnvPointers, AuxvOf, Flatten;
  }

  /**
   The entries of an auxiliary vector by the standard's type numbers: the null entry, file
   name 31, random bytes 25, platform string 15, entry point 9, and those of the seven
   optional types the host has a value for.
   */
  predicate InVector(p: (u64, u64), h: Host, entry: u64, execfn: u64, platform: u64, random: u64)
  {
    || p in {(0, 0), (31, execfn), (25, random), (15, platform), (9, entry)}
    || (p.0 in {6, 8, 11, 12, 13, 14, 23} && p.0 in h.aux && p.1 == h.aux[p.0])
  }

  /** Exactly those entries, and only the last one null. */
  ghost predicate VectorMeans(ps: seq<(u64, u64)>, h: Host, entry: u64, execfn: u64, platform: u64, random: u64)
  {
    && |ps| > 0 && ps[|ps| - 1] == (0, 0)
    && (forall k :: 0 <= k < |ps| - 1 ==> ps[k].0 != 0)
    && (forall p :: p in ps <==> InVector(p, h, entry, execfn, platform, random))
  }

  lemma AuxvMeaning(c: Context, h: Host)
    requires Fits(c, h)
    ensures |AuxvOf(c, h)| == KnownCount(h) + 5
    ensures 0 <= RandomAddress(c) < PlatformAddress(c) < WORD
    ensures VectorMeans(AuxvOf(c, h), h, c.entry, ArgPointers(c, h)[0], PlatformAddress(c), RandomAddress(c))
  {
    AddressesFit(c, h);
    hide ArgPointers, PlatformAddress, RandomAddress, Auxv, VectorMeans, KnownCount, Fits, DataFits;
    AuxvContents(h, c.entry, ArgPointers(c, h)[0], PlatformAddress(c), RandomAddress(c));
  }

  lemma KnownMember(h: Host)
    ensures forall t: u64, p: (u64, u64) :: p in Known(h, t) <==> t in h.aux && p == (t, h.aux[t])
  {
  }

  lemma EntryMembers(h: Host, entry: u64, execfn: u64, platform: u64, random: u64, p: (u64, u64))
    ensures p in AuxvEntries(h, entry, execfn, platform, random) + [(AT_NULL, 0)] <==> InVector(p, h, entry, execfn, platform, random)
    ensures p in AuxvEntries(h, entry, execfn, platform, random) ==> p.0 != 0
  {
    KnownMember(h);
    hide Known;
  }

  lemma AuxvContents(h: Host, entry: u64, execfn: u64, platform: u64, random: u64)
    ensures var ps := Auxv(h, entry, execfn, platform, random);
      |ps| == KnownCount(h) + 5 && VectorMeans(ps, h, entry, execfn, platform, random)
  {
    var front, ps := AuxvEntries(h, entry, execfn, platform, random), Auxv(h, entry, execfn, platform, random);
    assert |front| == KnownCount(h) + 4;
    hide AuxvEntries, KnownCount, InVector;
    forall p
      ensures p in ps <==> InVector(p, h, entry, execfn, platform, random)
      ensures p in front ==> p.0 != 0
    {
      EntryMembers(h, entry, execfn, platform, random, p);
    }
    assert forall k :: 0 <= k < |front| ==> ps[k] == front[k] && front[k] in front;
  }

  // ---------------------------------------------------------------- the vector in memory

  /** One of the `n` entries at `at` reads as `p`. */
  ghost predicate HasEntry(m: Memory, at: int, n: nat, p: (u64, u64))
  {
    exists k :: 0 <= k < n && EntryAt(m, at + 16 * k, p)
  }

  /**
   The `n` entries at `at` as the program reads them: exactly those by number, the file
   name being the first argument's pointer, with the platform string and the random bytes
   where their entries say, and a null entry at the end only.
   */
  ghost predicate AuxiliaryVector(m: Memory, at: int, n: nat, c: Context, h: Host, execfn: u64, platform: u64, random: u64)
    requires h.Valid()
  {
    && n > 0 && 0 <= at && at + 16 * n <= WORD
    && EntryAt(m, at + 16 * (n - 1), (0, 0))
    && (forall k :: 0 <= k < n - 1 ==> Load(m, at + 16 * k, 8) != 0)
    && (forall p :: HasEntry(m, at, n, p) <==> InVector(p, h, c.entry, execfn, platform, random))
    && PointsAt(m, platform, [0x78, 0x38, 0x36, 0x5F, 0x36, 0x34])
    && random + 16 <= WORD && m[random..random + 16] == RandomBytes(h)
  }

  lemma EntryFromList(m: Memory, at: int, ps: seq<(u64, u64)>, p: (u64, u64))
    requires AuxvAt(m, at, ps)
    ensures HasEntry(m, at, |ps|, p) <==> p in ps
  {
    hide Load;
    if p in ps {
      var k :| 0 <= k < |ps| && ps[k] == p;
      assert EntryAt(m, at + 16 * k, p);
    }
    if HasEntry(m, at, |ps|, p) {
      var k :| 0 <= k < |ps| && EntryAt(m, at + 16 * k, p);
      assert EntryAt(m, at + 16 * k, ps[k]);
      assert ps[k] == p;
    }
  }

  lemma EntryReads(m: Memory, at: int, ps: seq<(u64, u64)>, k: nat)
    requires AuxvAt(m, at, ps) && k < |ps|
    ensures EntryAt(m, at + 16 * k, ps[k])
    ensures 0 <= at + 16 * k && at + 16 * k + 16 <= WORD && Load(m, at + 16 * k, 8) == ps[k].0
  {
    hide Load;
    assert EntryAt(m, at + 16 * k, ps[k]);
  }

  lemma VectorFromList(m: Memory, at: int, ps: seq<(u64, u64)>, h: Host, entry: u64, execfn: u64, platform: u64, random: u64)
    requires AuxvAt(m, at, ps) && VectorMeans(ps, h, entry, execfn, platform, random)
    ensures 0 <= at && at + 16 * |ps| <= WORD && |ps| > 0
    ensures EntryAt(m, at + 16 * (|ps| - 1), (0, 0))
    ensures forall k :: 0 <= k < |ps| - 1 ==> 0 <= at + 16 * k < WORD && Load(m, at + 16 * k, 8) != 0
    ensures forall p :: HasEntry(m, at, |ps|, p) <==> InVector(p, h, entry, execfn, platform, random)
  {
    hide Load, EntryAt, InVector, HasEntry, AuxvAt;
    EntryReads(m, at, ps, 0);
    EntryReads(m, at, ps, |ps| - 1);
    forall k | 0 <= k < |ps| - 1
      ensures 0 <= at + 16 * k < WORD && Load(m, at + 16 * k, 8) != 0
    {
      EntryReads(m, at, ps, k);
    }
    forall p
      ensures HasEntry(m, at, |ps|, p) <==> InVector(p, h, entry, execfn, platform, random)
    {
      EntryFromList(m, at, ps, p);
    }
  }

  /** The layout of process entry has such a vector behind the two tables. */
  lemma EntryHasVector(m: Memory, sp: int, c: Context, h: Host)
    requires Fits(c, h) && ProcessEntry(m, sp, c, h)
    ensures 0 <= RandomAddress(c) < PlatformAddress(c) < WORD && 0 <= sp + 8 < WORD
    ensures AuxiliaryVector(m, sp + 8 * (|c.argv| + |c.envv| + 3), KnownCount(h) + 5, c, h,
                            Load(m, sp + 8, 8), PlatformAddress(c), RandomAddress(c))
  {
    hide *;
    WordSize();
    FitsParts(c, h);
    AuxvMeaning(c, h);
    FirstArgument(m, sp, c, h);
    VectorParts(m, sp, c, h);
    var at, execfn := sp + 8 * (|c.argv| + |c.envv| + 3), ArgPointers(c, h)[0];
    VectorFromList(m, at, AuxvOf(c, h), h, c.entry, execfn, PlatformAddress(c), RandomAddress(c));
    VectorPacked(m, at, KnownCount(h) + 5, c, h, execfn, PlatformAddress(c), RandomAddress(c));
  }

  lemma FitsParts(c: Context, h: Host)
    requires Fits(c, h)
    ensures h.Valid() && DataFits(c, h) && |c.argv| > 0
  {
  }

  lemma VectorPacked(m: Memory, at: int, n: nat, c: Context, h: Host, execfn: u64, platform: u64, random: u64)
    requires h.Valid() && n > 0 && 0 <= at && at + 16 * n <= WORD
    requires EntryAt(m, at + 16 * (n - 1), (0, 0))
    requires forall k :: 0 <= k < n - 1 ==> 0 <= at + 16 * k < WORD && Load(m, at + 16 * k, 8) != 0
    requires forall p :: HasEntry(m, at, n, p) <==> InVector(p, h, c.entry, execfn, platform, random)
    requires PointsAt(m, platform, [0x78, 0x38, 0x36, 0x5F, 0x36, 0x34])
    requires random + 16 <= WORD && m[random..random + 16] == RandomBytes(h)
    ensures AuxiliaryVector(m, at, n, c, h, execfn, platform, random)
  {
    hide Load, EntryAt, HasEntry, InVector, PointsAt, RandomBytes;
  }

  /** What process entry says of the vector and of the data its entries name. */
  lemma VectorParts(m: Memory, sp: int, c: Context, h: Host)
    requires Fits(c, h) && ProcessEntry(m, sp, c, h)
    ensures 0 <= RandomAddress(c) && AuxvAt(m, sp + 8 * (|c.argv| + |c.envv| + 3), AuxvOf(c, h))
    ensures PointsAt(m, PlatformAddress(c), [0x78, 0x38, 0x36, 0x5F, 0x36, 0x34])
    ensures RandomAddress(c) + 16 <= WORD && m[RandomAddress(c)..RandomAddress(c) + 16] == RandomBytes(h)
  {
    hide Load, RandomBytes, ArgPointers, EnvPointers, AuxvOf, AuxvAt, PointerTable;
  }

  lemma FirstArgument(m: Memory, sp: int, c: Context, h: Host)
    requires Fits(c, h) && ProcessEntry(m, sp, c, h)
    ensures 0 <= sp + 8 < WORD && Load(m, sp + 8, 8) == ArgPointers(c, h)[0]
  {
    hide Load, PointsAt, RandomBytes, ArgPointers, EnvPointers, AuxvOf, AuxvAt;
    assert Load(m, sp + 8 + 8 * 0, 8) == ArgPointers(c, h)[0];
  }
}
