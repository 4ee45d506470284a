/** Building the initial stack and the entry state, push by push. */
module StackSetup {
  import opened Words
  import opened Flags
  import opened Memory
  import opened Machine
  import opened Emulator
  import opened StackImage
  import Execution
  import FlagsInvariant

  // ---------------------------------------------------------------- pushes below the top

  /** The state with `img` between the stack pointer and `top`, and all else as in `s`. */
  function Under(s: State, top: nat, img: seq<byte>): State
    requires |img| <= top < WORD
  {
    s.SetReg(RSP, top - |img|).(mem := s.mem[..top - |img|] + img + s.mem[top..])
  }

  lemma UnderNothing(s: State, top: nat)
    requires top < WORD && s.Rsp() == top
    ensures Under(s, top, []) == s
  {
    assert s.mem[..top] + [] + s.mem[top..] == s.mem;
  }

  lemma WriteUnder(s: State, top: nat, img: seq<byte>, b: seq<byte>)
    requires |b| + |img| <= top < WORD
    ensures var sp := top - |img| - |b|;
      Write(Under(s, top, img).mem, sp, b) == Under(s, top, b + img).mem
  {
    var sp, m := top - |img| - |b|, Under(s, top, img).mem;
    FlatAccess(m, sp, b);
    assert m[..sp] == s.mem[..sp];
    assert m[sp + |b|..] == img + s.mem[top..];
    assert s.mem[..sp] + b + (img + s.mem[top..]) == s.mem[..sp] + (b + img) + s.mem[top..];
  }

  lemma UnderRsp(emu: Emu, s: State, top: nat, img: seq<byte>)
    requires emu.Valid() && |img| <= top < WORD && emu.Value() == Under(s, top, img)
    ensures emu.regs[RSP] == top - |img|
  {
  }

  method PushBytes(emu: Emu, b: seq<byte>, ghost s: State, ghost top: nat, ghost img: seq<byte>)
    requires emu.Valid() && |b| + |img| <= top < WORD && emu.Value() == Under(s, top, img)
    modifies emu`mem, emu.regs
    ensures emu.Value() == Under(s, top, b + img) && emu.regs[RSP] == top - |b| - |img|
  {
    hide Write;
    WriteUnder(s, top, img, b);
    assert emu.regs[RSP] == top - |img|;
    emu.SetReg(RSP, emu.regs[RSP] - |b|);
    emu.SetMem(Write(emu.mem, emu.regs[RSP], b));
  }

  /** push_16, push_32 and push_64 in the region below the top. */
  method PushNumber(emu: Emu, w: Width, v: nat, ghost s: State, ghost top: nat, ghost img: seq<byte>)
    requires emu.Valid() && v < Modulus(w) && w + |img| <= top < WORD && emu.Value() == Under(s, top, img)
    modifies emu`mem, emu.regs
    ensures emu.Value() == Under(s, top, ToBytes(v, w) + img)
  {
    hide Write, ToBytes;
    WriteUnder(s, top, img, ToBytes(v, w));
    assert emu.regs[RSP] == top - |img|;
    assert Plus(top - |img|, 0 - w) == top - |img| - w;
    Execution.PushWord(emu, w, v);
  }

  // ---------------------------------------------------------------- strings

  lemma PrefixStrings(strs: seq<CString>, k: nat)
    requires k < |strs|
    ensures |Strings(strs[..k + 1])| <= |Strings(strs)|
    ensures Strings(strs[..k + 1]) == Terminated(strs[k]) + Strings(strs[..k])
  {
    StringStands(strs, k);
    assert strs[..k + 1][..k] == strs[..k];
  }

  /** The string loop: push each one and note where it starts. */
  method PushStrings(emu: Emu, strs: seq<CString>, ghost s: State, ghost top: nat, ghost img: seq<byte>)
    returns (ps: array<u64>)
    requires emu.Valid() && |Strings(strs)| + |img| <= top < WORD && emu.Value() == Under(s, top, img)
    modifies emu`mem, emu.regs
    ensures fresh(ps) && ps[..] == Pointers(strs, top - |img|)
    ensures emu.Value() == Under(s, top, Strings(strs) + img)
  {
    hide Strings, Terminated;
    ps := new u64[|strs|];
    assert Strings(strs[..0]) + img == img by { EmptyStrings(strs[..0]); }
    for i := 0 to |strs|
      invariant fresh(ps) && ps.Length == |strs|
      invariant |Strings(strs[..i])| <= |Strings(strs)|
      invariant emu.Value() == Under(s, top, Strings(strs[..i]) + img)
      invariant forall k :: 0 <= k < i ==> ps[k] == StringAddress(strs, top - |img|, k)
    {
      PrefixStrings(strs, i);
      ghost var before := Strings(strs[..i]) + img;
      PushBytes(emu, Terminated(strs[i]), s, top, before);
      assert Terminated(strs[i]) + before == Strings(strs[..i + 1]) + img;
      ps[i] := emu.regs[RSP];
    }
    assert strs[..|strs|] == strs;
  }

  lemma EmptyStrings(strs: seq<CString>)
    requires |strs| == 0
    ensures Strings(strs) == []
  {
  }

  // ---------------------------------------------------------------- tables

  lemma QuadsCons(v: u64, vs: seq<u64>)
    ensures Quads([v] + vs) == ToBytes(v, 8) + Quads(vs)
  {
    assert ([v] + vs)[1..] == vs;
  }

  /** One word in front of the table. */
  method PushEntry(emu: Emu, v: u64, ghost s: State, ghost top: nat, ghost vs: seq<u64>, ghost data: seq<byte>)
    requires emu.Valid() && 8 * |vs| + 8 + |data| <= top < WORD && emu.Value() == Under(s, top, Quads(vs) + data)
    modifies emu`mem, emu.regs
    ensures emu.Value() == Under(s, top, Quads([v] + vs) + data)
  {
    hide Quads, ToBytes, Under;
    QuadsCons(v, vs);
    PushNumber(emu, 8, v, s, top, Quads(vs) + data);
    assert ToBytes(v, 8) + (Quads(vs) + data) == Quads([v] + vs) + data;
  }

  /** The pointer loops: last pointer first, so that the table comes out in order. */
  method PushPointers(emu: Emu, ps: array<u64>, ghost s: State, ghost top: nat, ghost vs: seq<u64>, ghost data: seq<byte>)
    requires emu.Valid() && emu.regs != ps && (emu.vec as object) != (ps as object)
    requires 8 * (ps.Length + |vs|) + |data| <= top < WORD && emu.Value() == Under(s, top, Quads(vs) + data)
    modifies emu`mem, emu.regs
    ensures emu.Value() == Under(s, top, Quads(ps[..] + vs) + data)
  {
    hide Quads, Under;
    var i := ps.Length;
    assert ps[i..] + vs == vs;
    while i > 0
      invariant 0 <= i <= ps.Length && ps[..] == old(ps[..])
      invariant emu.Value() == Under(s, top, Quads(ps[i..] + vs) + data)
    {
      i := i - 1;
      ghost var rest := ps[i + 1..] + vs;
      assert [ps[i]] + rest == ps[i..] + vs;
      PushEntry(emu, ps[i], s, top, rest, data);
    }
    assert ps[0..] == ps[..];
  }

  lemma FlattenCons(t: u64, v: u64, ps: seq<(u64, u64)>)
    ensures Flatten([(t, v)] + ps) == [t] + ([v] + Flatten(ps))
  {
    assert ([(t, v)] + ps)[1..] == ps;
  }

  /** The region while the auxiliary vector is being pushed. */
  ghost predicate AuxStage(emu: Emu, s: State, top: nat, ps: seq<(u64, u64)>, data: seq<byte>)
    reads emu, emu.regs, emu.vec
  {
    && emu.Valid() && 16 * |ps| + |data| <= top < WORD
    && emu.Value() == Under(s, top, Quads(Flatten(ps)) + data)
  }

  /** push_auxv: the value, then the type below it. */
  method PushAuxv(emu: Emu, v: u64, t: u64, ghost s: State, ghost top: nat, ghost ps: seq<(u64, u64)>, ghost data: seq<byte>)
    requires AuxStage(emu, s, top, ps, data) && 16 * |ps| + 16 + |data| <= top
    modifies emu`mem, emu.regs
    ensures AuxStage(emu, s, top, [(t, v)] + ps, data)
  {
    hide Quads, Flatten, Under;
    FlattenCons(t, v, ps);
    PushEntry(emu, v, s, top, Flatten(ps), data);
    PushEntry(emu, t, s, top, [v] + Flatten(ps), data);
  }

  /** push_real_auxv: nothing is pushed for a value the host does not know. */
  method PushRealAuxv(emu: Emu, h: Host, t: u64, ghost s: State, ghost top: nat, ghost ps: seq<(u64, u64)>, ghost data: seq<byte>)
    requires AuxStage(emu, s, top, ps, data) && 16 * |ps| + 16 * |Known(h, t)| + |data| <= top
    modifies emu`mem, emu.regs
    ensures AuxStage(emu, s, top, Known(h, t) + ps, data)
  {
    hide Quads, Flatten, Under;
    if t in h.aux {
      PushAuxv(emu, h.aux[t], t, s, top, ps, data);
    } else {
      assert Known(h, t) + ps == ps;
    }
  }

  /** The entries pushed before the platform string's. */
  function LateEntries(h: Host, entry: u64): seq<(u64, u64)>
  {
    Known(h, AT_EGID) + Known(h, AT_GID) + Known(h, AT_EUID) + Known(h, AT_UID)
    + [(AT_ENTRY, entry)] + Known(h, AT_FLAGS) + Known(h, AT_PAGESZ) + [(AT_NULL, 0)]
  }

  method PushLateEntries(emu: Emu, h: Host, entry: u64, ghost s: State, ghost top: nat, ghost data: seq<byte>)
    requires AuxStage(emu, s, top, [], data) && 16 * |LateEntries(h, entry)| + |data| <= top
    modifies emu`mem, emu.regs
    ensures AuxStage(emu, s, top, LateEntries(h, entry), data)
  {
    hide AuxStage, Known;
    ghost var ps: seq<(u64, u64)> := [];
    PushAuxv(emu, 0, AT_NULL, s, top, ps, data);
    ps := [(AT_NULL, 0)] + ps;
    PushRealAuxv(emu, h, AT_PAGESZ, s, top, ps, data);
    ps := Known(h, AT_PAGESZ) + ps;
    PushRealAuxv(emu, h, AT_FLAGS, s, top, ps, data);
    ps := Known(h, AT_FLAGS) + ps;
    PushAuxv(emu, entry, AT_ENTRY, s, top, ps, data);
    ps := [(AT_ENTRY, entry)] + ps;
    PushRealAuxv(emu, h, AT_UID, s, top, ps, data);
    ps := Known(h, AT_UID) + ps;
    PushRealAuxv(emu, h, AT_EUID, s, top, ps, data);
    ps := Known(h, AT_EUID) + ps;
    PushRealAuxv(emu, h, AT_GID, s, top, ps, data);
    ps := Known(h, AT_GID) + ps;
    PushRealAuxv(emu, h, AT_EGID, s, top, ps, data);
    ps := Known(h, AT_EGID) + ps;
    assert ps == LateEntries(h, entry);
  }

  /** The auxiliary vector, last entry first. */
  method PushVector(emu: Emu, h: Host, entry: u64, execfn: u64, platform: u64, random: u64,
                    ghost s: State, ghost top: nat, ghost data: seq<byte>)
    requires AuxStage(emu, s, top, [], data) && 16 * (KnownCount(h) + 5) + |data| <= top
    modifies emu`mem, emu.regs
    ensures AuxStage(emu, s, top, Auxv(h, entry, execfn, platform, random), data)
  {
    hide AuxStage, Known;
    ghost var ps := LateEntries(h, entry);
    PushLateEntries(emu, h, entry, s, top, data);
    PushAuxv(emu, platform, AT_PLATFORM, s, top, ps, data);
    ps := [(AT_PLATFORM, platform)] + ps;
    PushRealAuxv(emu, h, AT_SECURE, s, top, ps, data);
    ps := Known(h, AT_SECURE) + ps;
    PushAuxv(emu, random, AT_RANDOM, s, top, ps, data);
    ps := [(AT_RANDOM, random)] + ps;
    PushAuxv(emu, execfn, AT_EXECFN, s, top, ps, data);
    ps := [(AT_EXECFN, execfn)] + ps;
    assert ps == Auxv(h, entry, execfn, platform, random);
  }

  // ---------------------------------------------------------------- the whole setup

  /** Sixteen random bytes as four 32-bit pushes. */
  method PushRandom(emu: Emu, h: Host, ghost s: State, ghost top: nat, ghost img: seq<byte>)
    requires emu.Valid() && h.Valid() && 16 + |img| <= top < WORD && emu.Value() == Under(s, top, img)
    modifies emu`mem, emu.regs
    ensures emu.Value() == Under(s, top, RandomBytes(h) + img) && emu.regs[RSP] == top - 16 - |img|
  {
    hide ToBytes, Under;
    ghost var done: seq<byte> := [];
    assert done + img == img;
    for i := 0 to 4
      invariant |done| == 4 * i
      invariant i == 0 ==> done == []
      invariant i == 1 ==> done == ToBytes(h.random[0], 4)
      invariant i == 2 ==> done == ToBytes(h.random[1], 4) + ToBytes(h.random[0], 4)
      invariant i == 3 ==> done == ToBytes(h.random[2], 4) + (ToBytes(h.random[1], 4) + ToBytes(h.random[0], 4))
      invariant i == 4 ==> done == RandomBytes(h)
      invariant emu.Value() == Under(s, top, done + img)
    {
      PushNumber(emu, 4, h.random[i], s, top, done + img);
      assert ToBytes(h.random[i], 4) + (done + img) == (ToBytes(h.random[i], 4) + done) + img;
      done := ToBytes(h.random[i], 4) + done;
    }
    UnderRsp(emu, s, top, RandomBytes(h) + img);
  }

  /** push_align: clear the bytes down to the next multiple of the alignment. */
  method PushAlign(emu: Emu, ghost s: State, ghost top: nat, ghost img: seq<byte>)
    requires emu.Valid() && |img| + (top - |img|) % STACK_ALIGN <= top < WORD && emu.Value() == Under(s, top, img)
    modifies emu`mem, emu.regs
    ensures emu.Value() == Under(s, top, seq((top - |img|) % STACK_ALIGN, _ => 0) + img)
  {
    var gap := emu.regs[RSP] % STACK_ALIGN;
    PushBytes(emu, seq(gap, _ => 0), s, top, img);
  }

  /** Strings, random bytes and padding; returns the pointers collected on the way. */
  method PushData(emu: Emu, c: Context, h: Host, ghost s: State)
    returns (argv: array<u64>, envv: array<u64>, platform: u64, random: u64)
    requires emu.Valid() && h.Valid() && DataFits(c, h) && emu.Value() == s && s.Rsp() == c.Top()
    modifies emu`mem, emu.regs
    ensures fresh(argv) && fresh(envv) && argv[..] == ArgPointers(c, h) && envv[..] == EnvPointers(c, h)
    ensures platform == PlatformAddress(c) && random == RandomAddress(c)
    ensures emu.Value() == Under(s, c.Top(), Data(c, h))
  {
    hide Strings, RandomBytes, Pointers, Under, StringAddress;
    ghost var top := c.Top();
    ghost var a, e := Strings(c.argv), Strings(c.envv);
    UnderNothing(s, top);
    AddressesFit(c, h);
    assert a + [] == a;
    argv := PushStrings(emu, c.argv, s, top, []);
    envv := PushStrings(emu, c.envv, s, top, a);
    PushBytes(emu, Terminated(PLATFORM), s, top, e + a);
    platform := emu.regs[RSP];
    PushRandom(emu, h, s, top, Terminated(PLATFORM) + (e + a));
    random := emu.regs[RSP];
    assert RandomBytes(h) + (Terminated(PLATFORM) + (e + a)) == RawData(c, h);
    PushAlign(emu, s, top, RawData(c, h));
  }

  /** The whole setup: the stack ends up holding the image, and nothing else changes. */
  method Setup(emu: Emu, c: Context, h: Host)
    requires emu.Valid() && Fits(c, h) && emu.Value().Rsp() == c.Top()
    modifies emu`mem, emu.regs
    ensures emu.Value() == Under(old(emu.Value()), c.Top(), Image(c, h))
  {
    hide Data, Quads, Flatten, Auxv, Under, Known, ArgPointers, EnvPointers;
    ghost var s, top, data := emu.Value(), c.Top(), Data(c, h);
    ImageSize(c, h);
    var argv, envv, platform, random := PushData(emu, c, h, s);
    assert Quads(Flatten([])) + data == data;
    PushVector(emu, h, c.entry, argv[0], platform, random, s, top, data);
    ghost var vs := Flatten(AuxvOf(c, h));
    PushEntry(emu, 0, s, top, vs, data);
    PushPointers(emu, envv, s, top, [0] + vs, data);
    ghost var us := EnvPointers(c, h) + ([0] + vs);
    PushEntry(emu, 0, s, top, us, data);
    PushPointers(emu, argv, s, top, [0] + us, data);
    ghost var ts := ArgPointers(c, h) + ([0] + us);
    PushEntry(emu, |c.argv|, s, top, ts, data);
    assert [|c.argv|] + ts == Table(c, h);
  }

  /** Bit 1 is set and the privilege level is 3. */
  method SetBootFlags(emu: Emu)
    requires emu.Valid() && emu.flags == Bits.Zeros(64)
    modifies emu`flags
    ensures emu.Value() == old(emu.Value()).(flags := FlagsInvariant.BOOT_FLAGS)
  {
    emu.SetFlags(emu.flags[RESERVED1 := true]);
    emu.SetFlags(emu.flags[IOPL0 := true][IOPL1 := true]);
  }

  /** The auxiliary vector behind the tables at `sp`, in the standard's numbers. */
  ghost predicate VectorAt(m: Memory, sp: int, c: Context, h: Host)
    requires Fits(c, h)
  {
    && 0 <= sp + 8 < WORD && 0 <= RandomAddress(c) < PlatformAddress(c) < WORD
    && AuxiliaryVector(m, sp + 8 * (|c.argv| + |c.envv| + 3), KnownCount(h) + 5, c, h,
                       Load(m, sp + 8, 8), PlatformAddress(c), RandomAddress(c))
  }

  lemma EntryShowsVector(m: Memory, sp: int, c: Context, h: Host)
    requires Fits(c, h) && ProcessEntry(m, sp, c, h)
    ensures VectorAt(m, sp, c, h)
  {
    hide ProcessEntry, AuxiliaryVector, KnownCount, RandomAddress, PlatformAddress, Load;
    EntryHasVector(m, sp, c, h);
  }

  /** The stack as process entry finds it. */
  method SetupEntry(emu: Emu, c: Context, h: Host)
    requires emu.Valid() && Fits(c, h) && emu.Value().Rsp() == c.Top()
    modifies emu`mem, emu.regs
    ensures var s, t, sp := old(emu.Value()), emu.Value(), EntryRsp(c, h);
      && t == s.SetReg(RSP, sp).(mem := t.mem)
      && ProcessEntry(t.mem, sp, c, h) && VectorAt(t.mem, sp, c, h)
      && t.mem[..sp] == s.mem[..sp] && t.mem[c.Top()..] == s.mem[c.Top()..]
  {
    hide Image, ProcessEntry, VectorAt, Fits, EntryRsp;
    ghost var s := emu.Value();
    Setup(emu, c, h);
    UnderShows(s, c, h);
    EntryShowsVector(emu.mem, EntryRsp(c, h), c, h);
  }

  /** The entry state: flags, stack and argument registers, on a zeroed CPU. */
  method Initialize(emu: Emu, c: Context, h: Host)
    requires emu.Valid() && Fits(c, h) && emu.flags == Bits.Zeros(64)
    modifies emu, emu.regs
    ensures emu.flags == FlagsInvariant.BOOT_FLAGS && forall k :: 0 <= k < 64 ==> emu.flags[k] == (k in {1, 12, 13})
    ensures var s, sp := emu.Value(), EntryRsp(c, h);
      && s.regs[4] == sp && s.rip == c.entry
      && s.regs[7] == |c.argv| && s.regs[6] == (sp + 8) % WORD && s.regs[2] == (sp + 8 + 8 * (|c.argv| + 1)) % WORD
      && (forall k :: 0 <= k < 16 && k !in {2, 4, 6, 7} ==> s.regs[k] == old(emu.regs[..])[k])
      && s.mem[..sp] == old(emu.mem[..sp]) && s.mem[c.Top()..] == old(emu.mem[c.Top()..])
      && ProcessEntry(s.mem, sp, c, h)
      && PointerTable(s.mem, s.regs[6], ArgPointers(c, h), c.argv)
      && PointerTable(s.mem, s.regs[2], EnvPointers(c, h), c.envv)
      && VectorAt(s.mem, sp, c, h)
  {
    hide Fits, EntryRsp, ProcessEntry, PointerTable, ArgPointers, EnvPointers, VectorAt;
    SetBootFlags(emu);
    TopFits(c, h);
    emu.SetReg(RSP, c.stackBase + c.stackSize);
    SetupEntry(emu, c, h);
    ArgumentTables(emu.mem, EntryRsp(c, h), c, h);
    SetArguments(emu, c);
  }

  /** The argument registers point at the two tables. */
  lemma ArgumentTables(m: Memory, sp: u64, c: Context, h: Host)
    requires Fits(c, h) && ProcessEntry(m, sp, c, h)
    ensures PointerTable(m, Plus(sp, 8), ArgPointers(c, h), c.argv)
    ensures PointerTable(m, Plus(Plus(sp, 8), 8 * (|c.argv| + 1)), EnvPointers(c, h), c.envv)
    ensures Plus(Plus(sp, 8), 8 * (|c.argv| + 1)) == (sp + 8 + 8 * (|c.argv| + 1)) % WORD
  {
    hide DataFits, Image, ArgPointers, EnvPointers, PointsAt, Load, PointerTable, AuxvAt, AuxvOf, RandomBytes;
    var n := |c.argv|;
    TableBounds(m, sp + 8 * (n + 2), EnvPointers(c, h), c.envv);
    NoWrap(sp, 8);
    NoWrap(sp + 8, 8 * (n + 1));
  }

  lemma TableBounds(m: Memory, a: int, ps: seq<u64>, strs: seq<CString>)
    requires PointerTable(m, a, ps, strs)
    ensures 0 <= a < WORD
  {
  }

  lemma NoWrap(a: u64, k: nat)
    requires a + k < WORD
    ensures Plus(a, k) == a + k
  {
  }

  lemma TopFits(c: Context, h: Host)
    requires Fits(c, h)
    ensures c.Top() < WORD && |c.argv| < 0x8000_0000
  {
  }

  /** argc, argv and envp for the program, and its first instruction. */
  method SetArguments(emu: Emu, c: Context)
    requires emu.Valid() && |c.argv| < 0x8000_0000
    modifies emu`rip, emu.regs
    ensures var s := old(emu.Value());
      emu.Value() == s.(rip := c.entry).SetReg(RDI, |c.argv|).SetReg(RSI, Plus(s.Rsp(), 8))
                      .SetReg(RDX, Plus(Plus(s.Rsp(), 8), 8 * (|c.argv| + 1)))
  {
    hide Plus;
    emu.SetReg(RDI, |c.argv|);
    emu.SetReg(RSI, Plus(emu.regs[RSP], 8));
    emu.SetReg(RDX, Plus(emu.regs[RSI], 8 * (|c.argv| + 1)));
    emu.SetRip(c.entry);
  }

  lemma UnderShows(s: State, c: Context, h: Host)
    requires Fits(c, h)
    ensures var t, sp := Under(s, c.Top(), Image(c, h)), EntryRsp(c, h);
      && t == s.SetReg(RSP, sp).(mem := t.mem)
      && ProcessEntry(t.mem, sp, c, h)
      && t.mem[..sp] == s.mem[..sp] && t.mem[c.Top()..] == s.mem[c.Top()..]
  {
    hide Image, ProcessEntry;
    var t, sp := Under(s, c.Top(), Image(c, h)), EntryRsp(c, h);
    assert Shows(t.mem, sp, Image(c, h));
    ImageIsProcessEntry(t.mem, c, h);
  }
}
