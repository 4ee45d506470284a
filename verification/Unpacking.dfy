/**
 The unpack instructions on the machine: the moves they make between vector operands,
 lane by lane, and what an executed unpack leaves in the vector file.
 */
module Unpacking {
  import opened Words
  import opened Instructions
  import opened Machine
  import opened Operations
  import opened Semantics
  import opened Interleaving
  import opened Codec
  import opened Programs

  function Lane(s: State, l: VecLoc, lane: nat, k: nat): seq<byte> { VecRead(s, l, k * lane, lane) }

  /** A destination register and a source: the same register, another one, or memory. */
  predicate Operands(dst: VecLoc, src: VecLoc, size: nat)
  {
    && dst.VecReg? && dst.off + size <= 384
    && (src.VecReg? ==> src.off + size <= 384 && (src == dst || src.off + size <= dst.off || dst.off + size <= src.off))
  }

  /** Memory, registers and the vector registers other than the one at `dst` are untouched. */
  predicate OnlyOperand(s: State, t: State, dst: VecLoc, size: nat)
    requires dst.VecReg?
  {
    && t == s.(vec := t.vec)
    && forall x :: 0 <= x < 384 && !(dst.off <= x < dst.off + size) ==> t.vec[x] == s.vec[x]
  }

  /** A move of `n` bytes within operands of `size` bytes replaces just those bytes. */
  lemma MoveBytes(s: State, dst: VecLoc, src: VecLoc, size: nat, to: nat, fromDest: bool, from: nat, n: nat)
    requires Operands(dst, src, size) && to + n <= size && from + n <= size
    ensures var t := DoMove(s, dst, src, Move(to, fromDest, from, n, n));
      var b := VecRead(s, if fromDest then dst else src, from, n);
      && |b| == n
      && t == s.(vec := s.vec[..dst.off + to] + b + s.vec[dst.off + to + n..])
      && VecRead(t, dst, to, n) == b
      && OnlyOperand(s, t, dst, size)
  {
  }

  lemma ReadOutside(s: State, t: State, dst: VecLoc, src: VecLoc, size: nat, to: nat, b: seq<byte>, q: nat, n: nat)
    requires Operands(dst, src, size) && to + |b| <= size && q + n <= size
    requires t == s.(vec := s.vec[..dst.off + to] + b + s.vec[dst.off + to + |b|..])
    requires to + |b| <= q || q + n <= to
    ensures VecRead(t, dst, q, n) == VecRead(s, dst, q, n) && VecRead(t, src, q, n) == VecRead(s, src, q, n)
  {
    SliceOutside(s.vec, b, dst.off + to, dst.off + q, n);
    if src.VecReg? {
      SliceOutside(s.vec, b, dst.off + to, src.off + q, n);
    }
  }

  /** Another operand does not see the move at all. */
  lemma ReadElsewhere(s: State, t: State, dst: VecLoc, src: VecLoc, size: nat, q: nat, n: nat)
    requires Operands(dst, src, size) && src != dst && q + n <= size && OnlyOperand(s, t, dst, size)
    ensures VecRead(t, src, q, n) == VecRead(s, src, q, n)
  {
  }

  lemma MoveLane(s: State, dst: VecLoc, src: VecLoc, lane: nat, times: nat, to: nat, fromDest: bool, from: nat)
    requires lane > 0 && Operands(dst, src, 2 * times * lane) && to < 2 * times && from < 2 * times
    ensures var t := DoMove(s, dst, src, Move(to * lane, fromDest, from * lane, lane, lane));
      && Lane(t, dst, lane, to) == Lane(s, if fromDest then dst else src, lane, from)
      && (forall k :: 0 <= k < 2 * times && k != to ==> Lane(t, dst, lane, k) == Lane(s, dst, lane, k))
      && (forall k :: 0 <= k < 2 * times && k != to ==> Lane(t, src, lane, k) == Lane(s, src, lane, k))
      && (src != dst ==> forall k :: 0 <= k < 2 * times ==> Lane(t, src, lane, k) == Lane(s, src, lane, k))
      && OnlyOperand(s, t, dst, 2 * times * lane)
  {
    hide DoMove, VecRead, Operands, OnlyOperand;
    var size := 2 * times * lane;
    LaneBounds(lane, times, to);
    LaneBounds(lane, times, from);
    MoveBytes(s, dst, src, size, to * lane, fromDest, from * lane, lane);
    var t := DoMove(s, dst, src, Move(to * lane, fromDest, from * lane, lane, lane));
    var b := VecRead(s, if fromDest then dst else src, from * lane, lane);
    forall k | 0 <= k < 2 * times && k != to
      ensures Lane(t, dst, lane, k) == Lane(s, dst, lane, k) && Lane(t, src, lane, k) == Lane(s, src, lane, k)
    {
      LaneBounds(lane, times, k);
      LanesApart(lane, to, k);
      ReadOutside(s, t, dst, src, size, to * lane, b, k * lane, lane);
    }
    if src != dst {
      ReadElsewhere(s, t, dst, src, size, to * lane, lane);
    }
  }

  lemma LaneBounds(lane: nat, times: nat, k: nat)
    requires k < 2 * times
    ensures k * lane + lane <= 2 * times * lane
  {
    Ordered(lane, k, 2 * times);
  }

  /** Lanes of lower index lie wholly below. */
  lemma Ordered(lane: nat, j: nat, k: nat)
    requires j < k
    ensures j * lane + lane <= k * lane
  {
    MulSub(lane, k, j);
    MulAtLeast(lane, k - j);
  }

  lemma LanesApart(lane: nat, j: nat, k: nat)
    requires j != k
    ensures j * lane + lane <= k * lane || k * lane + lane <= j * lane
  {
    if j < k {
      Ordered(lane, j, k);
    } else {
      Ordered(lane, k, j);
    }
  }

  lemma SliceOutside(v: seq<byte>, b: seq<byte>, o: nat, p: nat, n: nat)
    requires o + |b| <= |v| && p + n <= |v| && (o + |b| <= p || p + n <= o)
    ensures (v[..o] + b + v[o + |b|..])[p..p + n] == v[p..p + n]
  {
  }

  /** The moves from lane `j` on, with lanes below 2j already in place. */
  lemma {:induction false} HighMoves(s: State, dst: VecLoc, src: VecLoc, lane: nat, times: nat, j: nat)
    requires lane > 0 && Operands(dst, src, 2 * times * lane) && j <= times
    ensures var t := DoMoves(s, dst, src, InterleaveHigh(lane, times, j));
      && (forall k :: j <= k < times ==>
            && Lane(t, dst, lane, 2 * k) == Lane(s, dst, lane, k + times)
            && Lane(t, dst, lane, 2 * k + 1) == Lane(s, src, lane, k + times))
      && (forall k :: 0 <= k < 2 * j ==> Lane(t, dst, lane, k) == Lane(s, dst, lane, k))
      && OnlyOperand(s, t, dst, 2 * times * lane)
    decreases times - j
  {
    hide Lane, DoMove;
    if j < times {
      var m1 := Move(2 * j * lane, true, (j + times) * lane, lane, lane);
      var m2 := Move((2 * j + 1) * lane, false, (j + times) * lane, lane, lane);
      var rest := InterleaveHigh(lane, times, j + 1);
      var s1 := DoMove(s, dst, src, m1);
      var s2 := DoMove(s1, dst, src, m2);
      TwoMoves(s, dst, src, m1, m2, rest);
      MoveLane(s, dst, src, lane, times, 2 * j, true, j + times);
      MoveLane(s1, dst, src, lane, times, 2 * j + 1, false, j + times);
      HighMoves(s2, dst, src, lane, times, j + 1);
    }
  }

  lemma TwoMoves(s: State, dst: VecLoc, src: VecLoc, m1: Move, m2: Move, rest: seq<Move>)
    ensures DoMoves(s, dst, src, [m1, m2] + rest) == DoMoves(DoMove(DoMove(s, dst, src, m1), dst, src, m2), dst, src, rest)
  {
    hide DoMove;
    assert ([m1, m2] + rest)[1..] == [m2] + rest;
    assert ([m2] + rest)[1..] == rest;
  }

  /** The lanes of an operand, lowest first. */
  function Lanes(s: State, l: VecLoc, lane: nat, times: nat): (r: seq<seq<byte>>)
    ensures |r| == 2 * times
  {
    seq(2 * times, k requires 0 <= k < 2 * times => Lane(s, l, lane, k))
  }

  /** The high moves interleave the original upper halves, whichever operand the source is. */
  lemma HighMovesInterleave(s: State, dst: VecLoc, src: VecLoc, lane: nat, times: nat)
    requires lane > 0 && Operands(dst, src, 2 * times * lane)
    ensures var t := DoMoves(s, dst, src, InterleaveHigh(lane, times, 0));
      && Lanes(t, dst, lane, times) == Interleave(Lanes(s, dst, lane, times)[times..], Lanes(s, src, lane, times)[times..])
      && OnlyOperand(s, t, dst, 2 * times * lane)
  {
    hide Lane, DoMoves, Interleave, OnlyOperand;
    HighMoves(s, dst, src, lane, times, 0);
    var t := DoMoves(s, dst, src, InterleaveHigh(lane, times, 0));
    var d, q := Lanes(s, dst, lane, times)[times..], Lanes(s, src, lane, times)[times..];
    forall k | 0 <= k < times
      ensures Lanes(t, dst, lane, times)[2 * k] == d[k] && Lanes(t, dst, lane, times)[2 * k + 1] == q[k]
    {
    }
    InterleaveUnique(d, q, Lanes(t, dst, lane, times));
  }

  /** Half way through the low moves: lanes below 2j are as the loop leaves them, the others original. */
  predicate LowStage(s: State, dst: VecLoc, src: VecLoc, lane: nat, times: nat, j: nat, d: seq<seq<byte>>, q: seq<seq<byte>>)
    requires |d| == |q| == 2 * times && j <= times
  {
    && (forall k :: 0 <= k < 2 * j ==> Lane(s, dst, lane, k) == LowLane(d, q, dst == src, k))
    && (forall k :: 2 * j <= k < 2 * times ==> Lane(s, dst, lane, k) == d[k])
    && (dst != src ==> forall k :: 0 <= k < 2 * times ==> Lane(s, src, lane, k) == q[k])
  }

  lemma {:induction false} LowMoves(s: State, dst: VecLoc, src: VecLoc, lane: nat, times: nat, j: nat, d: seq<seq<byte>>, q: seq<seq<byte>>)
    requires lane > 0 && Operands(dst, src, 2 * times * lane) && j <= times && |d| == |q| == 2 * times
    requires LowStage(s, dst, src, lane, times, j, d, q)
    ensures var t := DoMoves(s, dst, src, InterleaveLow(lane, times, j));
      && LowStage(t, dst, src, lane, times, times, d, q)
      && OnlyOperand(s, t, dst, 2 * times * lane)
    decreases times - j
  {
    hide Lane, DoMove, LowLane, LowStage;
    if j < times {
      var m1 := Move(2 * j * lane, true, j * lane, lane, lane);
      var m2 := Move((2 * j + 1) * lane, false, j * lane, lane, lane);
      TwoMoves(s, dst, src, m1, m2, InterleaveLow(lane, times, j + 1));
      LowTurn(s, dst, src, lane, times, j, d, q);
      LowMoves(DoMove(DoMove(s, dst, src, m1), dst, src, m2), dst, src, lane, times, j + 1, d, q);
    }
  }

  /** One turn of the low loop. */
  lemma LowTurn(s: State, dst: VecLoc, src: VecLoc, lane: nat, times: nat, j: nat, d: seq<seq<byte>>, q: seq<seq<byte>>)
    requires lane > 0 && Operands(dst, src, 2 * times * lane) && j < times && |d| == |q| == 2 * times
    requires LowStage(s, dst, src, lane, times, j, d, q)
    ensures var t := DoMove(DoMove(s, dst, src, Move(2 * j * lane, true, j * lane, lane, lane)), dst, src,
                            Move((2 * j + 1) * lane, false, j * lane, lane, lane));
      LowStage(t, dst, src, lane, times, j + 1, d, q) && OnlyOperand(s, t, dst, 2 * times * lane)
  {
    hide Lane, DoMove, LowLane, Operands;
    var s1 := DoMove(s, dst, src, Move(2 * j * lane, true, j * lane, lane, lane));
    MoveLane(s, dst, src, lane, times, 2 * j, true, j);
    MoveLane(s1, dst, src, lane, times, 2 * j + 1, false, j);
    LowLaneStep(d, q, dst == src, j);
    assert Lane(s, dst, lane, j) == LowLane(d, q, dst == src, j);
  }

  // ---------------------------------------------------------------- executed instructions

  /** UNPCKL, UNPCKH, PUNPCKL and PUNPCKH. */
  predicate IsUnpack(i: Ins) { i.op0 == 0x0F && i.op1 in {0x14, 0x15, 0x60, 0x61, 0x62, 0x68, 0x69, 0x6A} }

  predicate IsHigh(i: Ins) { i.op1 in {0x15, 0x68, 0x69, 0x6A} }

  /** The forms on single and double precision values. */
  predicate IsFloat(i: Ins) { i.op1 in {0x14, 0x15} }

  predicate UsesXmm(i: Ins) { IsFloat(i) || i.operandSz }

  /** Bytes in a lane. */
  function LaneSize(i: Ins): (n: nat)
    ensures n == 1 || n == 2 || n == 4 || n == 8
  {
    if IsFloat(i) then (if i.operandSz then 8 else 4)
    else if i.op1 % 8 == 0 then 1
    else if i.op1 % 8 == 1 then 2
    else 4
  }

  /** Lanes in half an operand. */
  function LaneCount(i: Ins): nat { (if UsesXmm(i) then 8 else 4) / LaneSize(i) }

  function DestLoc(i: Ins): VecLoc { VecRegLoc(i.RegIndex(), UsesXmm(i)) }

  function SourceLoc(s: State, i: Ins): VecLoc { VecRmLoc(s, i, UsesXmm(i)) }

  function DestLanes(s: State, i: Ins): (r: seq<seq<byte>>)
    ensures |r| == 2 * LaneCount(i)
  {
    Lanes(s, DestLoc(i), LaneSize(i), LaneCount(i))
  }

  function SourceLanes(s: State, i: Ins): (r: seq<seq<byte>>)
    ensures |r| == 2 * LaneCount(i)
  {
    Lanes(s, SourceLoc(s, i), LaneSize(i), LaneCount(i))
  }

  lemma UnpackSelected(i: Ins)
    requires IsUnpack(i)
    ensures Select(i) == Vector(UsesXmm(i), false,
      if IsHigh(i) then InterleaveHigh(LaneSize(i), LaneCount(i), 0) else InterleaveLow(LaneSize(i), LaneCount(i), 0))
  {
    hide InterleaveHigh, InterleaveLow;
  }

  /** Registers are the same or apart, and memory is apart from them. */
  lemma UnpackOperands(s: State, i: Ins)
    requires IsUnpack(i)
    ensures DestLoc(i).VecReg? && Operands(DestLoc(i), SourceLoc(s, i), 2 * LaneCount(i) * LaneSize(i))
  {
    hide Indirect;
    assert 2 * LaneCount(i) * LaneSize(i) == if UsesXmm(i) then 16 else 8;
  }

  lemma UnpackExecutes(s: State, i: Ins, io: u64)
    requires IsUnpack(i)
    ensures Execute(i, s, io) == Go(DoMoves(s, DestLoc(i), SourceLoc(s, i),
      if IsHigh(i) then InterleaveHigh(LaneSize(i), LaneCount(i), 0) else InterleaveLow(LaneSize(i), LaneCount(i), 0)))
  {
    hide Select, DoMoves, InterleaveHigh, InterleaveLow, VecRegLoc, VecRmLoc;
    UnpackSelected(i);
  }

  /**
   An executed high unpack leaves in the destination register the interleave of the
   original upper halves of both operands, whichever register or memory the source is.
   */
  lemma UnpackHigh(s: State, i: Ins, io: u64)
    requires IsUnpack(i) && IsHigh(i)
    ensures var r, n := Execute(i, s, io), LaneCount(i);
      && r.Go?
      && DestLanes(r.s, i) == Interleave(DestLanes(s, i)[n..], SourceLanes(s, i)[n..])
      && DestLoc(i).VecReg? && OnlyOperand(s, r.s, DestLoc(i), if UsesXmm(i) then 16 else 8)
  {
    hide Execute, DoMoves, InterleaveHigh, InterleaveLow, Operands, OnlyOperand, Lanes, Interleave, DestLoc, SourceLoc;
    UnpackExecutes(s, i, io);
    UnpackOperands(s, i);
    HighMovesInterleave(s, DestLoc(i), SourceLoc(s, i), LaneSize(i), LaneCount(i));
    assert 2 * LaneCount(i) * LaneSize(i) == if UsesXmm(i) then 16 else 8;
  }

  /** An executed low unpack leaves the lanes that its loop leaves, and changes no other register. */
  lemma UnpackLow(s: State, i: Ins, io: u64)
    requires IsUnpack(i) && !IsHigh(i)
    ensures var r, same := Execute(i, s, io), DestLoc(i) == SourceLoc(s, i);
      && r.Go?
      && (forall k :: 0 <= k < 2 * LaneCount(i) ==> DestLanes(r.s, i)[k] == LowLane(DestLanes(s, i), SourceLanes(s, i), same, k))
      && DestLoc(i).VecReg? && OnlyOperand(s, r.s, DestLoc(i), if UsesXmm(i) then 16 else 8)
  {
    hide Execute, DoMoves, InterleaveHigh, InterleaveLow, Operands, OnlyOperand, LowLane, DestLoc, SourceLoc, Lane;
    UnpackExecutes(s, i, io);
    UnpackOperands(s, i);
    LowMoves(s, DestLoc(i), SourceLoc(s, i), LaneSize(i), LaneCount(i), 0, DestLanes(s, i), SourceLanes(s, i));
    assert 2 * LaneCount(i) * LaneSize(i) == if UsesXmm(i) then 16 else 8;
  }

  /** An executed low unpack interleaves the lower halves exactly when the lanes fit beforehand. */
  lemma UnpackLowIff(s: State, i: Ins, io: u64)
    requires IsUnpack(i) && !IsHigh(i)
    ensures var r, n := Execute(i, s, io), LaneCount(i);
      && r.Go?
      && (DestLanes(r.s, i) == Interleave(DestLanes(s, i)[..n], SourceLanes(s, i)[..n]) <==>
            LanesFit(DestLanes(s, i), SourceLanes(s, i), DestLoc(i) == SourceLoc(s, i), n))
  {
    hide Execute, OnlyOperand, LowLane, DestLoc, SourceLoc, Lanes, Interleave, LanesFit, LaneCount, UsesXmm;
    UnpackLow(s, i, io);
    var d, q, same := DestLanes(s, i), SourceLanes(s, i), DestLoc(i) == SourceLoc(s, i);
    LowCorrectIff(d, q, same, LaneCount(i));
  }

  // ---------------------------------------------------------------- one instruction

  /** PUNPCKLDQ xmm0, xmm1. */
  const PUNPCKLDQ: seq<byte> := [0x66, 0x0F, 0x62, 0xC1]
  const PUNPCKLDQ_INS := ZERO_INS.(operandSz := true, op0 := 0x0F, op1 := 0x62, modrm := 0xC1)

  lemma PunpckldqRecord()
    ensures WellFormed(PUNPCKLDQ_INS) && Encode(PUNPCKLDQ_INS) == PUNPCKLDQ
  {
    var i := PUNPCKLDQ_INS;
    assert LayoutOf(i) == Layout(true, NoImm);
    assert Pow256(0) == 1;
    hide OneByteLayout, TwoByteLayout, LayoutOf;
    assert LegacyBytes(i) == [0x66] && OpcodeBytes(i) == [0x0F, 0x62] && ModrmBytes(i) == [0xC1] && ImmBytes(i) == [];
  }

  lemma PunpckldqOperands(s: State)
    ensures DestLoc(PUNPCKLDQ_INS) == VecReg(128) && LaneSize(PUNPCKLDQ_INS) == 4 && LaneCount(PUNPCKLDQ_INS) == 2
    ensures SourceLoc(s, PUNPCKLDQ_INS) == VecReg(144)
  {
    hide Indirect;
  }

  /** It is the interleave exactly when lane 1 of XMM0 equals lane 0 of XMM1 beforehand. */
  lemma PunpckldqIff(s: State, io: u64)
    requires Stands(s, PUNPCKLDQ)
    ensures var i, r := PUNPCKLDQ_INS, Step(s, io);
      && r.Go?
      && (DestLanes(r.s, i) == Interleave(DestLanes(s, i)[..2], SourceLanes(s, i)[..2]) <==>
            s.vec[132..136] == s.vec[144..148])
  {
    hide Execute, Step, Encode, WellFormed, Interleave, Stands, LanesFit, DestLanes, SourceLanes;
    PunpckldqRecord();
    StepStanding(s, io, PUNPCKLDQ, PUNPCKLDQ_INS);
    PunpckldqOperands(s.(rip := s.rip + 4));
    PunpckldqLanes(s, s.rip + 4);
    UnpackLowIff(s.(rip := s.rip + 4), PUNPCKLDQ_INS, io);
  }

  /** Its operands do not depend on RIP, and its only lane that can fail to fit is lane 1. */
  lemma PunpckldqLanes(s: State, next: u64)
    ensures var i, t := PUNPCKLDQ_INS, s.(rip := next);
      && |DestLanes(s, i)| == |SourceLanes(s, i)| == 4
      && DestLanes(t, i) == DestLanes(s, i) && SourceLanes(t, i) == SourceLanes(s, i)
      && (LanesFit(DestLanes(s, i), SourceLanes(s, i), false, 2) <==> s.vec[132..136] == s.vec[144..148])
  {
    hide Execute, Interleave, LaneSize, LaneCount, DestLoc, SourceLoc;
    PunpckldqOperands(s);
    PunpckldqOperands(s.(rip := next));
    var d, q := DestLanes(s, PUNPCKLDQ_INS), SourceLanes(s, PUNPCKLDQ_INS);
    assert d[1] == s.vec[132..136] && q[0] == s.vec[144..148];
    assert LaneFits(d, q, false, 1) <==> d[1] == q[0];
  }

  /** With XMM0 zero and XMM1 all ones, the step is not the interleave. */
  lemma PunpckldqFails(io: u64) returns (s: State)
    ensures Stands(s, PUNPCKLDQ)
    ensures var i, r := PUNPCKLDQ_INS, Step(s, io);
      r.Go? && DestLanes(r.s, i) != Interleave(DestLanes(s, i)[..2], SourceLanes(s, i)[..2])
  {
    hide Step, Interleave, DestLanes, SourceLanes;
    s := Loaded(PUNPCKLDQ).(vec := seq(384, k => if 144 <= k < 160 then 0xFF else 0));
    PunpckldqIff(s, io);
    assert s.vec[132..136][0] == 0 && s.vec[144..148][0] == 0xFF;
  }
}
