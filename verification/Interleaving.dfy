/**
 The in-place lane loops of the unpack instructions: the high form is the interleave of
 the original upper halves even when both operands are the same register; the low form
 overwrites lanes it still has to read.
 */
module Interleaving {
  /** Lanes of `d` and `s` taken alternately. */
  function Interleave<T>(d: seq<T>, s: seq<T>): (r: seq<T>)
    requires |d| == |s|
    ensures |r| == 2 * |d|
    ensures forall k :: 0 <= k < |d| ==> r[2 * k] == d[k] && r[2 * k + 1] == s[k]
  {
    if |d| == 0 then [] else Interleave(d[..|d| - 1], s[..|d| - 1]) + [d[|d| - 1], s[|d| - 1]]
  }

  lemma InterleaveUnique<T>(d: seq<T>, s: seq<T>, r: seq<T>)
    requires |d| == |s| && |r| == 2 * |d|
    requires forall k :: 0 <= k < |d| ==> r[2 * k] == d[k] && r[2 * k + 1] == s[k]
    ensures r == Interleave(d, s)
  {
    forall x | 0 <= x < |r|
      ensures r[x] == Interleave(d, s)[x]
    {
      var k := x / 2;
      assert r[2 * k] == Interleave(d, s)[2 * k] && r[2 * k + 1] == Interleave(d, s)[2 * k + 1];
      assert x == 2 * k || x == 2 * k + 1;
    }
  }

  /** The high lane loop, in place; `src` may be `dest`. */
  method InterleaveHighInPlace<T>(dest: array<T>, src: array<T>, times: nat)
    requires dest.Length == src.Length == 2 * times
    modifies dest
    ensures dest[..] == Interleave(old(dest[times..]), old(src[times..]))
    ensures src != dest ==> src[..] == old(src[..])
  {
    ghost var d, s := dest[..], src[..];
    for i := 0 to times
      invariant src != dest ==> src[..] == s
      invariant forall k :: 0 <= k < i ==> dest[2 * k] == d[k + times] && dest[2 * k + 1] == s[k + times]
      invariant forall x :: 2 * i <= x < 2 * times ==> dest[x] == d[x]
    {
      dest[i * 2] := dest[i + times];
      dest[i * 2 + 1] := src[i + times];
    }
    InterleaveUnique(d[times..], s[times..], dest[..]);
  }

  /**
   What the low lane loop leaves in lane `x` when the operands differ, and when `src` is
   `dest` itself: lanes read late have been overwritten.
   */
  function LowLane<T>(d: seq<T>, s: seq<T>, same: bool, x: nat): T
    requires x < |d| == |s|
  {
    if x == 0 then d[0] else if x % 2 == 1 && !same then s[x / 2] else LowLane(d, s, same, x / 2)
  }

  /** The low lane loop, in place; `src` may be `dest`. */
  method InterleaveLowInPlace<T>(dest: array<T>, src: array<T>, times: nat)
    requires dest.Length == src.Length == 2 * times
    modifies dest
    ensures forall x :: 0 <= x < 2 * times ==> dest[x] == LowLane(old(dest[..]), old(src[..]), src == dest, x)
    ensures src != dest ==> src[..] == old(src[..])
  {
    hide LowLane;
    ghost var d, s, same := dest[..], src[..], src == dest;
    for i := 0 to times
      invariant !same ==> src[..] == s
      invariant forall x :: 0 <= x < 2 * i ==> dest[x] == LowLane(d, s, same, x)
      invariant forall x :: 2 * i <= x < 2 * times ==> dest[x] == d[x]
    {
      LowLaneStep(d, s, same, i);
      assert dest[i] == LowLane(d, s, same, i);
      dest[i * 2] := dest[i];
      dest[i * 2 + 1] := src[i];
    }
  }

  lemma LowLaneStep<T>(d: seq<T>, s: seq<T>, same: bool, i: nat)
    requires 2 * i + 1 < |d| == |s|
    ensures LowLane(d, s, same, 2 * i) == LowLane(d, s, same, i)
    ensures LowLane(d, s, same, 2 * i + 1) == if same then LowLane(d, s, same, i) else s[i]
    ensures LowLane(d, s, same, 0) == d[0]
  {
  }

  /** With one register as both operands every lane ends up as lane 0. */
  lemma {:induction false} LowOfItself<T>(d: seq<T>, x: nat)
    requires x < |d|
    ensures LowLane(d, d, true, x) == d[0]
  {
    if x > 0 {
      LowOfItself(d, x / 2);
    }
  }

  /** The low loop is the interleave of the lower halves. */
  ghost predicate LowIsInterleave<T>(d: seq<T>, s: seq<T>, same: bool, times: nat)
    requires |d| == |s| == 2 * times
  {
    forall x :: 0 <= x < 2 * times ==> LowLane(d, s, same, x) == Interleave(d[..times], s[..times])[x]
  }

  /** Lane `k` of the destination already holds the lane that the loop copies there. */
  ghost predicate LaneFits<T>(d: seq<T>, s: seq<T>, same: bool, k: nat)
    requires k < |d| == |s|
  {
    d[k] == if same then d[0] else if k % 2 == 1 then s[k / 2] else d[k / 2]
  }

  ghost predicate LanesFit<T>(d: seq<T>, s: seq<T>, same: bool, times: nat)
    requires |d| == |s| == 2 * times
  {
    forall k :: 0 < k < times ==> LaneFits(d, s, same, k)
  }

  /** Then every lower lane of the result is the original one. */
  lemma {:induction false} FittingLanesStay<T>(d: seq<T>, s: seq<T>, same: bool, times: nat, x: nat)
    requires |d| == |s| == 2 * times && LanesFit(d, s, same, times) && x < times
    ensures LowLane(d, s, same, x) == d[x]
  {
    if x > 0 {
      assert LaneFits(d, s, same, x) && (x / 2 > 0 ==> LaneFits(d, s, same, x / 2));
      FittingLanesStay(d, s, same, times, x / 2);
    }
  }

  /** For given operands the low loop is the interleave exactly when the lower lanes fit. */
  lemma LowCorrectIff<T>(d: seq<T>, s: seq<T>, same: bool, times: nat)
    requires |d| == |s| == 2 * times && (same ==> s == d)
    ensures LowIsInterleave(d, s, same, times) <==> LanesFit(d, s, same, times)
  {
    hide Interleave, LowIsInterleave, LanesFit;
    if LanesFit(d, s, same, times) {
      FitIsInterleave(d, s, same, times);
    }
    if LowIsInterleave(d, s, same, times) {
      InterleaveFits(d, s, same, times);
    }
  }

  lemma FitIsInterleave<T>(d: seq<T>, s: seq<T>, same: bool, times: nat)
    requires |d| == |s| == 2 * times && (same ==> s == d) && LanesFit(d, s, same, times)
    ensures LowIsInterleave(d, s, same, times)
  {
    hide LowLane, Interleave;
    var r := Interleave(d[..times], s[..times]);
    forall x | 0 <= x < 2 * times
      ensures LowLane(d, s, same, x) == r[x]
    {
      var k := x / 2;
      LowLaneStep(d, s, same, k);
      FittingLanesStay(d, s, same, times, k);
      assert r[2 * k] == d[..times][k] && r[2 * k + 1] == s[..times][k];
      assert x == 2 * k || x == 2 * k + 1;
    }
  }

  lemma InterleaveFits<T>(d: seq<T>, s: seq<T>, same: bool, times: nat)
    requires |d| == |s| == 2 * times && (same ==> s == d) && LowIsInterleave(d, s, same, times)
    ensures LanesFit(d, s, same, times)
  {
    hide LowLane, Interleave;
    var r := Interleave(d[..times], s[..times]);
    forall k | 0 <= k < times
      ensures LowLane(d, s, same, k) == d[k]
    {
      LowLaneStep(d, s, same, k);
      assert LowLane(d, s, same, 2 * k) == r[2 * k] == d[..times][k];
    }
    forall k | 0 < k < times
      ensures LaneFits(d, s, same, k)
    {
      LowLaneStep(d, s, same, k / 2);
      assert k == 2 * (k / 2) || k == 2 * (k / 2) + 1;
      if same {
        LowOfItself(d, k);
      }
    }
  }

  /** So it is correct for all operands exactly when there is at most one lane. */
  lemma LowAlwaysCorrectIff(times: nat, same: bool)
    ensures (forall d: seq<int>, s: seq<int> | |d| == |s| == 2 * times && (same ==> s == d) :: LowIsInterleave(d, s, same, times))
            <==> times <= 1
  {
    hide LowIsInterleave;
    forall d: seq<int>, s: seq<int> | |d| == |s| == 2 * times && (same ==> s == d)
      ensures LowIsInterleave(d, s, same, times) <==> LanesFit(d, s, same, times)
    {
      LowCorrectIff(d, s, same, times);
    }
    if times > 1 {
      var d, s := seq(2 * times, k => k), seq(2 * times, k => k + if same then 0 else 2);
      assert !LaneFits(d, s, same, 1);
      assert !LanesFit(d, s, same, times);
    }
  }
}
