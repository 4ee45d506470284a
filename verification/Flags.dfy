/**
 The RFLAGS register: a 64-bit word addressed by bit number, as the flags union
 gives it both as bit fields and as a word.
 */
module Flags {
  import opened Words
  import opened Bits

  type Rflags = f: Bits | |f| == 64 witness Zeros(64)

  const CF := 0
  const RESERVED1 := 1
  const PF := 2
  const AF := 4
  const ZF := 6
  const SF := 7
  const IF := 9
  const DF := 10
  const OF := 11
  const IOPL0 := 12
  const IOPL1 := 13
  const RF := 16

  /** The flags as a 64-bit word. */
  function Word(f: Rflags): u64
  {
    Pow2Table();
    FromBits(f)
  }

  function OfWord(w: u64): Rflags { ToBits(w, 64) }

  lemma WordsRoundTrip(f: Rflags, w: u64)
    ensures OfWord(Word(f)) == f
    ensures Word(OfWord(w)) == w
  {
    ToBitsOfFromBits(f);
    Pow2Table();
    FromBitsOfToBits(w, 64);
  }

  // ---------------------------------------------------------------- masks

  predicate Bit(m: bv32, i: nat)
    requires i < 32
  {
    (m >> i) & 1 == 1
  }

  /** Bitwise AND of a flags word with a 32-bit mask constant. */
  function AndMask(f: Bits, m: bv32): (r: Bits)
    ensures |r| == |f|
    ensures forall i :: 0 <= i < |f| ==> r[i] == (f[i] && i < 32 && Bit(m, i))
  {
    seq(|f|, i requires 0 <= i < |f| => f[i] && i < 32 && Bit(m, i))
  }

  /** Pushed by PUSHFQ. */
  const PUSHF_MASK: bv32 := 0xFCFFFF

  /** Preserved by POPFQ. */
  const POPF_KEEP: bv32 := 0xFFDAB02A

  /** Taken from the stack by POPFQ. */
  const POPF_UPDATE: bv32 := 0x244FD5

  /** Preserved by the 16-bit POPF. */
  const POPF16_KEEP: bv32 := 0xFFFEB02A

  /** Taken from the stack by the 16-bit POPF. */
  const POPF16_UPDATE: bv32 := 0x4FD5

  /** Moved between AH and the flags by LAHF and SAHF. */
  const AH_MASK: bv32 := 0xD5

  /** Preserved by SAHF in the low 32 bits: the complement of AH_MASK. */
  const AH_KEEP: bv32 := 0xFFFFFF2A

  /** Every flag that is ever set, with the bits set at start-up. */
  const EVER_SET: bv32 := 0x247FD7

  lemma PushfMaskBits(i: nat)
    requires i < 32
    ensures Bit(PUSHF_MASK, i) <==> i !in {16, 17, 24, 25, 26, 27, 28, 29, 30, 31}
  {
  }

  lemma PopfKeepBits(i: nat)
    requires i < 32
    ensures Bit(POPF_KEEP, i) <==> i !in {0, 2, 4, 6, 7, 8, 9, 10, 11, 14, 16, 18, 21}
  {
  }

  lemma PopfUpdateBits(i: nat)
    requires i < 32
    ensures Bit(POPF_UPDATE, i) <==> i in {0, 2, 4, 6, 7, 8, 9, 10, 11, 14, 18, 21}
  {
  }

  lemma Popf16KeepBits(i: nat)
    requires i < 32
    ensures Bit(POPF16_KEEP, i) <==> i !in {0, 2, 4, 6, 7, 8, 9, 10, 11, 14, 16}
  {
  }

  lemma Popf16UpdateBits(i: nat)
    requires i < 32
    ensures Bit(POPF16_UPDATE, i) <==> i in {0, 2, 4, 6, 7, 8, 9, 10, 11, 14}
  {
  }

  lemma AhMaskBits(i: nat)
    requires i < 32
    ensures Bit(AH_MASK, i) <==> i in {0, 2, 4, 6, 7}
  {
  }

  lemma AhKeepBits(i: nat)
    requires i < 32
    ensures Bit(AH_KEEP, i) <==> !Bit(AH_MASK, i)
  {
  }

  lemma EverSetBits(i: nat)
    requires i < 32
    ensures Bit(EVER_SET, i) <==> i in {0, 1, 2, 4, 6, 7, 8, 9, 10, 11, 12, 13, 14, 18, 21}
  {
  }
}
