/** Bytes standing at the instruction pointer, and the step they cause. */
module Programs {
  import opened Words
  import opened Flags
  import opened Instructions
  import opened Machine
  import opened Decoding
  import opened Codec
  import opened Semantics

  /** These bytes stand at the instruction pointer. */
  predicate Stands(s: State, b: seq<byte>)
  {
    s.rip + |b| <= |Code(s.mem)| && Code(s.mem)[s.rip..s.rip + |b|] == b
  }

  lemma DecodeStanding(s: State, b: seq<byte>, i: Ins)
    requires Stands(s, b) && WellFormed(i) && Encode(i) == b
    ensures Decode(Code(s.mem), s.rip) == Done(true, i, s.rip + |b|)
  {
    hide Decode, Code, Encode, WellFormed;
    DecodeOfEncodeInContext(Code(s.mem), s.rip, i);
  }

  lemma StepIsExecute(s: State, io: u64, i: Ins, pc: nat)
    requires Decode(Code(s.mem), s.rip) == Done(true, i, pc)
    ensures pc < WORD && Step(s, io) == Execute(i, s.(rip := pc), io)
  {
    hide Decode, Execute;
  }

  /** The step of a machine at the canonical encoding of a record. */
  lemma StepStanding(s: State, io: u64, b: seq<byte>, i: Ins)
    requires Stands(s, b) && WellFormed(i) && Encode(i) == b
    ensures s.rip + |b| < WORD && Step(s, io) == Execute(i, s.(rip := s.rip + |b|), io)
  {
    hide Step, Execute, Decode, Encode, WellFormed, Stands;
    DecodeStanding(s, b, i);
    StepIsExecute(s, io, i, s.rip + |b|);
  }

  /** A machine about to execute `b`: the bytes at address 0, all registers zero. */
  function Loaded(b: seq<byte>): (s: State)
    requires |b| < WORD
    ensures Stands(s, b)
  {
    var m := b + seq(WORD - |b|, _ => 0);
    assert m[..WORD - 1][0..|b|] == b;
    State(seq(16, _ => 0), 0, OfWord(0), seq(384, _ => 0), m)
  }
}
