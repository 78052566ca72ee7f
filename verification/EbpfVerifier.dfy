/**
 The static check run before a program is loaded: what it accepts, stated over the
 instruction boundaries of the program, and the scan that decides it.
 */
module EbpfVerifier {
  import opened Ebpf

  const MAX_INSNS: nat := 4096

  datatype Verdict =
    | Accept
    | EmptyProgram
    | TooLarge
    | NoExit
    | InvalidRegister
    | TruncatedLoad
    | JumpOutOfBounds
    | StackOutOfBounds
    | NonStackAccess

  /** Index `i` starts an instruction: LD_IMM_64 takes two words, everything else one. */
  ghost predicate Boundary(prog: Program, i: nat)
    requires i <= |prog|
  {
    || i == 0
    || (Boundary(prog, i - 1) && prog[i - 1].code != LD_IMM_64)
    || (i >= 2 && Boundary(prog, i - 2) && prog[i - 2].code == LD_IMM_64)
  }

  predicate IsJump(insn: Insn) {
    insn.Class() == 5 && insn.code != RET && insn.code != CALL
  }

  predicate IsMemory(insn: Insn) {
    insn.Class() == 1 || insn.Class() == 2 || insn.Class() == 3
  }

  /** The register a memory instruction addresses through. */
  function BaseOf(insn: Insn): nat {
    if insn.Class() == 1 then insn.Src() else insn.Dst()
  }

  /** What acceptance promises of one instruction. */
  predicate SafeAt(prog: Program, i: nat)
    requires i < |prog|
  {
    var insn := prog[i];
    && insn.Dst() < 11
    && insn.Src() < 11
    && (insn.code == LD_IMM_64 ==> i + 1 < |prog|)
    && (IsJump(insn) ==> 0 <= i + insn.off + 1 < |prog|)
    && (IsMemory(insn) ==> BaseOf(insn) == 10 && -512 <= insn.off <= 0)
  }

  ghost predicate Accepted(prog: Program) {
    && 0 < |prog| <= MAX_INSNS
    && (exists i :: 0 <= i < |prog| && prog[i].code == RET)
    && (forall i {:trigger SafeAt(prog, i)} | 0 <= i < |prog| && Boundary(prog, i) :: SafeAt(prog, i))
  }

  /** No boundary lies inside a two-word instruction. */
  lemma {:induction false} SecondWordIsNoBoundary(prog: Program, i: nat)
    requires i < |prog| && Boundary(prog, i) && prog[i].code == LD_IMM_64
    ensures !Boundary(prog, i + 1)
  {
    if Boundary(prog, i + 1) {
      SecondWordIsNoBoundary(prog, i - 1);
    }
  }

  /** The checks of one instruction, in the order the scan performs them. */
  function Check(prog: Program, i: nat): (v: Verdict)
    requires i < |prog|
    ensures v == Accept <==> SafeAt(prog, i)
  {
    var insn := prog[i];
    if insn.Dst() >= 11 || insn.Src() >= 11 then InvalidRegister
    else if insn.code == LD_IMM_64 then
      if i + 1 >= |prog| then TruncatedLoad else Accept
    else if IsJump(insn) && !(0 <= i + insn.off + 1 < |prog|) then JumpOutOfBounds
    else if !IsMemory(insn) then Accept
    else if BaseOf(insn) != 10 then NonStackAccess
    else if insn.off > 0 || insn.off < -512 then StackOutOfBounds
    else Accept
  }

  /** Each verdict in the bytes of the instruction. */
  lemma Verdicts(prog: Program, i: nat)
    requires i < |prog|
    ensures var code, off, v := prog[i].code, prog[i].off, Check(prog, i);
            var dst, src := prog[i].regs % 16, prog[i].regs / 16;
            var base := if code % 8 == 1 then src else dst;
            var ok := dst <= 10 && src <= 10;
            && (v == InvalidRegister <==> !ok)
            && (v == TruncatedLoad <==> ok && code == 0x18 && i + 1 == |prog|)
            && (v == JumpOutOfBounds <==>
                  ok && code % 8 == 5 && code !in {0x85, 0x95} && !(0 <= i + off + 1 < |prog|))
            && (v == NonStackAccess <==> ok && code % 8 in {1, 2, 3} && base != 10)
            && (v == StackOutOfBounds <==> ok && code % 8 in {1, 2, 3} && base == 10 && !(-512 <= off <= 0))
            && (v in {EmptyProgram, TooLarge, NoExit} ==> false)
  {
  }

  method HasExit(prog: Program) returns (found: bool)
    ensures found <==> exists i :: 0 <= i < |prog| && prog[i].code == RET
  {
    found := false;
    for i := 0 to |prog|
      invariant forall j :: 0 <= j < i ==> prog[j].code != RET
    {
      if prog[i].code == RET {
        return true;
      }
    }
  }

  /** The scan accepts exactly the accepted programs, and otherwise reports the first
      boundary that fails. */
  method Verify(prog: Program) returns (v: Verdict)
    ensures v == Accept <==> Accepted(prog)
    ensures v == EmptyProgram <==> prog == []
    ensures v == TooLarge <==> |prog| > MAX_INSNS
    ensures v == NoExit <==> 0 < |prog| <= MAX_INSNS && forall i :: 0 <= i < |prog| ==> prog[i].code != RET
    ensures v in {InvalidRegister, TruncatedLoad, JumpOutOfBounds, StackOutOfBounds, NonStackAccess} ==>
              exists i :: 0 <= i < |prog| && Boundary(prog, i) && Check(prog, i) == v
                          && forall j {:trigger SafeAt(prog, j)} | 0 <= j < i && Boundary(prog, j) :: SafeAt(prog, j)
  {
    if |prog| == 0 {
      return EmptyProgram;
    }
    if |prog| > MAX_INSNS {
      return TooLarge;
    }
    var hasExit := HasExit(prog);
    if !hasExit {
      return NoExit;
    }
    var i := 0;
    while i < |prog|
      invariant 0 <= i <= |prog| && Boundary(prog, i)
      invariant forall j {:trigger SafeAt(prog, j)} | 0 <= j < i && Boundary(prog, j) :: SafeAt(prog, j)
    {
      v := Check(prog, i);
      if v != Accept {
        return;
      }
      if prog[i].code == LD_IMM_64 {
        SecondWordIsNoBoundary(prog, i);
        i := i + 2;
      } else {
        i := i + 1;
      }
    }
    v := Accept;
  }
}
