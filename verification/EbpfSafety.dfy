/**
 What the static check guarantees of every run: control stays on the instruction
 boundaries it examined, and stack accesses through an intact R10 succeed.
 */
module EbpfSafety {
  import opened Bytes
  import opened Ebpf
  import opened EbpfVerifier
  import opened EbpfVm

  ghost predicate OnBoundary(prog: Program, pc: nat) {
    pc <= |prog| && Boundary(prog, pc)
  }

  /** Some register contents make the interpreter take this jump. */
  predicate CanJump(insn: Insn) {
    var byReg := insn.code / 8 % 2 == 1;
    var op := if byReg then insn.code - X else insn.code;
    || (op == JMP_JA && !byReg)
    || op == JMP_JEQ
    || op == JMP_JGE
    || (op == JMP_JNE && !(byReg && insn.Dst() == insn.Src()))
    || (op == JMP_JGT && if byReg then insn.Dst() != insn.Src() else insn.imm != -1)
  }

  ghost predicate JumpsToBoundary(prog: Program, i: nat)
    requires i < |prog|
  {
    IsJump(prog[i]) && CanJump(prog[i]) ==> i + prog[i].off + 1 >= 0 && OnBoundary(prog, i + prog[i].off + 1)
  }

  /** No jump that can be taken lands on the second word of an LD_IMM_64. */
  ghost predicate Aligned(prog: Program) {
    forall i {:trigger JumpsToBoundary(prog, i)} | 0 <= i < |prog| && Boundary(prog, i) :: JumpsToBoundary(prog, i)
  }

  ghost predicate StepsToBoundary(w: World, prog: Program, i: nat, st: State)
    requires w.Sound() && i < |prog| && st.Shaped()
  {
    var o := Exec(w, prog, i, st);
    o.Go? ==> OnBoundary(prog, o.pc)
  }

  lemma TakenCanJump(insn: Insn, pc: nat, st: State)
    requires st.Shaped() && insn.Dst() < 11 && insn.Src() < 11 && IsJump(insn)
    requires ExecJump(insn, pc, st).Go? && ExecJump(insn, pc, st).pc != pc + 1
    ensures CanJump(insn)
  {
  }

  lemma JumpStays(prog: Program, i: nat, st: State)
    requires st.Shaped() && i < |prog| <= MAX_INSNS && SafeAt(prog, i) && IsJump(prog[i]) && JumpsToBoundary(prog, i)
    ensures var o := ExecJump(prog[i], i, st); o.Go? && o.pc != i + 1 ==> OnBoundary(prog, o.pc)
  {
    var o := ExecJump(prog[i], i, st);
    if o.Go? && o.pc != i + 1 {
      TakenCanJump(prog[i], i, st);
    }
  }

  lemma AlignedSteps(w: World, prog: Program, i: nat, st: State)
    requires w.Sound() && st.Shaped()
    requires Accepted(prog) && Aligned(prog) && i < |prog| && Boundary(prog, i)
    ensures StepsToBoundary(w, prog, i, st)
  {
    assert SafeAt(prog, i);
    var insn := prog[i];
    if insn.code != LD_IMM_64 {
      assert Boundary(prog, i + 1);
      if IsJump(insn) {
        assert JumpsToBoundary(prog, i);
        JumpStays(prog, i, st);
      }
    }
  }

  /** Registers under which a jump that can be taken is taken. */
  function TakingState(insn: Insn): (st: State)
    requires insn.Dst() < 11 && insn.Src() < 11
    ensures st.Shaped()
  {
    var byReg := insn.code / 8 % 2 == 1;
    var op := if byReg then insn.code - X else insn.code;
    var v: u64 :=
      if op == JMP_JEQ && !byReg then Wrap(insn.imm)
      else if op == JMP_JEQ then 0
      else if op == JMP_JNE && !byReg && insn.imm != 0 then 0
      else TWO64 - 1;
    State(seq(11, _ => 0)[insn.Dst() := v], Zeros(STACK), 0, [])
  }

  lemma CanJumpJumps(insn: Insn, pc: nat)
    requires insn.Dst() < 11 && insn.Src() < 11 && IsJump(insn) && CanJump(insn)
    ensures ExecJump(insn, pc, TakingState(insn)) == Go(JumpTo(pc, insn.off), TakingState(insn))
  {
  }

  lemma TakenJumpAligned(w: World, prog: Program, i: nat)
    requires w.Sound() && i < |prog| <= MAX_INSNS && SafeAt(prog, i)
    requires StepsToBoundary(w, prog, i, TakingState(prog[i]))
    ensures JumpsToBoundary(prog, i)
  {
    if IsJump(prog[i]) && CanJump(prog[i]) {
      CanJumpJumps(prog[i], i);
    }
  }

  /** On an accepted program every instruction leads from boundary to boundary, for all
      register contents, if and only if no jump that can be taken lands on a second word. */
  lemma BoundariesClosedExactlyWhenAligned(w: World, prog: Program)
    requires w.Sound() && Accepted(prog)
    ensures Aligned(prog) <==>
            forall i: nat, st: State {:trigger StepsToBoundary(w, prog, i, st)} |
              i < |prog| && Boundary(prog, i) && st.Shaped() :: StepsToBoundary(w, prog, i, st)
  {
    if Aligned(prog) {
      forall i: nat, st: State | i < |prog| && Boundary(prog, i) && st.Shaped()
        ensures StepsToBoundary(w, prog, i, st)
      {
        AlignedSteps(w, prog, i, st);
      }
    }
    if forall i: nat, st: State {:trigger StepsToBoundary(w, prog, i, st)} |
      i < |prog| && Boundary(prog, i) && st.Shaped() :: StepsToBoundary(w, prog, i, st) {
      forall i | 0 <= i < |prog| && Boundary(prog, i)
        ensures JumpsToBoundary(prog, i)
      {
        assert SafeAt(prog, i);
        assert StepsToBoundary(w, prog, i, TakingState(prog[i]));
        TakenJumpAligned(w, prog, i);
      }
    }
  }

  // ---------- whole runs ----------

  ghost predicate Checked(prog: Program) {
    Accepted(prog) && Aligned(prog)
  }

  ghost predicate AllChecked(w: World) {
    forall h | h in w.programs :: Checked(w.programs[h])
  }

  lemma StepKeepsChecked(w: World, c: Config)
    requires w.Sound() && AllChecked(w) && c.Shaped() && !c.Stuck()
    requires Checked(c.prog) && OnBoundary(c.prog, c.pc)
    ensures Step(w, c).More? ==> Checked(Step(w, c).c.prog) && OnBoundary(Step(w, c).c.prog, Step(w, c).c.pc)
  {
    AlignedSteps(w, c.prog, c.pc, c.st);
  }

  /** Through tail calls as well, every configuration a run reaches stands on a boundary the
      check examined or at the end of its program, so the run-time register check and the
      truncated-immediate check never fire. */
  lemma {:induction false} RunKeepsToBoundaries(w: World, c: Config, n: nat)
    requires w.Sound() && AllChecked(w) && c.Shaped()
    requires Checked(c.prog) && OnBoundary(c.prog, c.pc)
    ensures var r := Reached(w, c, n);
            r.Some? ==>
              && OnBoundary(r.value.prog, r.value.pc)
              && (r.value.pc < |r.value.prog| ==>
                    var insn := r.value.prog[r.value.pc];
                    && insn.Dst() < 11
                    && insn.Src() < 11
                    && (insn.code == LD_IMM_64 ==> r.value.pc + 1 < |r.value.prog|))
    decreases n
  {
    if n == 0 {
      assert c.pc < |c.prog| ==> SafeAt(c.prog, c.pc);
    } else if !c.Stuck() && Step(w, c).More? {
      StepKeepsChecked(w, c);
      RunKeepsToBoundaries(w, Step(w, c).c, n - 1);
    }
  }

  /** An accepted program that jumps into an LD_IMM_64, whose second word names register 11. */
  function IntoSecondWord(): Program {
    [ Insn(JMP_JA, 0, 1, 0), Insn(LD_IMM_64, 0, 0, 0), Insn(0, 0xbb, 0, 0), Insn(RET, 0, 0, 0) ]
  }

  lemma JumpIntoSecondWord(w: World)
    requires w.Sound()
    ensures Accepted(IntoSecondWord()) && !Aligned(IntoSecondWord())
    ensures Run(w, Start(IntoSecondWord(), State(seq(11, _ => 0), Zeros(STACK), 0, []))).r == Err(OutOfBounds)
  {
    var prog := IntoSecondWord();
    assert prog[3].code == RET;
    assert Boundary(prog, 1);
    SecondWordIsNoBoundary(prog, 1);
    forall i | 0 <= i < |prog| && Boundary(prog, i)
      ensures SafeAt(prog, i)
    {
      assert i == 0 || i == 1 || i == 3;
    }
    assert !JumpsToBoundary(prog, 0);
    var c := Start(prog, State(seq(11, _ => 0), Zeros(STACK), 0, []));
    var d := c.(pc := 2, count := 1);
    assert Step(w, c) == More(d);
    assert Step(w, d) == Done(Err(OutOfBounds), d.st);
    assert Run(w, c) == Run(w, d).After(1);
  }

  // ---------- stack accesses ----------

  /** The bytes a load or store instruction touches. */
  function SizeOf(code: nat): nat {
    if code == LDX_W || code == STX_W || code == ST_W then 4 else 8
  }

  lemma OffsetWithin(base: u64, off: i16)
    requires STACK <= base && -512 <= off <= 0
    ensures Offset(base, off) as int == base as int + off
  {
  }

  lemma AccessThroughR10(w: World, insn: Insn, pc: nat, st: State)
    requires w.Sound() && st.Shaped() && insn.Dst() < 11 && insn.Src() < 11 && MemoryOp(insn.code)
    requires BaseOf(insn) == 10 && -512 <= insn.off <= 0 && st.regs[10] == w.base
    ensures ExecMemory(w, insn, pc, st).Go? <==> insn.off + SizeOf(insn.code) <= 0
  {
    OffsetWithin(w.base, insn.off);
    assert Accessed(insn, st) == Access(w.base + insn.off, SizeOf(insn.code));
  }

  lemma MemoryOpExec(w: World, prog: Program, i: nat, st: State)
    requires w.Sound() && st.Shaped() && i < |prog| && SafeAt(prog, i) && MemoryOp(prog[i].code)
    ensures Exec(w, prog, i, st) == ExecMemory(w, prog[i], i, st)
  {
    MemoryOpClass(prog[i].code);
    assert CALL % 8 == 5 && RET % 8 == 5;
  }

  /** While R10 still points past the stack, an accepted load or store succeeds exactly when
      its offset leaves room for the access; the check also admits offsets that do not. */
  lemma StackAccessExact(w: World, prog: Program, i: nat, st: State)
    requires w.Sound() && st.Shaped() && Accepted(prog) && i < |prog| && Boundary(prog, i)
    requires MemoryOp(prog[i].code) && st.regs[10] == w.base
    ensures Exec(w, prog, i, st).Go? <==> prog[i].off + SizeOf(prog[i].code) <= 0
    ensures !Exec(w, prog, i, st).Go? ==> Exec(w, prog, i, st) == Fault(OutOfBounds)
  {
    assert SafeAt(prog, i);
    MemoryOpExec(w, prog, i, st);
    AccessThroughR10(w, prog[i], i, st);
  }

  /** An accepted program that stores eight bytes at R10 itself, just past the stack. */
  function StorePastStack(): Program {
    [ Insn(ST_DW, 10, 0, 0), Insn(RET, 0, 0, 0) ]
  }

  /** Its run fails at that store, even with R10 as `execute` sets it. */
  lemma StoreFails(w: World, st: State)
    requires w.Sound() && st.Shaped() && st.regs[10] == w.base
    ensures Accepted(StorePastStack()) && Aligned(StorePastStack()) && !Tame(StorePastStack())
    ensures Run(w, Start(StorePastStack(), st)).r == Err(OutOfBounds)
  {
    var prog := StorePastStack();
    assert prog[1].code == RET;
    forall i | 0 <= i < |prog| && Boundary(prog, i)
      ensures SafeAt(prog, i)
    {
      assert i == 0 || i == 1;
    }
    StackAccessExact(w, prog, 0, st);
    assert Step(w, Start(prog, st)) == Done(Err(OutOfBounds), st);
    assert MemoryOp(prog[0].code) && Boundary(prog, 0);
  }

  predicate WritesRegister(insn: Insn) {
    insn.Class() == 7 || insn.Class() == 1 || insn.code == LD_IMM_64
  }

  /** R10 is never a destination and every stack access leaves room. */
  ghost predicate Tame(prog: Program) {
    forall i | 0 <= i < |prog| && Boundary(prog, i) ::
      && (WritesRegister(prog[i]) ==> prog[i].Dst() != 10)
      && (MemoryOp(prog[i].code) ==> prog[i].off + SizeOf(prog[i].code) <= 0)
  }

  ghost predicate AllTame(w: World) {
    forall h | h in w.programs :: Tame(w.programs[h])
  }

  lemma TameStep(w: World, prog: Program, i: nat, st: State)
    requires w.Sound() && st.Shaped() && Checked(prog) && Tame(prog) && i < |prog| && Boundary(prog, i)
    requires st.regs[10] == w.base
    ensures var o := Exec(w, prog, i, st);
            && o != Fault(OutOfBounds)
            && (o.Go? || o.Tail? ==> o.st.regs[10] == w.base)
  {
    assert SafeAt(prog, i);
    if MemoryOp(prog[i].code) {
      StackAccessExact(w, prog, i, st);
    }
  }

  /** Programs that pass the check, keep R10 and leave room for their accesses never fail
      out of bounds, whatever the helpers answer and however they tail-call each other. */
  lemma {:induction false} TameRunsNeverOutOfBounds(w: World, c: Config)
    requires w.Sound() && AllChecked(w) && AllTame(w) && c.Shaped()
    requires Checked(c.prog) && Tame(c.prog) && OnBoundary(c.prog, c.pc) && c.st.regs[10] == w.base
    ensures Run(w, c).r != Err(OutOfBounds)
    decreases c.Budget()
  {
    if !c.Stuck() {
      TameStep(w, c.prog, c.pc, c.st);
      if Step(w, c).More? {
        StepKeepsChecked(w, c);
        TameRunsNeverOutOfBounds(w, Step(w, c).c);
      }
    }
  }

  lemma AccessThroughZero(w: World, insn: Insn, pc: nat, st: State)
    requires w.Sound() && st.Shaped() && insn.Dst() < 11 && insn.Src() < 11 && MemoryOp(insn.code)
    requires BaseOf(insn) == 10 && -512 <= insn.off <= 0 && st.regs[10] == 0
    requires STACK < w.base <= TWO64 - STACK
    ensures ExecMemory(w, insn, pc, st) == Fault(OutOfBounds)
  {
    var a := Accessed(insn, st);
    assert a.addr == if insn.off == 0 then 0 else TWO64 + insn.off;
    assert !InWindow(w.base, a);
  }

  /** A run started for a syscall has R10 at 0, so every accepted stack access fails. */
  lemma SyscallStackAccessFails(w: World, prog: Program, i: nat, st: State)
    requires w.Sound() && st.Shaped() && Accepted(prog) && i < |prog| && Boundary(prog, i)
    requires MemoryOp(prog[i].code) && st.regs[10] == 0
    requires STACK < w.base <= TWO64 - STACK
    ensures Exec(w, prog, i, st) == Fault(OutOfBounds)
  {
    assert SafeAt(prog, i);
    MemoryOpExec(w, prog, i, st);
    MemoryOpClass(prog[i].code);
    AccessThroughZero(w, prog[i], i, st);
  }
}
