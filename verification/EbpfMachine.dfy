/**
 The virtual machine object: registers and stack updated in place by the execution loop,
 which performs exactly the run specified in EbpfVm.
 */
module EbpfMachine {
  import opened Options
  import opened Bytes
  import opened Ebpf
  import opened EbpfVm

  /** What the loop does after one instruction. */
  datatype Action = Next(pc: nat) | Stop(r: Result) | Chain(handle: u64)

  ghost predicate Matches(a: Action, o: Outcome, now: State, was: State) {
    match a
    case Next(pc) => o == Go(pc, now)
    case Stop(Ok(v)) => o == Return(v) && now == was
    case Stop(Err(e)) => o == Fault(e) && now == was
    case Chain(h) => o == Tail(h, now)
  }

  predicate Follows(w: World, c: Config, d: Config)
    requires w.Sound()
  {
    c.Shaped() && !c.Stuck() && Step(w, c) == More(d)
  }

  predicate StepAt(w: World, t: seq<Config>, i: nat)
    requires w.Sound() && i + 1 < |t|
  {
    Follows(w, t[i], t[i + 1])
  }

  /** Consecutive configurations of one run. */
  ghost predicate IsTrace(w: World, t: seq<Config>)
    requires w.Sound()
  {
    && t != []
    && t[0].Shaped()
    && forall i {:trigger StepAt(w, t, i)} | 0 <= i < |t| - 1 :: StepAt(w, t, i)
  }

  lemma ExtendTrace(w: World, t: seq<Config>, d: Config)
    requires w.Sound() && IsTrace(w, t) && Follows(w, t[|t| - 1], d)
    ensures IsTrace(w, t + [d])
  {
    var u := t + [d];
    forall i | 0 <= i < |u| - 1
      ensures StepAt(w, u, i)
    {
      if i < |t| - 1 {
        assert StepAt(w, t, i);
      }
    }
  }

  lemma {:induction false} TraceRun(w: World, t: seq<Config>)
    requires w.Sound() && IsTrace(w, t)
    ensures t[|t| - 1].Shaped()
    ensures Run(w, t[0]) == Run(w, t[|t| - 1]).After(|t| - 1)
  {
    if |t| > 1 {
      var u := t[1..];
      assert StepAt(w, t, 0);
      assert IsTrace(w, u) by {
        forall i | 0 <= i < |u| - 1
          ensures StepAt(w, u, i)
        {
          assert StepAt(w, t, i + 1);
        }
      }
      TraceRun(w, u);
    }
  }

  /** The traced run ends with this result, in this state. */
  ghost predicate Ends(w: World, t: seq<Config>, r: Result, now: State)
    requires w.Sound() && IsTrace(w, t)
  {
    exists n: nat :: n <= |t| && Run(w, t[0]) == Ran(r, now, n)
  }

  lemma EndsStuck(w: World, t: seq<Config>)
    requires w.Sound() && IsTrace(w, t) && t[|t| - 1].Stuck()
    ensures Ends(w, t, Err(ExecutionError), t[|t| - 1].st)
  {
    TraceRun(w, t);
  }

  lemma EndsDone(w: World, t: seq<Config>, r: Result, now: State)
    requires w.Sound() && IsTrace(w, t) && t[|t| - 1].Shaped() && !t[|t| - 1].Stuck()
    requires Step(w, t[|t| - 1]) == Done(r, now)
    ensures Ends(w, t, r, now)
  {
    TraceRun(w, t);
    assert Run(w, t[0]) == Ran(r, now, |t|);
  }

  class BpfVm {
    const registers: array<u64>
    const stack: array<u8>
    const stackBase: u64
    /** Helper calls answered so far. */
    var calls: nat
    ghost var accesses: seq<Access>

    /** `base` is where the stack ends in memory. */
    constructor (base: u64)
      ensures Valid() && fresh(registers) && fresh(stack) && stackBase == base
      ensures Abs() == State(seq(11, _ => 0)[10 := base], Zeros(STACK), 0, [])
    {
      registers := new u64[11](_ => 0);
      stack := new u8[STACK](_ => 0);
      stackBase := base;
      calls := 0;
      accesses := [];
      new;
      registers[10] := base;
      assert registers[..] == seq(11, _ => 0)[10 := base];
      assert stack[..] == Zeros(STACK);
    }

    ghost predicate Valid() {
      registers.Length == 11 && stack.Length == STACK
    }

    ghost function Abs(): (st: State)
      requires Valid()
      reads this, registers, stack
      ensures st.Shaped()
    {
      State(registers[..], stack[..], calls, accesses)
    }

    method SetRegister(r: nat, v: u64)
      requires Valid() && r < 11
      modifies registers
      ensures Abs() == old(Abs()).Set(r, v)
    {
      registers[r] := v;
    }

    /** Writes bytes at an address the access check has admitted. */
    method StoreBytes(addr: u64, bytes: seq<u8>)
      requires Valid() && STACK <= stackBase && InWindow(stackBase, Access(addr, |bytes|))
      modifies this`accesses, stack
      ensures Abs() == old(Abs()).Log(Access(addr, |bytes|)).(stack := Store(stackBase, old(stack[..]), addr, bytes))
    {
      var at := addr - (stackBase - STACK);
      forall i | 0 <= i < |bytes| {
        stack[at + i] := bytes[i];
      }
      accesses := accesses + [Access(addr, |bytes|)];
      assert stack[..] == Splice(old(stack[..]), at, bytes);
    }

    method LoadOrStore(w: World, insn: Insn, ghost pc: nat) returns (ok: bool)
      requires Valid() && w.Sound() && w.base == stackBase
      requires insn.Dst() < 11 && insn.Src() < 11 && MemoryOp(insn.code)
      modifies this`accesses, registers, stack
      ensures ok <==> ExecMemory(w, insn, pc, old(Abs())).Go?
      ensures Abs() == if ok then ExecMemory(w, insn, pc, old(Abs())).st else old(Abs())
    {
      var size := if insn.code == LDX_W || insn.code == STX_W || insn.code == ST_W then 4 else 8;
      var through := if insn.Class() == 1 then insn.Src() else insn.Dst();
      var addr := Offset(registers[through], insn.off);
      ok := IsStackPtr(stackBase, addr, size);
      if !ok {
        return;
      }
      if insn.Class() == 1 {
        var v := Load(stackBase, stack[..], addr, size);
        accesses := accesses + [Access(addr, size)];
        SetRegister(insn.Dst(), v);
      } else {
        var v := if insn.Class() == 3 then registers[insn.Src()] else Wrap(insn.imm);
        var bytes := if size == 4 then ToLe32(v) else ToLe64(v);
        StoreBytes(addr, bytes);
      }
    }

    method Copy(to: u64, from: u64, size: nat)
      requires Valid() && STACK <= stackBase
      requires InWindow(stackBase, Access(to, size)) && InWindow(stackBase, Access(from, size))
      modifies this`accesses, stack
      ensures var at := from - (stackBase - STACK);
              Abs() == old(Abs()).Log(Access(from, size)).Log(Access(to, size))
                       .(stack := Store(stackBase, old(stack[..]), to, old(stack[..])[at..at + size]))
    {
      var at := from - (stackBase - STACK);
      var bytes := stack[at..at + size];
      accesses := accesses + [Access(from, size)];
      StoreBytes(to, bytes);
    }

    method DoProbeRead(w: World)
      requires Valid() && w.Sound() && w.base == stackBase
      modifies this`accesses, stack
      ensures Abs() == ProbeRead(w, old(Abs()))
    {
      var size := if registers[2] < STACK then registers[2] else STACK;
      var to, from := registers[1], registers[3];
      if IsStackPtr(stackBase, to, size) && IsStackPtr(stackBase, from, size) {
        Copy(to, from, size);
      }
    }

    /** A helper call: the value for R0, a tail call, or a failure. */
    method CallHelper(w: World, insn: Insn, ghost pc: nat) returns (o: Answer)
      requires Valid() && w.Sound() && w.base == stackBase
      modifies this, stack
      ensures var e := ExecCall(w, insn, pc, old(Abs()));
              match o
              case Value(v, _) => e.Go? && e.st == Abs().Set(0, v)
              case TailCall(h) => e == Tail(h, Abs())
              case Failed => e == Fault(ExecutionError) && Abs() == old(Abs())
    {
      if insn.imm == PROBE_READ {
        DoProbeRead(w);
        return Value(0, []);
      }
      if insn.imm < 1 || insn.imm > 10 || calls >= |w.answers| {
        return Failed;
      }
      o := w.answers[calls];
      match o
      case Value(v, bytes) =>
        forall i | 0 <= i < STACK {
          stack[i] := bytes[i];
        }
        calls := calls + 1;
        assert stack[..] == bytes;
        assert Abs().Set(0, v) == old(Abs()).Set(0, v).(stack := bytes, calls := calls);
      case TailCall(h) =>
        if insn.imm == TAIL_CALL {
          calls := calls + 1;
        } else {
          o := Failed;
        }
      case Failed =>
    }

    /** The arithmetic and jump instructions, and everything that is not an instruction. */
    method Compute(insn: Insn, pc: nat) returns (next: Option<nat>)
      requires Valid() && insn.Dst() < 11 && insn.Src() < 11
      modifies registers
      ensures var e := if insn.Class() == 7 then ExecAlu(insn, pc, old(Abs()))
                       else if insn.Class() == 5 then ExecJump(insn, pc, old(Abs())) else Fault(ExecutionError);
              match next
              case Some(n) => e == Go(n, Abs())
              case None => e == Fault(ExecutionError) && Abs() == old(Abs())
    {
      var byReg := insn.code / 8 % 2 == 1;
      var op := if byReg then insn.code - X else insn.code;
      var x := registers[insn.Dst()];
      var y := if byReg then registers[insn.Src()] else Wrap(insn.imm);
      if insn.Class() == 7 {
        var r := Alu(op, x, y);
        if r.None? {
          return None;
        }
        SetRegister(insn.Dst(), r.value);
        return Some(pc + 1);
      }
      if insn.Class() != 5 || (byReg && op == JMP_JA) {
        return None;
      }
      match Taken(op, x, y)
      case None =>
        return None;
      case Some(taken) =>
        return Some(if taken then JumpTo(pc, insn.off) else pc + 1);
    }

    method Call(w: World, insn: Insn, pc: nat) returns (o: Action)
      requires Valid() && w.Sound() && w.base == stackBase
      modifies this, registers, stack
      ensures Matches(o, ExecCall(w, insn, pc, old(Abs())), Abs(), old(Abs()))
    {
      var a := CallHelper(w, insn, pc);
      match a
      case Value(v, _) =>
        SetRegister(0, v);
        return Next(pc + 1);
      case TailCall(h) =>
        return Chain(h);
      case Failed =>
        return Stop(Err(ExecutionError));
    }

    /** One instruction: the next pc, a result, or a tail call. */
    method ExecuteOne(w: World, prog: Program, pc: nat) returns (o: Action)
      requires Valid() && w.Sound() && w.base == stackBase && pc < |prog|
      modifies this, registers, stack
      ensures Matches(o, Exec(w, prog, pc, old(Abs())), Abs(), old(Abs()))
    {
      var insn := prog[pc];
      if insn.Dst() >= 11 || insn.Src() >= 11 {
        return Stop(Err(OutOfBounds));
      }
      if insn.code == LD_IMM_64 {
        if pc + 1 >= |prog| {
          return Stop(Err(ExecutionError));
        }
        var v := insn.imm % TWO32 + TWO32 * (prog[pc + 1].imm % TWO32);
        SetRegister(insn.Dst(), v);
        assert Exec(w, prog, pc, old(Abs())) == Go(pc + 2, Abs());
        return Next(pc + 2);
      }
      if insn.code == CALL {
        o := Call(w, insn, pc);
        return;
      }
      if insn.code == RET {
        return Stop(Ok(registers[0]));
      }
      if MemoryOp(insn.code) {
        MemoryOpClass(insn.code);
        var ok := LoadOrStore(w, insn, pc);
        return if ok then Next(pc + 1) else Stop(Err(OutOfBounds));
      }
      var next := Compute(insn, pc);
      return if next.Some? then Next(next.value) else Stop(Err(ExecutionError));
    }

    /** One instruction of the run traced so far: the run ends, or the trace grows. */
    method StepOnce(w: World, prog: Program, pc: nat, count: nat, tails: nat, ghost t: seq<Config>)
      returns (o: Action, ghost u: seq<Config>)
      requires Valid() && w.Sound() && w.base == stackBase && pc < |prog|
      requires count < MAX_INSTRUCTIONS && tails <= MAX_TAIL_CALLS
      requires IsTrace(w, t) && t[|t| - 1] == Config(prog, pc, Abs(), count, tails)
      modifies this, registers, stack
      ensures t <= u && IsTrace(w, u)
      ensures match o
              case Next(n) => u[|u| - 1] == Config(prog, n, Abs(), count + 1, tails)
              case Stop(r) => Ends(w, t, r, Abs())
              case Chain(h) =>
                && h in w.programs
                && if tails < MAX_TAIL_CALLS then u[|u| - 1] == Config(w.programs[h], 0, Abs(), 0, tails + 1)
                   else Ends(w, t, Err(ExecutionError), Abs())
    {
      o := ExecuteOne(w, prog, pc);
      u := t;
      match o
      case Next(n) =>
        u := t + [Config(prog, n, Abs(), count + 1, tails)];
        ExtendTrace(w, t, u[|t|]);
      case Stop(r) =>
        EndsDone(w, t, r, Abs());
      case Chain(h) =>
        if tails < MAX_TAIL_CALLS {
          u := t + [Config(w.programs[h], 0, Abs(), 0, tails + 1)];
          ExtendTrace(w, t, u[|t|]);
        } else {
          EndsDone(w, t, Err(ExecutionError), Abs());
        }
    }

    /** The two nested loops; the trace records the configurations they pass through. */
    method Loop(w: World, program: Program) returns (r: Result, ghost t: seq<Config>)
      requires Valid() && w.Sound() && w.base == stackBase
      modifies this, registers, stack
      ensures IsTrace(w, t) && t[0] == Start(program, old(Abs())) && Ends(w, t, r, Abs())
    {
      var prog := program;
      var tailCalls := 0;
      t := [Start(program, Abs())];
      label exec:
      while true
        invariant tailCalls <= MAX_TAIL_CALLS
        invariant IsTrace(w, t) && t[0] == Start(program, old(Abs()))
        invariant t[|t| - 1] == Config(prog, 0, Abs(), 0, tailCalls)
        decreases MAX_TAIL_CALLS - tailCalls
      {
        var pc: nat := 0;
        var count := 0;
        while pc < |prog|
          invariant count <= MAX_INSTRUCTIONS
          invariant IsTrace(w, t) && t[0] == Start(program, old(Abs()))
          invariant t[|t| - 1] == Config(prog, pc, Abs(), count, tailCalls)
          decreases MAX_INSTRUCTIONS - count
        {
          count := count + 1;
          if count > MAX_INSTRUCTIONS {
            EndsStuck(w, t);
            return Err(ExecutionError), t;
          }
          var o;
          o, t := StepOnce(w, prog, pc, count - 1, tailCalls, t);
          match o
          case Next(n) =>
            pc := n;
          case Stop(result) =>
            return result, t;
          case Chain(h) =>
            tailCalls := tailCalls + 1;
            if tailCalls > MAX_TAIL_CALLS {
              return Err(ExecutionError), t;
            }
            prog := w.programs[h];
            continue exec;
        }
        EndsStuck(w, t);
        return Err(ExecutionError), t;
      }
    }

    /** Performs the specified run: its result, and the registers and stack it leaves. */
    method Execute(w: World, program: Program) returns (r: Result)
      requires Valid() && w.Sound() && w.base == stackBase
      modifies this, registers, stack
      ensures var ran := Run(w, Start(program, old(Abs())));
              r == ran.r && Abs() == ran.st && ran.executed <= 33 * 1_000_000
      ensures old(AllInWindow(stackBase, accesses)) ==> AllInWindow(stackBase, accesses)
    {
      ghost var t;
      r, t := Loop(w, program);
      ExecutionBounded(w, program, old(Abs()));
      if old(AllInWindow(stackBase, accesses)) {
        RunStaysInWindow(w, t[0]);
      }
    }

    method SetContext(number: u64, args: seq<u64>, retval: u64)
      requires Valid() && |args| == 6
      modifies registers
      ensures registers[..] == [0, number] + args + [retval, old(registers[9]), 0]
    {
      var regs := [0, number] + args + [retval, registers[9], 0];
      forall i | 0 <= i < 11 {
        registers[i] := regs[i];
      }
    }

    /** Registers for a traced syscall: its number, arguments and result, and 0 for the rest
        except R9, which keeps its value. */
    method ExecuteWithSyscallContext(w: World, program: Program, number: u64, args: seq<u64>, retval: u64)
      returns (r: Result)
      requires Valid() && w.Sound() && w.base == stackBase && |args| == 6
      modifies this, registers, stack
      ensures var regs := [0, number] + args + [retval, old(registers[9]), 0];
              var ran := Run(w, Start(program, old(Abs()).(regs := regs)));
              r == ran.r && Abs() == ran.st
    {
      SetContext(number, args, retval);
      assert Abs() == old(Abs()).(regs := [0, number] + args + [retval, old(registers[9]), 0]);
      r := Execute(w, program);
    }
  }
}
