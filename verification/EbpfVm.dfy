/**
 The eBPF interpreter: one instruction, whole runs with tail calls, and the
 loop that performs them.

 Helpers that look outside the machine (maps, clock, process, trace) answer
 arbitrarily: `World.answers` lists their results in call order. PROBE_READ is
 modelled, and a tail-call handle is a key of the program table.
 */
module EbpfVm {
  import opened Options
  import opened Bytes
  import opened Ebpf

  const MAX_INSTRUCTIONS: nat := 1_000_000
  const MAX_TAIL_CALLS: nat := 32
  const STACK: nat := 512

  datatype Answer = Value(v: u64, stack: seq<u8>) | TailCall(handle: u64) | Failed

  /** What surrounds a run: where the stack ends in memory, the helpers' answers, the loaded programs. */
  datatype World = World(base: u64, answers: seq<Answer>, programs: map<u64, Program>) {
    ghost predicate Sound() {
      && STACK <= base < TWO64 - 1
      && (forall i | 0 <= i < |answers| :: answers[i].Value? ==> |answers[i].stack| == STACK)
      && (forall i | 0 <= i < |answers| :: answers[i].TailCall? ==> answers[i].handle in programs)
    }
  }

  /** A range of memory that an instruction or PROBE_READ has accessed. */
  datatype Access = Access(addr: u64, size: nat)

  datatype State = State(regs: seq<u64>, stack: seq<u8>, calls: nat, accesses: seq<Access>) {
    predicate Shaped() {
      |regs| == 11 && |stack| == STACK
    }

    function Set(r: nat, v: u64): State
      requires r < |regs|
    {
      this.(regs := regs[r := v])
    }

    function Log(a: Access): State {
      this.(accesses := accesses + [a])
    }
  }

  datatype Error = ExecutionError | OutOfBounds
  datatype Outcome = Go(pc: nat, st: State) | Return(v: u64) | Fault(error: Error) | Tail(handle: u64, st: State)

  // ---------- the stack window ----------

  function StackStart(base: u64): nat {
    if base >= STACK then base - STACK else 0
  }

  /** The run-time check, with its saturating addition. */
  predicate IsStackPtr(base: u64, addr: u64, size: nat) {
    var end := if addr as nat + size >= TWO64 then TWO64 - 1 else addr as nat + size;
    addr >= StackStart(base) && !(end < addr) && end <= base
  }

  predicate InWindow(base: u64, a: Access) {
    base as int - STACK <= a.addr && a.addr as nat + a.size <= base
  }

  /** The check accepts exactly the ranges inside the window if and only if the
      window ends below the last address: there the addition saturates unnoticed. */
  lemma StackCheckExact(base: u64)
    requires STACK <= base
    ensures (forall a: Access :: IsStackPtr(base, a.addr, a.size) <==> InWindow(base, a)) <==> base < TWO64 - 1
  {
    if base == TWO64 - 1 {
      var a := Access(TWO64 - 1, 1);
      assert IsStackPtr(base, a.addr, a.size) && !InWindow(base, a);
    }
  }

  function Load(base: u64, stack: seq<u8>, addr: u64, size: nat): (v: u64)
    requires |stack| == STACK && InWindow(base, Access(addr, size)) && STACK <= base && (size == 4 || size == 8)
  {
    var at := addr - (base - STACK);
    Le32Bound(stack, at);
    if size == 4 then Le32(stack, at) else Le64(stack, at)
  }

  function Store(base: u64, stack: seq<u8>, addr: u64, bytes: seq<u8>): (r: seq<u8>)
    requires |stack| == STACK && InWindow(base, Access(addr, |bytes|)) && STACK <= base
    ensures |r| == STACK
  {
    Splice(stack, addr - (base - STACK), bytes)
  }

  /** What a store leaves, a load of the same width reads back; other bytes are untouched. */
  lemma StoreThenLoad(base: u64, stack: seq<u8>, addr: u64, size: nat, v: u64)
    requires |stack| == STACK && STACK <= base && InWindow(base, Access(addr, size)) && (size == 4 || size == 8)
    ensures var bytes := if size == 4 then ToLe32(v) else ToLe64(v);
            var after := Store(base, stack, addr, bytes);
            && Load(base, after, addr, size) == (if size == 4 then v % TWO32 else v)
            && forall b: u64 | InWindow(base, Access(b, 1)) && !(addr <= b < addr as nat + size) ::
                 after[b - (base - STACK)] == stack[b - (base - STACK)]
  {
    var at := addr - (base - STACK);
    if size == 4 {
      Le32Splice(stack, at, ToLe32(v), at);
    } else {
      Le64Splice(stack, at, v);
    }
  }

  // ---------- one instruction ----------

  function Offset(v: u64, off: i16): u64 {
    (v as int + off) % TWO64
  }

  /** Jumps go through pc + off, as an unsigned word, and then past it. */
  function JumpTo(pc: nat, off: i16): nat {
    (pc + off + 1) % TWO64
  }

  function ExecAlu(insn: Insn, pc: nat, st: State): (o: Outcome)
    requires st.Shaped() && insn.Dst() < 11 && insn.Src() < 11
    ensures o.Go? ==> o.pc == pc + 1 && o.st.Shaped() && o.st.accesses == st.accesses
    ensures o.Go? && insn.Dst() != 10 ==> o.st.regs[10] == st.regs[10]
    ensures !o.Tail?
  {
    var byReg := insn.code / 8 % 2 == 1;
    var op := if byReg then insn.code - X else insn.code;
    var r := Alu(op, st.regs[insn.Dst()], if byReg then st.regs[insn.Src()] else Wrap(insn.imm));
    if r.None? then Fault(ExecutionError) else Go(pc + 1, st.Set(insn.Dst(), r.value))
  }

  function ExecJump(insn: Insn, pc: nat, st: State): (o: Outcome)
    requires st.Shaped() && insn.Dst() < 11 && insn.Src() < 11
    ensures o.Go? ==> o.st == st && (o.pc == pc + 1 || o.pc == JumpTo(pc, insn.off))
    ensures !o.Tail?
  {
    var byReg := insn.code / 8 % 2 == 1;
    var op := if byReg then insn.code - X else insn.code;
    var t := if byReg && op == JMP_JA then None
             else Taken(op, st.regs[insn.Dst()], if byReg then st.regs[insn.Src()] else Wrap(insn.imm));
    if t.None? then Fault(ExecutionError)
    else Go(if t.value then JumpTo(pc, insn.off) else pc + 1, st)
  }

  /** The register a memory instruction addresses through, and the bytes it covers. */
  function Accessed(insn: Insn, st: State): Access
    requires st.Shaped() && insn.Dst() < 11 && insn.Src() < 11
  {
    var r := if insn.Class() == 1 then insn.Src() else insn.Dst();
    var size := if insn.code == LDX_W || insn.code == STX_W || insn.code == ST_W then 4 else 8;
    Access(Offset(st.regs[r], insn.off), size)
  }

  predicate MemoryOp(code: nat) {
    code == LDX_W || code == LDX_DW || code == STX_W || code == STX_DW || code == ST_W || code == ST_DW
  }

  lemma MemoryOpClass(code: nat)
    requires MemoryOp(code)
    ensures 1 <= code % 8 <= 3 && code != LD_IMM_64
  {
  }

  function ExecMemory(w: World, insn: Insn, pc: nat, st: State): (o: Outcome)
    requires w.Sound() && st.Shaped() && insn.Dst() < 11 && insn.Src() < 11 && MemoryOp(insn.code)
    ensures o.Go? <==> InWindow(w.base, Accessed(insn, st))
    ensures o.Go? ==> o.pc == pc + 1 && o.st.Shaped() && o.st.accesses == st.accesses + [Accessed(insn, st)]
    ensures o.Go? && (insn.Class() != 1 || insn.Dst() != 10) ==> o.st.regs[10] == st.regs[10]
    ensures !o.Go? ==> o == Fault(OutOfBounds)
  {
    var a := Accessed(insn, st);
    if !IsStackPtr(w.base, a.addr, a.size) then Fault(OutOfBounds)
    else if insn.Class() == 1 then
      Go(pc + 1, st.Log(a).Set(insn.Dst(), Load(w.base, st.stack, a.addr, a.size)))
    else
      var v := if insn.Class() == 3 then st.regs[insn.Src()] else Wrap(insn.imm);
      var bytes := if a.size == 4 then ToLe32(v) else ToLe64(v);
      Go(pc + 1, st.Log(a).(stack := Store(w.base, st.stack, a.addr, bytes)))
  }

  /** PROBE_READ copies inside the stack window, or does nothing. */
  function ProbeRead(w: World, st: State): (r: State)
    requires w.Sound() && st.Shaped()
    ensures r.Shaped() && r.regs == st.regs
    ensures forall i | 0 <= i < |r.accesses| :: r.accesses[i] in st.accesses || InWindow(w.base, r.accesses[i])
  {
    var size := if st.regs[2] < STACK then st.regs[2] else STACK;
    var to, from := Access(st.regs[1], size), Access(st.regs[3], size);
    if IsStackPtr(w.base, to.addr, size) && IsStackPtr(w.base, from.addr, size) then
      var at := from.addr - (w.base - STACK);
      st.Log(from).Log(to).(stack := Store(w.base, st.stack, to.addr, st.stack[at..at + size]))
    else st
  }

  /** The stack bytes at a place in the window. */
  function StackBytes(base: u64, stack: seq<u8>, a: Access): seq<u8>
    requires |stack| == STACK && STACK <= base && InWindow(base, a)
  {
    var at := a.addr - (base - STACK);
    stack[at..at + a.size]
  }

  /** The bytes at R3 are copied to R1, R2 of them but at most a stack's worth, if both ranges
      are in the window; nothing else changes. */
  lemma ProbeReadExact(w: World, st: State)
    requires w.Sound() && st.Shaped()
    ensures var size := if st.regs[2] < STACK then st.regs[2] else STACK;
            var to, from := Access(st.regs[1], size), Access(st.regs[3], size);
            var r := ProbeRead(w, st);
            if InWindow(w.base, to) && InWindow(w.base, from) then
              && StackBytes(w.base, r.stack, to) == StackBytes(w.base, st.stack, from)
              && (forall b: u64 | InWindow(w.base, Access(b, 1)) && !(to.addr <= b < to.addr as nat + size) ::
                    r.stack[b - (w.base - STACK)] == st.stack[b - (w.base - STACK)])
              && r == st.(stack := r.stack, accesses := st.accesses + [from, to])
            else r == st
  {
    var size := if st.regs[2] < STACK then st.regs[2] else STACK;
    var to, from := Access(st.regs[1], size), Access(st.regs[3], size);
    if InWindow(w.base, to) && InWindow(w.base, from) {
      assert st.accesses + [from] + [to] == st.accesses + [from, to];
    }
  }

  function ExecCall(w: World, insn: Insn, pc: nat, st: State): (o: Outcome)
    requires w.Sound() && st.Shaped()
    ensures o.Go? ==> o.pc == pc + 1 && o.st.Shaped() && o.st.regs[10] == st.regs[10]
    ensures o.Go? ==> forall i | 0 <= i < |o.st.accesses| ::
            o.st.accesses[i] in st.accesses || InWindow(w.base, o.st.accesses[i])
    ensures o.Tail? ==> o.st.Shaped() && o.handle in w.programs && o.st.accesses == st.accesses
    ensures o.Fault? ==> o.error == ExecutionError
  {
    if insn.imm == PROBE_READ then Go(pc + 1, ProbeRead(w, st).Set(0, 0))
    else if insn.imm < 1 || insn.imm > 10 || st.calls >= |w.answers| then Fault(ExecutionError)
    else
      match w.answers[st.calls]
      case Value(v, stack) => Go(pc + 1, st.Set(0, v).(stack := stack, calls := st.calls + 1))
      case TailCall(h) =>
        if insn.imm == TAIL_CALL then Tail(h, st.(calls := st.calls + 1)) else Fault(ExecutionError)
      case Failed => Fault(ExecutionError)
  }

  function Exec(w: World, prog: Program, pc: nat, st: State): (o: Outcome)
    requires w.Sound() && st.Shaped() && pc < |prog|
    ensures o.Go? || o.Tail? ==> o.st.Shaped()
    ensures o.Go? || o.Tail? ==> forall i | 0 <= i < |o.st.accesses| ::
            o.st.accesses[i] in st.accesses || InWindow(w.base, o.st.accesses[i])
    ensures o.Tail? ==> o.handle in w.programs
  {
    var insn := prog[pc];
    if insn.Dst() >= 11 || insn.Src() >= 11 then Fault(OutOfBounds)
    else if insn.code == LD_IMM_64 then
      if pc + 1 >= |prog| then Fault(ExecutionError)
      else Go(pc + 2, st.Set(insn.Dst(), insn.imm % TWO32 + TWO32 * (prog[pc + 1].imm % TWO32)))
    else if insn.Class() == 7 then ExecAlu(insn, pc, st)
    else if insn.code == CALL then ExecCall(w, insn, pc, st)
    else if insn.code == RET then Return(st.regs[0])
    else if insn.Class() == 5 then ExecJump(insn, pc, st)
    else if MemoryOp(insn.code) then ExecMemory(w, insn, pc, st)
    else Fault(ExecutionError)
  }

  // ---------- whole runs ----------

  datatype Result = Ok(v: u64) | Err(error: Error)

  /** A run in progress: the current program, its instruction count, the tail calls so far. */
  datatype Config = Config(prog: Program, pc: nat, st: State, count: nat, tails: nat) {
    predicate Shaped() {
      st.Shaped() && count <= MAX_INSTRUCTIONS && tails <= MAX_TAIL_CALLS
    }

    /** The instructions this run may still execute. */
    function Budget(): int {
      (MAX_TAIL_CALLS - tails + 1) * MAX_INSTRUCTIONS - count
    }

    predicate Stuck() {
      pc >= |prog| || count >= MAX_INSTRUCTIONS
    }
  }

  datatype Progress = More(c: Config) | Done(r: Result, st: State)

  function Start(prog: Program, st: State): Config {
    Config(prog, 0, st, 0, 0)
  }

  /** One instruction of a run, with the instruction and tail-call limits. */
  function Step(w: World, c: Config): (p: Progress)
    requires w.Sound() && c.Shaped() && !c.Stuck()
    ensures p.More? ==> p.c.Shaped() && 0 <= p.c.Budget() < c.Budget()
    ensures p.Done? ==> p.st.Shaped() && p.st.accesses == c.st.accesses
  {
    match Exec(w, c.prog, c.pc, c.st)
    case Go(pc, st) => More(c.(pc := pc, st := st, count := c.count + 1))
    case Return(v) => Done(Ok(v), c.st)
    case Fault(e) => Done(Err(e), c.st)
    case Tail(h, st) =>
      if c.tails >= MAX_TAIL_CALLS then Done(Err(ExecutionError), st)
      else More(Config(w.programs[h], 0, st, 0, c.tails + 1))
  }

  /** How a run ends: its result, the machine it leaves, and the instructions it executed. */
  datatype Ran = Ran(r: Result, st: State, executed: nat) {
    function After(n: nat): Ran {
      this.(executed := executed + n)
    }
  }

  ghost function Run(w: World, c: Config): (r: Ran)
    requires w.Sound() && c.Shaped()
    ensures r.st.Shaped()
    decreases c.Budget()
  {
    if c.Stuck() then Ran(Err(ExecutionError), c.st, 0)
    else
      match Step(w, c)
      case More(d) => Run(w, d).After(1)
      case Done(r, st) => Ran(r, st, 1)
  }

  /** Whatever the program, the registers and the helpers, a run stops within its budget. */
  lemma {:induction false} RunWithinBudget(w: World, c: Config)
    requires w.Sound() && c.Shaped()
    ensures Run(w, c).executed <= c.Budget()
    decreases c.Budget()
  {
    if !c.Stuck() && Step(w, c).More? {
      RunWithinBudget(w, Step(w, c).c);
    }
  }

  /** 33 programs of a million instructions. */
  lemma ExecutionBounded(w: World, prog: Program, st: State)
    requires w.Sound() && st.Shaped()
    ensures Run(w, Start(prog, st)).executed <= 33 * 1_000_000
  {
    RunWithinBudget(w, Start(prog, st));
  }

  ghost predicate AllInWindow(base: u64, accesses: seq<Access>) {
    forall i | 0 <= i < |accesses| :: InWindow(base, accesses[i])
  }

  /** Whatever the program and the registers, R10 included, every load, store and
      PROBE_READ stays inside the stack window. */
  lemma {:induction false} RunStaysInWindow(w: World, c: Config)
    requires w.Sound() && c.Shaped() && AllInWindow(w.base, c.st.accesses)
    ensures AllInWindow(w.base, Run(w, c).st.accesses)
    decreases c.Budget()
  {
    if !c.Stuck() && Step(w, c).More? {
      var d := Step(w, c).c;
      forall i | 0 <= i < |d.st.accesses|
        ensures InWindow(w.base, d.st.accesses[i])
      {
      }
      RunStaysInWindow(w, d);
    }
  }

  /** The configuration after `n` instructions, if the run gets that far. */
  ghost function Reached(w: World, c: Config, n: nat): (r: Option<Config>)
    requires w.Sound() && c.Shaped()
    ensures r.Some? ==> r.value.Shaped()
    decreases n
  {
    if n == 0 then Some(c)
    else if c.Stuck() then None
    else
      match Step(w, c)
      case More(d) => Reached(w, d, n - 1)
      case Done(_, _) => None
  }
}
