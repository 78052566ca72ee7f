/**
 What the arithmetic, jump and memory instructions compute, apart from their definitions: each operator
 by its laws, and small programs by what they return.
 */
module EbpfLaws {
  import opened Options
  import opened Bytes
  import opened Ebpf
  import opened EbpfVm

  // ---------- division with remainder ----------

  lemma MultipleBounds(z: int, y: nat)
    ensures z >= 1 ==> z * y >= y
    ensures z <= -1 ==> z * y <= 0 - y
  {
    if z >= 1 {
      assert (z - 1) * y >= 0;
    } else if z <= -1 {
      assert (-1 - z) * y >= 0;
    }
  }

  lemma SameQuotient(y: nat, p: int, s: int, q: int, r: int)
    requires y * p + s == y * q + r && 0 <= s < y && 0 <= r < y
    ensures p == q && s == r
  {
    assert (p - q) * y == y * p - y * q;
    MultipleBounds(p - q, y);
  }

  lemma QuotientIs(x: nat, y: nat, q: nat, r: nat)
    requires y > 0 && x == y * q + r && r < y
    ensures x / y == q && x % y == r
  {
    SameQuotient(y, x / y, x % y, q, r);
  }

  lemma ModAdd(n: nat, x: nat, m: nat)
    requires m > 0
    ensures (n + x) % m == (n % m + x) % m
  {
    SumOfQuotients(n, x, m, n / m, n % m, (n % m + x) / m, (n % m + x) % m);
  }

  lemma SumOfQuotients(n: nat, x: nat, m: nat, k: nat, r: nat, h: nat, s: nat)
    requires m > 0 && n == m * k + r && r + x == m * h + s && s < m
    ensures (n + x) % m == s
  {
    assert m * (k + h) == m * k + m * h;
    QuotientIs(n + x, m, k + h, s);
  }

  lemma HalfQuotient(x: nat, p: nat)
    requires p > 0
    ensures x / (2 * p) == x / p / 2
  {
    var q, r := x / p, x % p;
    var h, t := q / 2, q % 2;
    assert x == p * q + r && q == 2 * h + t;
    assert p * (2 * h + t) == 2 * p * h + p * t;
    assert p * t <= p;
    QuotientIs(x, 2 * p, h, p * t + r);
  }

  // ---------- the operators ----------

  function Successor(x: u64): u64 {
    if x == TWO64 - 1 then 0 else x + 1
  }

  /** Addition, counted out: from the unit by successors, and in either order. */
  lemma AddLaws(x: u64, y: u64)
    ensures Alu(ALU_ADD, x, 0) == Some(x)
    ensures Alu(ALU_ADD, x, y).Some? && Alu(ALU_ADD, x, y) == Alu(ALU_ADD, y, x)
    ensures y < TWO64 - 1 ==> Alu(ALU_ADD, x, y + 1) == Some(Successor(Alu(ALU_ADD, x, y).value))
  {
  }

  /** Subtraction takes an addition back, and an addition a subtraction. */
  lemma SubLaws(x: u64, y: u64)
    ensures Alu(ALU_ADD, x, y).Some? && Alu(ALU_SUB, Alu(ALU_ADD, x, y).value, y) == Some(x)
    ensures Alu(ALU_SUB, x, y).Some? && Alu(ALU_ADD, Alu(ALU_SUB, x, y).value, y) == Some(x)
  {
  }

  /** Multiplication is repeated addition. */
  lemma MulLaws(x: u64, y: u64)
    ensures Alu(ALU_MUL, x, 0) == Some(0) && Alu(ALU_MUL, x, y).Some?
    ensures y < TWO64 - 1 ==> Alu(ALU_MUL, x, y + 1) == Alu(ALU_ADD, Alu(ALU_MUL, x, y).value, x)
  {
    ModAdd(x as nat * y as nat, x, TWO64);
    assert x as nat * (y as nat + 1) == x as nat * y as nat + x as nat;
  }

  /** Division leaves less than the divisor, and fails exactly for zero. */
  lemma DivLaws(x: u64, y: u64)
    ensures Alu(ALU_DIV, x, y).None? <==> y == 0
    ensures y > 0 ==> var q := Alu(ALU_DIV, x, y).value as nat; q * y as nat <= x as nat < q * y as nat + y as nat
  {
    if y > 0 {
      var q, r := x as nat / y as nat, x as nat % y as nat;
      assert x as nat == y as nat * q + r && q * y as nat == y as nat * q;
    }
  }

  lemma LeftOnce(x: u64, p: nat)
    ensures Times(x, 2 * p) as nat == (Times(x, p) as nat + Times(x, p) as nat) % TWO64
  {
    var n := x as nat * p;
    assert x as nat * (2 * p) == n + n;
    ModAdd(n, n, TWO64);
    ModAdd(n, n % TWO64, TWO64);
  }

  lemma ShiftUnit(x: u64)
    ensures Times(x, Pow2(0)) == x && Quotient(x, Pow2(0)) == x
  {
    assert Pow2(0) == 1;
    assert x as nat * 1 == x;
  }

  lemma Doubles(x: u64, p: nat)
    ensures Some(Times(x, 2 * p)) == Alu(ALU_ADD, Times(x, p), Times(x, p))
  {
    LeftOnce(x, p);
  }

  lemma Halves(x: u64, p: nat)
    requires p > 0
    ensures Some(Quotient(x, 2 * p)) == Alu(ALU_DIV, Quotient(x, p), 2)
  {
    HalfQuotient(x, p);
  }

  lemma LeftIs(x: u64, k: nat)
    requires k < 64
    ensures Alu(ALU_LSH, x, k) == Some(Times(x, Pow2(k)))
  {
    assert k % 64 == k;
  }

  lemma RightIs(x: u64, k: nat)
    requires k < 64
    ensures Alu(ALU_RSH, x, k) == Some(Quotient(x, Pow2(k)))
  {
    assert k % 64 == k;
  }

  /** Only the amount modulo 64 counts, and none leaves the word. */
  lemma ShiftAmount(x: u64, k: u64)
    ensures Alu(ALU_LSH, x, 0) == Alu(ALU_RSH, x, 0) == Some(x)
    ensures Alu(ALU_LSH, x, k).Some? && Alu(ALU_LSH, x, k) == Alu(ALU_LSH, x, k % 64)
    ensures Alu(ALU_RSH, x, k).Some? && Alu(ALU_RSH, x, k) == Alu(ALU_RSH, x, k % 64)
  {
    ShiftUnit(x);
    LeftIs(x, 0);
    RightIs(x, 0);
    LeftIs(x, k % 64);
    RightIs(x, k % 64);
  }

  /** One more place to the left doubles. */
  lemma LeftOneMore(x: u64, k: u64)
    requires k < 63
    ensures Alu(ALU_LSH, x, k).Some?
    ensures Alu(ALU_LSH, x, k + 1) == Alu(ALU_ADD, Alu(ALU_LSH, x, k).value, Alu(ALU_LSH, x, k).value)
  {
    var p := Pow2(k);
    assert Pow2(k + 1) == 2 * p;
    LeftIs(x, k);
    LeftIs(x, k + 1);
    Doubles(x, p);
  }

  /** One more place to the right halves. */
  lemma RightOneMore(x: u64, k: u64)
    requires k < 63
    ensures Alu(ALU_RSH, x, k).Some?
    ensures Alu(ALU_RSH, x, k + 1) == Alu(ALU_DIV, Alu(ALU_RSH, x, k).value, 2)
  {
    var p := Pow2(k);
    assert Pow2(k + 1) == 2 * p;
    RightIs(x, k);
    RightIs(x, k + 1);
    Halves(x, p);
  }

  /** The bitwise operators, bit by bit. */
  lemma GateLaws(x: u64, y: u64, k: nat)
    requires k < 64
    ensures Alu(ALU_AND, x, y).Some? && (BitOf(Alu(ALU_AND, x, y).value, k) <==> BitOf(x, k) && BitOf(y, k))
    ensures Alu(ALU_OR, x, y).Some? && (BitOf(Alu(ALU_OR, x, y).value, k) <==> BitOf(x, k) || BitOf(y, k))
    ensures Alu(ALU_XOR, x, y).Some? && (BitOf(Alu(ALU_XOR, x, y).value, k) <==> BitOf(x, k) != BitOf(y, k))
  {
    BitwiseBits(AndGate, x, y, 64, k);
    BitwiseBits(OrGate, x, y, 64, k);
    BitwiseBits(XorGate, x, y, 64, k);
  }

  predicate IsAluCode(op: nat) {
    op in {0x07, 0x17, 0x27, 0x37, 0x47, 0x57, 0x67, 0x77, 0xa7, 0xb7}
  }

  /** A move takes the operand; codes that are no operators are refused. */
  lemma AluCodes(op: nat, x: u64, y: u64)
    ensures Alu(MOV, x, y) == Some(y)
    ensures Alu(op, x, y).None? <==> !IsAluCode(op) || (op == 0x37 && y == 0)
  {
  }

  /** Of two words exactly one is greater, or they are equal; the other tests follow from these. */
  lemma ComparisonLaws(x: u64, y: u64, z: u64)
    ensures Taken(JMP_JEQ, x, x) == Some(true) && Taken(JMP_JGT, x, x) == Some(false)
    ensures x != y ==> Taken(JMP_JEQ, x, y) == Some(false) && Taken(JMP_JGT, x, y) != Taken(JMP_JGT, y, x)
    ensures Taken(JMP_JGT, x, y) == Some(true) && Taken(JMP_JGT, y, z) == Some(true) ==>
            Taken(JMP_JGT, x, z) == Some(true)
    ensures x < TWO64 - 1 ==> Taken(JMP_JGT, Successor(x), x) == Some(true)
    ensures Taken(JMP_JGT, x, y).Some? && Taken(JMP_JGE, x, y).Some? && Taken(JMP_JGE, x, y) != Taken(JMP_JGT, y, x)
    ensures Taken(JMP_JNE, x, y).Some? && Taken(JMP_JNE, x, y) != Taken(JMP_JEQ, x, y)
    ensures Taken(JMP_JA, x, y) == Some(true)
  {
  }

  /** Where a jump whose target is not negative goes, for each of its codes. */
  lemma JumpGoes(w: World, prog: Program, pc: nat, st: State)
    requires w.Sound() && st.Shaped() && pc < |prog| < TWO32 && prog[pc].Dst() < 11 && prog[pc].Src() < 11
    requires pc + prog[pc].off + 1 >= 0
    ensures var insn := prog[pc];
            var d, k, s := st.regs[insn.Dst()], Wrap(insn.imm), st.regs[insn.Src()];
            var o, to, on := Exec(w, prog, pc, st), Go(pc + insn.off + 1, st), Go(pc + 1, st);
            && (insn.code == 0x05 ==> o == to)
            && (insn.code == 0x15 ==> o == if d == k then to else on)
            && (insn.code == 0x1d ==> o == if d == s then to else on)
            && (insn.code == 0x25 ==> o == if d > k then to else on)
            && (insn.code == 0x2d ==> o == if d > s then to else on)
            && (insn.code == 0x35 ==> o == if d >= k then to else on)
            && (insn.code == 0x3d ==> o == if d >= s then to else on)
            && (insn.code == 0x55 ==> o == if d != k then to else on)
            && (insn.code == 0x5d ==> o == if d != s then to else on)
  {
    assert JumpTo(pc, prog[pc].off) == pc + prog[pc].off + 1;
  }

  /** A helper's answer goes to R0 and may have changed the stack; a tail call leaves the program. */
  lemma CallGoes(w: World, prog: Program, pc: nat, st: State)
    requires w.Sound() && st.Shaped() && pc < |prog| && prog[pc].code == 0x85 && prog[pc].Dst() < 11
    requires prog[pc].Src() < 11 && 1 <= prog[pc].imm <= 10 && prog[pc].imm != 8 && st.calls < |w.answers|
    ensures var o, a := Exec(w, prog, pc, st), w.answers[st.calls];
            && (a.Value? ==> o.Go? && o.pc == pc + 1 && o.st.regs == st.regs[0 := a.v] && o.st.stack == a.stack)
            && (o.Tail? <==> a.TailCall? && prog[pc].imm == 9)
            && (o.Tail? ==> o.handle == a.handle && o.st.regs == st.regs && o.st.stack == st.stack)
            && (o.Go? || o.Tail? ==> o.st.calls == st.calls + 1 && o.st.accesses == st.accesses)
            && (!o.Go? && !o.Tail? ==> o == Fault(ExecutionError))
  {
  }

  // ---------- small programs ----------

  /** A run goes on behind an instruction. */
  lemma GoesOn(w: World, c: Config, pc: nat, st: State)
    requires w.Sound() && c.Shaped() && !c.Stuck() && Exec(w, c.prog, c.pc, c.st) == Go(pc, st)
    ensures c.(pc := pc, st := st, count := c.count + 1).Shaped()
    ensures Run(w, c).r == Run(w, c.(pc := pc, st := st, count := c.count + 1)).r
  {
    assert Step(w, c) == More(c.(pc := pc, st := st, count := c.count + 1));
  }

  lemma Stops(w: World, c: Config, r: Result)
    requires w.Sound() && c.Shaped() && !c.Stuck()
    requires Exec(w, c.prog, c.pc, c.st) == if r.Ok? then Return(r.v) else Fault(r.error)
    ensures Run(w, c).r == r
  {
  }

  /** A tail call goes on at the start of the program called, with the same registers and a new count; the 33rd
      fails. */
  lemma TailGoes(w: World, c: Config, h: u64, st: State)
    requires w.Sound() && c.Shaped() && !c.Stuck() && Exec(w, c.prog, c.pc, c.st) == Tail(h, st)
    ensures h in w.programs
    ensures c.tails == 32 ==> Run(w, c).r == Err(ExecutionError)
    ensures c.tails < 32 ==> Run(w, c).r == Run(w, Config(w.programs[h], 0, st, 0, c.tails + 1)).r
  {
  }

  /** A run that leaves its program, or has executed a million instructions of it, fails. */
  lemma RunsOut(w: World, c: Config)
    requires w.Sound() && c.Shaped() && (c.pc >= |c.prog| || c.count == 1_000_000)
    ensures Run(w, c).r == Err(ExecutionError)
  {
  }

  /** What a run from here on returns. */
  ghost predicate Yields(w: World, prog: Program, pc: nat, st: State, count: nat, r: Result)
    requires w.Sound() && st.Shaped() && count <= 100
  {
    Run(w, Config(prog, pc, st, count, 0)).r == r
  }

  lemma YieldsNext(w: World, prog: Program, pc: nat, st: State, count: nat, pc': nat, st': State, r: Result)
    requires w.Sound() && st.Shaped() && st'.Shaped() && count < 100 && pc < |prog|
    requires Exec(w, prog, pc, st) == Go(pc', st') && Yields(w, prog, pc', st', count + 1, r)
    ensures Yields(w, prog, pc, st, count, r)
  {
    GoesOn(w, Config(prog, pc, st, count, 0), pc', st');
  }

  lemma YieldsNow(w: World, prog: Program, pc: nat, st: State, count: nat, r: Result)
    requires w.Sound() && st.Shaped() && count <= 100 && pc < |prog|
    requires Exec(w, prog, pc, st) == if r.Ok? then Return(r.v) else Fault(r.error)
    ensures Yields(w, prog, pc, st, count, r)
  {
    Stops(w, Config(prog, pc, st, count, 0), r);
  }

  function ResultOf(r: Option<u64>): Result {
    if r.Some? then Ok(r.value) else Err(ExecutionError)
  }

  lemma AluForms(op: u8)
    requires IsAluCode(op)
    ensures op < 0xf0 && op % 8 == 7 && op / 8 % 2 == 0 && (op + 8) % 8 == 7 && (op + 8) / 8 % 2 == 1
  {
  }

  /** An operator works on the destination register, the low half of the register byte: with the immediate
      value, or in its other form with the source register, the high half. */
  lemma Operates(w: World, prog: Program, pc: nat, st: State, op: u8, byReg: bool)
    requires w.Sound() && st.Shaped() && pc < |prog| && IsAluCode(op)
    requires prog[pc].code as nat == op as nat + if byReg then 8 else 0
    requires prog[pc].regs % 16 < 11 && prog[pc].regs / 16 < 11
    ensures var dst, src := prog[pc].regs % 16, prog[pc].regs / 16;
            var v := Alu(op, st.regs[dst], if byReg then st.regs[src] else Wrap(prog[pc].imm));
            Exec(w, prog, pc, st) == if v.Some? then Go(pc + 1, st.Set(dst, v.value)) else Fault(ExecutionError)
  {
    AluForms(op);
    assert Exec(w, prog, pc, st) == ExecAlu(prog[pc], pc, st);
  }

  lemma Moves(w: World, prog: Program, pc: nat, st: State, r: nat, imm: i32)
    requires w.Sound() && st.Shaped() && pc < |prog| && r < 11 && prog[pc] == Insn(0xb7, r, 0, imm)
    ensures Exec(w, prog, pc, st) == Go(pc + 1, st.Set(r, Wrap(imm)))
  {
    Operates(w, prog, pc, st, 0xb7, false);
  }

  lemma ReturnsR0(w: World, prog: Program, pc: nat, st: State)
    requires w.Sound() && st.Shaped() && pc < |prog| && prog[pc] == Insn(0x95, 0, 0, 0)
    ensures Exec(w, prog, pc, st) == Return(st.regs[0])
  {
  }

  /** Apply an operator and return, or fail. */
  lemma OperatorLast(w: World, prog: Program, pc: nat, st: State, count: nat, v: Option<u64>)
    requires w.Sound() && st.Shaped() && count < 100 && pc + 1 < |prog| && prog[pc + 1] == Insn(0x95, 0, 0, 0)
    requires Exec(w, prog, pc, st) == if v.Some? then Go(pc + 1, st.Set(0, v.value)) else Fault(ExecutionError)
    ensures Yields(w, prog, pc, st, count, ResultOf(v))
  {
    if v.Some? {
      ReturnsR0(w, prog, pc + 1, st.Set(0, v.value));
      YieldsNow(w, prog, pc + 1, st.Set(0, v.value), count + 1, Ok(v.value));
      YieldsNext(w, prog, pc, st, count, pc + 1, st.Set(0, v.value), Ok(v.value));
    } else {
      YieldsNow(w, prog, pc, st, count, Err(ExecutionError));
    }
  }

  /** Load a constant, apply an operator with another, return. */
  function Immediate(op: u8, a: i32, b: i32): Program {
    [Insn(0xb7, 0, 0, a), Insn(op, 0, 0, b), Insn(0x95, 0, 0, 0)]
  }

  lemma ImmediateYields(w: World, st: State, op: u8, a: i32, b: i32)
    requires w.Sound() && st.Shaped() && IsAluCode(op)
    ensures Run(w, Start(Immediate(op, a, b), st)).r == ResultOf(Alu(op, Wrap(a), Wrap(b)))
  {
    var prog, v := Immediate(op, a, b), Alu(op, Wrap(a), Wrap(b));
    var st1 := st.Set(0, Wrap(a));
    Operates(w, prog, 1, st1, op, false);
    OperatorLast(w, prog, 1, st1, 1, v);
    Moves(w, prog, 0, st, 0, a);
    YieldsNext(w, prog, 0, st, 0, 1, st1, ResultOf(v));
  }

  lemma WrappedSum(a: i32, b: i32)
    ensures Alu(ALU_ADD, Wrap(a), Wrap(b)) == Some((a + b) % TWO64)
  {
  }

  /** MOV R0, a; ADD R0, b; RET returns the sum modulo 2^64. */
  lemma SumProgram(w: World, st: State, a: i32, b: i32)
    requires w.Sound() && st.Shaped()
    ensures Run(w, Start(Immediate(0x07, a, b), st)).r == Ok((a + b) % 0x1_0000_0000_0000_0000)
  {
    WrappedSum(a, b);
    ImmediateYields(w, st, 0x07, a, b);
  }

  /** The same with the operands in registers: R2 moved to R0, and R1. */
  function InRegisters(op: u8, a: i32, b: i32): Program
    requires op < 0xf0
  {
    [Insn(0xb7, 1, 0, b), Insn(0xb7, 2, 0, a), Insn(0xbf, 0x20, 0, 0), Insn(op + 8, 0x10, 0, 0), Insn(0x95, 0, 0, 0)]
  }

  lemma InRegistersYields(w: World, st: State, op: u8, a: i32, b: i32)
    requires w.Sound() && st.Shaped() && IsAluCode(op)
    ensures Run(w, Start(InRegisters(op, a, b), st)).r == ResultOf(Alu(op, Wrap(a), Wrap(b)))
  {
    var prog, v := InRegisters(op, a, b), Alu(op, Wrap(a), Wrap(b));
    var st1 := st.Set(1, Wrap(b));
    var st2 := st1.Set(2, Wrap(a));
    var st3 := st2.Set(0, Wrap(a));
    Operates(w, prog, 3, st3, op, true);
    OperatorLast(w, prog, 3, st3, 3, v);
    Operates(w, prog, 2, st2, 0xb7, true);
    YieldsNext(w, prog, 2, st2, 2, 3, st3, ResultOf(v));
    Moves(w, prog, 1, st1, 2, a);
    YieldsNext(w, prog, 1, st1, 1, 2, st2, ResultOf(v));
    Moves(w, prog, 0, st, 1, b);
    YieldsNext(w, prog, 0, st, 0, 1, st1, ResultOf(v));
  }

  // ---------- memory ----------

  /** A two-word constant goes to R1: the first word holds its low half, the second its high half. */
  lemma LoadsWide(w: World, prog: Program, pc: nat, st: State, lo: i32, hi: i32)
    requires w.Sound() && st.Shaped() && pc + 1 < |prog|
    requires prog[pc] == Insn(0x18, 1, 0, lo) && prog[pc + 1].imm == hi
    ensures Exec(w, prog, pc, st) == Go(pc + 2, st.Set(1, lo % TWO32 + TWO32 * (hi % TWO32)))
  {
  }

  lemma FourFirst(s: seq<u8>, t: seq<u8>)
    requires |s| == 4
    ensures LittleEndian(s + t) == LittleEndian(s) + 0x1_0000_0000 * LittleEndian(t)
  {
    ByteFirst(s, t);
    ByteFirst(s[1..], t);
    ByteFirst(s[2..], t);
    ByteFirst(s[3..], t);
    assert s[1..][1..] == s[2..] && s[2..][1..] == s[3..] && s[3..][1..] == [] && [] + t == t;
  }

  lemma ByteFirst(s: seq<u8>, t: seq<u8>)
    requires s != []
    ensures LittleEndian(s) == s[0] + 0x100 * LittleEndian(s[1..])
    ensures LittleEndian(s + t) == s[0] + 0x100 * LittleEndian(s[1..] + t)
  {
    assert (s + t)[1..] == s[1..] + t;
  }

  /** A load reads its four or eight bytes of the stack as a little-endian number. */
  lemma LoadIs(base: u64, stack: seq<u8>, addr: u64, size: nat)
    requires |stack| == STACK && InWindow(base, Access(addr, size)) && STACK <= base && (size == 4 || size == 8)
    ensures Load(base, stack, addr, size) == LittleEndian(StackBytes(base, stack, Access(addr, size)))
  {
    var at := addr - (base - STACK);
    Le32Is(stack, at);
    if size == 8 {
      Le32Is(stack, at + 4);
      FourFirst(stack[at..at + 4], stack[at + 4..at + 8]);
      assert stack[at..at + 8] == stack[at..at + 4] + stack[at + 4..at + 8];
    }
  }

  /** A store writes the low bytes of the source register or of the immediate value at the destination register. */
  lemma Stores(w: World, prog: Program, pc: nat, st: State, wide: bool, fromImm: bool)
    requires w.Sound() && st.Shaped() && pc < |prog| && prog[pc].regs == 0x1a
    requires prog[pc].code == if fromImm then (if wide then 0x7a else 0x62) else (if wide then 0x7b else 0x63)
    requires InWindow(w.base, Access(Offset(st.regs[10], prog[pc].off), if wide then 8 else 4))
    ensures var a := Access(Offset(st.regs[10], prog[pc].off), if wide then 8 else 4);
            var v := if fromImm then Wrap(prog[pc].imm) else st.regs[1];
            var bytes := if wide then ToLe64(v) else ToLe32(v);
            Exec(w, prog, pc, st) == Go(pc + 1, st.Log(a).(stack := Store(w.base, st.stack, a.addr, bytes)))
  {
    assert Exec(w, prog, pc, st) == ExecMemory(w, prog[pc], pc, st);
  }

  /** A load reads at the source register. */
  lemma Loads(w: World, prog: Program, pc: nat, st: State, wide: bool)
    requires w.Sound() && st.Shaped() && pc < |prog| && prog[pc].regs == 0xa0
    requires prog[pc].code == if wide then 0x79 else 0x61
    requires InWindow(w.base, Access(Offset(st.regs[10], prog[pc].off), if wide then 8 else 4))
    ensures var a := Access(Offset(st.regs[10], prog[pc].off), if wide then 8 else 4);
            Exec(w, prog, pc, st) == Go(pc + 1, st.Log(a).Set(0, Load(w.base, st.stack, a.addr, a.size)))
  {
    assert Exec(w, prog, pc, st) == ExecMemory(w, prog[pc], pc, st);
  }

  lemma InFrame(base: u64, off: i16, size: nat)
    requires STACK <= base && -512 <= off <= 0 - size
    ensures Offset(base, off) as int == base as int + off && InWindow(base, Access(Offset(base, off), size))
  {
  }

  /** What a store leaves in the frame and a load takes from there, before a return. */
  lemma StoreLoadReturn(w: World, prog: Program, pc: nat, st: State, count: nat, wide: bool, fromImm: bool)
    requires w.Sound() && st.Shaped() && count < 90 && pc + 2 < |prog| && st.regs[10] == w.base
    requires -512 <= prog[pc].off <= if wide then -8 else -4
    requires prog[pc].regs == 0x1a
    requires prog[pc].code == if fromImm then (if wide then 0x7a else 0x62) else (if wide then 0x7b else 0x63)
    requires prog[pc + 1] == Insn(if wide then 0x79 else 0x61, 0xa0, prog[pc].off, 0)
    requires prog[pc + 2] == Insn(0x95, 0, 0, 0)
    ensures var v := if fromImm then Wrap(prog[pc].imm) else st.regs[1];
            Yields(w, prog, pc, st, count, Ok(if wide then v else v % TWO32))
  {
    var size := if wide then 8 else 4;
    var v: u64 := if fromImm then Wrap(prog[pc].imm) else st.regs[1];
    var got: u64 := if wide then v else v % TWO32;
    var a := Access(Offset(w.base, prog[pc].off), size);
    InFrame(w.base, prog[pc].off, size);
    Stores(w, prog, pc, st, wide, fromImm);
    var st1 := Exec(w, prog, pc, st).st;
    Loads(w, prog, pc + 1, st1, wide);
    StoreThenLoad(w.base, st.stack, a.addr, size, v);
    var st2 := st1.Log(a).Set(0, got);
    ReturnsR0(w, prog, pc + 2, st2);
    YieldsNow(w, prog, pc + 2, st2, count + 2, Ok(got));
    YieldsNext(w, prog, pc + 1, st1, count + 1, pc + 2, st2, Ok(got));
    YieldsNext(w, prog, pc, st, count, pc + 1, st1, Ok(got));
  }

  /** Load a two-word constant, store it or the immediate value in the frame, load that back, return. */
  function ThroughFrame(lo: i32, hi: i32, imm: i32, off: i16, wide: bool, fromImm: bool): Program {
    [
      Insn(0x18, 1, 0, lo),
      Insn(0, 0, 0, hi),
      Insn(if fromImm then (if wide then 0x7a else 0x62) else (if wide then 0x7b else 0x63), 0x1a, off, imm),
      Insn(if wide then 0x79 else 0x61, 0xa0, off, 0),
      Insn(0x95, 0, 0, 0)
    ]
  }

  /** It returns the constant, both halves or the low one; or the immediate value, extended by its sign or cut off. */
  lemma ThroughFrameYields(w: World, st: State, lo: i32, hi: i32, imm: i32, off: i16, wide: bool, fromImm: bool)
    requires w.Sound() && st.Shaped() && st.regs[10] == w.base && -512 <= off <= if wide then -8 else -4
    ensures var low, high := lo % 0x1_0000_0000, hi % 0x1_0000_0000;
            Run(w, Start(ThroughFrame(lo, hi, imm, off, wide, fromImm), st)).r == Ok(
              if fromImm then imm % (if wide then 0x1_0000_0000_0000_0000 else 0x1_0000_0000)
              else if wide then low + 0x1_0000_0000 * high else low)
  {
    var prog := ThroughFrame(lo, hi, imm, off, wide, fromImm);
    var c: u64 := lo % TWO32 + TWO32 * (hi % TWO32);
    var st1 := st.Set(1, c);
    var v := if fromImm then Wrap(imm) else c;
    var got: u64 := if wide then v else v % TWO32;
    StoreLoadReturn(w, prog, 2, st1, 1, wide, fromImm);
    LoadsWide(w, prog, 0, st, lo, hi);
    YieldsNext(w, prog, 0, st, 0, 2, st1, Ok(got));
    CutOff(lo, hi, imm);
  }

  lemma CutOff(lo: i32, hi: i32, imm: i32)
    ensures (lo % TWO32 + TWO32 * (hi % TWO32)) % TWO32 == lo % TWO32
    ensures Wrap(imm) == imm % TWO64 && Wrap(imm) % TWO32 == imm % TWO32
  {
  }
}
