/**
 The eBPF instructions the kernel interprets (RFC 9669, sections 4 and 5), with the
 arithmetic of the interpreter: 64-bit unsigned, wrapping, division by zero an error.
 */
module Ebpf {
  import opened Options
  import opened Bytes

  const TWO32: nat := 0x1_0000_0000
  const TWO64: nat := 0x1_0000_0000_0000_0000

  type u64 = x: nat | x < 0x1_0000_0000_0000_0000
  type i16 = x: int | -0x8000 <= x < 0x8000
  type i32 = x: int | -0x8000_0000 <= x < 0x8000_0000

  datatype Insn = Insn(code: u8, regs: u8, off: i16, imm: i32) {
    /** Low four bits of the packed register byte. */
    function Dst(): nat {
      regs % 16
    }

    /** High four bits. */
    function Src(): nat {
      regs / 16
    }

    function Class(): nat {
      code % 8
    }
  }

  type Program = seq<Insn>

  const ALU_ADD: nat := 0x07
  const ALU_SUB: nat := 0x17
  const ALU_MUL: nat := 0x27
  const ALU_DIV: nat := 0x37
  const ALU_OR: nat := 0x47
  const ALU_AND: nat := 0x57
  const ALU_LSH: nat := 0x67
  const ALU_RSH: nat := 0x77
  const ALU_XOR: nat := 0xa7
  const MOV: nat := 0xb7
  /** The register form of an arithmetic instruction sets this bit. */
  const X: nat := 0x08
  const JMP_JA: nat := 0x05
  const JMP_JEQ: nat := 0x15
  const JMP_JGT: nat := 0x25
  const JMP_JGE: nat := 0x35
  const JMP_JNE: nat := 0x55
  const RET: nat := 0x95
  const CALL: nat := 0x85
  const LD_IMM_64: nat := 0x18
  const LDX_W: nat := 0x61
  const LDX_DW: nat := 0x79
  const STX_W: nat := 0x63
  const STX_DW: nat := 0x7b
  const ST_W: nat := 0x62
  const ST_DW: nat := 0x7a

  const PROBE_READ: int := 8
  const TAIL_CALL: int := 9

  /** A negative value converted to an unsigned 64-bit one. */
  function Wrap(v: int): (r: u64)
    requires -0x8000_0000 <= v < 0x1_0000_0000_0000_0000
  {
    if v >= 0 then v else v + TWO64
  }

  function Pow2(k: nat): (r: nat)
    ensures r >= 1
  {
    if k == 0 then 1 else 2 * Pow2(k - 1)
  }

  datatype Gate = AndGate | OrGate | XorGate {
    function Bit(a: bool, b: bool): bool {
      match this
      case AndGate => a && b
      case OrGate => a || b
      case XorGate => a != b
    }
  }

  /** The gate applied to each of the low `n` bits. */
  function Bitwise(g: Gate, x: nat, y: nat, n: nat): (r: nat)
    ensures r < Pow2(n)
    decreases n
  {
    if n == 0 then 0
    else 2 * Bitwise(g, x / 2, y / 2, n - 1) + if g.Bit(x % 2 == 1, y % 2 == 1) then 1 else 0
  }

  /** Bit `k` of a number. */
  predicate BitOf(x: nat, k: nat)
    decreases k
  {
    if k == 0 then x % 2 == 1 else BitOf(x / 2, k - 1)
  }

  /** Each bit of the result is the gate of the operands' bits. */
  lemma {:induction false} BitwiseBits(g: Gate, x: nat, y: nat, n: nat, k: nat)
    requires k < n
    ensures BitOf(Bitwise(g, x, y, n), k) == g.Bit(BitOf(x, k), BitOf(y, k))
    decreases k
  {
    if k > 0 {
      BitwiseBits(g, x / 2, y / 2, n - 1, k - 1);
    }
  }

  lemma {:induction false} Pow2Double(k: nat, p: nat)
    requires Pow2(k) == p
    ensures Pow2(k + k) == p * p
  {
    Pow2Sum(k, k);
  }

  lemma {:induction false} Pow2Sum(a: nat, b: nat)
    ensures Pow2(a + b) == Pow2(a) * Pow2(b)
    decreases b
  {
    if b > 0 {
      Pow2Sum(a, b - 1);
      assert Pow2(a) * (2 * Pow2(b - 1)) == 2 * (Pow2(a) * Pow2(b - 1));
    }
  }

  lemma WordSize()
    ensures Pow2(64) == TWO64
  {
    Pow2Double(1, 2);
    Pow2Double(2, 4);
    Pow2Double(4, 0x10);
    Pow2Double(8, 0x100);
    Pow2Double(16, 0x1_0000);
    Pow2Double(32, 0x1_0000_0000);
  }

  function Bits(g: Gate, x: u64, y: u64): u64 {
    WordSize();
    Bitwise(g, x, y, 64)
  }

  function Times(x: u64, y: nat): u64 {
    (x as nat * y) % TWO64
  }

  function Quotient(x: u64, y: nat): (r: u64)
    requires y > 0
  {
    QuotientSmaller(x, y, x as nat / y, x as nat % y);
    x as nat / y
  }

  lemma QuotientSmaller(x: nat, y: nat, q: int, r: int)
    requires y > 0 && x == y * q + r && 0 <= r < y
    ensures 0 <= q <= x
  {
    if q >= 0 {
      assert y * q >= q;
    }
  }

  /** The arithmetic operators; None where the interpreter reports an error or
      the code is not one of them. */
  function Alu(op: nat, x: u64, y: u64): Option<u64> {
    if op == ALU_ADD then Some((x as nat + y as nat) % TWO64)
    else if op == ALU_SUB then Some((x as int - y as int) % TWO64)
    else if op == ALU_MUL then Some(Times(x, y))
    else if op == ALU_DIV then (if y == 0 then None else Some(Quotient(x, y)))
    else if op == ALU_AND then Some(Bits(AndGate, x, y))
    else if op == ALU_OR then Some(Bits(OrGate, x, y))
    else if op == ALU_XOR then Some(Bits(XorGate, x, y))
    else if op == ALU_LSH then Some(Times(x, Pow2(y % 64)))
    else if op == ALU_RSH then Some(Quotient(x, Pow2(y % 64)))
    else if op == MOV then Some(y)
    else None
  }

  /** Whether a conditional or unconditional jump is taken; None if the code is not a jump. */
  function Taken(op: nat, x: u64, y: u64): Option<bool> {
    if op == JMP_JA then Some(true)
    else if op == JMP_JEQ then Some(x == y)
    else if op == JMP_JNE then Some(x != y)
    else if op == JMP_JGT then Some(x > y)
    else if op == JMP_JGE then Some(x >= y)
    else None
  }

  function ToLe64(v: u64): (r: seq<u8>)
    ensures |r| == 8
  {
    ToLe32(v) + ToLe32(v / TWO32)
  }

  function Le64(s: seq<u8>, at: nat): (r: u64)
    requires at + 8 <= |s|
  {
    Le32Bound(s, at);
    Le32Bound(s, at + 4);
    Le32(s, at) + TWO32 * Le32(s, at + 4)
  }

  lemma Le64Splice(s: seq<u8>, at: nat, v: u64)
    requires at + 8 <= |s|
    ensures Le64(Splice(s, at, ToLe64(v)), at) == v
  {
    var b := ToLe64(v);
    Le32Splice(s, at, b, at);
    Le32Splice(s, at, b, at + 4);
    assert Le32(b, 0) == Le32(ToLe32(v), 0) && Le32(b, 4) == Le32(ToLe32(v / TWO32), 0);
  }
}
