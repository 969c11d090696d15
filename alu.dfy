/**
 * Condition evaluation, flag helpers and the ALU primitives of
 * src/instructions.c.  The flags are four bytes N, Z, C, V, not booleans:
 * CMP stores 0xFF in N, and the condition table compares the bytes
 * themselves.  The primitives write the caller's four-byte flag array.
 */
module Alu {
  import opened Bits

  const F_N: nat := 0
  const F_Z: nat := 1
  const F_C: nat := 2
  const F_V: nat := 3

  /** The contents of the flag bytes N, Z, C, V. */
  datatype Flags = Flags(n: Byte, z: Byte, c: Byte, v: Byte)

  /** The flags a four-byte array holds, indexed by F_N, F_Z, F_C and F_V. */
  function FlagsOf(a: seq<Byte>): Flags
    requires |a| == 4
  {
    Flags(a[F_N], a[F_Z], a[F_C], a[F_V])
  }

  const COND_EQ: Byte := 0
  const COND_NE: Byte := 1
  const COND_MI: Byte := 4
  const COND_PL: Byte := 5
  const COND_GE: Byte := 10
  const COND_LT: Byte := 11
  const COND_GT: Byte := 12
  const COND_LE: Byte := 13
  const COND_AL: Byte := 14

  /**
   * condition_passed: whether an instruction with condition `cond` executes.
   * Every code outside EQ, MI, PL, GE, LT, GT and LE passes whatever the
   * flags hold: AL (14), and also NE (1), which the source never tests.
   */
  function ConditionPassed(flags: Flags, cond: Byte): (r: bool)
    ensures cond !in {COND_EQ, COND_MI, COND_PL, COND_GE, COND_LT, COND_GT, COND_LE} ==> r
  {
    if cond == COND_EQ then flags.z != 0
    else if cond == COND_MI then flags.n != 0
    else if cond == COND_PL then flags.n == 0
    else if cond == COND_GE then flags.n == flags.v
    else if cond == COND_LT then flags.n != flags.v
    else if cond == COND_GT then flags.z == 0 && flags.n == flags.v
    else if cond == COND_LE then flags.z == 1 || flags.n != flags.v
    else true
  }

  /**
   * The condition table's pairs: MI and PL, GE and LT are complementary, GT
   * implies GE, and LE is the complement of GT while Z holds 0 or 1.
   */
  lemma ConditionPairs(flags: Flags)
    ensures ConditionPassed(flags, COND_EQ) <==> flags.z != 0
    ensures ConditionPassed(flags, COND_MI) <==> !ConditionPassed(flags, COND_PL)
    ensures ConditionPassed(flags, COND_GE) <==> !ConditionPassed(flags, COND_LT)
    ensures ConditionPassed(flags, COND_GT) ==> ConditionPassed(flags, COND_GE)
    ensures flags.z <= 1 ==> (ConditionPassed(flags, COND_LE) <==> !ConditionPassed(flags, COND_GT))
  {
  }

  /** Whether a word is negative when read as a two's-complement `int32_t`. */
  predicate Negative(x: Word)
  {
    x & 0x8000_0000 != 0
  }

  /**
   * CarryFrom: the sum is formed in 32 bits before it is converted to
   * `double`, so it never exceeds 2^32 - 1 and no carry is reported.
   */
  function CarryFrom(a: Word, b: Word): (r: Byte)
    ensures r == 0
  {
    var sum := a + b;
    if sum as int > 4294967295 then 1 else 0
  }

  /**
   * BorrowFrom: the difference is formed in 32 bits before it is converted,
   * so it is never negative and no borrow is reported.
   */
  function BorrowFrom(a: Word, b: Word): (r: Byte)
    ensures r == 0
  {
    var res := a - b;
    if (res as int) < 0 then 1 else 0
  }

  /**
   * OverflowFrom on the operands read as `int32_t`: for an addition, 1 when
   * both operands share a sign that the wrapped sum does not have; for a
   * subtraction, 1 when the wrapped difference and the first operand differ
   * in sign.
   */
  function OverflowFrom(a: Word, b: Word, addition: Byte): (r: Byte)
    ensures r <= 1
    ensures addition != 0 ==> (r == 1 <==> Negative(a) == Negative(b) && Negative(a + b) != Negative(a))
    ensures addition == 0 ==> (r == 1 <==> Negative(a - b) != Negative(a))
  {
    if addition != 0 then
      var res := a + b;
      if !Negative(a) && !Negative(b) && Negative(res) then 1
      else if Negative(a) && Negative(b) && !Negative(res) then 1
      else 0
    else
      var res := a - b;
      if !Negative(a) && Negative(res) then 1
      else if Negative(a) && !Negative(res) then 1
      else 0
  }

  /**
   * The subtraction test is not signed overflow: 5 - 10 = -5 fits in
   * `int32_t`, yet the signs of 5 and -5 differ, so V is set.
   */
  lemma SubtractionTestFlagsNoOverflow()
    ensures OverflowFrom(5, 10, 0) == 1
  {
  }

  /** ADD's result: the sum modulo 2^32. */
  function AddResult(rn: Word, operand: Word): Word
  {
    rn + operand
  }

  /** SUB's result: the difference modulo 2^32. */
  function SubResult(rn: Word, operand: Word): Word
  {
    rn - operand
  }

  /** AND's result. */
  function AndResult(rn: Word, operand: Word): Word
  {
    rn & operand
  }

  /** EOR's result. */
  function EorResult(rn: Word, operand: Word): Word
  {
    rn ^ operand
  }

  /** ORR's result. */
  function OrrResult(rn: Word, operand: Word): Word
  {
    rn | operand
  }

  /** MOV: the operand itself; Rn and the flags play no part. */
  function Mov(operand: Word): (r: Word)
    ensures r == operand
  {
    operand
  }

  /** The Z byte the primitives write for a result: 1 for zero, 0 otherwise. */
  function ZeroFlag(res: Word): Byte
  {
    if res == 0 then 1 else 0
  }

  /**
   * The flags AND, EOR, ORR, BIC, MUL and MLA write when S is set: N is bit
   * 31 of the result, Z whether it is zero; C and V keep their values.
   */
  function ResultFlags(flags: Flags, res: Word): (f: Flags)
    ensures f.n == (if Negative(res) then 1 else 0)
    ensures f.z == (if res == 0 then 1 else 0)
    ensures f.c == flags.c && f.v == flags.v
  {
    flags.(n := GetBit(res, 31), z := ZeroFlag(res))
  }

  /**
   * The flags ADD writes when S is set.  All four are written, so they do
   * not depend on the old flags; C is always 0.
   */
  function AddFlags(rn: Word, operand: Word): (f: Flags)
    ensures f.n == (if Negative(rn + operand) then 1 else 0)
    ensures f.z == (if rn + operand == 0 then 1 else 0)
    ensures f.c == 0
    ensures f.v == 1 <==> Negative(rn) == Negative(operand) && Negative(rn + operand) != Negative(rn)
  {
    var res := rn + operand;
    Flags(GetBit(res, 31), ZeroFlag(res), CarryFrom(rn, operand), OverflowFrom(rn, operand, 1))
  }

  lemma DifferenceZero(a: Word, b: Word)
    ensures a - b == 0 <==> a == b
  {
  }

  /**
   * The flags SUB writes when S is set: all four, with C the negation of
   * BorrowFrom and so always 1.
   */
  function SubFlags(rn: Word, operand: Word): (f: Flags)
    ensures f.n == (if Negative(rn - operand) then 1 else 0)
    ensures f.z == (if rn == operand then 1 else 0)
    ensures f.c == 1
    ensures f.v == 1 <==> Negative(rn - operand) != Negative(rn)
  {
    var res := rn - operand;
    var z := ZeroFlag(res);
    DifferenceZero(rn, operand);
    Flags(GetBit(res, 31), z, if BorrowFrom(rn, operand) == 0 then 1 else 0, OverflowFrom(rn, operand, 0))
  }

  /**
   * The flags CMP writes: N is the arithmetic shift of the signed difference
   * by 31, so 0xFF for a negative difference and 0 otherwise; C is
   * CarryFrom (0) and V is the addition overflow test.
   */
  function CmpFlags(rn: Word, operand: Word): (f: Flags)
    ensures f.n == (if Negative(rn - operand) then 0xFF else 0)
    ensures f.z == (if rn == operand then 1 else 0)
    ensures f.c == 0
    ensures f.v == OverflowFrom(rn, operand, 1)
  {
    var aluOut := rn - operand;
    var z := ZeroFlag(aluOut);
    DifferenceZero(rn, operand);
    Flags(if GetBit(aluOut, 31) == 1 then 0xFF else 0, z, CarryFrom(rn, operand), OverflowFrom(rn, operand, 1))
  }

  /**
   * After CMP, EQ passes exactly when the operands are equal, and LT passes
   * when the difference is negative or the addition test fires, since the
   * 0xFF in N never equals V.
   */
  lemma CmpConditions(rn: Word, operand: Word)
    ensures ConditionPassed(CmpFlags(rn, operand), COND_EQ) <==> rn == operand
    ensures ConditionPassed(CmpFlags(rn, operand), COND_LT) <==> Negative(rn - operand) || OverflowFrom(rn, operand, 1) == 1
    ensures ConditionPassed(CmpFlags(rn, operand), COND_GE) <==> !ConditionPassed(CmpFlags(rn, operand), COND_LT)
  {
    var f := CmpFlags(rn, operand);
    SignByteConditions(f);
  }

  /** With N holding 0 or 0xFF and V holding 0 or 1, LT passes when N is 0xFF or V is 1. */
  lemma SignByteConditions(f: Flags)
    requires f.n == 0 || f.n == 0xFF
    requires f.v <= 1
    ensures ConditionPassed(f, COND_LT) <==> f.n == 0xFF || f.v == 1
    ensures ConditionPassed(f, COND_GE) <==> !ConditionPassed(f, COND_LT)
    ensures ConditionPassed(f, COND_EQ) <==> f.z != 0
  {
  }

  /**
   * BIC applies the logical `!` to the operand: the result is bit 0 of rn
   * when the operand is zero and 0 otherwise.
   */
  function BicResult(rn: Word, operand: Word): (r: Word)
    ensures r <= 1
    ensures r == 1 <==> operand == 0 && rn & 1 == 1
  {
    rn & LogicalNot(operand)
  }

  /** C's logical negation `!x` of a word: 1 for zero, 0 otherwise. */
  function LogicalNot(x: Word): Word
  {
    if x == 0 then 1 else 0
  }

  /** BIC is not a bit clear: 0xF0 BIC 0x0F gives 0, not 0xF0. */
  lemma BicIsNotBitClear()
    ensures BicResult(0xF0, 0x0F) == 0 != 0xF0 & !0x0F
  {
  }

  /** MUL: the product of two bytes, which fits in 16 bits. */
  function MulResult(rm: Byte, rs: Byte): (r: Word)
    ensures r <= 65025 && !Negative(r)
  {
    (rm as Word) * (rs as Word)
  }

  /** MLA: the product of two bytes plus a third byte. */
  function MlaResult(rm: Byte, rs: Byte, rn: Byte): (r: Word)
    ensures r <= 65280 && !Negative(r)
  {
    (rs as Word) * (rm as Word) + (rn as Word)
  }

  /** SVC's return value: 1 (halt) for service 0, 0 for every other service. */
  function Svc(operand: Word): (halt: Byte)
    ensures halt <= 1
    ensures halt == 1 <==> operand == 0
  {
    if operand == 0 then 1 else 0
  }

  /** ADD: rn + operand; with S set, writes all four flags. */
  method Add(flags: array<Byte>, s: Byte, rn: Word, operand: Word) returns (res: Word)
    requires flags.Length == 4
    modifies flags
    ensures res == AddResult(rn, operand)
    ensures FlagsOf(flags[..]) == if s != 0 then AddFlags(rn, operand) else FlagsOf(old(flags[..]))
  {
    res := rn + operand;
    if s != 0 {
      flags[F_N] := GetBit(res, 31);
      flags[F_Z] := ZeroFlag(res);
      flags[F_C] := CarryFrom(rn, operand);
      flags[F_V] := OverflowFrom(rn, operand, 1);
    }
  }

  /** SUB: rn - operand; with S set, writes all four flags. */
  method Sub(flags: array<Byte>, s: Byte, rn: Word, operand: Word) returns (res: Word)
    requires flags.Length == 4
    modifies flags
    ensures res == SubResult(rn, operand)
    ensures FlagsOf(flags[..]) == if s != 0 then SubFlags(rn, operand) else FlagsOf(old(flags[..]))
  {
    res := rn - operand;
    if s != 0 {
      flags[F_N] := GetBit(res, 31);
      flags[F_Z] := ZeroFlag(res);
      flags[F_C] := if BorrowFrom(rn, operand) == 0 then 1 else 0;
      flags[F_V] := OverflowFrom(rn, operand, 0);
    }
  }

  /** Writes N and Z for a result, as the logical operations and MUL/MLA do. */
  method SetResultFlags(flags: array<Byte>, res: Word)
    requires flags.Length == 4
    modifies flags
    ensures FlagsOf(flags[..]) == ResultFlags(FlagsOf(old(flags[..])), res)
  {
    flags[F_N] := GetBit(res, 31);
    flags[F_Z] := ZeroFlag(res);
  }

  /** AND: rn & operand. */
  method And(flags: array<Byte>, s: Byte, rn: Word, operand: Word) returns (res: Word)
    requires flags.Length == 4
    modifies flags
    ensures res == AndResult(rn, operand)
    ensures FlagsOf(flags[..]) == if s != 0 then ResultFlags(FlagsOf(old(flags[..])), res) else FlagsOf(old(flags[..]))
  {
    res := rn & operand;
    if s != 0 {
      SetResultFlags(flags, res);
    }
  }

  /** EOR: rn ^ operand. */
  method Eor(flags: array<Byte>, s: Byte, rn: Word, operand: Word) returns (res: Word)
    requires flags.Length == 4
    modifies flags
    ensures res == EorResult(rn, operand)
    ensures FlagsOf(flags[..]) == if s != 0 then ResultFlags(FlagsOf(old(flags[..])), res) else FlagsOf(old(flags[..]))
  {
    res := rn ^ operand;
    if s != 0 {
      SetResultFlags(flags, res);
    }
  }

  /** ORR: rn | operand. */
  method Orr(flags: array<Byte>, s: Byte, rn: Word, operand: Word) returns (res: Word)
    requires flags.Length == 4
    modifies flags
    ensures res == OrrResult(rn, operand)
    ensures FlagsOf(flags[..]) == if s != 0 then ResultFlags(FlagsOf(old(flags[..])), res) else FlagsOf(old(flags[..]))
  {
    res := rn | operand;
    if s != 0 {
      SetResultFlags(flags, res);
    }
  }

  /** BIC, with the logical `!` of the source. */
  method Bic(flags: array<Byte>, s: Byte, rn: Word, operand: Word) returns (res: Word)
    requires flags.Length == 4
    modifies flags
    ensures res == BicResult(rn, operand)
    ensures FlagsOf(flags[..]) == if s != 0 then ResultFlags(FlagsOf(old(flags[..])), res) else FlagsOf(old(flags[..]))
  {
    res := rn & LogicalNot(operand);
    if s != 0 {
      SetResultFlags(flags, res);
    }
  }

  /** CMP: writes all four flags and no result. */
  method Cmp(flags: array<Byte>, rn: Word, operand: Word)
    requires flags.Length == 4
    modifies flags
    ensures FlagsOf(flags[..]) == CmpFlags(rn, operand)
  {
    var aluOut := rn - operand;
    flags[F_N] := if GetBit(aluOut, 31) == 1 then 0xFF else 0;
    flags[F_Z] := ZeroFlag(aluOut);
    flags[F_C] := CarryFrom(rn, operand);
    flags[F_V] := OverflowFrom(rn, operand, 1);
  }

  /** MUL on the low bytes of two registers; with S set, N is always 0. */
  method Mul(flags: array<Byte>, s: Byte, rm: Byte, rs: Byte) returns (res: Word)
    requires flags.Length == 4
    modifies flags
    ensures res == MulResult(rm, rs)
    ensures FlagsOf(flags[..]) == if s != 0 then ResultFlags(FlagsOf(old(flags[..])), res) else FlagsOf(old(flags[..]))
    ensures s != 0 ==> flags[F_N] == 0
  {
    res := (rm as Word) * (rs as Word);
    if s != 0 {
      SetResultFlags(flags, res);
    }
  }

  /** MLA on the low bytes of three registers; with S set, N is always 0. */
  method Mla(flags: array<Byte>, s: Byte, rm: Byte, rs: Byte, rn: Byte) returns (res: Word)
    requires flags.Length == 4
    modifies flags
    ensures res == MlaResult(rm, rs, rn)
    ensures FlagsOf(flags[..]) == if s != 0 then ResultFlags(FlagsOf(old(flags[..])), res) else FlagsOf(old(flags[..]))
    ensures s != 0 ==> flags[F_N] == 0
  {
    res := (rs as Word) * (rm as Word) + (rn as Word);
    if s != 0 {
      SetResultFlags(flags, res);
    }
  }
}
