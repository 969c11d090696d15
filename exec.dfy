/**
 * The execution unit of src/emu.c as functions on a machine state: the
 * sixteen registers, the four flag bytes and the byte memory.  Each handler
 * is a function from the state before to the state after; the Machine
 * module's Cpu class performs the same steps in place and is proved to
 * agree with these functions.
 */
module Exec {
  import opened Bits
  import opened ByteMemory
  import opened Rotate
  import opened Alu

  const R_LR: nat := 14
  const R_PC: nat := 15

  const OP_AND: Word := 0
  const OP_EOR: Word := 1
  const OP_SUB: Word := 2
  const OP_ADD: Word := 4
  const OP_CMP: Word := 10
  const OP_ORR: Word := 12
  const OP_MOV: Word := 13
  const OP_BIC: Word := 14

  const SHIFT_LSL_I: Word := 0
  const SHIFT_LSL_R: Word := 1
  const SHIFT_LSR_I: Word := 2
  const SHIFT_LSR_R: Word := 3

  /** The sixteen 32-bit registers R0 .. R15; R14 is LR and R15 is PC. */
  type Registers = r: seq<Word> | |r| == 16 witness [0, 0, 0, 0, 0, 0, 0, 0, 0, 0, 0, 0, 0, 0, 0, 0]

  /** The machine: registers, flag bytes and memory. */
  datatype State = State(regs: Registers, flags: Flags, mem: Memory)

  /** The register number held in the four bits of `w` from bit `n` on. */
  function RegField(w: Word, n: nat): (i: nat)
    requires n <= 28
    ensures i < 16
  {
    GetBits(w, n, 4) as int
  }

  /**
   * What a data-processing opcode does to the machine: whether it writes a
   * result to Rd, the result, and the flags afterwards.
   */
  datatype DpEffect = DpEffect(writes: bool, res: Word, flags: Flags)

  /**
   * The ALU primitive execute_dp_instruction chooses for an opcode, applied
   * to Rn's value `a` and the operand.  With S clear the flags stay as they
   * were, except under CMP, which always writes them.
   */
  function DpAlu(opcode: Word, s: Byte, a: Word, operand: Word, flags: Flags): (e: DpEffect)
    ensures opcode == OP_CMP ==> !e.writes && e.flags == CmpFlags(a, operand)
    ensures opcode == OP_MOV ==> e.writes && e.res == operand && e.flags == flags
    ensures opcode !in {OP_AND, OP_EOR, OP_SUB, OP_ADD, OP_CMP, OP_ORR, OP_MOV, OP_BIC} ==> !e.writes && e.flags == flags
    ensures s == 0 && opcode != OP_CMP ==> e.flags == flags
  {
    if opcode == OP_CMP then DpEffect(false, 0, CmpFlags(a, operand))
    else if opcode == OP_MOV then DpEffect(true, Mov(operand), flags)
    else
      var r :=
        if opcode == OP_AND then DpEffect(true, AndResult(a, operand), ResultFlags(flags, AndResult(a, operand)))
        else if opcode == OP_EOR then DpEffect(true, EorResult(a, operand), ResultFlags(flags, EorResult(a, operand)))
        else if opcode == OP_SUB then DpEffect(true, SubResult(a, operand), SubFlags(a, operand))
        else if opcode == OP_ADD then DpEffect(true, AddResult(a, operand), AddFlags(a, operand))
        else if opcode == OP_ORR then DpEffect(true, OrrResult(a, operand), ResultFlags(flags, OrrResult(a, operand)))
        else if opcode == OP_BIC then DpEffect(true, BicResult(a, operand), ResultFlags(flags, BicResult(a, operand)))
        else DpEffect(false, 0, flags);
      if s != 0 then r else r.(flags := flags)
  }

  /** The effect of each of the six opcodes that write Rd and honour S. */
  lemma DpAluTable(opcode: Word, s: Byte, a: Word, operand: Word, flags: Flags)
    ensures opcode == OP_AND ==> DpAlu(opcode, s, a, operand, flags) == DpEffect(true, AndResult(a, operand), if s != 0 then ResultFlags(flags, AndResult(a, operand)) else flags)
    ensures opcode == OP_EOR ==> DpAlu(opcode, s, a, operand, flags) == DpEffect(true, EorResult(a, operand), if s != 0 then ResultFlags(flags, EorResult(a, operand)) else flags)
    ensures opcode == OP_SUB ==> DpAlu(opcode, s, a, operand, flags) == DpEffect(true, SubResult(a, operand), if s != 0 then SubFlags(a, operand) else flags)
    ensures opcode == OP_ADD ==> DpAlu(opcode, s, a, operand, flags) == DpEffect(true, AddResult(a, operand), if s != 0 then AddFlags(a, operand) else flags)
    ensures opcode == OP_ORR ==> DpAlu(opcode, s, a, operand, flags) == DpEffect(true, OrrResult(a, operand), if s != 0 then ResultFlags(flags, OrrResult(a, operand)) else flags)
    ensures opcode == OP_BIC ==> DpAlu(opcode, s, a, operand, flags) == DpEffect(true, BicResult(a, operand), if s != 0 then ResultFlags(flags, BicResult(a, operand)) else flags)
  {
    if opcode == OP_AND {
    } else if opcode == OP_EOR {
    } else if opcode == OP_SUB {
    } else if opcode == OP_ADD {
    } else if opcode == OP_ORR {
    } else if opcode == OP_BIC {
    }
  }

  /** ADD writes Rn + operand to Rd and, with S set, clears C. */
  lemma AddClearsCarry(s: Byte, a: Word, operand: Word, flags: Flags)
    ensures DpAlu(OP_ADD, s, a, operand, flags) == DpEffect(true, a + operand, if s != 0 then AddFlags(a, operand) else flags)
    ensures s != 0 ==> DpAlu(OP_ADD, s, a, operand, flags).flags.c == 0
  {
  }

  /** SUB writes Rn - operand to Rd and, with S set, sets C. */
  lemma SubSetsCarry(s: Byte, a: Word, operand: Word, flags: Flags)
    ensures DpAlu(OP_SUB, s, a, operand, flags) == DpEffect(true, a - operand, if s != 0 then SubFlags(a, operand) else flags)
    ensures s != 0 ==> DpAlu(OP_SUB, s, a, operand, flags).flags.c == 1
  {
  }

  /**
   * execute_dp_instruction: runs the opcode's ALU primitive on Rn and the
   * operand; only Rd and the flags can change.
   */
  function ExecuteDp(st: State, opcode: Word, s: Byte, rn: nat, rd: nat, operand: Word): (st': State)
    requires rn < 16 && rd < 16
    ensures st'.mem == st.mem
    ensures forall i :: 0 <= i < 16 && i != rd ==> st'.regs[i] == st.regs[i]
  {
    var e := DpAlu(opcode, s, st.regs[rn], operand, st.flags);
    st.(regs := if e.writes then st.regs[rd := e.res] else st.regs, flags := e.flags)
  }

  /** ExecuteDp opcode by opcode, in terms of the ALU primitives. */
  lemma ExecuteDpTable(st: State, opcode: Word, s: Byte, rn: nat, rd: nat, operand: Word)
    requires rn < 16 && rd < 16
    ensures opcode == OP_AND ==> ExecuteDp(st, opcode, s, rn, rd, operand) == st.(regs := st.regs[rd := AndResult(st.regs[rn], operand)], flags := if s != 0 then ResultFlags(st.flags, AndResult(st.regs[rn], operand)) else st.flags)
    ensures opcode == OP_EOR ==> ExecuteDp(st, opcode, s, rn, rd, operand) == st.(regs := st.regs[rd := EorResult(st.regs[rn], operand)], flags := if s != 0 then ResultFlags(st.flags, EorResult(st.regs[rn], operand)) else st.flags)
    ensures opcode == OP_SUB ==> ExecuteDp(st, opcode, s, rn, rd, operand) == st.(regs := st.regs[rd := SubResult(st.regs[rn], operand)], flags := if s != 0 then SubFlags(st.regs[rn], operand) else st.flags)
    ensures opcode == OP_ADD ==> ExecuteDp(st, opcode, s, rn, rd, operand) == st.(regs := st.regs[rd := AddResult(st.regs[rn], operand)], flags := if s != 0 then AddFlags(st.regs[rn], operand) else st.flags)
    ensures opcode == OP_ORR ==> ExecuteDp(st, opcode, s, rn, rd, operand) == st.(regs := st.regs[rd := OrrResult(st.regs[rn], operand)], flags := if s != 0 then ResultFlags(st.flags, OrrResult(st.regs[rn], operand)) else st.flags)
    ensures opcode == OP_BIC ==> ExecuteDp(st, opcode, s, rn, rd, operand) == st.(regs := st.regs[rd := BicResult(st.regs[rn], operand)], flags := if s != 0 then ResultFlags(st.flags, BicResult(st.regs[rn], operand)) else st.flags)
  {
    DpAluTable(opcode, s, st.regs[rn], operand, st.flags);
  }

  /**
   * CMP writes no register, MOV writes the operand to Rd whatever S is, and
   * an opcode outside the eight known ones changes nothing.
   */
  lemma ExecuteDpSpecialOpcodes(st: State, opcode: Word, s: Byte, rn: nat, rd: nat, operand: Word)
    requires rn < 16 && rd < 16
    ensures opcode == OP_CMP ==> ExecuteDp(st, opcode, s, rn, rd, operand) == st.(flags := CmpFlags(st.regs[rn], operand))
    ensures opcode == OP_MOV ==> ExecuteDp(st, opcode, s, rn, rd, operand) == st.(regs := st.regs[rd := operand])
    ensures opcode !in {OP_AND, OP_EOR, OP_SUB, OP_ADD, OP_CMP, OP_ORR, OP_MOV, OP_BIC} ==> ExecuteDp(st, opcode, s, rn, rd, operand) == st
  {
  }

  /**
   * The shifts of shift_operand's codes 0-3, applied to the byte `val`: by
   * the 5-bit immediate `imm` (codes 0 and 2) or by the byte `amount` taken
   * from a register (codes 1 and 3), where an amount of 32 or more gives 0.
   * A left shift drops the bits past bit 31.
   */
  function ByteShift(code: Word, val: Byte, imm: Word, amount: Byte): (r: Word)
    requires code < 4 && imm < 32
    ensures code in {SHIFT_LSL_R, SHIFT_LSR_R} && amount >= 32 ==> r == 0
    ensures code in {SHIFT_LSR_I, SHIFT_LSR_R} ==> r <= 0xFF
    ensures code == SHIFT_LSL_I && imm == 0 ==> r == val as Word
  {
    if code == SHIFT_LSL_I then
      ShiftLeft(val, imm)
    else if code == SHIFT_LSL_R then
      if amount >= 32 then 0 else ShiftLeft(val, amount as Word)
    else if code == SHIFT_LSR_I then
      ShiftRight(val, imm)
    else
      if amount >= 32 then 0 else ShiftRight(val, amount as Word)
  }

  /** `val << n` on the byte widened to a word. */
  function ShiftLeft(val: Byte, n: Word): Word
    requires n < 32
  {
    (val as Word) << n
  }

  /** `val >> n` on the byte widened to a word. */
  function ShiftRight(val: Byte, n: Word): Word
    requires n < 32
  {
    (val as Word) >> n
  }

  /**
   * shift_operand: the register operand.  Shift codes 0-3 (bits 4-6) shift
   * the low byte of Rm (bits 0-3), since the source keeps the value in a
   * `uint8_t`, by bits 7-11 or by the low byte of Rs (bits 8-11); codes 4-7
   * give Rm unshifted.
   */
  function ShiftOperand(regs: Registers, instr: Word): (r: Word)
    ensures GetBits(instr, 4, 3) >= 4 ==> r == regs[RegField(instr, 0)]
    ensures GetBits(instr, 4, 3) in {SHIFT_LSL_R, SHIFT_LSR_R} && LowByte(regs[RegField(instr, 8)]) >= 32 ==> r == 0
    ensures GetBits(instr, 4, 3) in {SHIFT_LSR_I, SHIFT_LSR_R} ==> r <= 0xFF
  {
    var code := GetBits(instr, 4, 3);
    if code < 4 then
      ByteShift(code, LowByte(regs[RegField(instr, 0)]), GetBits(instr, 7, 5), LowByte(regs[RegField(instr, 8)]))
    else
      regs[RegField(instr, 0)]
  }

  /**
   * For the shift codes 0-3 only the low bytes of the registers matter: two
   * register files that agree on every low byte give the same operand,
   * whatever their upper 24 bits hold.
   */
  lemma ShiftOperandReadsLowBytes(regs: Registers, regs': Registers, instr: Word)
    requires GetBits(instr, 4, 3) < 4
    requires forall j :: 0 <= j < 16 ==> LowByte(regs[j]) == LowByte(regs'[j])
    ensures ShiftOperand(regs, instr) == ShiftOperand(regs', instr)
  {
    var rm, rs := RegField(instr, 0), RegField(instr, 8);
    assert LowByte(regs[rm]) == LowByte(regs'[rm]);
    assert LowByte(regs[rs]) == LowByte(regs'[rs]);
  }

  /** The rotation an immediate operand applies: twice bits 8-11. */
  function ImmediateRotation(instr: Word): (r: Byte)
    ensures r < 32
  {
    ((GetBits(instr, 0, 12) >> 8) * 2) as Byte
  }

  /**
   * The immediate data-processing operand: the 8-bit immediate rotated
   * right by twice the 4-bit rotation.  Rotating it back gives the
   * immediate, so the encoding loses nothing.
   */
  function ImmediateOperand(instr: Word): (r: Word)
    ensures RotateLeft(ImmediateRotation(instr), r) == GetBits(instr, 0, 8)
  {
    var imm := GetBits(instr, 0, 12);
    RotateLeftUndoesRight(ImmediateRotation(instr), imm & 0xFF);
    RotateRight(ImmediateRotation(instr), imm & 0xFF)
  }

  /**
   * decode_dp: opcode bits 21-24, S bit 20, Rn bits 16-19, Rd bits 12-15, an
   * immediate operand when bit 25 is set and a shifted register otherwise;
   * the instruction runs only when its condition passes.
   */
  function DecodeDp(st: State, instr: Word): (st': State)
    ensures !ConditionPassed(st.flags, GetCond(instr)) ==> st' == st
    ensures st'.mem == st.mem
    ensures forall i :: 0 <= i < 16 && i != RegField(instr, 12) ==> st'.regs[i] == st.regs[i]
  {
    var operand := if GetBit(instr, 25) == 1 then ImmediateOperand(instr) else ShiftOperand(st.regs, instr);
    if ConditionPassed(st.flags, GetCond(instr)) then
      ExecuteDp(st, GetBits(instr, 21, 4), GetBit(instr, 20), RegField(instr, 16), RegField(instr, 12), operand)
    else
      st
  }

  /** The value MUL (A clear) or MLA (A set) writes to Rd, from the low bytes of Rm, Rs and Rn. */
  function Product(regs: Registers, instr: Word): (r: Word)
    ensures r <= 65280 && !Negative(r)
  {
    var rm := LowByte(regs[RegField(instr, 0)]);
    var rs := LowByte(regs[RegField(instr, 8)]);
    if GetBit(instr, 21) == 1 then MlaResult(rm, rs, LowByte(regs[RegField(instr, 12)])) else MulResult(rm, rs)
  }

  /**
   * decode_multiplication: Rd is bits 16-19, Rn 12-15, Rs 8-11 and Rm 0-3;
   * bit 21 selects MLA over MUL.  Both work on the registers' low bytes, so
   * the result never exceeds 65280 and never sets N.
   */
  function DecodeMul(st: State, instr: Word): (st': State)
    ensures !ConditionPassed(st.flags, GetCond(instr)) ==> st' == st
    ensures st'.mem == st.mem
    ensures forall i :: 0 <= i < 16 && i != RegField(instr, 16) ==> st'.regs[i] == st.regs[i]
    ensures ConditionPassed(st.flags, GetCond(instr)) ==> st'.regs[RegField(instr, 16)] <= 65280
    ensures GetBit(instr, 20) == 0 ==> st'.flags == st.flags
    ensures st'.flags.c == st.flags.c && st'.flags.v == st.flags.v
    ensures ConditionPassed(st.flags, GetCond(instr)) && GetBit(instr, 20) == 1 ==> st'.flags.n == 0
  {
    if ConditionPassed(st.flags, GetCond(instr)) then
      var res := Product(st.regs, instr);
      st.(regs := st.regs[RegField(instr, 16) := res], flags := if GetBit(instr, 20) == 1 then ResultFlags(st.flags, res) else st.flags)
    else
      st
  }

  /** DecodeMul when the condition passes, for the MLA and the MUL form. */
  lemma DecodeMulEffect(st: State, instr: Word)
    ensures ConditionPassed(st.flags, GetCond(instr)) && GetBit(instr, 21) == 1 ==>
      DecodeMul(st, instr) == st.(regs := st.regs[RegField(instr, 16) := MlaResult(LowByte(st.regs[RegField(instr, 0)]), LowByte(st.regs[RegField(instr, 8)]), LowByte(st.regs[RegField(instr, 12)]))],
                                  flags := if GetBit(instr, 20) != 0 then ResultFlags(st.flags, MlaResult(LowByte(st.regs[RegField(instr, 0)]), LowByte(st.regs[RegField(instr, 8)]), LowByte(st.regs[RegField(instr, 12)]))) else st.flags)
    ensures ConditionPassed(st.flags, GetCond(instr)) && GetBit(instr, 21) == 0 ==>
      DecodeMul(st, instr) == st.(regs := st.regs[RegField(instr, 16) := MulResult(LowByte(st.regs[RegField(instr, 0)]), LowByte(st.regs[RegField(instr, 8)]))],
                                  flags := if GetBit(instr, 20) != 0 then ResultFlags(st.flags, MulResult(LowByte(st.regs[RegField(instr, 0)]), LowByte(st.regs[RegField(instr, 8)]))) else st.flags)
  {
  }

  /**
   * The displacement decode_branch adds to PC: the 24-bit immediate shifted
   * left by two, with 0xFF000000 or'ed in when its bit 23 is set.
   */
  function BranchOffset(instr: Word): (r: Word)
    ensures r & 3 == 0
  {
    var imm := GetBits(instr, 0, 24);
    (if GetBit(imm, 23) == 1 then 0xFF00_0000 else 0) | (imm << 2)
  }

  /** The displacement the immediate denotes when sign-extended to 30 bits and shifted left by two. */
  function SignExtendedOffset(instr: Word): Word
  {
    var imm := GetBits(instr, 0, 24);
    (if GetBit(instr, 23) == 1 then imm | 0xFF00_0000 else imm) << 2
  }

  /**
   * BranchOffset is the sign-extended displacement when bit 23 of the
   * immediate is clear or bit 22 is set.
   */
  lemma BranchOffsetSignExtends(instr: Word)
    requires GetBit(instr, 23) == 0 || GetBit(instr, 22) == 1
    ensures BranchOffset(instr) == SignExtendedOffset(instr)
  {
    if GetBit(instr, 23) == 0 {
      BranchOffsetForward(instr);
    } else {
      BranchOffsetBackward(instr);
    }
  }

  /** A forward branch (bit 23 clear): both are the immediate shifted left by two. */
  lemma BranchOffsetForward(instr: Word)
    requires GetBit(instr, 23) == 0
    ensures BranchOffset(instr) == SignExtendedOffset(instr)
  {
  }

  /** A backward branch with bit 22 set: bits 24 and 25 of the shifted immediate are set already. */
  lemma BranchOffsetBackward(instr: Word)
    requires GetBit(instr, 23) == 1 && GetBit(instr, 22) == 1
    ensures BranchOffset(instr) == SignExtendedOffset(instr)
  {
  }

  /**
   * When bit 23 is set and bit 22 is clear, bit 24 of BranchOffset is set
   * as well: the branch lands 16 MiB further on than the sign-extended
   * displacement says.
   */
  lemma BranchOffsetOverflows(instr: Word)
    requires GetBit(instr, 23) == 1 && GetBit(instr, 22) == 0
    ensures BranchOffset(instr) == SignExtendedOffset(instr) + 0x0100_0000
  {
  }

  /** The immediate 0x800000 (the most negative displacement) shows the difference. */
  lemma BranchOffsetExample()
    ensures BranchOffset(0xEA80_0000) == 0xFF00_0000
    ensures SignExtendedOffset(0xEA80_0000) == 0xFE00_0000
  {
  }

  /** Where a branch goes: PC, already past the branch, plus the displacement plus 4. */
  function BranchTarget(pc: Word, offset: Word): Word
  {
    pc + offset + 4
  }

  /**
   * decode_branch: when the condition passes, BL first saves PC + 4 in LR,
   * then PC (already advanced past the branch) moves by the displacement plus 4.
   */
  function DecodeBranch(st: State, instr: Word): (st': State)
    ensures !ConditionPassed(st.flags, GetCond(instr)) ==> st' == st
    ensures ConditionPassed(st.flags, GetCond(instr)) ==> st'.regs[R_PC] == st.regs[R_PC] + BranchOffset(instr) + 4
    ensures ConditionPassed(st.flags, GetCond(instr)) && GetBit(instr, 24) == 1 ==> st'.regs[R_LR] == st.regs[R_PC] + 4
    ensures GetBit(instr, 24) == 0 ==> st'.regs[R_LR] == st.regs[R_LR]
    ensures forall i :: 0 <= i < R_LR ==> st'.regs[i] == st.regs[i]
    ensures st'.flags == st.flags && st'.mem == st.mem
  {
    if ConditionPassed(st.flags, GetCond(instr)) then
      var target := BranchTarget(st.regs[R_PC], BranchOffset(instr));
      var regs := if GetBit(instr, 24) == 1 then st.regs[R_LR := st.regs[R_PC] + 4] else st.regs;
      st.(regs := regs[R_PC := target])
    else
      st
  }

  /** DecodeBranch when the condition passes: LR first for BL, then PC. */
  lemma DecodeBranchEffect(st: State, instr: Word)
    ensures ConditionPassed(st.flags, GetCond(instr)) ==>
      DecodeBranch(st, instr) ==
        st.(regs := (if GetBit(instr, 24) == 1 then st.regs[R_LR := st.regs[R_PC] + 4] else st.regs)[R_PC := BranchTarget(st.regs[R_PC], BranchOffset(instr))])
  {
  }

  /** A branch whose immediate is -1 (0xFFFFFF), fetched at 0x100, continues at 0x104. */
  lemma BranchMinusOneExample(st: State)
    requires st.regs[R_PC] == 0x104
    ensures DecodeBranch(st, 0xEAFF_FFFF).regs[R_PC] == 0x104
  {
  }

  /**
   * A load/store word is modelled when its 12-bit offset field, where it is
   * read as a register number (I and P set), names one of the sixteen registers.
   */
  predicate LsDefined(instr: Word)
  {
    GetBit(instr, 25) == 1 && GetBit(instr, 24) == 1 ==> GetBits(instr, 0, 12) < 16
  }

  /** Rn's value moved up (U set) or down by the offset. */
  function Indexed(base: Word, up: bool, offset: Word): Word
  {
    if up then AddResult(base, offset) else SubResult(base, offset)
  }

  /**
   * The offset of a pre-indexed access (P set): the 12-bit immediate, or
   * with I set the register it names, where R15 reads as PC + 8 unless W is
   * set.
   */
  function LsOffset(regs: Registers, instr: Word): (offset: Word)
    requires LsDefined(instr) && GetBit(instr, 24) == 1
    ensures GetBit(instr, 25) == 0 ==> offset == GetBits(instr, 0, 12)
    ensures GetBit(instr, 25) == 1 && (GetBit(instr, 21) == 1 || GetBits(instr, 0, 12) != 15) ==>
      offset == regs[GetBits(instr, 0, 12) as int]
  {
    var imm := GetBits(instr, 0, 12);
    if GetBit(instr, 25) == 0 then imm
    else if GetBit(instr, 21) == 0 && imm == 15 then regs[R_PC] + 8
    else regs[imm as int]
  }

  /**
   * The address decode_ls computes.  With P set it is Rn moved by the
   * offset.  With P clear it is the register number Rn itself when W is
   * clear, and 0 when W is set.
   */
  function LsAddress(regs: Registers, instr: Word): (addr: Word)
    requires LsDefined(instr)
    ensures GetBit(instr, 24) == 0 && GetBit(instr, 21) == 0 ==> addr == GetBits(instr, 16, 4)
    ensures GetBit(instr, 24) == 0 && GetBit(instr, 21) == 1 ==> addr == 0
    ensures GetBit(instr, 24) == 1 ==> addr == Indexed(regs[RegField(instr, 16)], GetBit(instr, 23) == 1, LsOffset(regs, instr))
  {
    if GetBit(instr, 24) == 1 then
      var offset := LsOffset(regs, instr);
      Indexed(regs[RegField(instr, 16)], GetBit(instr, 23) == 1, offset)
    else if GetBit(instr, 21) == 0 then
      GetBits(instr, 16, 4)
    else
      0
  }

  /** A register-offset load/store with P set and W clear reads R15 as PC + 8. */
  lemma LsProgramCounterOffset(regs: Registers, instr: Word)
    requires GetBits(instr, 0, 12) == 15
    requires GetBit(instr, 25) == 1 && GetBit(instr, 24) == 1 && GetBit(instr, 21) == 0
    ensures LsOffset(regs, instr) == regs[R_PC] + 8
  {
  }

  /** The word with bits 0 and 1 cleared. */
  function WordAligned(v: Word): (r: Word)
    ensures r & 3 == 0
  {
    v & 0xFFFF_FFFC
  }

  /** The value an LDR writes to Rd: the loaded word, with bits 0-1 cleared when Rd is PC. */
  function Loaded(m: Memory, addr: Word, rd: nat): Word
  {
    var v := LoadWord(m, AddrOf(addr));
    if rd == R_PC then WordAligned(v) else v
  }

  /** The registers after the write-back of a pre-indexed access with W set: Rn receives the address. */
  function LsWriteBack(regs: Registers, instr: Word, addr: Word): Registers
  {
    if GetBit(instr, 24) == 1 && GetBit(instr, 21) == 1 then regs[RegField(instr, 16) := addr] else regs
  }

  /**
   * The four bytes a store writes.  The source stores the bytes at `&rd`:
   * the register number Rd, followed by three bytes of whatever lies beyond
   * it, given here as `stray`.
   */
  function StoredBytes(instr: Word, stray: seq<Byte>): (bytes: seq<Byte>)
    requires |stray| == 3
    ensures |bytes| == 4 && bytes[0] == GetBits(instr, 12, 4) as Byte && bytes[1..] == stray
  {
    [GetBits(instr, 12, 4) as Byte] + stray
  }

  /**
   * decode_ls: when the condition passes, a pre-indexed access with W set
   * first writes the address back to Rn; then L loads the word at the
   * address into Rd, and otherwise four bytes are stored there.  The flags
   * never change, and a load leaves the memory as it was.
   */
  function DecodeLs(st: State, instr: Word, stray: seq<Byte>): (st': State)
    requires LsDefined(instr) && |stray| == 3
    ensures st'.flags == st.flags
    ensures !ConditionPassed(st.flags, GetCond(instr)) ==> st' == st
    ensures GetBit(instr, 20) == 1 ==> st'.mem == st.mem
    ensures forall i :: 0 <= i < 16 && i != RegField(instr, 12) && i != RegField(instr, 16) ==> st'.regs[i] == st.regs[i]
  {
    if ConditionPassed(st.flags, GetCond(instr)) then
      var addr := LsAddress(st.regs, instr);
      var regs := LsWriteBack(st.regs, instr, addr);
      if GetBit(instr, 20) == 1 then
        st.(regs := regs[RegField(instr, 12) := Loaded(st.mem, addr, RegField(instr, 12))])
      else
        st.(regs := regs, mem := StoreBytes(st.mem, AddrOf(addr), StoredBytes(instr, stray)))
    else
      st
  }

  /** A load that runs writes the loaded word, bits 0-1 cleared for PC, to Rd. */
  lemma DecodeLsLoads(st: State, instr: Word, stray: seq<Byte>)
    requires LsDefined(instr) && |stray| == 3
    requires ConditionPassed(st.flags, GetCond(instr)) && GetBit(instr, 20) == 1
    ensures DecodeLs(st, instr, stray).regs[RegField(instr, 12)] == Loaded(st.mem, LsAddress(st.regs, instr), RegField(instr, 12))
  {
  }

  /** A load that runs writes the address back first, then the loaded word to Rd. */
  lemma DecodeLsLoadState(st: State, instr: Word, stray: seq<Byte>)
    requires LsDefined(instr) && |stray| == 3
    requires ConditionPassed(st.flags, GetCond(instr)) && GetBit(instr, 20) == 1
    ensures DecodeLs(st, instr, stray) ==
      st.(regs := LsWriteBack(st.regs, instr, LsAddress(st.regs, instr))[RegField(instr, 12) := Loaded(st.mem, LsAddress(st.regs, instr), RegField(instr, 12))])
  {
  }

  /** A store that runs writes the stored bytes at the address, after the write-back. */
  lemma DecodeLsStoreState(st: State, instr: Word, stray: seq<Byte>)
    requires LsDefined(instr) && |stray| == 3
    requires ConditionPassed(st.flags, GetCond(instr)) && GetBit(instr, 20) == 0
    ensures DecodeLs(st, instr, stray) ==
      st.(regs := LsWriteBack(st.regs, instr, LsAddress(st.regs, instr)),
          mem := StoreBytes(st.mem, AddrOf(LsAddress(st.regs, instr)), StoredBytes(instr, stray)))
  {
  }

  /** After the four stored bytes are written at `a`, the byte at `a` is the register number Rd. */
  lemma StoredBytesFirst(m: Memory, a: Addr, instr: Word, stray: seq<Byte>)
    requires |stray| == 3
    ensures Load(StoreBytes(m, a, StoredBytes(instr, stray)), a) == GetBits(instr, 12, 4) as Byte
  {
    StoreThenLoad(m, a, StoredBytes(instr, stray), 0);
    assert Wrap(a + 0) == a;
  }

  /**
   * A store that runs leaves the register number Rd in the byte at the
   * address, and writes no register when P or W is clear.
   */
  lemma DecodeLsStores(st: State, instr: Word, stray: seq<Byte>)
    requires LsDefined(instr) && |stray| == 3
    requires ConditionPassed(st.flags, GetCond(instr)) && GetBit(instr, 20) == 0
    ensures Load(DecodeLs(st, instr, stray).mem, AddrOf(LsAddress(st.regs, instr))) == GetBits(instr, 12, 4) as Byte
    ensures GetBit(instr, 24) == 0 || GetBit(instr, 21) == 0 ==> DecodeLs(st, instr, stray).regs == st.regs
  {
    DecodeLsStoreState(st, instr, stray);
    StoredBytesFirst(st.mem, AddrOf(LsAddress(st.regs, instr)), instr, stray);
  }

  /** Without write-back (P or W clear), a load changes no register but Rd. */
  lemma DecodeLsNoWriteBack(st: State, instr: Word, stray: seq<Byte>)
    requires LsDefined(instr) && |stray| == 3
    requires GetBit(instr, 24) == 0 || GetBit(instr, 21) == 0
    ensures forall i :: 0 <= i < 16 && i != RegField(instr, 12) ==> DecodeLs(st, instr, stray).regs[i] == st.regs[i]
  {
  }

  /**
   * A pre-indexed access with write-back (P and W set) that runs leaves in
   * Rn the address it used, and moving that address back by the offset
   * gives the old Rn.  (A load into Rn itself overwrites the write-back;
   * DecodeLsLoads says what Rn then holds.)
   */
  lemma DecodeLsWriteBack(st: State, instr: Word, stray: seq<Byte>)
    requires LsDefined(instr) && |stray| == 3
    requires ConditionPassed(st.flags, GetCond(instr)) && GetBit(instr, 24) == 1 && GetBit(instr, 21) == 1
    requires GetBit(instr, 20) == 0 || RegField(instr, 12) != RegField(instr, 16)
    ensures DecodeLs(st, instr, stray).regs[RegField(instr, 16)] == LsAddress(st.regs, instr)
    ensures Indexed(DecodeLs(st, instr, stray).regs[RegField(instr, 16)], GetBit(instr, 23) == 0, LsOffset(st.regs, instr))
      == st.regs[RegField(instr, 16)]
  {
    var rn, addr := RegField(instr, 16), LsAddress(st.regs, instr);
    if GetBit(instr, 20) == 1 {
      DecodeLsLoadState(st, instr, stray);
    } else {
      DecodeLsStoreState(st, instr, stray);
    }
    assert DecodeLs(st, instr, stray).regs[rn] == addr;
    IndexedUndo(st.regs[rn], GetBit(instr, 23) == 1, LsOffset(st.regs, instr));
  }

  /** Moving an address back the other way by the same offset returns to the base, modulo 2^32. */
  lemma IndexedUndo(base: Word, up: bool, offset: Word)
    ensures Indexed(Indexed(base, up, offset), !up, offset) == base
  {
    if up {
      assert Indexed(base, up, offset) == base + offset;
    } else {
      assert Indexed(base, up, offset) == base - offset;
    }
  }

  /** decode_swi: SVC's answer for the 24-bit service number when the condition passes, else 0. */
  function DecodeSwi(st: State, instr: Word): (halt: Byte)
    ensures halt == 1 <==> ConditionPassed(st.flags, GetCond(instr)) && GetBits(instr, 0, 24) == 0
    ensures halt <= 1
  {
    if ConditionPassed(st.flags, GetCond(instr)) then Svc(GetBits(instr, 0, 24)) else 0
  }

  /** The word at PC. */
  function Fetch(st: State): Word
  {
    LoadWord(st.mem, AddrOf(st.regs[R_PC]))
  }

  /** Where the fetched word is a load/store, it is one the model covers. */
  predicate StepDefined(st: State)
  {
    GetInstructionType(Fetch(st)) == LoadStore ==> LsDefined(Fetch(st))
  }

  /** The state after one step, and whether the emulator halts. */
  datatype Outcome = Outcome(next: State, halt: bool)

  /**
   * The switch of the emulate loop: run the handler for the word's family.
   * Only a software interrupt whose condition passes and whose service
   * number is 0 halts; an unknown word changes nothing.
   */
  function Execute(st: State, instr: Word, stray: seq<Byte>): (o: Outcome)
    requires (GetInstructionType(instr) == LoadStore ==> LsDefined(instr)) && |stray| == 3
    ensures o.halt <==>
      GetInstructionType(instr) == SoftwareInterrupt && ConditionPassed(st.flags, GetCond(instr)) && GetBits(instr, 0, 24) == 0
    ensures GetInstructionType(instr) == Unknown ==> o.next == st
    ensures GetInstructionType(instr) != LoadStore ==> o.next.mem == st.mem
  {
    match GetInstructionType(instr)
    case DataProcessing => Outcome(DecodeDp(st, instr), false)
    case Multiply => Outcome(DecodeMul(st, instr), false)
    case Branch => Outcome(DecodeBranch(st, instr), false)
    case LoadStore => Outcome(DecodeLs(st, instr, stray), false)
    case SoftwareInterrupt => Outcome(st, DecodeSwi(st, instr) != 0)
    case Unknown => Outcome(st, false)
  }

  /** The state with PC moved past the fetched word. */
  function Advance(st: State): (st': State)
    ensures st'.flags == st.flags && st'.mem == st.mem
    ensures st'.regs[R_PC] == st.regs[R_PC] + 4
    ensures forall i :: 0 <= i < R_PC ==> st'.regs[i] == st.regs[i]
  {
    st.(regs := st.regs[R_PC := st.regs[R_PC] + 4])
  }

  /**
   * One iteration of the emulate loop: fetch the word at PC, advance PC by
   * 4, then run the handler for the word's family.
   */
  function Step(st: State, stray: seq<Byte>): (o: Outcome)
    requires StepDefined(st) && |stray| == 3
    ensures o.halt <==>
      GetInstructionType(Fetch(st)) == SoftwareInterrupt && ConditionPassed(st.flags, GetCond(Fetch(st))) && GetBits(Fetch(st), 0, 24) == 0
    ensures GetInstructionType(Fetch(st)) == Unknown ==> o.next == Advance(st)
    ensures GetInstructionType(Fetch(st)) != LoadStore ==> o.next.mem == st.mem
  {
    Execute(Advance(st), Fetch(st), stray)
  }

  /**
   * A two-word program: MOV R0, #5 at address 0 and SWI 0 at address 4,
   * with every register and flag 0.
   */
  function MovThenHaltProgram(): State
  {
    State(seq(16, _ => 0), Flags(0, 0, 0, 0),
          StoreBytes(StoreBytes(map[], 0, WordBytes(0xE3A0_0005)), 4, WordBytes(0xEF00_0000)))
  }

  /** The program's two words, fetched back from memory. */
  lemma MovThenHaltWords()
    ensures LoadWord(MovThenHaltProgram().mem, 0) == 0xE3A0_0005
    ensures LoadWord(MovThenHaltProgram().mem, 4) == 0xEF00_0000
  {
    var m1 := StoreBytes(map[], 0, WordBytes(0xE3A0_0005));
    StoreWordThenLoadWord(map[], 0, 0xE3A0_0005);
    StoreWordThenLoadWord(m1, 4, 0xEF00_0000);
    StoreBytesEffect(m1, 4, WordBytes(0xEF00_0000), 0);
    StoreBytesEffect(m1, 4, WordBytes(0xEF00_0000), 1);
    StoreBytesEffect(m1, 4, WordBytes(0xEF00_0000), 2);
    StoreBytesEffect(m1, 4, WordBytes(0xEF00_0000), 3);
  }

  /** The fields of MOV R0, #5: always executed, immediate 5 unrotated, opcode MOV, S clear, Rd R0. */
  lemma MovFields()
    ensures GetInstructionType(0xE3A0_0005) == DataProcessing
    ensures GetCond(0xE3A0_0005) == COND_AL
    ensures GetBit(0xE3A0_0005, 25) == 1 && GetBit(0xE3A0_0005, 20) == 0
    ensures GetBits(0xE3A0_0005, 21, 4) == OP_MOV
    ensures RegField(0xE3A0_0005, 16) == 0 && RegField(0xE3A0_0005, 12) == 0
  {
    assert Mask(1) == 1 && Mask(4) == 15;
  }

  /** MOV R0, #5 sets R0 to 5 whatever the machine holds. */
  lemma MovExecutes(st: State)
    ensures DecodeDp(st, 0xE3A0_0005) == st.(regs := st.regs[0 := 5])
  {
    MovFields();
    assert ImmediateOperand(0xE3A0_0005) == 5 by {
      assert Mask(12) == 0xFFF && Mask(8) == 0xFF;
      assert GetBits(0xE3A0_0005, 0, 12) == 5;
    }
  }

  /** SWI 0 is a software interrupt that always runs and asks for a halt. */
  lemma SwiZeroHalts(st: State)
    ensures GetInstructionType(0xEF00_0000) == SoftwareInterrupt
    ensures DecodeSwi(st, 0xEF00_0000) == 1
  {
    assert Mask(2) == 3 && Mask(4) == 15 && Mask(24) == 0xFF_FFFF;
  }

  /** A step that fetches MOV R0, #5 advances PC and sets R0 to 5. */
  lemma MovStep(st: State, stray: seq<Byte>)
    requires Fetch(st) == 0xE3A0_0005 && |stray| == 3
    ensures StepDefined(st)
    ensures Step(st, stray) == Outcome(Advance(st).(regs := Advance(st).regs[0 := 5]), false)
  {
    MovFields();
    MovExecutes(Advance(st));
  }

  /** A step that fetches SWI 0 advances PC and halts. */
  lemma SwiStep(st: State, stray: seq<Byte>)
    requires Fetch(st) == 0xEF00_0000 && |stray| == 3
    ensures StepDefined(st)
    ensures Step(st, stray) == Outcome(Advance(st), true)
  {
    SwiZeroHalts(Advance(st));
  }

  /**
   * Running the program: the first step moves 5 into R0 and does not halt,
   * the second halts, with R0 still 5 -- two fetches in all.
   */
  lemma MovThenHaltRuns(stray: seq<Byte>)
    requires |stray| == 3
    ensures StepDefined(MovThenHaltProgram())
    ensures !Step(MovThenHaltProgram(), stray).halt
    ensures Step(MovThenHaltProgram(), stray).next.regs[0] == 5
    ensures Step(MovThenHaltProgram(), stray).next.regs[R_PC] == 4
    ensures StepDefined(Step(MovThenHaltProgram(), stray).next)
    ensures Step(Step(MovThenHaltProgram(), stray).next, stray).halt
    ensures Step(Step(MovThenHaltProgram(), stray).next, stray).next.regs[0] == 5
  {
    MovThenHaltWords();
    var st := MovThenHaltProgram();
    MovStep(st, stray);
    var st1 := Step(st, stray).next;
    assert st1.mem == st.mem && st1.regs[R_PC] == 4;
    SwiStep(st1, stray);
  }
}
