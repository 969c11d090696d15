/**
 * The emulator's machine as src/emu.c keeps it: the global arrays
 * `registers[16]` and `flags[4]` and the byte memory, updated in place by
 * the decode handlers.  Every method is proved to leave the machine in the
 * state the corresponding function of the Exec module describes.
 */
module Machine {
  import opened Bits
  import opened ByteMemory
  import opened Rotate
  import opened Alu
  import Exec

  class Cpu {
    /** R0 .. R15; R14 is LR and R15 is PC. */
    const registers: array<Word>
    /** The flag bytes, indexed by F_N, F_Z, F_C and F_V. */
    const flags: array<Byte>
    const memory: ByteStore

    predicate Valid()
    {
      registers.Length == 16 && flags.Length == 4
    }

    /** The machine state the arrays and the memory hold. */
    function Snapshot(): Exec.State
      requires Valid()
      reads registers, flags, memory
    {
      Exec.State(registers[..], FlagsOf(flags[..]), memory.cells)
    }

    /** The globals at start-up: every register and flag 0, the memory empty. */
    constructor ()
      ensures Valid()
      ensures Snapshot() == Exec.State(seq(16, _ => 0), Flags(0, 0, 0, 0), map[])
      ensures fresh(registers) && fresh(flags) && fresh(memory)
    {
      registers := new Word[16](_ => 0);
      flags := new Byte[4](_ => 0);
      memory := new ByteStore();
    }

    /** execute_dp_instruction: dispatches the opcode to its ALU primitive. */
    method ExecuteDpInstruction(opcode: Word, s: Byte, rn: nat, rd: nat, operand: Word)
      requires Valid() && rn < 16 && rd < 16
      modifies registers, flags
      ensures Snapshot() == Exec.ExecuteDp(old(Snapshot()), opcode, s, rn, rd, operand)
    {
      Exec.ExecuteDpTable(Snapshot(), opcode, s, rn, rd, operand);
      Exec.ExecuteDpSpecialOpcodes(Snapshot(), opcode, s, rn, rd, operand);
      if opcode == Exec.OP_AND {
        var res := And(flags, s, registers[rn], operand);
        registers[rd] := res;
      } else if opcode == Exec.OP_EOR {
        var res := Eor(flags, s, registers[rn], operand);
        registers[rd] := res;
      } else if opcode == Exec.OP_SUB {
        var res := Sub(flags, s, registers[rn], operand);
        registers[rd] := res;
      } else if opcode == Exec.OP_ADD {
        var res := Add(flags, s, registers[rn], operand);
        registers[rd] := res;
      } else if opcode == Exec.OP_CMP {
        Cmp(flags, registers[rn], operand);
      } else if opcode == Exec.OP_ORR {
        var res := Orr(flags, s, registers[rn], operand);
        registers[rd] := res;
      } else if opcode == Exec.OP_MOV {
        registers[rd] := Mov(operand);
      } else if opcode == Exec.OP_BIC {
        var res := Bic(flags, s, registers[rn], operand);
        registers[rd] := res;
      }
    }

    /** shift_operand: reads the registers and changes nothing. */
    method ShiftOperand(instr: Word) returns (r: Word)
      requires Valid()
      ensures r == Exec.ShiftOperand(registers[..], instr)
    {
      var code := GetBits(instr, 4, 3);
      if code == Exec.SHIFT_LSL_I {
        var shift := GetBits(instr, 7, 5);
        var val := LowByte(registers[Exec.RegField(instr, 0)]);
        r := Exec.ShiftLeft(val, shift);
      } else if code == Exec.SHIFT_LSL_R {
        var shift := LowByte(registers[Exec.RegField(instr, 8)]);
        var val := LowByte(registers[Exec.RegField(instr, 0)]);
        if shift >= 32 {
          r := 0;
        } else {
          r := Exec.ShiftLeft(val, shift as Word);
        }
      } else if code == Exec.SHIFT_LSR_I {
        var shift := GetBits(instr, 7, 5);
        var val := LowByte(registers[Exec.RegField(instr, 0)]);
        r := Exec.ShiftRight(val, shift);
      } else if code == Exec.SHIFT_LSR_R {
        var shift := LowByte(registers[Exec.RegField(instr, 8)]);
        var val := LowByte(registers[Exec.RegField(instr, 0)]);
        if shift >= 32 {
          r := 0;
        } else {
          r := Exec.ShiftRight(val, shift as Word);
        }
      } else {
        r := registers[Exec.RegField(instr, 0)];
      }
    }

    /**
     * decode_dp: the operand is the rotated immediate when bit 25 is set and
     * the shifted register otherwise; the instruction runs only when its
     * condition passes.
     */
    method DecodeDp(instr: Word)
      requires Valid()
      modifies registers, flags
      ensures Snapshot() == Exec.DecodeDp(old(Snapshot()), instr)
    {
      var op := GetBits(instr, 21, 4);
      var s := GetBit(instr, 20);
      var rn := Exec.RegField(instr, 16);
      var rd := Exec.RegField(instr, 12);
      var operand;
      if GetBit(instr, 25) == 1 {
        var imm := GetBits(instr, 0, 12);
        operand := RotateRight(((imm >> 8) * 2) as Byte, imm & 0xFF);
      } else {
        operand := ShiftOperand(instr);
      }
      var cond := GetCond(instr);
      if ConditionPassed(FlagsOf(flags[..]), cond) {
        ExecuteDpInstruction(op, s, rn, rd, operand);
      }
    }

    /** decode_multiplication: MLA when bit 21 is set, MUL otherwise, on the registers' low bytes. */
    method DecodeMultiplication(instr: Word)
      requires Valid()
      modifies registers, flags
      ensures Snapshot() == Exec.DecodeMul(old(Snapshot()), instr)
    {
      Exec.DecodeMulEffect(Snapshot(), instr);
      var rd := Exec.RegField(instr, 16);
      var rn := Exec.RegField(instr, 12);
      var rs := Exec.RegField(instr, 8);
      var rm := Exec.RegField(instr, 0);
      var cond := GetCond(instr);
      var s := GetBit(instr, 20);
      if ConditionPassed(FlagsOf(flags[..]), cond) {
        if GetBit(instr, 21) == 1 {
          var res := Mla(flags, s, LowByte(registers[rm]), LowByte(registers[rs]), LowByte(registers[rn]));
          registers[rd] := res;
        } else {
          var res := Mul(flags, s, LowByte(registers[rm]), LowByte(registers[rs]));
          registers[rd] := res;
        }
      }
    }

    /** decode_branch: BL saves PC + 4 in LR, then PC moves by the displacement plus 4. */
    method DecodeBranch(instr: Word)
      requires Valid()
      modifies registers
      ensures Snapshot() == Exec.DecodeBranch(old(Snapshot()), instr)
    {
      Exec.DecodeBranchEffect(Snapshot(), instr);
      var l := GetBit(instr, 24);
      var cond := GetCond(instr);
      var address := Exec.BranchOffset(instr);
      if ConditionPassed(FlagsOf(flags[..]), cond) {
        if l == 1 {
          registers[Exec.R_LR] := registers[Exec.R_PC] + 4;
        }
        registers[Exec.R_PC] := Exec.BranchTarget(registers[Exec.R_PC], address);
      }
    }

    /**
     * decode_ls: computes the address by the P and W bits, writes it back to
     * Rn for a pre-indexed access with W set, then loads into Rd or stores
     * the four bytes at `&rd`, the last three of which are `stray`.
     */
    method DecodeLs(instr: Word, stray: seq<Byte>)
      requires Valid() && Exec.LsDefined(instr) && |stray| == 3
      modifies registers, memory
      ensures Snapshot() == Exec.DecodeLs(old(Snapshot()), instr, stray)
    {
      ghost var st := Snapshot();
      var cond := GetCond(instr);
      var rn := Exec.RegField(instr, 16);
      var rd := Exec.RegField(instr, 12);
      var p := GetBit(instr, 24);
      var w := GetBit(instr, 21);
      var l := GetBit(instr, 20);
      var addr := Exec.LsAddress(registers[..], instr);
      if p == 1 && w == 1 && ConditionPassed(FlagsOf(flags[..]), cond) {
        registers[rn] := addr;
      }
      assert registers[..] == if ConditionPassed(st.flags, cond) then Exec.LsWriteBack(st.regs, instr, addr) else st.regs;
      if ConditionPassed(FlagsOf(flags[..]), cond) {
        if l == 1 {
          Exec.DecodeLsLoadState(st, instr, stray);
          // The source writes the word to Rd and then masks R15; the result is the same.
          var v := memory.Load32(AddrOf(addr));
          if rd == Exec.R_PC {
            v := Exec.WordAligned(v);
          }
          registers[rd] := v;
        } else {
          Exec.DecodeLsStoreState(st, instr, stray);
          memory.Store(AddrOf(addr), Exec.StoredBytes(instr, stray));
        }
      }
    }

    /** decode_swi: SVC's answer when the condition passes, 0 otherwise. */
    method DecodeSwi(instr: Word) returns (halt: Byte)
      requires Valid()
      ensures halt == Exec.DecodeSwi(Snapshot(), instr)
    {
      var cond := GetCond(instr);
      var immed := GetBits(instr, 0, 24);
      if ConditionPassed(FlagsOf(flags[..]), cond) {
        halt := Svc(immed);
      } else {
        halt := 0;
      }
    }

    /** The switch of the emulate loop, on an instruction already fetched. */
    method Execute(instr: Word, stray: seq<Byte>) returns (halt: bool)
      requires Valid() && (GetInstructionType(instr) == LoadStore ==> Exec.LsDefined(instr)) && |stray| == 3
      modifies registers, flags, memory
      ensures Exec.Execute(old(Snapshot()), instr, stray) == Exec.Outcome(Snapshot(), halt)
    {
      halt := false;
      match GetInstructionType(instr)
      case DataProcessing =>
        DecodeDp(instr);
      case Multiply =>
        DecodeMultiplication(instr);
      case Branch =>
        DecodeBranch(instr);
      case LoadStore =>
        DecodeLs(instr, stray);
      case SoftwareInterrupt =>
        var h := DecodeSwi(instr);
        if h != 0 {
          halt := true;
        }
      case Unknown =>
    }

    /**
     * One iteration of emulate's loop: fetch the word at PC, advance PC by
     * 4 and run the handler of the word's family; `halt` reports a software
     * interrupt that stops the emulator.
     */
    method Step(stray: seq<Byte>) returns (halt: bool)
      requires Valid() && Exec.StepDefined(Snapshot()) && |stray| == 3
      modifies registers, flags, memory
      ensures Exec.Step(old(Snapshot()), stray) == Exec.Outcome(Snapshot(), halt)
    {
      var instr := memory.Load32(AddrOf(registers[Exec.R_PC]));
      registers[Exec.R_PC] := registers[Exec.R_PC] + 4;
      assert Snapshot() == Exec.Advance(old(Snapshot()));
      halt := Execute(instr, stray);
    }
  }
}
