# arm-emu in Dafny

A model of the core of `arm-emu`, a small emulator for an ARM-like 32-bit
CPU, together with proofs about it. The model covers:

- **Bit fields and classification** (`bits.dfy`, module `Bits`). These are
  `get_bits`, `get_bit`, `get_cond` and `get_instruction_type`. Words are
  `bv32` and bytes are `bv8`.
- **Byte memory** (`memory.dfy`, module `ByteMemory`). These are `store`,
  `load` and `load32`. The hash table behind them becomes a
  `map<Addr, Byte>`, with `Addr` the integers `0 .. 2^32-1`. The class
  `ByteStore` holds that map and updates it in place, as the source does.
- **Condition evaluation and the ALU** (`alu.dfy`, module `Alu`, and
  `rotate.dfy`, module `Rotate`). The flags are four bytes N, Z, C, V, not
  booleans. Each primitive that writes flags is a method on a four-byte
  array. A function states the flags it leaves behind.
- **The execution unit** (`exec.dfy`, module `Exec`). Each `decode_*`
  handler and one iteration of the `emulate` loop are functions from the
  machine state before to the state after. The state is the sixteen
  registers, the flag bytes and the memory.
- **The machine** (`cpu.dfy`, module `Machine`). The class `Cpu` holds the
  globals `registers[16]`, `flags[4]` and `memory`. Its handler methods
  mutate them in place. Each method is proved to reach the state that the
  matching `Exec` function describes.
- **The linked list** (`list.dfy`, module `LinkedList`). This is the
  bucket chain of the hash table. A `List` holds real `Node` objects with
  `next` pointers, plus the `start`, `end` and `current` cursors and the
  `size` counter. A ghost sequence of nodes and a ghost cursor index give
  its abstract value.

The model follows the C code where it departs from the ARM Architecture
Reference Manual (ARMv5):

- `CarryFrom` and `BorrowFrom` are always 0, because the sum or difference
  wraps in 32 bits before the comparison. So ADD with S clears C, and SUB
  with S sets C.
- `BIC` applies the logical `!` to its operand. Its result is bit 0 of Rn
  when the operand is 0, and 0 otherwise.
- `CMP` always writes all four flags:
  - N is 0xFF for a negative difference, from the arithmetic shift of
    `int32_t` by 31.
  - C is `CarryFrom`, so always 0.
  - V is the addition overflow test.
- `MUL` and `MLA` take `uint8_t` parameters. They multiply the low bytes of
  the registers, so the result is at most 65280 and N is always 0.
- `shift_operand` shifts the low byte of Rm, because `val` is a `uint8_t`.
- A branch saves PC + 4 in LR. PC is already past the branch, so this is
  the address two instructions on. The new PC is that PC plus the
  displacement plus 4.
- The displacement is `(imm24 << 2) | 0xFF000000` when bit 23 is set.
  This is the sign-extended displacement only when bit 22 is also set.
  With bit 23 set and bit 22 clear, it is 16 MiB larger
  (`Exec.BranchOffsetOverflows`, `Exec.BranchOffsetExample`).
- Load/store addressing:
  - With P clear and W clear, the address is the register number Rn
    itself, and no register is written.
  - With P clear and W set, the address stays 0.
  - With P set and W set, a register offset of 15 reads R15 as it is.
    Only the offset form (P set, W clear) reads it as PC + 8.
- A store writes the four bytes at `&rd`. The first is the register number
  Rd, not the register's value. The other three are whatever lies beyond
  that byte in the C stack frame. The model takes them as the `stray`
  parameter of `DecodeLs`, `Execute` and `Step`.
- The condition table has no entry for NE or for the unsigned codes. Every
  code other than EQ, MI, PL, GE, LT, GT and LE passes.

## Model

| member | source | states |
|---|---|---|
| Bits.GetBits | src/common.c:66-71 | the extracted field is below 2^size |
| Bits.GetBitsHalves | src/common.c:66-71 | the low and high 16-bit fields, shifted back and joined, give the word again |
| Bits.GetBitsBranchFields | src/common.c:66-71 | the 24-bit immediate, bits 24-27 and the condition field, shifted back and joined, give the word again |
| Bits.GetBitsTransferFields | src/common.c:66-71 | the offset, Rd, Rn, bits 20-27 and condition fields, shifted back and joined, give the word again |
| Bits.GetBit | src/common.c:73-77 | the result is 0 or 1, and 1 exactly when bit n of the word is set |
| Bits.GetCond | src/common.c:79-84 | the result is below 16 and is bits 28-31 of the word |
| Bits.GetInstructionType | src/common.c:86-118 | each family holds exactly when bits 26-27 and its refining bits say so: MUL for 00 with 1001 in bits 4-7, DP for 00 otherwise, LS for 01, B for 10 with bit 25, SWI for 11 with bits 24-25 set, UNKNOWN for the rest |
| Rotate.RotateRight | src/instructions.c:110-118 | a rotation by a multiple of 32 returns the value |
| Rotate.RotateLeft | src/instructions.c:100-108 | a rotation by a multiple of 32 returns the value |
| Rotate.RotateLeftUndoesRight | src/instructions.c:100-118 | rotate_left undoes rotate_right by the same amount, for every amount and value |
| Rotate.RotateRightUndoesLeft | src/instructions.c:100-118 | rotate_right undoes rotate_left by the same amount, for every amount and value |
| ByteMemory.StoreBytesEffect | src/common.c:15-29 | after a store, an address is present iff it was present or lies within the stored range; it holds the byte at its offset in the range, and otherwise keeps its old byte (0 if never written) |
| ByteMemory.Load | src/common.c:34-50 | a written address reads its byte and an unwritten one reads 0x00 |
| ByteMemory.StoreBytes | src/common.c:16-29 | a store never removes an address, and a non-empty store makes its first address present |
| ByteMemory.StoreThenLoad | src/common.c:15-50 | loading address addr+k, wrapping mod 2^32, after a store gives data[k] |
| ByteMemory.LittleEndianRoundTrip | src/common.c:52-64 | splitting a word into its four little-endian bytes and joining them back loses nothing, both ways |
| ByteMemory.LoadWord | src/common.c:52-64 | the four little-endian bytes of the loaded word are the bytes at addr, addr+1, addr+2 and addr+3, wrapping mod 2^32 |
| ByteMemory.StoreWordThenLoadWord | src/common.c:52-64 | storing the four little-endian bytes of w and then calling load32 at the same address gives w |
| ByteMemory.AssembledWord | src/common.c:58-61 | four iterations of load32's shift-in loop from byte 3 down to byte 0 give b0, b1<<8, b2<<16 and b3<<24 or'ed together |
| ByteMemory.ByteStore.constructor | src/emu.c:544 | the memory starts empty |
| ByteMemory.ByteStore.Store | src/common.c:15-29 | the new memory is the old one with each byte written, in order, at its address |
| ByteMemory.ByteStore.Load8 | src/common.c:31-50 | a present address gives its byte, an absent one gives 0x00 |
| ByteMemory.ByteStore.Load32 | src/common.c:52-64 | the loop returns the little-endian word in the four bytes from addr on |
| Alu.ConditionPairs | src/instructions.c:16-45 | EQ passes iff Z is nonzero; MI and PL are complements; GE and LT are complements; GT implies GE; LE is the complement of GT while Z holds 0 or 1 |
| Alu.ConditionPassed | src/instructions.c:16-46 | every code other than EQ, MI, PL, GE, LT, GT and LE passes whatever the flags hold, AL and NE included |
| Alu.Mov | src/instructions.c:123-126 | MOV's result is its operand, whatever Rn and the flags hold |
| Alu.CarryFrom | src/instructions.c:48-56 | always 0 |
| Alu.BorrowFrom | src/instructions.c:58-68 | always 0 |
| Alu.OverflowFrom | src/instructions.c:70-98 | for an addition, 1 iff both operands have the same sign and the wrapped sum does not; for a subtraction, 1 iff a and the wrapped a - b differ in sign |
| Alu.SubtractionTestFlagsNoOverflow | src/instructions.c:88-95 | the subtraction test sets V for 5 - 10, which does not overflow |
| Alu.ResultFlags | src/instructions.c:169-174 | N is bit 31 of the result and Z is whether it is 0; C and V are unchanged |
| Alu.AddFlags | src/instructions.c:131-144 | ADD's flags: N and Z of the wrapped sum, C = 0, V the addition overflow test |
| Alu.SubFlags | src/instructions.c:149-162 | SUB's flags: N of the wrapped difference, Z iff the operands are equal, C = 1, V the subtraction test |
| Alu.CmpFlags | src/instructions.c:227-234 | CMP's flags: N = 0xFF for a negative difference and 0 otherwise, Z iff equal, C = 0, V the addition overflow test |
| Alu.CmpConditions | src/instructions.c:227-234 | after CMP, EQ passes iff the operands are equal, LT passes iff the difference is negative or the addition test fires, and GE is LT's complement |
| Alu.BicResult | src/instructions.c:211-223 | BIC's result is at most 1, and 1 iff the operand is 0 and bit 0 of rn is set |
| Alu.BicIsNotBitClear | src/instructions.c:213 | 0xF0 BIC 0x0F gives 0, not 0xF0 |
| Alu.MulResult | src/instructions.c:238-248 | the product of two bytes is at most 65025 and never negative |
| Alu.MlaResult | src/instructions.c:252-263 | the product of two bytes plus a byte is at most 65280 and never negative |
| Alu.Svc | src/instructions.c:268-290 | returns 1 (halt) iff the service number is 0, else 0 |
| Alu.Add | src/instructions.c:131-144 | returns the wrapped sum; with S the flags become AddFlags, without S they are unchanged |
| Alu.Sub | src/instructions.c:149-162 | returns the wrapped difference; with S the flags become SubFlags, without S they are unchanged |
| Alu.And | src/instructions.c:165-177 | returns rn & operand; with S, N and Z are set from the result and C, V kept; without S the flags are unchanged |
| Alu.Eor | src/instructions.c:180-192 | returns rn ^ operand, with the same flag rule as AND |
| Alu.Orr | src/instructions.c:196-208 | returns rn \| operand, with the same flag rule as AND |
| Alu.Bic | src/instructions.c:211-223 | returns BicResult, with the same flag rule as AND |
| Alu.Cmp | src/instructions.c:227-234 | writes all four flags as CmpFlags says, whatever they held |
| Alu.Mul | src/instructions.c:238-248 | returns the byte product; with S, N becomes 0 and Z is set from the result; without S the flags are unchanged |
| Alu.Mla | src/instructions.c:252-263 | returns the byte product plus rn's byte, with MUL's flag rule |
| Exec.DpAlu | src/emu.c:36-77 | CMP writes no register and sets CmpFlags; MOV writes the operand and keeps the flags; an undefined opcode writes nothing; with S clear only CMP changes the flags |
| Exec.DpAluTable | src/emu.c:39-71 | the result and flags of AND, EOR, SUB, ADD, ORR and BIC, each from its ALU primitive |
| Exec.AddClearsCarry | src/instructions.c:131-144 | ADD writes Rn + operand to Rd and, with S, leaves C = 0 |
| Exec.SubSetsCarry | src/instructions.c:149-162 | SUB writes Rn - operand to Rd and, with S, leaves C = 1 |
| Exec.ExecuteDp | src/emu.c:36-77 | the memory and every register but Rd stay as they were |
| Exec.ExecuteDpTable | src/emu.c:39-71 | the whole new state for each of AND, EOR, SUB, ADD, ORR and BIC |
| Exec.ExecuteDpSpecialOpcodes | src/emu.c:57-75 | CMP changes only the flags; MOV writes the operand to Rd whatever S is; an undefined opcode changes nothing |
| Exec.ByteShift | src/emu.c:83-140 | a register-specified shift of 32 or more gives 0; a right shift of a byte stays within a byte; LSL by 0 gives the byte |
| Exec.ShiftOperand | src/emu.c:81-145 | shift codes 4-7 give Rm unshifted; LSL/LSR by a register whose low byte is 32 or more give 0; LSR results fit in a byte |
| Exec.ShiftOperandReadsLowBytes | src/emu.c:83-121 | for shift codes 0-3 only the low bytes of Rm and Rs matter |
| Exec.ImmediateRotation | src/emu.c:170-171 | the rotation is twice bits 8-11, so below 32 |
| Exec.ImmediateOperand | src/emu.c:164-172 | rotating the operand back left by the same amount gives the 8-bit immediate |
| Exec.DecodeDp | src/emu.c:148-188 | a failed condition changes nothing; the memory and every register but Rd stay as they were |
| Exec.Product | src/emu.c:223-230 | the MUL or MLA result is at most 65280 and not negative |
| Exec.DecodeMul | src/emu.c:198-231 | a failed condition changes nothing; only register bits 16-19 can change; C and V never change; without S no flag changes; with S, N becomes 0 |
| Exec.DecodeMulEffect | src/emu.c:224-230 | when the condition passes, Rd becomes MLA(Rm, Rs, Rn) if bit 21 is set and MUL(Rm, Rs) otherwise, and the flags follow S |
| Exec.BranchOffset | src/emu.c:245-261 | the displacement has its low two bits clear, so a branch target stays word-aligned |
| Exec.BranchOffsetSignExtends | src/emu.c:253-261 | the displacement is the sign-extended immediate times 4 when bit 23 is clear or bit 22 is set |
| Exec.BranchOffsetOverflows | src/emu.c:253-261 | with bit 23 set and bit 22 clear, the displacement is 16 MiB more than the sign-extended one |
| Exec.BranchOffsetExample | src/emu.c:253-261 | the immediate 0x800000 gives 0xFF000000, where sign extension gives 0xFE000000 |
| Exec.DecodeBranch | src/emu.c:239-273 | a failed condition changes nothing; otherwise PC becomes PC + displacement + 4, and with L set LR becomes the old PC + 4; R0-R13, the flags and the memory never change |
| Exec.DecodeBranchEffect | src/emu.c:264-272 | when the condition passes, LR is written before PC, from the PC before the branch |
| Exec.BranchMinusOneExample | src/emu.c:256-271 | a branch with immediate 0xFFFFFF and PC at 0x104 goes to 0x104 |
| Exec.DecodeLsWriteBack | src/emu.c:322-336 | a pre-indexed access with W set leaves the address it used in Rn (unless a load targets Rn), and moving that address back by the offset gives the old Rn |
| Exec.LsOffset | src/emu.c:298-310 | the offset is the 12-bit immediate when I is clear; otherwise it is the named register, except R15 without W, which reads as PC + 8 |
| Exec.LsAddress | src/emu.c:283-355 | with P set, the address is Rn moved up or down by the offset; with P and W clear it is the register number Rn; with P clear and W set it is 0 |
| Exec.LsProgramCounterOffset | src/emu.c:304-310 | an offset register of 15 without W reads as PC + 8 |
| Exec.WordAligned | src/emu.c:369-370 | the low two bits of the result are clear |
| Exec.StoredBytes | src/emu.c:374 | four bytes, the first the register number Rd and the rest the bytes beyond it |
| Exec.DecodeLs | src/emu.c:281-377 | the flags never change; a failed condition changes nothing; a load leaves the memory alone; no register other than Rd and Rn changes |
| Exec.DecodeLsLoads | src/emu.c:365-371 | a load that runs writes load32 of the address to Rd, with bits 0-1 cleared when Rd is PC |
| Exec.DecodeLsLoadState | src/emu.c:323-371 | a load that runs writes the address back to Rn for P and W set, then writes the loaded word to Rd |
| Exec.DecodeLsStoreState | src/emu.c:323-375 | a store that runs does the write-back, then writes the four stored bytes at the address |
| Exec.StoredBytesFirst | src/emu.c:374 | after a store, the byte at the address is the register number Rd |
| Exec.DecodeLsStores | src/emu.c:343-375 | a store that runs leaves Rd's number at the address, and writes no register when P or W is clear |
| Exec.DecodeLsNoWriteBack | src/emu.c:298-317 | with P or W clear, no register but Rd changes |
| Exec.DecodeSwi | src/emu.c:387-399 | the answer is 1 iff the condition passes and the service number is 0, else 0 |
| Exec.Execute | src/emu.c:435-463 | the step halts iff the word is a SWI whose condition passes and whose service number is 0; an UNKNOWN word changes nothing; only a load/store touches memory |
| Exec.Advance | src/emu.c:429-430 | PC moves on by 4 (mod 2^32) and nothing else changes |
| Exec.Step | src/emu.c:419-464 | one iteration fetches load32(PC) and advances PC before dispatch; it halts only on a passing SWI 0; an UNKNOWN word only advances PC |
| Exec.MovThenHaltWords | src/emu.c:421-423 | the two program words read back from memory as stored |
| Exec.MovFields | src/common.c:86-118 | MOV R0, #5 classifies as data processing, with condition AL, immediate operand, opcode MOV, S clear and Rd = R0 |
| Exec.MovExecutes | src/emu.c:148-188 | MOV R0, #5 sets R0 to 5 and changes nothing else |
| Exec.SwiZeroHalts | src/emu.c:387-399 | SWI 0 classifies as a software interrupt and asks for a halt |
| Exec.MovStep | src/emu.c:419-464 | a step that fetches MOV R0, #5 advances PC, sets R0 to 5 and does not halt |
| Exec.SwiStep | src/emu.c:419-464 | a step that fetches SWI 0 advances PC and halts |
| Exec.MovThenHaltRuns | src/emu.c:419-464 | the program MOV R0, #5; SWI 0 halts on the second fetch, with R0 = 5 |
| Machine.Cpu.constructor | src/emu.c:21-28 | the globals start with every register, every flag byte and the memory zero or empty |
| Machine.Cpu.ExecuteDpInstruction | src/emu.c:36-77 | the arrays end as ExecuteDp says |
| Machine.Cpu.ShiftOperand | src/emu.c:81-145 | reads the registers and returns ShiftOperand's value |
| Machine.Cpu.DecodeDp | src/emu.c:148-188 | the arrays end as DecodeDp says |
| Machine.Cpu.DecodeMultiplication | src/emu.c:198-231 | the arrays end as DecodeMul says |
| Machine.Cpu.DecodeBranch | src/emu.c:239-273 | the registers end as DecodeBranch says |
| Machine.Cpu.DecodeLs | src/emu.c:281-377 | the registers and the memory end as DecodeLs says |
| Machine.Cpu.DecodeSwi | src/emu.c:387-399 | returns DecodeSwi's answer and changes nothing |
| Machine.Cpu.Execute | src/emu.c:435-459 | the machine ends as Execute says and the halt flag matches it |
| Machine.Cpu.Step | src/emu.c:419-464 | one iteration of the loop ends as Step says |
| LinkedList.Find | src/list.c:12-30 | the position of the first entry with the address, or -1 when no entry has it |
| LinkedList.FindPrepend | src/list.c:49-83 | after a front insert, search finds the new entry if its address matches, and otherwise the old answer one place later |
| LinkedList.FindAppend | src/list.c:89-115 | after a rear insert, search finds the old answer, and the new entry only when nothing earlier matches |
| LinkedList.LinkedNoRepeat | src/list.c:128-129 | in a NULL-terminated chain no node appears at two positions, so the walks end |
| LinkedList.LinkedDistinct | src/list.c:157-187 | a NULL-terminated chain has no repeated node |
| LinkedList.Unlinked | src/list.c:135-136 | pointing a node past its successor leaves a linked chain, with the successor's entry removed |
| LinkedList.Appended | src/list.c:107-111 | hanging a fresh node from the last one extends the chain and its entries by one |
| LinkedList.Node.constructor | src/list.c:51-57 | a new node holds the address and byte, with next NULL |
| LinkedList.List.constructor | src/list.c:193-208 | size 0 and start, end and current NULL |
| LinkedList.List.IsEmpty | src/list.c:34-37 | 1 iff start is NULL, that is iff the list has no node |
| LinkedList.List.Reset | src/list.c:40-43 | current becomes start |
| LinkedList.List.AddNode | src/list.c:49-83 | the new node goes in front of the old chain and size grows by 1; on an empty list it is also end and current |
| LinkedList.List.AddNodeRear | src/list.c:89-115 | the new node becomes end after the old chain and size grows by 1; on an empty list it is also start and current |
| LinkedList.List.Advance | src/list.c:157-164 | -1 with current unmoved when current is end; otherwise 0 with current on the next node |
| LinkedList.List.Retreat | src/list.c:169-187 | -1 when current is start; otherwise 0 with current on the node before it |
| LinkedList.List.Search | src/list.c:12-30 | returns the first node from start whose address matches, or NULL if none does |
| LinkedList.List.RemoveNode | src/list.c:120-152 | -1 with nothing changed when no node's next is n (n absent or the head); otherwise n is unlinked, size drops by 1 and end/current move back if they were on n |
| LinkedList.List.Unlink | src/list.c:135-151 | the predecessor skips n, end and current move back to it if they were n, and size drops by 1 |

## Left out

- Reading the program file, the command line and `main` (src/emu.c:471-558) are not modelled. They are file and text I/O.
- src/io.c, the register and memory dumps, the trace and the disassembly are not modelled. They only print.
- The printing branches of `SVC` (services 1 and 2) are not modelled. Only its return value is.
- The hash table (hash.c is not part of this model) becomes a map from addresses to bytes. Its bucket count, hashing and resizing are not modelled.
- The `rand()` fill for unwritten addresses is not modelled. The source defines `DEBUG`, so an unwritten address reads as 0x00.
- Allocation failure, `list_destroy` and `hashtable_destroy` are not modelled. They manage memory and have no observable logic.
- `pow` in `get_bits` is the integer mask 2^size - 1. `GetBits` requires `n < 32`, because a shift of a `uint32_t` by 32 or more is undefined in C. It requires `size < 32`, because for `size` 32 the double `pow(2, 32)` does not fit the `uint32_t` it is converted to, which C leaves undefined.
- The warning that `execute_dp_instruction` prints to stderr for an opcode it cannot decode (src/emu.c:73-75) is not modelled. It is output only, and the model keeps its effect: nothing changes.
- The `for (;;)` loop of `emulate` is modelled one iteration at a time (`Exec.Step`, `Machine.Cpu.Step`), because it need not terminate.
- Exec.DecodeLs: a register offset field of 16 or more, read as a register number in the pre-indexed forms, indexes past `registers[16]` in the source. The model requires it to be below 16 (`LsDefined`).
- Exec.StoredBytes: the three bytes stored after the register number Rd are read past a `uint8_t` in the source. The model takes them as a parameter and states only the first byte.
- Exec.ShiftOperand: `val << shift` is computed as a 32-bit shift. The source's `int` arithmetic could overflow, which C leaves undefined.
- Alu.CmpFlags: the right shift of a negative `int32_t` is taken to be arithmetic. C leaves this to the implementation.
- Alu.OverflowFrom: the `int32_t` sum and difference are taken to wrap. C leaves signed overflow undefined.
- LinkedList.List.RemoveNode: it requires a non-empty list, because the source dereferences `start` before any test.
- LinkedList.List: the `size` counter is an unbounded integer. The source's `int` cannot overflow at any list length the emulator reaches.
