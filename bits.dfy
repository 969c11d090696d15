/**
 * Bit fields of 32-bit instruction words and the classification of a word
 * into an instruction family (src/common.c).
 */
module Bits {
  /** A 32-bit machine word, the emulator's `uint32_t`. */
  type Word = bv32
  /** An 8-bit value, the emulator's `uint8_t`. */
  type Byte = bv8

  /** The mask with the low `size` bits set, `pow(2, size) - 1`. */
  function Mask(size: nat): Word
    requires size < 32
  {
    ((1 as Word) << size) - 1
  }

  /** get_bits: the `size` bits of `w` that start at bit `n`, right-aligned. */
  function GetBits(w: Word, n: nat, size: nat): (r: Word)
    requires n < 32 && size < 32
    ensures r < (1 as Word) << size
  {
    (w >> n) & Mask(size)
  }

  /**
   * GetBits returns exactly the field it names: the two 16-bit halves,
   * shifted back to their positions and joined, give the word again.
   */
  lemma GetBitsHalves(w: Word)
    ensures GetBits(w, 0, 16) | (GetBits(w, 16, 16) << 16) == w
  {
  }

  /** The branch layout: the 24-bit immediate, bits 24-27 and the condition rejoin to the word. */
  lemma GetBitsBranchFields(w: Word)
    ensures GetBits(w, 0, 24) | (GetBits(w, 24, 4) << 24) | (GetBits(w, 28, 4) << 28) == w
  {
  }

  /** The load/store layout: offset, Rd, Rn, bits 20-27 and the condition rejoin to the word. */
  lemma GetBitsTransferFields(w: Word)
    ensures GetBits(w, 0, 12) | (GetBits(w, 12, 4) << 12) | (GetBits(w, 16, 4) << 16)
      | (GetBits(w, 20, 8) << 20) | (GetBits(w, 28, 4) << 28) == w
  {
  }

  /** get_bit: bit `n` of `w`, as 0 or 1. */
  function GetBit(w: Word, n: nat): (r: Byte)
    requires n < 32
    ensures r <= 1
    ensures r == 1 <==> (w >> n) & 1 == 1
  {
    GetBits(w, n, 1) as Byte
  }

  /** get_cond: the condition field, bits 28 to 31. */
  function GetCond(w: Word): (r: Byte)
    ensures r < 16
    ensures (r as Word) << 28 == w & 0xF000_0000
  {
    GetBits(w, 28, 4) as Byte
  }

  /** The instruction families the emulator recognises. */
  datatype InstrType = DataProcessing | LoadStore | Branch | SoftwareInterrupt | Multiply | Unknown

  /**
   * get_instruction_type: bits 26-27 choose the family; among data-processing
   * words, 1001 in bits 4-7 marks a multiplication; a branch needs bit 25 and
   * a software interrupt needs bits 24-25 set; anything else is unknown.
   */
  function GetInstructionType(w: Word): (t: InstrType)
    ensures t == Multiply <==> w & 0x0C00_0000 == 0 && w & 0xF0 == 0x90
    ensures t == DataProcessing <==> w & 0x0C00_0000 == 0 && w & 0xF0 != 0x90
    ensures t == LoadStore <==> w & 0x0C00_0000 == 0x0400_0000
    ensures t == Branch <==> w & 0x0E00_0000 == 0x0A00_0000
    ensures t == SoftwareInterrupt <==> w & 0x0F00_0000 == 0x0F00_0000
    ensures t == Unknown <==> w & 0x0E00_0000 == 0x0800_0000 || w & 0x0F00_0000 in {0x0C00_0000, 0x0D00_0000, 0x0E00_0000}
  {
    ClassificationFields(w);
    var family := GetBits(w, 26, 2);
    if family == 0 then
      (if GetBits(w, 4, 4) == 9 then Multiply else DataProcessing)
    else if family == 2 then
      (if GetBit(w, 25) == 1 then Branch else Unknown)
    else if family == 1 then
      LoadStore
    else if GetBits(w, 24, 2) == 3 then
      SoftwareInterrupt
    else
      Unknown
  }

  /** The fields get_instruction_type reads, as masks of the word. */
  lemma ClassificationFields(w: Word)
    ensures GetBits(w, 26, 2) == (w & 0x0C00_0000) >> 26
    ensures GetBits(w, 4, 4) == 9 <==> w & 0xF0 == 0x90
    ensures GetBit(w, 25) == 1 <==> w & 0x0200_0000 != 0
    ensures GetBits(w, 24, 2) == 3 <==> w & 0x0300_0000 == 0x0300_0000
  {
    assert Mask(1) == 1 && Mask(2) == 3 && Mask(4) == 15;
  }
}
