/**
 * The circular shifts of src/instructions.c ("circular shift") and the proof
 * that each undoes the other.
 */
module Rotate {
  import opened Bits

  /** rotate_right: the shift amount is taken modulo 32. */
  function RotateRight(shift: Byte, value: Word): (r: Word)
    ensures (shift as Word) & 31 == 0 ==> r == value
  {
    var s := (shift as Word) & 31;
    if s == 0 then value else (value >> s) | (value << (32 - s))
  }

  /** rotate_left: the shift amount is taken modulo 32. */
  function RotateLeft(shift: Byte, value: Word): (r: Word)
    ensures (shift as Word) & 31 == 0 ==> r == value
  {
    var s := (shift as Word) & 31;
    if s == 0 then value else (value << s) | (value >> (32 - s))
  }

  /**
   * Rotating left undoes rotating right by the same amount.
   * The proof fixes the amount, one case per value 1 .. 31, so that every
   * shift in it is by a constant.
   */
  lemma RotateLeftUndoesRight(shift: Byte, v: Word)
    ensures RotateLeft(shift, RotateRight(shift, v)) == v
  {
    var s := (shift as Word) & 31;
    if 0 < s < 16 {
      RotateLeftUndoesRightLow(shift, v);
    } else if 16 <= s {
      RotateLeftUndoesRightHigh(shift, v);
    }
  }

  lemma RotateLeftUndoesRightLow(shift: Byte, v: Word)
    requires 0 < (shift as Word) & 31 < 16
    ensures RotateLeft(shift, RotateRight(shift, v)) == v
  {
    var s := (shift as Word) & 31;
    if s == 1 {
    } else if s == 2 {
    } else if s == 3 {
    } else if s == 4 {
    } else if s == 5 {
    } else if s == 6 {
    } else if s == 7 {
    } else if s == 8 {
    } else if s == 9 {
    } else if s == 10 {
    } else if s == 11 {
    } else if s == 12 {
    } else if s == 13 {
    } else if s == 14 {
    } else if s == 15 {
    }
  }

  lemma RotateLeftUndoesRightHigh(shift: Byte, v: Word)
    requires 16 <= (shift as Word) & 31
    ensures RotateLeft(shift, RotateRight(shift, v)) == v
  {
    var s := (shift as Word) & 31;
    if s == 16 {
    } else if s == 17 {
    } else if s == 18 {
    } else if s == 19 {
    } else if s == 20 {
    } else if s == 21 {
    } else if s == 22 {
    } else if s == 23 {
    } else if s == 24 {
    } else if s == 25 {
    } else if s == 26 {
    } else if s == 27 {
    } else if s == 28 {
    } else if s == 29 {
    } else if s == 30 {
    } else if s == 31 {
    }
  }

  /**
   * Rotating right undoes rotating left by the same amount.
   * The proof fixes the amount, one case per value 1 .. 31, so that every
   * shift in it is by a constant.
   */
  lemma RotateRightUndoesLeft(shift: Byte, v: Word)
    ensures RotateRight(shift, RotateLeft(shift, v)) == v
  {
    var s := (shift as Word) & 31;
    if 0 < s < 16 {
      RotateRightUndoesLeftLow(shift, v);
    } else if 16 <= s {
      RotateRightUndoesLeftHigh(shift, v);
    }
  }

  lemma RotateRightUndoesLeftLow(shift: Byte, v: Word)
    requires 0 < (shift as Word) & 31 < 16
    ensures RotateRight(shift, RotateLeft(shift, v)) == v
  {
    var s := (shift as Word) & 31;
    if s == 1 {
    } else if s == 2 {
    } else if s == 3 {
    } else if s == 4 {
    } else if s == 5 {
    } else if s == 6 {
    } else if s == 7 {
    } else if s == 8 {
    } else if s == 9 {
    } else if s == 10 {
    } else if s == 11 {
    } else if s == 12 {
    } else if s == 13 {
    } else if s == 14 {
    } else if s == 15 {
    }
  }

  lemma RotateRightUndoesLeftHigh(shift: Byte, v: Word)
    requires 16 <= (shift as Word) & 31
    ensures RotateRight(shift, RotateLeft(shift, v)) == v
  {
    var s := (shift as Word) & 31;
    if s == 16 {
    } else if s == 17 {
    } else if s == 18 {
    } else if s == 19 {
    } else if s == 20 {
    } else if s == 21 {
    } else if s == 22 {
    } else if s == 23 {
    } else if s == 24 {
    } else if s == 25 {
    } else if s == 26 {
    } else if s == 27 {
    } else if s == 28 {
    } else if s == 29 {
    } else if s == 30 {
    } else if s == 31 {
    }
  }
}
