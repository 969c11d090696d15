/**
 * The emulator's byte-addressed memory (src/common.c: store, load, load32).
 * The hash table of the source is a map from addresses to bytes: an address
 * appears at most once and a store to a present address overwrites it.
 * Addresses are the integers 0 .. 2^32-1 and address arithmetic wraps
 * modulo 2^32, as `uint32_t` arithmetic does.
 */
module ByteMemory {
  import opened Bits

  const AddressSpace: int := 0x1_0000_0000

  /** A 32-bit address, as the integer it denotes. */
  type Addr = a: int | 0 <= a < AddressSpace

  /** The memory: only addresses that were ever written are present. */
  type Memory = map<Addr, Byte>

  /** `uint32_t` address arithmetic. */
  function Wrap(x: int): Addr
  {
    x % AddressSpace
  }

  /** The address a word holds. */
  function AddrOf(w: Word): Addr
  {
    w as int
  }

  /** How far `x` lies past `a`, counting upwards with wrap-around. */
  function Distance(a: Addr, x: Addr): nat
  {
    (x - a) % AddressSpace
  }

  /** load: the byte at `a`; an address never written reads as 0x00 (the DEBUG build). */
  function Load(m: Memory, a: Addr): (b: Byte)
    ensures a in m ==> b == m[a]
    ensures a !in m ==> b == 0
  {
    if a in m then m[a] else 0
  }

  /**
   * store: writes data[i] at address a + i, for i = 0, 1, ... in that order.
   * A store never removes an address, and a non-empty one makes `a` present.
   */
  function StoreBytes(m: Memory, a: Addr, data: seq<Byte>): (m': Memory)
    ensures m.Keys <= m'.Keys
    ensures data != [] ==> a in m'
    decreases |data|
  {
    if data == [] then m else StoreBytes(m[a := data[0]], Wrap(a + 1), data[1..])
  }

  lemma DistanceNext(a: Addr, x: Addr)
    requires x != a
    ensures Distance(a, x) == Distance(Wrap(a + 1), x) + 1
  {
  }

  /**
   * After a store of `data` at `a` (at most 2^32 bytes, so no address is
   * written twice), an address holds the byte stored at its distance from `a`
   * if it was written and keeps its old contents otherwise.
   */
  lemma {:induction false} StoreBytesEffect(m: Memory, a: Addr, data: seq<Byte>, x: Addr)
    requires |data| <= AddressSpace
    ensures x in StoreBytes(m, a, data) <==> x in m || Distance(a, x) < |data|
    ensures Load(StoreBytes(m, a, data), x) == if Distance(a, x) < |data| then data[Distance(a, x)] else Load(m, x)
    decreases |data|
  {
    if data != [] {
      StoreBytesEffect(m[a := data[0]], Wrap(a + 1), data[1..], x);
      if x != a {
        DistanceNext(a, x);
      }
    }
  }

  /** Reading back the k-th stored byte gives it. */
  lemma StoreThenLoad(m: Memory, a: Addr, data: seq<Byte>, k: nat)
    requires k < |data| <= AddressSpace
    ensures Load(StoreBytes(m, a, data), Wrap(a + k)) == data[k]
  {
    StoreBytesEffect(m, a, data, Wrap(a + k));
  }

  /** The word whose little-endian bytes are b0 (least significant) to b3. */
  function LittleEndian(b0: Byte, b1: Byte, b2: Byte, b3: Byte): Word
  {
    (b0 as Word) | ((b1 as Word) << 8) | ((b2 as Word) << 16) | ((b3 as Word) << 24)
  }

  /** The low byte of a word. */
  function LowByte(w: Word): Byte
  {
    (w & 0xFF) as Byte
  }

  /** The four bytes of `w`, least significant first. */
  function WordBytes(w: Word): (b: seq<Byte>)
    ensures |b| == 4
  {
    [LowByte(w), LowByte(w >> 8), LowByte(w >> 16), LowByte(w >> 24)]
  }

  /** Splitting a word into bytes and joining them again loses nothing, both ways. */
  lemma LittleEndianRoundTrip(w: Word, b0: Byte, b1: Byte, b2: Byte, b3: Byte)
    ensures LittleEndian(LowByte(w), LowByte(w >> 8), LowByte(w >> 16), LowByte(w >> 24)) == w
    ensures WordBytes(LittleEndian(b0, b1, b2, b3)) == [b0, b1, b2, b3]
  {
  }

  /** load32: the little-endian word in the four bytes from `a` on. */
  function LoadWord(m: Memory, a: Addr): (w: Word)
    ensures WordBytes(w) == [Load(m, a), Load(m, Wrap(a + 1)), Load(m, Wrap(a + 2)), Load(m, Wrap(a + 3))]
  {
    LittleEndianRoundTrip(0, Load(m, a), Load(m, Wrap(a + 1)), Load(m, Wrap(a + 2)), Load(m, Wrap(a + 3)));
    LittleEndian(Load(m, a), Load(m, Wrap(a + 1)), Load(m, Wrap(a + 2)), Load(m, Wrap(a + 3)))
  }

  /** Storing a word's bytes and loading a word from the same address gives it back. */
  lemma StoreWordThenLoadWord(m: Memory, a: Addr, w: Word)
    ensures LoadWord(StoreBytes(m, a, WordBytes(w)), a) == w
  {
    var m' := StoreBytes(m, a, WordBytes(w));
    StoreThenLoad(m, a, WordBytes(w), 0);
    StoreThenLoad(m, a, WordBytes(w), 1);
    StoreThenLoad(m, a, WordBytes(w), 2);
    StoreThenLoad(m, a, WordBytes(w), 3);
    LittleEndianRoundTrip(w, 0, 0, 0, 0);
  }

  /** The four bytes from `a` on, in address order. */
  function BytesAt(m: Memory, a: Addr): (b: seq<Byte>)
    ensures |b| == 4
  {
    [Load(m, a), Load(m, Wrap(a + 1)), Load(m, Wrap(a + 2)), Load(m, Wrap(a + 3))]
  }

  lemma BytesAtIndex(m: Memory, a: Addr, i: nat)
    requires i < 4
    ensures BytesAt(m, a)[i] == Load(m, Wrap(a + i))
  {
    assert Wrap(a + 0) == a;
  }

  /** One step of load32's loop: the value so far moves up a byte and `b` fills the low byte. */
  function ShiftIn(val: Word, b: Byte): Word
  {
    (val << 8) | (b as Word)
  }

  /**
   * The value load32's loop has built once it has read bytes[3] down to
   * bytes[i].
   */
  function Assembled(bytes: seq<Byte>, i: nat): Word
    requires i <= 4 && |bytes| == 4
    decreases 4 - i
  {
    if i == 4 then 0 else ShiftIn(Assembled(bytes, i + 1), bytes[i])
  }

  lemma AssembledStep(bytes: seq<Byte>, i: nat)
    requires i < 4 && |bytes| == 4
    ensures Assembled(bytes, i) == ShiftIn(Assembled(bytes, i + 1), bytes[i])
  {
  }

  lemma ShiftInOrder(b0: Byte, b1: Byte, b2: Byte, b3: Byte)
    ensures ShiftIn(ShiftIn(ShiftIn(b3 as Word, b2), b1), b0) == LittleEndian(b0, b1, b2, b3)
  {
  }

  /** Four steps of load32's loop make up the little-endian word. */
  lemma AssembledWord(bytes: seq<Byte>)
    requires |bytes| == 4
    ensures Assembled(bytes, 0) == LittleEndian(bytes[0], bytes[1], bytes[2], bytes[3])
  {
    AssembledStep(bytes, 3);
    assert Assembled(bytes, 3) == bytes[3] as Word;
    AssembledStep(bytes, 2);
    AssembledStep(bytes, 1);
    AssembledStep(bytes, 0);
    ShiftInOrder(bytes[0], bytes[1], bytes[2], bytes[3]);
  }

  /** One step of store's loop: writing the first byte, then the rest one address further on. */
  lemma StoreBytesStep(m: Memory, a: Addr, data: seq<Byte>, i: nat)
    requires i < |data|
    ensures StoreBytes(m, Wrap(a + i), data[i..]) == StoreBytes(m[Wrap(a + i) := data[i]], Wrap(a + (i + 1)), data[i + 1..])
  {
    assert data[i..][1..] == data[i + 1..];
    assert Wrap(Wrap(a + i) + 1) == Wrap(a + (i + 1));
  }

  /** The memory as an object: the hash table the emulator mutates. */
  class ByteStore {
    var cells: Memory

    constructor ()
      ensures cells == map[]
    {
      cells := map[];
    }

    /** store: writes `data` byte by byte from `addr` on, overwriting present addresses. */
    method Store(addr: Addr, data: seq<Byte>)
      modifies this
      ensures cells == StoreBytes(old(cells), addr, data)
    {
      var i := 0;
      while i < |data|
        invariant 0 <= i <= |data|
        invariant StoreBytes(cells, Wrap(addr + i), data[i..]) == StoreBytes(old(cells), addr, data)
      {
        StoreBytesStep(cells, addr, data, i);
        cells := cells[Wrap(addr + i) := data[i]];
        i := i + 1;
      }
    }

    /** load */
    method Load8(addr: Addr) returns (b: Byte)
      ensures b == Load(cells, addr)
    {
      if addr in cells {
        b := cells[addr];
      } else {
        b := 0;
      }
    }

    /** load32: reads the bytes at addr + 3 down to addr, shifting each in from the right. */
    method Load32(addr: Addr) returns (val: Word)
      ensures val == LoadWord(cells, addr)
    {
      ghost var bytes := BytesAt(cells, addr);
      val := 0;
      var i := 3;
      while i >= 0
        invariant -1 <= i <= 3
        invariant val == Assembled(bytes, i + 1)
      {
        var b := Load8(Wrap(addr + i));
        BytesAtIndex(cells, addr, i);
        AssembledStep(bytes, i);
        val := (val << 8) | (b as Word);
        i := i - 1;
      }
      AssembledWord(bytes);
    }
  }
}
