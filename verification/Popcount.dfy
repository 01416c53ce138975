/** Bit errors between raw Chromaprint integers, counted two ways. */
module Popcount {

  function Bit(x: bv32, mask: bv32): nat { if x & mask != 0 then 1 else 0 }

  /** int.bit_count() of a 32-bit value: one for every bit that is set. */
  function BitCount(x: bv32): nat {
    Bit(x, 0x1) + Bit(x, 0x2) + Bit(x, 0x4) + Bit(x, 0x8)
    + Bit(x, 0x10) + Bit(x, 0x20) + Bit(x, 0x40) + Bit(x, 0x80)
    + Bit(x, 0x100) + Bit(x, 0x200) + Bit(x, 0x400) + Bit(x, 0x800)
    + Bit(x, 0x1000) + Bit(x, 0x2000) + Bit(x, 0x4000) + Bit(x, 0x8000)
    + Bit(x, 0x10000) + Bit(x, 0x20000) + Bit(x, 0x40000) + Bit(x, 0x80000)
    + Bit(x, 0x100000) + Bit(x, 0x200000) + Bit(x, 0x400000) + Bit(x, 0x800000)
    + Bit(x, 0x1000000) + Bit(x, 0x2000000) + Bit(x, 0x4000000) + Bit(x, 0x8000000)
    + Bit(x, 0x10000000) + Bit(x, 0x20000000) + Bit(x, 0x40000000) + Bit(x, 0x80000000)
  }

  /** The masked low word of an int64 in two's complement: what `& 0xFFFFFFFF` and astype(uint32) keep. */
  function Low(v: bv64): bv32 {
    (v & 0xFFFF_FFFF) as bv32
  }

  /** Entry x of the 256-entry table: bin(x).count('1'), so only eight bits can count. */
  function TableEntry(x: bv32): nat
    requires x <= 0xFF
  {
    Bit(x, 0x1) + Bit(x, 0x2) + Bit(x, 0x4) + Bit(x, 0x8)
    + Bit(x, 0x10) + Bit(x, 0x20) + Bit(x, 0x40) + Bit(x, 0x80)
  }

  /** Table-driven count: one lookup for each byte of the word. */
  function TablePopcount(x: bv32): nat {
    TableEntry(x & 0xFF) + TableEntry((x >> 8) & 0xFF)
    + TableEntry((x >> 16) & 0xFF) + TableEntry((x >> 24) & 0xFF)
  }

  /** Bits where two integers differ, the scalar way: xor at full width, mask, count. */
  function BitErrors(a: bv64, b: bv64): nat {
    BitCount(Low(a ^ b))
  }

  lemma ByteOfWord0(x: bv32)
    ensures TableEntry(x & 0xFF) ==
      Bit(x, 0x1) + Bit(x, 0x2) + Bit(x, 0x4) + Bit(x, 0x8)
    + Bit(x, 0x10) + Bit(x, 0x20) + Bit(x, 0x40) + Bit(x, 0x80)
  {
  }

  lemma ByteOfWord1(x: bv32)
    ensures TableEntry((x >> 8) & 0xFF) ==
      Bit(x, 0x100) + Bit(x, 0x200) + Bit(x, 0x400) + Bit(x, 0x800)
    + Bit(x, 0x1000) + Bit(x, 0x2000) + Bit(x, 0x4000) + Bit(x, 0x8000)
  {
  }

  lemma ByteOfWord2(x: bv32)
    ensures TableEntry((x >> 16) & 0xFF) ==
      Bit(x, 0x10000) + Bit(x, 0x20000) + Bit(x, 0x40000) + Bit(x, 0x80000)
    + Bit(x, 0x100000) + Bit(x, 0x200000) + Bit(x, 0x400000) + Bit(x, 0x800000)
  {
  }

  lemma ByteOfWord3(x: bv32)
    ensures TableEntry((x >> 24) & 0xFF) ==
      Bit(x, 0x1000000) + Bit(x, 0x2000000) + Bit(x, 0x4000000) + Bit(x, 0x8000000)
    + Bit(x, 0x10000000) + Bit(x, 0x20000000) + Bit(x, 0x40000000) + Bit(x, 0x80000000)
  {
  }

  /** The four table lookups count every bit of the word exactly once. */
  lemma TablePopcountIsBitCount(x: bv32)
    ensures TablePopcount(x) == BitCount(x)
  {
    ByteOfWord0(x);
    ByteOfWord1(x);
    ByteOfWord2(x);
    ByteOfWord3(x);
  }

  lemma LowOfXor(a: bv64, b: bv64)
    ensures Low(a ^ b) == Low(a) ^ Low(b)
  {
  }

  /** Masking first and looking bytes up gives the scalar count, negative integers included. */
  lemma TableErrorsAreBitErrors(a: bv64, b: bv64)
    ensures TablePopcount(Low(a) ^ Low(b)) == BitErrors(a, b)
  {
    LowOfXor(a, b);
    TablePopcountIsBitCount(Low(a) ^ Low(b));
  }
}
