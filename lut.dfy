/*
 * popcnt32_z: a table with one byte per 32-bit word, filled once from
 * popcnt32_a and then read by indexing.
 */
module Lut {
  import opened PopcountSpec
  import opened Popcnt

  /** uint8_t. */
  type uint8 = x: int | 0 <= x < 256

  /** UINT32_MAX + 1 entries, one for every 32-bit word. */
  const TableSize: nat := 0x1_0000_0000

  /** Converting an index back to a word recovers the word it came from. */
  lemma WordOfIndex(i: int, x: bv32)
    requires x as int == i
    ensures i as bv32 == x
  {}

  /** The global popcnt32_lut buffer. */
  class PopcountTable {
    var lut: array<uint8>

    /** The table is filled: entry i holds popcnt32_a(i). */
    ghost predicate Valid()
      reads this, lut
    {
      lut.Length == TableSize &&
      forall x: bv32 :: lut[x as int] as int == Popcount(x)
    }

    /** Before init_popcnt32_lut runs the buffer is empty (the null pointer). */
    constructor ()
      ensures lut.Length == 0
    {
      lut := new uint8[0];
    }

    /** init_popcnt32_lut: replace the buffer by a fresh one and fill every entry. */
    method Initialize()
      modifies this
      ensures Valid() && fresh(lut)
    {
      var table := new uint8[TableSize];
      for i := 0 to TableSize
        invariant forall x: bv32 | x as int < i :: table[x as int] as int == Popcount(x)
      {
        table[i] := Popcnt32A(i as bv32) as uint8;
        forall x: bv32 | x as int <= i
          ensures table[x as int] as int == Popcount(x)
        {
          if x as int == i {
            WordOfIndex(i, x);
          }
        }
      }
      lut := table;
    }

    /** popcnt32_z: one table read, which agrees with popcnt32_a and so counts bits. */
    method Lookup(x: bv32) returns (r: int)
      requires Valid()
      ensures r == Popcnt32A(x)
      ensures r == Popcount(x)
    {
      r := lut[x as int] as int;
    }
  }
}
