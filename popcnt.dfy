/*
 * The three portable population counts of bit_count.c. Each takes a 32-bit
 * word and returns a C `int`; all three return the number of set bits.
 */
module Popcnt {
  import opened PopcountSpec
  import opened SwarRounds
  import opened SwarFields

  /** popcnt32_a: five full mask/shift/add rounds. */
  function Popcnt32A(x: bv32): (r: int)
    ensures r == Popcount(x)
    ensures 0 <= r <= 32
  {
    FiveRoundsCount(x);
    Round5(Round4(Round3(Round2(Round1(x))))) as int
  }

  /**
   * popcnt32_b: two full rounds, a third that masks only after adding, then
   * the bytes are folded together by shifts and the total kept with `& 63`.
   */
  function Popcnt32B(x: bv32): (r: int)
    ensures r == Popcnt32A(x)
  {
    var y := Round2(Round1(x));
    TwoRoundsNibbles(x);
    Round3SumIsRound3(y);
    ThreeRoundsBytes(x);
    FoldBytesIsRounds(Round3(y));
    FoldBytes(Round3Sum(y)) as int
  }

  /**
   * popcnt32_c: as popcnt32_b up to the third round, then one multiplication
   * by 0x01010101 (modulo 2^32) gathers the byte counts in the top byte.
   */
  function Popcnt32C(x: bv32): (r: int)
    ensures r == Popcnt32A(x)
  {
    var y := Round2(Round1(x));
    TwoRoundsNibbles(x);
    Round3SumIsRound3(y);
    ThreeRoundsBytes(x);
    MultiplyBytesIsRounds(Round3(y));
    MultiplyBytes(Round3Sum(y)) as int
  }

  /** After line 34 of popcnt32_b each byte holds the count of its own eight bits. */
  lemma Popcnt32BBytes(x: bv32)
    ensures FieldsCount(Round3Sum(Round2(Round1(x))), x, 8, 0xFF)
  {
    TwoRoundsNibbles(x);
    Round3SumIsRound3(Round2(Round1(x)));
    ThreeRoundsCountBytes(x);
  }

  /** The extremes: no bit set, one bit set, every bit set. */
  lemma Popcnt32AExamples()
    ensures Popcnt32A(0) == 0 && Popcount(0) == 0
    ensures Popcnt32A(0x8000_0000) == 1
    ensures Popcnt32A(0x0F0F_0F0F) == 16
    ensures Popcnt32A(0xFFFF_FFFF) == 32 && Popcount(0xFFFF_FFFF) == 32
  {}

  /** The three implementations count bits, so each agrees with the others on every word. */
  lemma AllCount()
    ensures forall x: bv32 :: Popcnt32A(x) == Popcount(x)
    ensures forall x: bv32 :: Popcnt32B(x) == Popcount(x)
    ensures forall x: bv32 :: Popcnt32C(x) == Popcount(x)
  {
    forall x: bv32
      ensures Popcnt32A(x) == Popcount(x) && Popcnt32B(x) == Popcount(x) && Popcnt32C(x) == Popcount(x)
    {
    }
  }
}

