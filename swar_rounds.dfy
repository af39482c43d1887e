/*
 * The mask/shift/add rounds shared by the SWAR ("SIMD within a register")
 * population counts of bit_count.c, and the bit-vector identities about
 * them: what one round does to a single field, and when the shortcuts
 * taken by popcnt32_b and popcnt32_c give the same word as the full rounds.
 */
module SwarRounds {

  /** The five lane masks kMu0 .. kMu4: alternating runs of 1, 2, 4, 8 and 16 ones. */
  const Mu0: bv32 := 0x5555_5555
  const Mu1: bv32 := 0x3333_3333
  const Mu2: bv32 := 0x0F0F_0F0F
  const Mu3: bv32 := 0x00FF_00FF
  const Mu4: bv32 := 0x0000_FFFF

  /** Round k adds each field of width 2^(k-1) to its upper neighbour. */
  function Round1(x: bv32): bv32 { (x & Mu0) + ((x >> 1) & Mu0) }
  function Round2(x: bv32): bv32 { (x & Mu1) + ((x >> 2) & Mu1) }
  function Round3(x: bv32): bv32 { (x & Mu2) + ((x >> 4) & Mu2) }
  function Round4(x: bv32): bv32 { (x & Mu3) + ((x >> 8) & Mu3) }
  function Round5(x: bv32): bv32 { (x & Mu4) + ((x >> 16) & Mu4) }

  /** popcnt32_b's third round: add first, mask once. */
  function Round3Sum(x: bv32): bv32 { (x + (x >> 4)) & Mu2 }

  /** popcnt32_b after its third round: fold the bytes together, keep six bits. */
  function FoldBytes(x: bv32): bv32
  {
    var y := x + (x >> 8);
    var z := y + (y >> 16);
    z & 63
  }

  /** popcnt32_c after its third round: multiply by 0x01010101, keep the top byte. */
  function MultiplyBytes(x: bv32): bv32 { (x * 0x0101_0101) >> 24 }

  /** The field of `y` that starts at bit `lo`, selected by `mask`. */
  function Field(y: bv32, lo: bv32, mask: bv32): bv32
    requires lo < 32
  {
    (y >> lo) & mask
  }

  /** After round 1 the 2-bit field at `lo` is the sum of the two 1-bit fields it covered. */
  lemma Round1Field(x: bv32, lo: bv32)
    requires lo < 32 && lo & 1 == 0
    ensures Field(Round1(x), lo, 3) == Field(x, lo, 1) + Field(x, lo + 1, 1)
  {}

  lemma Round2Field(x: bv32, lo: bv32)
    requires lo < 32 && lo & 3 == 0
    ensures Field(Round2(x), lo, 0xF) == Field(x, lo, 3) + Field(x, lo + 2, 3)
  {}

  lemma Round3Field(x: bv32, lo: bv32)
    requires lo < 32 && lo & 7 == 0
    ensures Field(Round3(x), lo, 0xFF) == Field(x, lo, 0xF) + Field(x, lo + 4, 0xF)
  {}

  lemma Round4Field(x: bv32, lo: bv32)
    requires lo < 32 && lo & 15 == 0
    ensures Field(Round4(x), lo, 0xFFFF) == Field(x, lo, 0xFF) + Field(x, lo + 8, 0xFF)
  {}

  lemma Round5Field(x: bv32)
    ensures Round5(x) == Field(x, 0, 0xFFFF) + Field(x, 16, 0xFFFF)
  {}

  /** After two rounds no 4-bit field exceeds 4, so bit 3 of every field is clear. */
  lemma TwoRoundsNibbles(x: bv32)
    ensures Round2(Round1(x)) & 0x8888_8888 == 0
  {}

  /** After three rounds every byte is below 16. */
  lemma ThreeRoundsBytes(x: bv32)
    ensures Round3(Round2(Round1(x))) & 0xF0F0_F0F0 == 0
  {}

  /** When no 4-bit field reaches 8, adding before masking cannot carry between fields. */
  lemma Round3SumIsRound3(x: bv32)
    requires x & 0x8888_8888 == 0
    ensures Round3Sum(x) == Round3(x)
  {}

  /** When every byte is below 16 their total is below 64, so `& 63` keeps all of it. */
  lemma FoldBytesIsRounds(x: bv32)
    requires x & 0xF0F0_F0F0 == 0
    ensures FoldBytes(x) == Round5(Round4(x))
  {
    FoldBytesSum(x);
    RoundsByteSum(x);
  }

  /** The four bytes of a word added up. */
  function ByteSum(x: bv32): bv32
  {
    (x & 0xFF) + ((x >> 8) & 0xFF) + ((x >> 16) & 0xFF) + (x >> 24)
  }

  lemma FoldBytesSum(x: bv32)
    requires x & 0xF0F0_F0F0 == 0
    ensures FoldBytes(x) == ByteSum(x)
  {}

  lemma RoundsByteSum(x: bv32)
    requires x & 0xF0F0_F0F0 == 0
    ensures Round5(Round4(x)) == ByteSum(x)
  {
    var lo := (x & 0xFF) + ((x >> 8) & 0xFF);
    var hi := ((x >> 16) & 0xFF) + (x >> 24);
    Round4Halves(x, lo, hi);
    Round5Halves(lo, hi);
  }

  /** With bytes below 16, the fourth round leaves two small sums, one per half. */
  lemma Round4Halves(x: bv32, lo: bv32, hi: bv32)
    requires x & 0xF0F0_F0F0 == 0
    requires lo == (x & 0xFF) + ((x >> 8) & 0xFF)
    requires hi == ((x >> 16) & 0xFF) + (x >> 24)
    ensures lo < 32 && hi < 32 && Round4(x) == lo | (hi << 16)
  {}

  lemma Round5Halves(lo: bv32, hi: bv32)
    requires lo < 32 && hi < 32
    ensures Round5(lo | (hi << 16)) == lo + hi
  {}

  /** When every byte is below 16 their total fits in the top byte of the product. */
  lemma MultiplyBytesIsRounds(x: bv32)
    requires x & 0xF0F0_F0F0 == 0
    ensures MultiplyBytes(x) == Round5(Round4(x))
  {}
}
