/*
 * The specification every population-count routine of bit_count.c is
 * measured against: the number of set bits of a 32-bit word, counted one
 * bit position at a time.
 */
module PopcountSpec {

  /** 1 when bit `i` of `x` is set, 0 otherwise. */
  function Bit(x: bv32, i: bv32): (b: nat)
    requires i < 32
    ensures b <= 1
  {
    if (x >> i) & 1 == 1 then 1 else 0
  }

  /**
   * The number of set bits of `x` at positions lo, lo + 1, ..., hi - 1.
   * Positions are kept as `bv32` so that shifting by them needs no
   * conversion. `x` is part of the decreases clause only so that the
   * verifier does not unroll counts whose bounds are literals.
   */
  function CountRange(x: bv32, lo: bv32, hi: bv32): nat
    requires lo <= hi <= 32
    decreases hi - lo, x
  {
    if lo == hi then 0 else Bit(x, lo) + CountRange(x, lo + 1, hi)
  }

  /** The number of set bits of a 32-bit word. */
  function Popcount(x: bv32): int
  {
    CountRange(x, 0, 32)
  }

  /** Counting over [lo, hi) is counting over [lo, mid) and then over [mid, hi). */
  lemma {:induction false} CountSplit(x: bv32, lo: bv32, mid: bv32, hi: bv32)
    requires lo <= mid <= hi <= 32
    ensures CountRange(x, lo, hi) == CountRange(x, lo, mid) + CountRange(x, mid, hi)
    decreases mid - lo
  {
    if lo < mid {
      CountSplit(x, lo + 1, mid, hi);
    }
  }
}
