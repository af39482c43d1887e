/*
 * The implicit conversion in the testing loop of bit_count.c: its counter is
 * a uint64_t, and each implementation takes a uint32_t, so the argument is
 * the counter's low 32 bits. Both directions are defined bit by bit, which
 * keeps the proofs about them in linear arithmetic.
 */
module Conversions {

  /** The number of 32-bit words, UINT32_MAX + 1. */
  const WordCount: nat := 0x1_0000_0000

  /** (uint32_t)i: the low 32 bits of `i`. */
  function Low32(i: nat): bv32
  {
    if i == 0 then 0 else (Low32(i / 2) << 1) | (if i % 2 == 1 then 1 else 0)
  }

  /** The number a 32-bit word denotes. */
  function Value(x: bv32): (n: nat)
    ensures n == 0 <==> x == 0
    decreases x
  {
    if x == 0 then 0 else 2 * Value(x >> 1) + (if x & 1 == 1 then 1 else 0)
  }

  function Pow2(k: nat): (p: nat)
    ensures p >= 1
  {
    if k == 0 then 1 else 2 * Pow2(k - 1)
  }

  lemma {:induction false} Pow2Add(a: nat, b: nat)
    ensures Pow2(a + b) == Pow2(a) * Pow2(b)
  {
    if a > 0 {
      Pow2Add(a - 1, b);
    }
  }

  /** Appending a bit below `m` appends it below the low 32 bits of `m`. */
  lemma Low32Step(m: nat, bit: nat)
    requires bit <= 1 && 2 * m + bit > 0
    ensures Low32(2 * m + bit) == (Low32(m) << 1) | (if bit == 1 then 1 else 0)
  {
    var n := 2 * m + bit;
    assert n / 2 == m;
    assert n % 2 == bit;
  }

  /** A word is its upper 31 bits shifted back up, with its lowest bit put back. */
  lemma Regroup(x: bv32)
    ensures ((x >> 1) << 1) | (if x & 1 == 1 then 1 else 0) == x
  {
  }

  lemma Low32ValueStep(x: bv32, m: nat, n: nat)
    requires Low32(m) == x >> 1
    requires n == 2 * m + (if x & 1 == 1 then 1 else 0) && n > 0
    ensures Low32(n) == x
  {
    Low32Step(m, if x & 1 == 1 then 1 else 0);
    Regroup(x);
  }

  /** Every word is the low 32 bits of the number it denotes. */
  lemma {:induction false} Low32Value(x: bv32)
    ensures Low32(Value(x)) == x
    decreases x
  {
    if x != 0 {
      Low32Value(x >> 1);
      Low32ValueStep(x, Value(x >> 1), Value(x));
    }
  }

  /** A word whose bits from position `kb` up are clear denotes less than 2^kb. */
  lemma {:induction false} ValueBelow(x: bv32, kb: bv32, k: nat)
    requires kb <= 32 && k == kb as int && x >> kb == 0
    ensures Value(x) < Pow2(k)
    decreases k
  {
    if x != 0 {
      assert (x >> 1) >> (kb - 1) == 0;
      ValueBelow(x >> 1, kb - 1, k - 1);
    }
  }

  /** A word denotes less than 2^32. */
  lemma ValueBound(x: bv32)
    ensures Value(x) < WordCount
  {
    ValueBelow(x, 32, 32);
    assert Pow2(4) == 16;
    Pow2Add(4, 4);
    Pow2Add(8, 8);
    Pow2Add(16, 16);
  }

  /** The counter values 0 .. 2^32 - 1 reach every word. */
  lemma Low32Onto(x: bv32)
    ensures exists i: nat :: i < WordCount && Low32(i) == x
  {
    Low32Value(x);
    ValueBound(x);
  }
}
