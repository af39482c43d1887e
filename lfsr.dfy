/*
 * The state stepper of the benchmark loops in bit_count.c: a 32-bit Galois
 * LFSR shifting right, with the reflected CRC-32 (IEEE 802.3) polynomial as
 * its feedback taps. Every loop starts from 1 and stops when the state
 * returns to 1.
 */
module Lfsr {

  /** CRC32_POLY: the CRC-32 polynomial 0x04C11DB7 with its bits reversed. */
  const Crc32Poly: bv32 := 0xEDB8_8320

  /** One step: shift right, and fold the polynomial in when a 1 drops out. */
  function Step(r: bv32): (s: bv32)
    ensures Unstep(s) == r
    ensures s == 0 <==> r == 0
  {
    (r >> 1) ^ (if r & 1 != 0 then Crc32Poly else 0)
  }

  /**
   * The step backwards. The top bit of a stepped state is set exactly when
   * the polynomial (whose top bit is 1) was folded in, because `r >> 1`
   * always has a clear top bit.
   */
  function Unstep(s: bv32): bv32
  {
    if s & 0x8000_0000 != 0 then ((s ^ Crc32Poly) << 1) | 1 else s << 1
  }

  lemma StepZero()
    ensures Step(0) == 0
  {}

  lemma StepInjective(a: bv32, b: bv32)
    requires Step(a) == Step(b)
    ensures a == b
  {
    assert Unstep(Step(a)) == a;
  }

  /** The state after `k` steps from the seed 1. */
  function Iterate(k: nat): bv32
  {
    if k == 0 then 1 else Step(Iterate(k - 1))
  }

  /** Seeded with 1, the state never becomes 0. */
  lemma {:induction false} IterateNonzero(k: nat)
    ensures Iterate(k) != 0
  {
    if k > 0 {
      IterateNonzero(k - 1);
    }
  }

  /** No state among steps 1 .. k is the seed. */
  ghost predicate NotReturned(k: nat)
  {
    forall m: nat | 0 < m <= k :: Iterate(m) != 1
  }

  /** Until the orbit returns to 1, it never repeats a state. */
  lemma {:induction false} OrbitDistinct(i: nat, j: nat, k: nat)
    requires i < j <= k && NotReturned(k)
    ensures Iterate(i) != Iterate(j)
    decreases i
  {
    if i > 0 {
      OrbitDistinct(i - 1, j - 1, k);
      if Iterate(i) == Iterate(j) {
        StepInjective(Iterate(i - 1), Iterate(j - 1));
      }
    }
  }

  /** The first `n` states as numbers. */
  ghost function OrbitValues(n: nat): set<int>
  {
    set m: nat | m < n :: Iterate(m) as int
  }

  lemma BvToIntInjective(a: bv32, b: bv32)
    requires a as int == b as int
    ensures a == b
  {
    assert (a as int) as bv32 == a;
    assert (b as int) as bv32 == b;
  }

  lemma {:induction false} OrbitValuesCard(n: nat, k: nat)
    requires n <= k + 1 && NotReturned(k)
    ensures |OrbitValues(n)| == n
  {
    if n > 0 {
      OrbitValuesCard(n - 1, k);
      var v := Iterate(n - 1) as int;
      assert OrbitValues(n) == OrbitValues(n - 1) + {v};
      if v in OrbitValues(n - 1) {
        var m: nat :| m < n - 1 && Iterate(m) as int == v;
        BvToIntInjective(Iterate(m), Iterate(n - 1));
        OrbitDistinct(m, n - 1, k);
      }
    }
  }

  /** A set of integers drawn from [lo, hi) has at most hi - lo elements. */
  lemma {:induction false} RangeCard(s: set<int>, lo: int, hi: int)
    requires lo <= hi
    requires forall v | v in s :: lo <= v < hi
    ensures |s| <= hi - lo
    decreases hi - lo
  {
    if lo < hi {
      var rest := s - {hi - 1};
      RangeCard(rest, lo, hi - 1);
      if hi - 1 in s {
        assert s == rest + {hi - 1};
      } else {
        assert s == rest;
      }
    } else {
      forall v: int
        ensures v !in s
      {
      }
      assert s == {};
    }
  }

  /**
   * Pigeonhole: until it returns to 1 the orbit visits distinct nonzero
   * states, and there are only 2^32 - 1 of those.
   */
  lemma OrbitBound(k: nat)
    requires NotReturned(k)
    ensures k + 1 < 0x1_0000_0000
  {
    var visited := OrbitValues(k + 1);
    OrbitValuesCard(k + 1, k);
    forall v | v in visited
      ensures 1 <= v < 0x1_0000_0000
    {
      var m: nat :| m < k + 1 && Iterate(m) as int == v;
      IterateNonzero(m);
    }
    RangeCard(visited, 1, 0x1_0000_0000);
  }

  /** `n` steps bring the orbit back to 1 for the first time. */
  ghost predicate IsPeriod(n: nat)
  {
    0 < n && Iterate(n) == 1 && NotReturned(n - 1)
  }

  /** The orbit of 1 does return to 1: walk it until it does, which the pigeonhole bound ends. */
  lemma PeriodExists()
    ensures exists n: nat :: IsPeriod(n)
  {
    var k: nat := 0;
    while Iterate(k + 1) != 1
      invariant NotReturned(k)
      decreases 0x1_0000_0000 - k
    {
      OrbitBound(k);
      k := k + 1;
    }
    assert IsPeriod(k + 1);
  }

  /** The number of steps every benchmark loop of bit_count.c takes. */
  ghost function Period(): (n: nat)
    ensures IsPeriod(n)
  {
    PeriodExists();
    var n: nat :| IsPeriod(n); n
  }

  /** There is only one first return. */
  lemma PeriodUnique(n: nat)
    requires IsPeriod(n)
    ensures n == Period()
  {
    var p := Period();
    assert !(n < p) && !(p < n);
  }

  /** A benchmark loop runs fewer than 2^32 times. */
  lemma PeriodBound()
    ensures Period() < 0x1_0000_0000
  {
    OrbitBound(Period() - 1);
  }
}
