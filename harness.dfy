/*
 * main() of bit_count.c without its clock and printing: the exhaustive
 * agreement check of the population counts, then one benchmark loop per
 * implementation that walks the LFSR orbit of 1 and adds up the counts in a
 * 64-bit accumulator.
 */
module Harness {
  import opened PopcountSpec
  import opened Popcnt
  import opened Lfsr
  import opened Lut
  import opened Conversions

  /** uint64_t arithmetic wraps modulo 2^64. */
  const Uint64Modulus: nat := 0x1_0000_0000_0000_0000

  /** The four results for word `x` are all equal (the check's condition, negated). */
  ghost predicate Agree(a: bv32 -> int, b: bv32 -> int, c: bv32 -> int, d: bv32 -> int, x: bv32)
  {
    a(x) == b(x) && a(x) == c(x) && a(x) == d(x)
  }

  /** How many of the counter values 0 .. n - 1 the four implementations disagree on. */
  ghost function Mismatches(a: bv32 -> int, b: bv32 -> int, c: bv32 -> int, d: bv32 -> int, n: nat): nat
    requires n <= WordCount
  {
    if n == 0 then 0
    else Mismatches(a, b, c, d, n - 1) + (if Agree(a, b, c, d, Low32(n - 1)) then 0 else 1)
  }

  /** Examining counter value `n` adds one to the count exactly when the implementations disagree on it. */
  lemma MismatchesStep(a: bv32 -> int, b: bv32 -> int, c: bv32 -> int, d: bv32 -> int, n: nat, x: bv32)
    requires n < WordCount && x == Low32(n)
    ensures Mismatches(a, b, c, d, n + 1) == Mismatches(a, b, c, d, n) + (if Agree(a, b, c, d, x) then 0 else 1)
  {
  }

  /** Counting up to equal bounds gives equal counts and the same last word. */
  lemma SameCount(a: bv32 -> int, b: bv32 -> int, c: bv32 -> int, d: bv32 -> int, n: nat, m: nat)
    requires n == m <= WordCount
    ensures Mismatches(a, b, c, d, n) == Mismatches(a, b, c, d, m)
    ensures n > 0 ==> Low32(n - 1) == Low32(m - 1)
  {
  }

  /** With no disagreement among the first `n` counter values, each of them agrees, and conversely. */
  lemma {:induction false} NoMismatches(a: bv32 -> int, b: bv32 -> int, c: bv32 -> int, d: bv32 -> int, n: nat)
    requires n <= WordCount
    ensures Mismatches(a, b, c, d, n) == 0 <==> forall i: nat | i < n :: Agree(a, b, c, d, Low32(i))
  {
    if n > 0 {
      NoMismatches(a, b, c, d, n - 1);
      if Mismatches(a, b, c, d, n) == 0 {
        forall i: nat | i < n
          ensures Agree(a, b, c, d, Low32(i))
        {
          if i < n - 1 {
            assert Mismatches(a, b, c, d, n - 1) == 0;
          }
        }
      } else if Mismatches(a, b, c, d, n - 1) == 0 {
        var i: nat := n - 1;
        assert i < n && !Agree(a, b, c, d, Low32(i));
      } else {
        var i: nat :| i < n - 1 && !Agree(a, b, c, d, Low32(i));
      }
    }
  }

  /** All 2^32 counter values pass exactly when the implementations agree on every word. */
  lemma AllWordsAgree(a: bv32 -> int, b: bv32 -> int, c: bv32 -> int, d: bv32 -> int)
    ensures Mismatches(a, b, c, d, WordCount) == 0 <==> forall x: bv32 :: Agree(a, b, c, d, x)
  {
    NoMismatches(a, b, c, d, WordCount);
    if Mismatches(a, b, c, d, WordCount) == 0 {
      forall x: bv32
        ensures Agree(a, b, c, d, x)
      {
        Low32Onto(x);
      }
    }
  }

  /**
   * The testing loop: try every word, count agreements in `ok` and
   * disagreements in `errs`, and give up right after the 11th disagreement.
   */
  method CheckAgreement(a: bv32 -> int, b: bv32 -> int, c: bv32 -> int, d: bv32 -> int)
    returns (errs: int, ok: int)
    ensures 0 <= errs <= 11 && 0 <= ok
    ensures ok + errs <= WordCount
    ensures errs == Mismatches(a, b, c, d, ok + errs)
    ensures errs <= 10 ==> ok + errs == WordCount
    ensures errs == 11 ==> !Agree(a, b, c, d, Low32(ok + errs - 1))
  {
    errs, ok := 0, 0;
    var i := 0;
    while i < WordCount
      invariant 0 <= i <= WordCount
      invariant 0 <= errs <= 10 && 0 <= ok && ok + errs == i
      invariant errs == Mismatches(a, b, c, d, i)
    {
      var x := Low32(i);
      var va, vb, vc, vd := a(x), b(x), c(x), d(x);
      MismatchesStep(a, b, c, d, i, x);
      if va != vb || va != vc || va != vd {
        errs := errs + 1;
        if errs > 10 {
          SameCount(a, b, c, d, i + 1, ok + errs);
          break;
        }
      } else {
        ok := ok + 1;
      }
      i := i + 1;
    }
    if errs <= 10 {
      SameCount(a, b, c, d, i, ok + errs);
    }
  }

  /** The check reports no error exactly when the four implementations agree on every word. */
  lemma CheckVerdict(a: bv32 -> int, b: bv32 -> int, c: bv32 -> int, d: bv32 -> int, errs: int, ok: int)
    requires 0 <= errs <= 11 && 0 <= ok && ok + errs <= WordCount
    requires errs == Mismatches(a, b, c, d, ok + errs)
    requires errs <= 10 ==> ok + errs == WordCount
    ensures errs == 0 <==> forall x: bv32 :: Agree(a, b, c, d, x)
    ensures errs == 0 ==> ok == WordCount
  {
    if errs == 0 {
      SameCount(a, b, c, d, ok + errs, WordCount);
      AllWordsAgree(a, b, c, d);
    } else {
      NoMismatches(a, b, c, d, ok + errs);
      var i: nat :| i < ok + errs && !Agree(a, b, c, d, Low32(i));
    }
  }

  /** The testing loop as the program runs it, with or without the compiler builtin. */
  method CheckPopcounts(haveBuiltin: bool) returns (errs: int, ok: int)
    ensures errs == 0 && ok == WordCount
  {
    var d: bv32 -> int := if haveBuiltin then Popcount else Popcnt32C;
    errs, ok := CheckAgreement(Popcnt32A, Popcnt32B, Popcnt32C, d);
    forall x: bv32
      ensures Agree(Popcnt32A, Popcnt32B, Popcnt32C, d, x)
    {
      assert Popcnt32B(x) == Popcnt32A(x) && Popcnt32C(x) == Popcnt32A(x);
    }
    CheckVerdict(Popcnt32A, Popcnt32B, Popcnt32C, d, errs, ok);
  }

  /** The sum of `f` over the first `n` states of the orbit of 1, as a mathematical integer. */
  ghost function OrbitSum(f: bv32 -> int, n: nat): int
  {
    if n == 0 then 0 else OrbitSum(f, n - 1) + f(Iterate(n - 1))
  }

  /** Implementations that agree everywhere have equal orbit sums. */
  lemma {:induction false} OrbitSumAgree(f: bv32 -> int, g: bv32 -> int, n: nat)
    requires forall x: bv32 :: f(x) == g(x)
    ensures OrbitSum(f, n) == OrbitSum(g, n)
  {
    if n > 0 {
      OrbitSumAgree(f, g, n - 1);
    }
  }

  /** popcnt32_a, popcnt32_b and popcnt32_c total the same over the orbit as the bit count does. */
  lemma OrbitSumsAgree(n: nat)
    ensures OrbitSum(Popcnt32A, n) == OrbitSum(Popcount, n)
    ensures OrbitSum(Popcnt32B, n) == OrbitSum(Popcount, n)
    ensures OrbitSum(Popcnt32C, n) == OrbitSum(Popcount, n)
  {
    AllCount();
    OrbitSumAgree(Popcnt32A, Popcount, n);
    OrbitSumAgree(Popcnt32B, Popcount, n);
    OrbitSumAgree(Popcnt32C, Popcount, n);
  }

  /** Reducing the running sum first does not change the wrapped result. */
  lemma WrapAdd(s: int, v: int)
    ensures (s % Uint64Modulus + v) % Uint64Modulus == (s + v) % Uint64Modulus
  {
    var q := s / Uint64Modulus;
    assert s == q * Uint64Modulus + s % Uint64Modulus;
  }

  /** One more state added into the wrapped sum gives the wrapped sum of one more state. */
  lemma AccumulateStep(f: bv32 -> int, k: nat, sum: int, next: int)
    requires sum == OrbitSum(f, k) % Uint64Modulus
    requires next == (sum + f(Iterate(k))) % Uint64Modulus
    ensures 0 <= next < Uint64Modulus && next == OrbitSum(f, k + 1) % Uint64Modulus
  {
    WrapAdd(OrbitSum(f, k), f(Iterate(k)));
  }

  /**
   * One benchmark loop: starting from 1, add f(r) into a uint64_t and step
   * the LFSR, until the state is 1 again.
   */
  method Accumulate(f: bv32 -> int) returns (sum: int)
    ensures 0 <= sum < Uint64Modulus
    ensures sum == OrbitSum(f, Period()) % Uint64Modulus
  {
    var r: bv32 := 1;
    sum := 0;
    ghost var k: nat := 0;
    while true
      invariant r == Iterate(k) && NotReturned(k)
      invariant 0 <= sum < Uint64Modulus && sum == OrbitSum(f, k) % Uint64Modulus
      decreases WordCount - k
    {
      OrbitBound(k);
      AccumulateStep(f, k, sum, (sum + f(r)) % Uint64Modulus);
      sum := (sum + f(r)) % Uint64Modulus;
      r := Step(r);
      k := k + 1;
      if r == 1 {
        break;
      }
    }
    PeriodUnique(k);
  }

  /** The benchmark loop of popcnt32_z, reading the table instead of calling a function. */
  method AccumulateTable(table: PopcountTable) returns (sum: int)
    requires table.Valid()
    ensures 0 <= sum < Uint64Modulus
    ensures sum == OrbitSum(Popcount, Period()) % Uint64Modulus
  {
    var r: bv32 := 1;
    sum := 0;
    ghost var k: nat := 0;
    while true
      invariant r == Iterate(k) && NotReturned(k)
      invariant 0 <= sum < Uint64Modulus && sum == OrbitSum(Popcount, k) % Uint64Modulus
      decreases WordCount - k
    {
      OrbitBound(k);
      var count := table.Lookup(r);
      AccumulateStep(Popcount, k, sum, (sum + count) % Uint64Modulus);
      sum := (sum + count) % Uint64Modulus;
      r := Step(r);
      k := k + 1;
      if r == 1 {
        break;
      }
    }
    PeriodUnique(k);
  }

  /**
   * The five timed loops and the fallback sd = sa when the builtin is
   * missing: every accumulator ends with the total population count of the
   * orbit, wrapped to 64 bits.
   */
  method RunBenchmarks(table: PopcountTable, haveBuiltin: bool) returns (sa: int, sb: int, sc: int, sd: int, sz: int)
    requires table.Valid()
    ensures sa == OrbitSum(Popcount, Period()) % Uint64Modulus
    ensures sb == sa && sc == sa && sd == sa && sz == sa
  {
    OrbitSumsAgree(Period());
    sa := Accumulate(Popcnt32A);
    sb := Accumulate(Popcnt32B);
    sc := Accumulate(Popcnt32C);
    if haveBuiltin {
      sd := Accumulate(Popcount);
    } else {
      sd := sa;
    }
    sz := AccumulateTable(table);
  }

  /**
   * main(): the testing loop, filling the table, and the benchmark loops.
   * The check finds no error and every accumulator holds the same sum.
   */
  method BitCount(haveBuiltin: bool) returns (errs: int, ok: int, sa: int, sb: int, sc: int, sd: int, sz: int)
    ensures errs == 0 && ok == WordCount
    ensures sa == OrbitSum(Popcount, Period()) % Uint64Modulus
    ensures sb == sa && sc == sa && sd == sa && sz == sa
  {
    errs, ok := CheckPopcounts(haveBuiltin);
    var table := new PopcountTable();
    table.Initialize();
    sa, sb, sc, sd, sz := RunBenchmarks(table, haveBuiltin);
  }
}

