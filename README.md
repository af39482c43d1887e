# bit_count in Dafny

`bit_count.c` compares several ways of counting the set bits of a 32-bit word:

- three SWAR ("SIMD within a register") formulas, `popcnt32_a`, `popcnt32_b` and `popcnt32_c`;
- the compiler builtin `popcnt32_d`, when it is available;
- a 4 GiB lookup table read by `popcnt32_z`.

Its `main` first tries every 32-bit word and counts the words on which the
implementations disagree, stopping after the 11th disagreement. It then fills
the table. Finally it times one loop per implementation. Each loop walks the
orbit of 1 under a Galois LFSR with the reflected CRC-32 polynomial
`0xEDB88320` and adds the counts into a 64-bit accumulator.

This project models each of those pieces and proves what the program only
checks by brute force:

- every formula returns the number of set bits of its argument;
- the testing loop therefore reports `errs == 0` and `ok == 2^32`;
- the table holds the count of every word;
- every benchmark loop terminates;
- all the printed sums are equal.

Modules, one per file:

- `PopcountSpec` (`popcount_spec.dfy`) is the reference count `Popcount(x)`: the number of positions `i < 32` whose bit is set.
- `SwarRounds` (`swar_rounds.dfy`) holds the masks `kMu0`..`kMu4`, the five mask/shift/add rounds, and the shortcuts of `popcnt32_b` and `popcnt32_c`. It has bit-vector lemmas on what one round does to one field, and on when a shortcut gives the same word as the full rounds.
- `SwarFields` (`swar_fields.dfy`) proves why the rounds count. After round k, each field of width 2^k holds the number of set bits of the input in the same positions.
- `Popcnt` (`popcnt.dfy`) holds the three formulas, each proved equal to `Popcount`.
- `Lfsr` (`lfsr.dfy`) has the step and its inverse. It proves:
  - injectivity;
  - that zero is preserved and never reached from 1;
  - the pigeonhole bound behind the termination of `do { ... } while (r != 1)`;
  - the number of steps of that loop, `Period()`.
- `Lut` (`lut.dfy`) is the global table as a class holding an array, with `init_popcnt32_lut` as a method that fills it in a loop and `popcnt32_z` as a read.
- `Conversions` (`conversions.dfy`) models the implicit `uint64_t` to `uint32_t` conversion of the testing loop's counter, and proves that the counter values `0 .. 2^32 - 1` reach every word.
- `Harness` (`harness.dfy`) models `main` without its clock and output:
  - the testing loop, with its early exit;
  - the benchmark loops, with their sums wrapped modulo 2^64;
  - the fallback `sd = sa`;
  - the whole program as `BitCount`.

Several things are parameters of the model rather than fixed:

- The four implementations under test are function values. `CheckAgreement` and `Accumulate` therefore state their results for any implementations, and `CheckPopcounts` and `RunBenchmarks` apply them to the real ones.
- Whether the program was built with `HAVE_BUILTIN_POPCOUNT` is the Boolean parameter `haveBuiltin`.

Outputs and ranges:

- The C program's printed results are the model's out-parameters: `errs`, `ok` and the sums `sa`, `sb`, `sc`, `sd`, `sz`.
- The 64-bit counters `errs` and `ok` are unbounded integers. They never exceed 2^32, so nothing wraps.
- The `uint64_t` accumulators are integers in `[0, 2^64)`, updated modulo 2^64 as the C arithmetic is.

## Model

| member | source | states |
|---|---|---|
| PopcountSpec.CountSplit | bit_count.c:22-29 | the count over a range of bit positions splits at any midpoint, which is how two neighbouring fields add up in each SWAR round |
| SwarRounds.Round1Field | bit_count.c:23 | after the first round each 2-bit field is the sum of the two bits it covered |
| SwarRounds.Round2Field | bit_count.c:24 | after the second round each 4-bit field is the sum of its two 2-bit fields |
| SwarRounds.Round3Field | bit_count.c:25 | after the third round each byte is the sum of its two nibbles |
| SwarRounds.Round4Field | bit_count.c:26 | after the fourth round each 16-bit half is the sum of its two bytes |
| SwarRounds.Round5Field | bit_count.c:27 | the fifth round leaves the sum of the two 16-bit halves |
| SwarRounds.TwoRoundsNibbles | bit_count.c:32-33 | after two rounds no nibble has its top bit set, so no nibble exceeds 7 |
| SwarRounds.ThreeRoundsBytes | bit_count.c:23-25 | after three rounds the upper nibble of every byte is clear |
| SwarRounds.Round3SumIsRound3 | bit_count.c:34 | adding before masking (`(x + (x >> 4)) & kMu2`) equals the full third round when no nibble reaches 8 |
| SwarRounds.FoldBytesSum | bit_count.c:35-37 | when every byte is below 16, the two shift-adds and `& 63` leave the sum of the four bytes |
| SwarRounds.RoundsByteSum | bit_count.c:26-27 | when every byte is below 16, rounds four and five leave the sum of the four bytes |
| SwarRounds.FoldBytesIsRounds | bit_count.c:35-37 | on bytes below 16, the shift-add fold of `popcnt32_b` equals rounds four and five of `popcnt32_a` |
| SwarRounds.MultiplyBytesIsRounds | bit_count.c:44 | on bytes below 16, multiplying by 0x01010101 modulo 2^32 and keeping the top byte equals rounds four and five |
| SwarFields.FieldsCount1 | bit_count.c:22 | before any round each bit counts itself |
| SwarFields.FieldsCount2 | bit_count.c:23 | after round one every 2-bit field is at most 2 and counts the set input bits under it |
| SwarFields.FieldsCount4 | bit_count.c:24 | after round two every 4-bit field is at most 4 and counts the set input bits under it |
| SwarFields.FieldsCount8 | bit_count.c:25 | after round three every byte is at most 8 and counts the set input bits under it |
| SwarFields.FieldsCount16 | bit_count.c:26 | after round four every 16-bit half is at most 16 and counts the set input bits under it |
| SwarFields.FieldsCount32 | bit_count.c:27-28 | after round five the word is at most 32 and is the number of set input bits |
| SwarFields.ThreeRoundsCountBytes | bit_count.c:23-25 | after three rounds each byte holds the count of its own eight input bits |
| SwarFields.FiveRoundsCount | bit_count.c:22-29 | the five rounds return the population count of the input, at most 32 |
| Popcnt.Popcnt32A | bit_count.c:22-29 | `popcnt32_a(x)` is the number of set bits of `x`, between 0 and 32 |
| Popcnt.Popcnt32B | bit_count.c:31-38 | `popcnt32_b(x) == popcnt32_a(x)` for every word |
| Popcnt.Popcnt32C | bit_count.c:40-46 | `popcnt32_c(x) == popcnt32_a(x)` for every word |
| Popcnt.Popcnt32BBytes | bit_count.c:32-34 | after line 34 each byte of `popcnt32_b`'s intermediate word holds the count of its own eight input bits |
| Popcnt.Popcnt32AExamples | bit_count.c:22-29 | 0 counts 0, 0x80000000 counts 1, 0x0F0F0F0F counts 16, 0xFFFFFFFF counts 32 |
| Popcnt.AllCount | bit_count.c:90 | all three formulas equal the bit count on every word, so the check's condition never holds |
| Lfsr.Step | bit_count.c:116 | the LFSR step is undone by `Unstep`, and it maps zero, and only zero, to zero |
| Lfsr.StepZero | bit_count.c:116 | zero is a fixed point of the step |
| Lfsr.StepInjective | bit_count.c:116-117 | two states with the same successor are equal |
| Lfsr.IterateNonzero | bit_count.c:112-117 | seeded with 1, the loop never reaches state 0 |
| Lfsr.OrbitDistinct | bit_count.c:114-117 | until the state returns to 1, no state repeats |
| Lfsr.OrbitValuesCard | bit_count.c:114-117 | the first n states before a return to 1 are n distinct values |
| Lfsr.RangeCard | bit_count.c:114-117 | a set of integers drawn from [lo, hi) has at most hi - lo elements (the pigeonhole step) |
| Lfsr.OrbitBound | bit_count.c:114-117 | the loop cannot run 2^32 - 1 steps without returning to 1 |
| Lfsr.PeriodExists | bit_count.c:114-117 | the state returns to 1, so every `do ... while (r != 1)` loop terminates |
| Lfsr.Period | bit_count.c:114-117 | `Period()` is the first return time to 1 |
| Lfsr.PeriodUnique | bit_count.c:114-117 | any first return time to 1 is `Period()` |
| Lfsr.PeriodBound | bit_count.c:114-117 | a benchmark loop runs fewer than 2^32 iterations |
| Lut.PopcountTable.constructor | bit_count.c:54 | before initialisation the table is empty |
| Lut.PopcountTable.Initialize | bit_count.c:56-66 | afterwards the table is a fresh array of 2^32 bytes whose entry for every word is that word's bit count |
| Lut.PopcountTable.Lookup | bit_count.c:68-70 | on an initialised table, `popcnt32_z(x) == popcnt32_a(x)`, the bit count of `x` |
| Conversions.Low32Value | bit_count.c:80-81 | every word is the low 32 bits of the number it denotes |
| Conversions.ValueBound | bit_count.c:80 | a word denotes a number below 2^32, that is below `UINT32_MAX + 1` |
| Conversions.Low32Onto | bit_count.c:80-83 | the counter values `0 .. UINT32_MAX` passed as `uint32_t` reach every word |
| Harness.MismatchesStep | bit_count.c:90-98 | examining one more counter value adds one mismatch exactly when the four results differ |
| Harness.NoMismatches | bit_count.c:80-99 | no mismatch among the first n counter values exactly when all four implementations agree on each of them |
| Harness.AllWordsAgree | bit_count.c:80-99 | no mismatch over all 2^32 counter values exactly when the implementations agree on every word |
| Harness.CheckAgreement | bit_count.c:80-99 | `ok + errs` is the number of words examined, `errs` the number of disagreements among them, and `errs <= 11`; the loop covers all 2^32 words unless it stopped at an 11th disagreement, which it names |
| Harness.CheckVerdict | bit_count.c:80-101 | the testing loop reports `errs == 0` exactly when the implementations agree on every word, and then `ok == 2^32` |
| Harness.CheckPopcounts | bit_count.c:80-101 | with or without the builtin, the program's testing loop ends with `errs == 0` and `ok == 2^32` |
| Harness.OrbitSumAgree | bit_count.c:122-179 | implementations that agree on every word have equal sums over the orbit |
| Harness.OrbitSumsAgree | bit_count.c:122-153 | the orbit sums of `popcnt32_a`, `popcnt32_b` and `popcnt32_c` all equal the orbit sum of the bit count |
| Harness.WrapAdd | bit_count.c:126 | reducing the running `uint64_t` sum before an addition does not change the wrapped result |
| Harness.AccumulateStep | bit_count.c:125-128 | one iteration turns the wrapped sum over k states into the wrapped sum over k + 1 states |
| Harness.Accumulate | bit_count.c:122-128 | a benchmark loop ends with the sum of `f` over the whole orbit of 1, modulo 2^64 |
| Harness.AccumulateTable | bit_count.c:170-176 | the `popcnt32_z` loop ends with the orbit sum of the bit count, modulo 2^64 |
| Harness.RunBenchmarks | bit_count.c:122-182 | `sa`, `sb`, `sc`, `sd` (run or copied from `sa`) and `sz` are all the orbit sum of the bit count modulo 2^64 |
| Harness.BitCount | bit_count.c:75-185 | the whole program: `errs == 0`, `ok == 2^32`, and all five printed sums are equal |

## Left out

- Output and timing are left out, because they are I/O and measurement: every `printf`, `fprintf`, `puts` and `fflush`, the per-mismatch diagnostic line, and the `clock()` calls around each loop.
- The `realloc` of the table and its out-of-memory exit are left out. `Initialize` allocates a fresh Dafny array of `UINT32_MAX + 1` entries, which cannot fail.
- `popcnt32_d` (`__builtin_popcount`) is a compiler intrinsic with no visible body. It is represented by the reference function `Popcount`.
- The "Null" loop, which sums the raw LFSR states as a timing baseline, is not modelled. It computes no bit count.
- The `volatile` qualifiers on the accumulators have no meaning here: they only stop the C optimiser removing the loops.
- Lfsr.PeriodBound: states only that the benchmark loops terminate within fewer than 2^32 steps, not that the orbit of 1 has the full period 2^32 - 1. The full period rests on the primitivity of the CRC-32 polynomial over GF(2), which this model does not prove.
- Harness.CheckAgreement: the implementations are evaluated once per word through function values. The C code calls each implementation directly and keeps four `const int` results.
