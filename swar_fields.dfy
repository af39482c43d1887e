/*
 * Why the rounds count bits: after round k every field of width 2^k holds,
 * as a number, the count of the set bits of the input word that it covers.
 * The invariant is carried round by round, one field at a time.
 */
module SwarFields {
  import opened PopcountSpec
  import opened SwarRounds

  /**
   * Every field of width `w` of `y` (selected by `mask`) is at most `w` and
   * equals the number of set bits of `x` in the same positions.
   */
  ghost predicate FieldsCount(y: bv32, x: bv32, w: bv32, mask: bv32)
    requires 0 < w <= 32
  {
    forall lo: bv32 | lo < 32 && lo & (w - 1) == 0 && lo <= 32 - w ::
      Field(y, lo, mask) <= w && Field(y, lo, mask) as int == CountRange(x, lo, lo + w)
  }

  lemma FieldAt(y: bv32, x: bv32, w: bv32, mask: bv32, lo: bv32)
    requires 0 < w <= 32 && FieldsCount(y, x, w, mask)
    requires lo < 32 && lo & (w - 1) == 0 && lo <= 32 - w
    ensures Field(y, lo, mask) <= w && Field(y, lo, mask) as int == CountRange(x, lo, lo + w)
  {}

  /** The two neighbouring fields that the next round adds together. */
  lemma FieldPair(y: bv32, x: bv32, w: bv32, mask: bv32, lo: bv32)
    requires w == 1 || w == 2 || w == 4 || w == 8 || w == 16
    requires FieldsCount(y, x, w, mask)
    requires lo < 32 && lo & (2 * w - 1) == 0
    ensures Field(y, lo, mask) <= w
    ensures Field(y, lo, mask) as int == CountRange(x, lo, lo + w)
    ensures Field(y, lo + w, mask) <= w
    ensures Field(y, lo + w, mask) as int == CountRange(x, lo + w, lo + 2 * w)
  {
    FieldAt(y, x, w, mask, lo);
    FieldAt(y, x, w, mask, lo + w);
  }

  lemma AddSmall(a: bv32, b: bv32)
    requires a <= 16 && b <= 16
    ensures (a + b) as int == a as int + b as int
  {}

  /** Adding two small field values counts the bits of both ranges together. */
  lemma FieldSum(x: bv32, lo: bv32, mid: bv32, hi: bv32, a: bv32, b: bv32, c: bv32)
    requires lo <= mid <= hi <= 32
    requires a <= 16 && b <= 16
    requires a as int == CountRange(x, lo, mid)
    requires b as int == CountRange(x, mid, hi)
    requires c == a + b
    ensures c as int == CountRange(x, lo, hi)
  {
    AddSmall(a, b);
    CountSplit(x, lo, mid, hi);
  }

  /** Before any round each single bit counts itself. */
  lemma FieldsCount1(x: bv32)
    ensures FieldsCount(x, x, 1, 1)
  {}

  lemma Round1Counts(x: bv32, y: bv32, lo: bv32)
    requires lo < 32 && lo & 1 == 0
    requires Field(y, lo, 1) <= 1 && Field(y, lo, 1) as int == CountRange(x, lo, lo + 1)
    requires Field(y, lo + 1, 1) <= 1 && Field(y, lo + 1, 1) as int == CountRange(x, lo + 1, lo + 2)
    ensures Field(Round1(y), lo, 3) <= 2
    ensures Field(Round1(y), lo, 3) as int == CountRange(x, lo, lo + 2)
  {
    Round1Field(y, lo);
    FieldSum(x, lo, lo + 1, lo + 2, Field(y, lo, 1), Field(y, lo + 1, 1), Field(Round1(y), lo, 3));
  }

  lemma FieldsCount2(x: bv32, y: bv32)
    requires FieldsCount(y, x, 1, 1)
    ensures FieldsCount(Round1(y), x, 2, 3)
  {
    forall lo: bv32 | lo < 32 && lo & 1 == 0 && lo <= 30
      ensures Field(Round1(y), lo, 3) <= 2 && Field(Round1(y), lo, 3) as int == CountRange(x, lo, lo + 2)
    {
      FieldPair(y, x, 1, 1, lo);
      Round1Counts(x, y, lo);
    }
  }

  lemma Round2Counts(x: bv32, y: bv32, lo: bv32)
    requires lo < 32 && lo & 3 == 0
    requires Field(y, lo, 3) <= 2 && Field(y, lo, 3) as int == CountRange(x, lo, lo + 2)
    requires Field(y, lo + 2, 3) <= 2 && Field(y, lo + 2, 3) as int == CountRange(x, lo + 2, lo + 4)
    ensures Field(Round2(y), lo, 0xF) <= 4
    ensures Field(Round2(y), lo, 0xF) as int == CountRange(x, lo, lo + 4)
  {
    Round2Field(y, lo);
    FieldSum(x, lo, lo + 2, lo + 4, Field(y, lo, 3), Field(y, lo + 2, 3), Field(Round2(y), lo, 0xF));
  }

  lemma FieldsCount4(x: bv32, y: bv32)
    requires FieldsCount(y, x, 2, 3)
    ensures FieldsCount(Round2(y), x, 4, 0xF)
  {
    forall lo: bv32 | lo < 32 && lo & 3 == 0 && lo <= 28
      ensures Field(Round2(y), lo, 0xF) <= 4 && Field(Round2(y), lo, 0xF) as int == CountRange(x, lo, lo + 4)
    {
      FieldPair(y, x, 2, 3, lo);
      Round2Counts(x, y, lo);
    }
  }

  lemma Round3Counts(x: bv32, y: bv32, lo: bv32)
    requires lo < 32 && lo & 7 == 0
    requires Field(y, lo, 0xF) <= 4 && Field(y, lo, 0xF) as int == CountRange(x, lo, lo + 4)
    requires Field(y, lo + 4, 0xF) <= 4 && Field(y, lo + 4, 0xF) as int == CountRange(x, lo + 4, lo + 8)
    ensures Field(Round3(y), lo, 0xFF) <= 8
    ensures Field(Round3(y), lo, 0xFF) as int == CountRange(x, lo, lo + 8)
  {
    Round3Field(y, lo);
    FieldSum(x, lo, lo + 4, lo + 8, Field(y, lo, 0xF), Field(y, lo + 4, 0xF), Field(Round3(y), lo, 0xFF));
  }

  lemma FieldsCount8(x: bv32, y: bv32)
    requires FieldsCount(y, x, 4, 0xF)
    ensures FieldsCount(Round3(y), x, 8, 0xFF)
  {
    forall lo: bv32 | lo < 32 && lo & 7 == 0 && lo <= 24
      ensures Field(Round3(y), lo, 0xFF) <= 8 && Field(Round3(y), lo, 0xFF) as int == CountRange(x, lo, lo + 8)
    {
      FieldPair(y, x, 4, 0xF, lo);
      Round3Counts(x, y, lo);
    }
  }

  lemma Round4Counts(x: bv32, y: bv32, lo: bv32)
    requires lo < 32 && lo & 15 == 0
    requires Field(y, lo, 0xFF) <= 8 && Field(y, lo, 0xFF) as int == CountRange(x, lo, lo + 8)
    requires Field(y, lo + 8, 0xFF) <= 8 && Field(y, lo + 8, 0xFF) as int == CountRange(x, lo + 8, lo + 16)
    ensures Field(Round4(y), lo, 0xFFFF) <= 16
    ensures Field(Round4(y), lo, 0xFFFF) as int == CountRange(x, lo, lo + 16)
  {
    Round4Field(y, lo);
    FieldSum(x, lo, lo + 8, lo + 16, Field(y, lo, 0xFF), Field(y, lo + 8, 0xFF), Field(Round4(y), lo, 0xFFFF));
  }

  lemma FieldsCount16(x: bv32, y: bv32)
    requires FieldsCount(y, x, 8, 0xFF)
    ensures FieldsCount(Round4(y), x, 16, 0xFFFF)
  {
    forall lo: bv32 | lo < 32 && lo & 15 == 0 && lo <= 16
      ensures Field(Round4(y), lo, 0xFFFF) <= 16 && Field(Round4(y), lo, 0xFFFF) as int == CountRange(x, lo, lo + 16)
    {
      FieldPair(y, x, 8, 0xFF, lo);
      Round4Counts(x, y, lo);
    }
  }

  lemma Round5Counts(x: bv32, y: bv32, a: bv32, b: bv32)
    requires a == Field(y, 0, 0xFFFF) && b == Field(y, 16, 0xFFFF)
    requires a <= 16 && a as int == CountRange(x, 0, 16)
    requires b <= 16 && b as int == CountRange(x, 16, 32)
    ensures Round5(y) <= 32
    ensures Round5(y) as int == CountRange(x, 0, 32)
  {
    Round5Field(y);
    FieldSum(x, 0, 16, 32, a, b, Round5(y));
  }

  lemma FieldsCount32(x: bv32, y: bv32)
    requires FieldsCount(y, x, 16, 0xFFFF)
    ensures Round5(y) <= 32
    ensures Round5(y) as int == CountRange(x, 0, 32)
  {
    FieldPair(y, x, 16, 0xFFFF, 0);
    Round5Counts(x, y, Field(y, 0, 0xFFFF), Field(y, 16, 0xFFFF));
  }

  /** After three rounds each byte holds the count of its own eight bits. */
  lemma ThreeRoundsCountBytes(x: bv32)
    ensures FieldsCount(Round3(Round2(Round1(x))), x, 8, 0xFF)
  {
    FieldsCount1(x);
    FieldsCount2(x, x);
    FieldsCount4(x, Round1(x));
    FieldsCount8(x, Round2(Round1(x)));
  }

  /** All five rounds leave the number of set bits of `x` in the whole word. */
  lemma FiveRoundsCount(x: bv32)
    ensures Round5(Round4(Round3(Round2(Round1(x))))) <= 32
    ensures Round5(Round4(Round3(Round2(Round1(x))))) as int == Popcount(x)
  {
    var y := Round3(Round2(Round1(x)));
    ThreeRoundsCountBytes(x);
    FieldsCount16(x, y);
    FieldsCount32(x, Round4(y));
  }
}
