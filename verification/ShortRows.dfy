/** How many values a row needs: four show the seed, three do not. */
module ShortRows {
  import opened BitMasks
  import opened Xorshift
  import opened Float32
  import opened SeededMask

  // ---------------------------------------------------------------- the step on machine words

  function PushLeft13(f: Word): Word { f ^ (f << 13) }

  lemma PushLeft13Is(f: Word)
    ensures PushLeft13(f) == XorWords(f, Shl13(f))
  {
    XorIs(f, f << 13);
  }

  function PushRight7(f: Word): Word { f ^ (f >> 7) }

  lemma PushRight7Is(f: Word)
    ensures PushRight7(f) == XorWords(f, Shr7(f))
  {
    XorIs(f, f >> 7);
  }

  function PushLeft17(f: Word): Word { f ^ (f << 17) }

  lemma PushLeft17Is(f: Word)
    ensures PushLeft17(f) == XorWords(f, Shl17(f))
  {
    XorIs(f, f << 17);
  }

  function NextWord(f: Word): Word {
    PushLeft17(PushRight7(PushLeft13(f)))
  }

  lemma PushLeft13Bits(f: Word)
    ensures WordBits(PushLeft13(f)) == XorLeft(WordBits(f), 13)
  {
    PushLeft13Is(f);
    Shl13Bits(f);
    XorBits(f, Shl13(f));
  }

  lemma PushRight7Bits(f: Word)
    ensures WordBits(PushRight7(f)) == XorRight(WordBits(f), 7)
  {
    PushRight7Is(f);
    Shr7Bits(f);
    XorBits(f, Shr7(f));
  }

  lemma PushLeft17Bits(f: Word)
    ensures WordBits(PushLeft17(f)) == XorLeft(WordBits(f), 17)
  {
    PushLeft17Is(f);
    Shl17Bits(f);
    XorBits(f, Shl17(f));
  }

  lemma NextWordBits(f: Word)
    ensures WordBits(NextWord(f)) == Next(WordBits(f))
  {
    PushLeft13Bits(f);
    PushRight7Bits(PushLeft13(f));
    PushLeft17Bits(PushRight7(PushLeft13(f)));
  }

  // ---------------------------------------------------------------- numbers of words

  function NumOf(f: Word): nat {
    ToNum(WordBits(f))
  }

  lemma NumOfHalf(f: Word)
    ensures NumOf(f) == (if LowBit(f) then 1 else 0) + 2 * NumOf(Half(f))
  {
    var b := WordBits(f);
    assert Down(f, 0) == f;
    Shr1Bits(f);
    assert Half(f) == Shr1(f);
    ToNumOfRest(b);
  }

  lemma ToNumOfRest(b: Bits)
    requires |b| == WIDTH
    ensures ToNum(b[1..]) == ToNum(Shr(b, 1))
  {
    ToNumHighZeros(Shr(b, 1), 63);
    assert Shr(b, 1)[..63] == b[1..];
  }

  lemma OddSuccessor(v: Word, w: Word)
    requires w == v + 1 && LowBit(v) && v < 0x8000_0000
    ensures !LowBit(w) && Half(w) == Half(v) + 1 && Half(v) < 0x8000_0000
  {
  }

  lemma EvenSuccessor(v: Word, w: Word)
    requires w == v + 1 && !LowBit(v)
    ensures LowBit(w) && Half(w) == Half(v)
  {
  }

  lemma {:induction false} NumOfSuccessor(v: Word, w: Word)
    requires w == v + 1 && v < 0x8000_0000
    ensures NumOf(w) == NumOf(v) + 1
    decreases NumOf(v)
  {
    NumOfHalf(v);
    NumOfHalf(w);
    if LowBit(v) {
      OddSuccessor(v, w);
      NumOfSuccessor(Half(v), Half(w));
    } else {
      EvenSuccessor(v, w);
    }
  }

  function Shr37(f: Word): Word { Shr7(Shr13(Shr17(f))) }

  function Shr39(f: Word): Word { Shr13(Shr13(Shr13(f))) }

  function Shr63(f: Word): Word { Shr7(Shr17(Shr39(f))) }

  lemma Shr37Bits(f: Word)
    ensures WordBits(Shr37(f)) == Shr(WordBits(f), 37)
  {
    Shr17Bits(f);
    Shr13Bits(Shr17(f));
    Shr7Bits(Shr13(Shr17(f)));
    ShrAdd(WordBits(f), 17, 13);
    ShrAdd(WordBits(f), 30, 7);
  }

  lemma Shr39Bits(f: Word)
    ensures WordBits(Shr39(f)) == Shr(WordBits(f), 39)
  {
    Shr13Bits(f);
    Shr13Bits(Shr13(f));
    Shr13Bits(Shr13(Shr13(f)));
    ShrAdd(WordBits(f), 13, 13);
    ShrAdd(WordBits(f), 26, 13);
  }

  lemma Shr63Bits(f: Word)
    ensures WordBits(Shr63(f)) == Shr(WordBits(f), 63)
  {
    Shr39Bits(f);
    Shr17Bits(Shr39(f));
    Shr7Bits(Shr17(Shr39(f)));
    ShrAdd(WordBits(f), 39, 17);
    ShrAdd(WordBits(f), 56, 7);
  }

  lemma Bit37(f: Word)
    ensures WordBits(f)[37] == LowBit(Shr37(f))
  {
    Shr37Bits(f);
    FirstBit(Shr37(f));
  }

  lemma Bit63(f: Word)
    ensures WordBits(f)[63] == LowBit(Shr63(f))
  {
    Shr63Bits(f);
    FirstBit(Shr63(f));
  }

  // ---------------------------------------------------------------- two states of one rounding

  lemma {:induction false} ToNumOfSetBit(b: Bits, i: nat)
    requires i < |b| && b[i]
    ensures ToNum(b) >= Xorshift.Pow2(i)
  {
    if i > 0 {
      ToNumOfSetBit(b[1..], i - 1);
    }
  }

  lemma TopNumberSplit(s: Bits) returns (low: nat)
    requires |s| == WIDTH
    ensures TopNumber(s) == low + 0x1000_0000 * ToNum(s[39..]) && low < 0x1000_0000
    ensures s[37] ==> low > 0
  {
    TopBits(s);
    ToNumSplit(s[11..], 28);
    low := ToNum(s[11..][..28]);
    ToNumBelow(s[11..][..28]);
    Pow2Of28();
    assert s[39..] == s[11..][28..];
    if s[37] {
      assert s[11..][..28][26];
      ToNumOfSetBit(s[11..][..28], 26);
    }
  }

  lemma TopNumberIsHigh(s: Bits)
    requires |s| == WIDTH && s[63]
    ensures TopNumber(s) >= 0x10_0000_0000_0000
  {
    TopBits(s);
    Pow2Of28();
    assert s[11..][52];
    ToNumOfSetBit(s[11..], 52);
  }

  lemma NumOfTop(f: Word)
    ensures NumOf(Shr39(f)) == ToNum(WordBits(f)[39..])
  {
    var s := WordBits(f);
    Shr39Bits(f);
    ToNumHighZeros(Shr(s, 39), 25);
    assert Shr(s, 39)[..25] == s[39..];
  }

  /** The bits of a top number that decide its rounding. */
  lemma TopNumberParts(f: Word) returns (low: nat)
    ensures TopNumber(WordBits(f)) == low + 0x1000_0000 * NumOf(Shr39(f)) && low < 0x1000_0000
    ensures LowBit(Shr37(f)) ==> low > 0
    ensures LowBit(Shr63(f)) ==> TopNumber(WordBits(f)) >= 0x10_0000_0000_0000
  {
    low := TopNumberSplit(WordBits(f));
    NumOfTop(f);
    Bit37(f);
    Bit63(f);
    if LowBit(Shr63(f)) {
      TopNumberIsHigh(WordBits(f));
    }
  }

  lemma Pow2Of28()
    ensures Xorshift.Pow2(28) == 0x1000_0000 && Xorshift.Pow2(26) > 0 && Xorshift.Pow2(52) == 0x10_0000_0000_0000
  {
    Pow2Byte(4);
    Pow2Byte(12);
    Pow2Byte(20);
    Pow2Byte(28);
    Pow2Byte(36);
    Pow2Byte(44);
  }

  lemma UlpOfTop(x: real)
    requires 4503599627370496.0 <= x
    ensures UlpOf(x) == TOP_ULP
  {
  }

  lemma NearestIs(y: real, m: int)
    requires y >= 0.0 && m as real - 0.5 < y < m as real + 0.5
    ensures Nearest(y) == m
  {
  }

  lemma QuotientIsNear(x: real, n: real)
    requires n * TOP_ULP - 268435456.0 < x < n * TOP_ULP + 268435456.0
    ensures n - 0.5 < x / TOP_ULP < n + 0.5
  {
  }

  lemma F32OfTop(x: real, m: int)
    requires 4503599627370496.0 <= x < LIMIT
    requires m as real * TOP_ULP - 268435456.0 < x < m as real * TOP_ULP + 268435456.0
    ensures F32(x) == m as real * TOP_ULP
  {
    UlpOfTop(x);
    QuotientIsNear(x, m as real);
    NearestIs(x / TOP_ULP, m);
  }

  /** `s` is rounded up to the number that `t`, one place above, is rounded down to. */
  predicate RoundAlike(s: Word, t: Word) {
    && Shr39(t) == Shr39(s) + 1 && Shr39(s) < 0x8000_0000 && !LowBit(Shr39(t))
    && LowBit(Shr37(s)) && LowBit(Shr63(s)) && LowBit(Shr63(t))
  }

  lemma SameRounding(s: Word, t: Word)
    requires RoundAlike(s, t)
    ensures MaskValue(WordBits(s)) == MaskValue(WordBits(t))
  {
    var lowS := TopNumberParts(s);
    var lowT := TopNumberParts(t);
    NumOfSuccessor(Shr39(s), Shr39(t));
    NumOfHalf(Shr39(t));
    TopFitsLimit(WordBits(s));
    TopFitsLimit(WordBits(t));
    F32OfTop(TopNumber(WordBits(s)) as real, NumOf(Half(Shr39(t))));
    F32OfTop(TopNumber(WordBits(t)) as real, NumOf(Half(Shr39(t))));
  }

  // ---------------------------------------------------------------- three values do not show the seed

  const LEFT: Word := 0x4029_C406_E8B6_3476
  const RIGHT: Word := 0x838C_FCDD_5B5D_30FA

  /** The next three values of `s` and `t` are rounded alike. */
  predicate ThreeAlike(s: Word, t: Word) {
    && RoundAlike(NextWord(s), NextWord(t))
    && RoundAlike(NextWord(NextWord(s)), NextWord(NextWord(t)))
    && RoundAlike(NextWord(NextWord(NextWord(t))), NextWord(NextWord(NextWord(s))))
  }

  lemma PairRoundsAlike()
    ensures ThreeAlike(LEFT, RIGHT)
    ensures !LowBit(Shr63(LEFT)) && LowBit(Shr63(RIGHT))
  {
  }

  lemma ThreeEqualValues(s: Word, t: Word)
    requires ThreeAlike(s, t)
    ensures MaskValue(Next(WordBits(s))) == MaskValue(Next(WordBits(t)))
    ensures MaskValue(Next(Next(WordBits(s)))) == MaskValue(Next(Next(WordBits(t))))
    ensures MaskValue(Next(Next(Next(WordBits(s))))) == MaskValue(Next(Next(Next(WordBits(t)))))
  {
    NextWordBits(s);
    NextWordBits(t);
    NextWordBits(NextWord(s));
    NextWordBits(NextWord(t));
    NextWordBits(NextWord(NextWord(s)));
    NextWordBits(NextWord(NextWord(t)));
    SameRounding(NextWord(s), NextWord(t));
    SameRounding(NextWord(NextWord(s)), NextWord(NextWord(t)));
    SameRounding(NextWord(NextWord(NextWord(t))), NextWord(NextWord(NextWord(s))));
  }

  lemma AlikeIsNotZero(s: Word, t: Word)
    requires ThreeAlike(s, t)
    ensures WordBits(s) != Zero(WIDTH) && WordBits(t) != Zero(WIDTH)
  {
    NextWordBits(s);
    NextWordBits(t);
    NextOfZero(WIDTH);
    Bit63(NextWord(s));
    Bit63(NextWord(t));
  }

  lemma TopBitsDiffer(s: Word, t: Word)
    requires !LowBit(Shr63(s)) && LowBit(Shr63(t))
    ensures WordBits(s) != WordBits(t)
  {
    Bit63(s);
    Bit63(t);
  }

  lemma StartOfSeedOf(word: Bits)
    requires |word| == WIDTH && word != Zero(WIDTH)
    ensures StateAt(SeedOf(word), 0) == word
  {
    MixedOfSeedOf(word);
  }

  lemma RowOfThree(seed: Seed, s: Bits)
    requires |s| == WIDTH && StateAt(seed, 0) == s
    ensures Row(seed, 3) == [MaskValue(Next(s)), MaskValue(Next(Next(s))), MaskValue(Next(Next(Next(s))))]
  {
    assert StateAt(seed, 1) == Next(s) && StateAt(seed, 2) == Next(Next(s)) && StateAt(seed, 3) == Next(Next(Next(s)));
    assert Row(seed, 1) == [MaskValue(StateAt(seed, 1))];
    assert Row(seed, 2) == Row(seed, 1) + [MaskValue(StateAt(seed, 2))];
  }

  lemma SeedsOfStates(s: Bits, t: Bits) returns (a: Seed, b: Seed)
    requires |s| == |t| == WIDTH && s != Zero(WIDTH) && t != Zero(WIDTH) && s != t
    requires MaskValue(Next(s)) == MaskValue(Next(t)) && MaskValue(Next(Next(s))) == MaskValue(Next(Next(t)))
    requires MaskValue(Next(Next(Next(s)))) == MaskValue(Next(Next(Next(t))))
    ensures a != b && !Merged(a, b) && Row(a, 3) == Row(b, 3)
  {
    a, b := SeedOf(s), SeedOf(t);
    StartOfSeedOf(s);
    StartOfSeedOf(t);
    StatesExactlyWhen(a, b, 0);
    RowOfThree(a, s);
    RowOfThree(b, t);
  }

  /** Two seeds with the same first three values. */
  lemma ThreeValuesDoNotShowTheSeed() returns (a: Seed, b: Seed)
    ensures a != b && !Merged(a, b) && Row(a, 3) == Row(b, 3)
  {
    PairRoundsAlike();
    TopBitsDiffer(LEFT, RIGHT);
    AlikeIsNotZero(LEFT, RIGHT);
    ThreeEqualValues(LEFT, RIGHT);
    a, b := SeedsOfStates(WordBits(LEFT), WordBits(RIGHT));
  }

  lemma RowsGrowAlike(a: Seed, b: Seed, k: nat)
    requires k > 0 && Row(a, k - 1) == Row(b, k - 1) && MaskValue(StateAt(a, k)) == MaskValue(StateAt(b, k))
    ensures Row(a, k) == Row(b, k)
  {
  }

  lemma {:induction false} EqualRowsStartEqual(a: Seed, b: Seed, n: nat, k: nat)
    requires k <= n && Row(a, n) == Row(b, n)
    ensures Row(a, k) == Row(b, k)
    decreases k
  {
    if k > 0 {
      EqualRowsStartEqual(a, b, n, k - 1);
      ValuesOfEqualRows(a, b, n, k);
      RowsGrowAlike(a, b, k);
    }
  }

  /** Equal rows of `n` values come from equal seeds or the merged pair only. */
  ghost predicate RowsShowSeeds(n: nat) {
    forall a: Seed, b: Seed :: Row(a, n) == Row(b, n) ==> a == b || Merged(a, b)
  }

  /** MAIN RESULT. Rows show their seeds exactly from four values on. */
  lemma RowsShowSeedsExactlyWhen(n: nat)
    ensures RowsShowSeeds(n) <==> n >= 4
  {
    if n >= 4 {
      forall a: Seed, b: Seed | Row(a, n) == Row(b, n)
        ensures a == b || Merged(a, b)
      {
        RowsExactlyWhen(a, b, n);
      }
    } else {
      var a, b := ThreeValuesDoNotShowTheSeed();
      EqualRowsStartEqual(a, b, 3, n);
    }
  }
}
