/** 64-bit words as bit sequences: how the bits of a word move under xor and constant shifts.

    The inductive proofs are over any type with the three operations they use, so that they need
    only the laws and never the word itself. */
module BitMasks {

  type Bits = seq<bool>

  function Xor(a: Bits, b: Bits): (r: Bits)
    requires |a| == |b|
    ensures |r| == |a|
  {
    seq(|a|, i requires 0 <= i < |a| => a[i] != b[i])
  }

  function Shl(a: Bits, k: nat): (r: Bits)
    ensures |r| == |a|
  {
    seq(|a|, i requires 0 <= i < |a| => i >= k && a[i - k])
  }

  function Shr(a: Bits, k: nat): (r: Bits)
    ensures |r| == |a|
  {
    seq(|a|, i requires 0 <= i < |a| => i + k < |a| && a[i + k])
  }

  function Zero(width: nat): Bits {
    seq(width, i requires 0 <= i < width => false)
  }

  // ---------------------------------------------------------------- any kind of word

  /** Halving, the lowest bit, and xor. */
  datatype Algebra<!M> = Algebra(half: M -> M, low: M -> bool, xor: (M, M) -> M)

  ghost predicate Lawful<M(!new)>(al: Algebra<M>) {
    && (forall f, h :: al.half(al.xor(f, h)) == al.xor(al.half(f), al.half(h)))
    && (forall f, h :: al.low(al.xor(f, h)) == (al.low(f) != al.low(h)))
  }

  function Drop<M>(al: Algebra<M>, f: M, n: nat): M
    decreases n
  {
    if n == 0 then f else Drop(al, al.half(f), n - 1)
  }

  function BitsOf<M>(al: Algebra<M>, f: M): (b: Bits)
    ensures |b| == 64
  {
    seq(64, i requires 0 <= i < 64 => al.low(Drop(al, f, i)))
  }

  lemma {:induction false} DropAdd<M>(al: Algebra<M>, f: M, m: nat, n: nat)
    ensures Drop(al, f, m + n) == Drop(al, Drop(al, f, m), n)
    decreases m
  {
    if m > 0 {
      DropAdd(al, al.half(f), m - 1, n);
    }
  }

  lemma {:induction false} DropXor<M(!new)>(al: Algebra<M>, f: M, h: M, n: nat)
    requires Lawful(al)
    ensures Drop(al, al.xor(f, h), n) == al.xor(Drop(al, f, n), Drop(al, h, n))
    decreases n
  {
    if n > 0 {
      DropXor(al, al.half(f), al.half(h), n - 1);
    }
  }

  lemma BitsOfXor<M(!new)>(al: Algebra<M>, f: M, h: M)
    requires Lawful(al)
    ensures BitsOf(al, al.xor(f, h)) == Xor(BitsOf(al, f), BitsOf(al, h))
  {
    forall i | 0 <= i < 64
      ensures BitsOf(al, al.xor(f, h))[i] == (BitsOf(al, f)[i] != BitsOf(al, h)[i])
    {
      DropXor(al, f, h, i);
    }
  }

  /** No bit below `n` is set. */
  ghost predicate LowZero<M>(al: Algebra<M>, f: M, n: nat) {
    forall i: nat :: i < n ==> !al.low(Drop(al, f, i))
  }

  lemma LowZeroAdd<M>(al: Algebra<M>, f: M, m: nat, n: nat)
    requires LowZero(al, f, m) && LowZero(al, Drop(al, f, m), n)
    ensures LowZero(al, f, m + n)
  {
    forall i: nat | i < m + n
      ensures !al.low(Drop(al, f, i))
    {
      if i >= m {
        DropAdd(al, f, m, i - m);
      }
    }
  }

  /** `g` is `f` shifted right. */
  lemma BitsOfShr<M>(al: Algebra<M>, f: M, g: M, k: nat)
    requires k <= 64 && Drop(al, f, k) == g && LowZero(al, Drop(al, f, 64), 64)
    ensures BitsOf(al, g) == Shr(BitsOf(al, f), k)
  {
    forall i | 0 <= i < 64
      ensures BitsOf(al, g)[i] == (i + k < 64 && BitsOf(al, f)[i + k])
    {
      DropAdd(al, f, k, i);
      if i + k >= 64 {
        DropAdd(al, f, 64, i + k - 64);
      }
    }
  }

  lemma SameLowBit<M(!new)>(al: Algebra<M>, f: M, h: M, n: nat, i: nat)
    requires Lawful(al) && LowZero(al, al.xor(f, h), n) && i < n
    ensures al.low(Drop(al, f, i)) == al.low(Drop(al, h, i))
  {
    DropXor(al, f, h, i);
  }

  lemma ShiftedBit<M(!new)>(al: Algebra<M>, f: M, g: M, k: nat, i: nat)
    requires Lawful(al) && k <= 64 && i < 64 - k
    requires LowZero(al, al.xor(f, Drop(al, g, k)), 64 - k)
    ensures al.low(Drop(al, g, k + i)) == al.low(Drop(al, f, i))
  {
    DropAdd(al, g, k, i);
    SameLowBit(al, f, Drop(al, g, k), 64 - k, i);
  }

  lemma ShlOfBits<M>(al: Algebra<M>, f: M, g: M, k: nat)
    requires k <= 64 && LowZero(al, g, k)
    requires forall i :: k <= i < 64 ==> al.low(Drop(al, g, i)) == al.low(Drop(al, f, i - k))
    ensures BitsOf(al, g) == Shl(BitsOf(al, f), k)
  {
  }

  /** `g` is `f` shifted left: what comes back from it differs from `f` in high bits only. */
  lemma BitsOfShl<M(!new)>(al: Algebra<M>, f: M, g: M, k: nat)
    requires Lawful(al) && k <= 64 && LowZero(al, g, k)
    requires LowZero(al, al.xor(f, Drop(al, g, k)), 64 - k)
    ensures BitsOf(al, g) == Shl(BitsOf(al, f), k)
  {
    forall i | k <= i < 64
      ensures al.low(Drop(al, g, i)) == al.low(Drop(al, f, i - k))
    {
      ShiftedBit(al, f, g, k, i - k);
    }
    ShlOfBits(al, f, g, k);
  }

  lemma DropFew<M>(al: Algebra<M>, f: M)
    ensures Drop(al, f, 0) == f && Drop(al, f, 1) == al.half(f) && Drop(al, f, 2) == al.half(al.half(f))
    ensures Drop(al, f, 3) == al.half(al.half(al.half(f)))
    ensures Drop(al, f, 4) == al.half(al.half(al.half(al.half(f))))
  {
    assert Drop(al, f, 3) == Drop(al, al.half(f), 2);
    assert Drop(al, f, 4) == Drop(al, al.half(f), 3) == Drop(al, al.half(al.half(f)), 2);
  }

  // ---------------------------------------------------------------- machine words

  type Word = bv64

  function Half(f: Word): Word { f >> 1 }

  predicate LowBit(f: Word) { f & 1 == 1 }

  function XorWords(f: Word, h: Word): Word { f ^ h }

  function Words(): Algebra<Word> {
    Algebra(Half, LowBit, XorWords)
  }

  lemma ShrXor(f: Word, h: Word)
    ensures (f ^ h) >> 1 == (f >> 1) ^ (h >> 1)
  {
  }

  lemma LowXor(f: Word, h: Word)
    ensures ((f ^ h) & 1 == 1) == ((f & 1 == 1) != (h & 1 == 1))
  {
  }

  lemma HalfLaw(al: Algebra<Word>, f: Word, h: Word)
    requires al == Words()
    ensures al.half(al.xor(f, h)) == al.xor(al.half(f), al.half(h))
  {
    ShrXor(f, h);
  }

  lemma LowLaw(al: Algebra<Word>, f: Word, h: Word)
    requires al == Words()
    ensures al.low(al.xor(f, h)) == (al.low(f) != al.low(h))
  {
    LowXor(f, h);
  }

  lemma WordsLawful()
    ensures Lawful(Words())
  {
    forall f: Word, h: Word
      ensures Words().half(Words().xor(f, h)) == Words().xor(Words().half(f), Words().half(h))
      ensures Words().low(Words().xor(f, h)) == (Words().low(f) != Words().low(h))
    {
      HalfLaw(Words(), f, h);
      LowLaw(Words(), f, h);
    }
  }

  function Down(f: Word, n: nat): Word {
    Drop(Words(), f, n)
  }

  function Shr4(f: Word): Word { f >> 4 }

  lemma Half4(f: Word)
    ensures Half(Half(Half(Half(f)))) == Shr4(f)
  {
  }

  lemma Down4(f: Word)
    ensures Down(f, 4) == Shr4(f)
  {
    DropFew(Words(), f);
    Half4(f);
  }

  function Shr16(f: Word): Word { f >> 16 }

  lemma Four4(f: Word)
    ensures Shr4(Shr4(Shr4(Shr4(f)))) == Shr16(f)
  {
  }

  lemma Down16(f: Word)
    ensures Down(f, 8) == Shr4(Shr4(f)) && Down(f, 12) == Shr4(Shr4(Shr4(f))) && Down(f, 16) == Shr16(f)
  {
    Down4(f);
    Down4(Shr4(f));
    DropAdd(Words(), f, 4, 4);
    Down4(Shr4(Shr4(f)));
    DropAdd(Words(), f, 8, 4);
    Down4(Shr4(Shr4(Shr4(f))));
    DropAdd(Words(), f, 12, 4);
    Four4(f);
  }

  lemma Four16(f: Word)
    ensures Shr16(Shr16(Shr16(Shr16(f)))) == 0
  {
  }

  lemma Down64(f: Word)
    ensures Down(f, 32) == Shr16(Shr16(f)) && Down(f, 48) == Shr16(Shr16(Shr16(f))) && Down(f, 64) == 0
  {
    Down16(f);
    Down16(Shr16(f));
    DropAdd(Words(), f, 16, 16);
    Down16(Shr16(Shr16(f)));
    DropAdd(Words(), f, 32, 16);
    Down16(Shr16(Shr16(Shr16(f))));
    DropAdd(Words(), f, 48, 16);
    Four16(f);
  }

  // ---------------------------------------------------------------- one place to the right

  lemma HalfOfZero()
    ensures Half(0) == 0 && !LowBit(0)
  {
  }

  lemma {:induction false} DownOfZero(i: nat)
    ensures Down(0, i) == 0
    decreases i
  {
    HalfOfZero();
    if i > 0 {
      DownOfZero(i - 1);
    }
  }

  lemma ZeroIsBlank(n: nat)
    ensures LowZero(Words(), 0, n)
  {
    forall i: nat | i < n
      ensures !Words().low(Drop(Words(), 0, i))
    {
      DownOfZero(i);
      HalfOfZero();
    }
  }

  function WordBits(f: Word): (b: Bits)
    ensures |b| == 64
  {
    BitsOf(Words(), f)
  }

  lemma FirstBit(f: Word)
    ensures WordBits(f)[0] == LowBit(f)
  {
    assert Down(f, 0) == f;
  }

  lemma XorIs(f: Word, h: Word)
    ensures f ^ h == XorWords(f, h)
  {
  }

  lemma XorBits(f: Word, h: Word)
    ensures WordBits(XorWords(f, h)) == Xor(WordBits(f), WordBits(h))
  {
    WordsLawful();
    BitsOfXor(Words(), f, h);
  }

  function Shr1(f: Word): Word { f >> 1 }

  lemma Down1(f: Word)
    ensures Down(f, 1) == Shr1(f)
  {
    DropFew(Words(), f);
  }

  lemma Shr1Bits(f: Word)
    ensures WordBits(Shr1(f)) == Shr(WordBits(f), 1)
  {
    Down64(f);
    ZeroIsBlank(64);
    Down1(f);
    BitsOfShr(Words(), f, Shr1(f), 1);
  }

  // ---------------------------------------------------------------- one place to the left

  lemma Even4(v: Word)
    requires v & 0xF == 0
    ensures !LowBit(v) && !LowBit(Half(v)) && !LowBit(Half(Half(v))) && !LowBit(Half(Half(Half(v))))
  {
  }

  lemma LowZero4(v: Word)
    requires v & 0xF == 0
    ensures LowZero(Words(), v, 4)
  {
    Even4(v);
    DropFew(Words(), v);
    forall i: nat | i < 4
      ensures !LowBit(Down(v, i))
    {
      assert i == 0 || i == 1 || i == 2 || i == 3;
    }
  }

  lemma Nibbles(v: Word)
    requires v & 0xFFFF == 0
    ensures v & 0xF == 0 && Shr4(v) & 0xF == 0 && Shr4(Shr4(v)) & 0xF == 0 && Shr4(Shr4(Shr4(v))) & 0xF == 0
  {
  }

  lemma LowZero16(v: Word)
    requires v & 0xFFFF == 0
    ensures LowZero(Words(), v, 16)
  {
    Nibbles(v);
    Down16(v);
    Down4(v);
    LowZero4(v);
    LowZero4(Shr4(v));
    LowZero4(Shr4(Shr4(v)));
    LowZero4(Shr4(Shr4(Shr4(v))));
    LowZeroAdd(Words(), v, 4, 4);
    LowZeroAdd(Words(), v, 8, 4);
    LowZeroAdd(Words(), v, 12, 4);
  }

  const TOP: Word := 0x8000_0000_0000_0000

  lemma PartsOfTop()
    ensures TOP & 0xFFFF == 0 && Shr16(TOP) & 0xFFFF == 0 && Shr16(Shr16(TOP)) & 0xFFFF == 0
    ensures Shr16(Shr16(Shr16(TOP))) == 0x8000
    ensures (0x8000 as Word) & 0xF == 0 && Shr4(0x8000) & 0xF == 0 && Shr4(Shr4(0x8000)) & 0xF == 0
    ensures Shr4(Shr4(Shr4(0x8000))) == 8 && !LowBit(8) && !LowBit(Half(8)) && !LowBit(Half(Half(8)))
  {
  }

  lemma LowZeroOf8()
    ensures LowZero(Words(), 8, 3)
  {
    PartsOfTop();
    DropFew(Words(), 8);
    forall i: nat | i < 3
      ensures !LowBit(Down(8, i))
    {
      assert i == 0 || i == 1 || i == 2;
    }
  }

  lemma LowZeroOf8000()
    ensures LowZero(Words(), 0x8000, 15)
  {
    PartsOfTop();
    Down4(0x8000);
    Down16(0x8000);
    LowZero4(0x8000);
    LowZero4(Shr4(0x8000));
    LowZero4(Shr4(Shr4(0x8000)));
    LowZeroOf8();
    LowZeroAdd(Words(), 0x8000, 4, 4);
    LowZeroAdd(Words(), 0x8000, 8, 4);
    LowZeroAdd(Words(), 0x8000, 12, 3);
  }

  lemma LowZeroOfTop()
    ensures LowZero(Words(), TOP, 63)
  {
    PartsOfTop();
    Down16(TOP);
    Down64(TOP);
    LowZero16(TOP);
    LowZero16(Shr16(TOP));
    LowZero16(Shr16(Shr16(TOP)));
    LowZeroOf8000();
    LowZeroAdd(Words(), TOP, 16, 16);
    LowZeroAdd(Words(), TOP, 32, 16);
    LowZeroAdd(Words(), TOP, 48, 15);
  }

  function Shl1(f: Word): Word { f << 1 }

  /** Going left and back loses the top bit at most. */
  lemma Shl1Loses(f: Word)
    ensures XorWords(f, Half(Shl1(f))) == 0 || XorWords(f, Half(Shl1(f))) == TOP
  {
  }

  lemma Down1Of(f: Word)
    ensures Down(f, 0) == f && Down(f, 1) == Half(f)
  {
  }

  lemma Shl1IsEven(f: Word)
    ensures !LowBit(Shl1(f))
  {
  }

  lemma Shl1LosesNoLowBit(f: Word)
    ensures LowZero(Words(), XorWords(f, Half(Shl1(f))), 63)
  {
    Shl1Loses(f);
    ZeroIsBlank(63);
    LowZeroOfTop();
  }

  lemma Shl1Bits(f: Word)
    ensures WordBits(Shl1(f)) == Shl(WordBits(f), 1)
  {
    WordsLawful();
    Shl1IsEven(f);
    Down1Of(Shl1(f));
    Shl1LosesNoLowBit(f);
    BitsOfShl(Words(), f, Shl1(f), 1);
  }

  // ---------------------------------------------------------------- further

  lemma ShrAdd(a: Bits, m: nat, n: nat)
    ensures Shr(Shr(a, m), n) == Shr(a, m + n)
  {
  }

  lemma ShlAdd(a: Bits, m: nat, n: nat)
    ensures Shl(Shl(a, m), n) == Shl(a, m + n)
  {
  }

  function Shr2(f: Word): Word { f >> 2 }

  lemma Shr2Is(f: Word)
    ensures Shr1(Shr1(f)) == Shr2(f)
  {
  }

  lemma Shr2Bits(f: Word)
    ensures WordBits(Shr2(f)) == Shr(WordBits(f), 2)
  {
    Shr2Is(f);
    Shr1Bits(f);
    Shr1Bits(Shr1(f));
    ShrAdd(WordBits(f), 1, 1);
  }

  function Shr3(f: Word): Word { f >> 3 }

  lemma Shr3Is(f: Word)
    ensures Shr1(Shr2(f)) == Shr3(f)
  {
  }

  lemma Shr3Bits(f: Word)
    ensures WordBits(Shr3(f)) == Shr(WordBits(f), 3)
  {
    Shr3Is(f);
    Shr2Bits(f);
    Shr1Bits(Shr2(f));
    ShrAdd(WordBits(f), 2, 1);
  }

  function Shr6(f: Word): Word { f >> 6 }

  lemma Shr6Is(f: Word)
    ensures Shr3(Shr3(f)) == Shr6(f)
  {
  }

  lemma Shr6Bits(f: Word)
    ensures WordBits(Shr6(f)) == Shr(WordBits(f), 6)
  {
    Shr6Is(f);
    Shr3Bits(f);
    Shr3Bits(Shr3(f));
    ShrAdd(WordBits(f), 3, 3);
  }

  function Shr7(f: Word): Word { f >> 7 }

  lemma Shr7Is(f: Word)
    ensures Shr1(Shr6(f)) == Shr7(f)
  {
  }

  lemma Shr7Bits(f: Word)
    ensures WordBits(Shr7(f)) == Shr(WordBits(f), 7)
  {
    Shr7Is(f);
    Shr6Bits(f);
    Shr1Bits(Shr6(f));
    ShrAdd(WordBits(f), 6, 1);
  }

  function Shr13(f: Word): Word { f >> 13 }

  lemma Shr13Is(f: Word)
    ensures Shr6(Shr7(f)) == Shr13(f)
  {
  }

  lemma Shr13Bits(f: Word)
    ensures WordBits(Shr13(f)) == Shr(WordBits(f), 13)
  {
    Shr13Is(f);
    Shr7Bits(f);
    Shr6Bits(Shr7(f));
    ShrAdd(WordBits(f), 7, 6);
  }

  function Shr14(f: Word): Word { f >> 14 }

  lemma Shr14Is(f: Word)
    ensures Shr7(Shr7(f)) == Shr14(f)
  {
  }

  lemma Shr14Bits(f: Word)
    ensures WordBits(Shr14(f)) == Shr(WordBits(f), 14)
  {
    Shr14Is(f);
    Shr7Bits(f);
    Shr7Bits(Shr7(f));
    ShrAdd(WordBits(f), 7, 7);
  }

  function Shr17(f: Word): Word { f >> 17 }

  lemma Shr17Is(f: Word)
    ensures Shr3(Shr14(f)) == Shr17(f)
  {
  }

  lemma Shr17Bits(f: Word)
    ensures WordBits(Shr17(f)) == Shr(WordBits(f), 17)
  {
    Shr17Is(f);
    Shr14Bits(f);
    Shr3Bits(Shr14(f));
    ShrAdd(WordBits(f), 14, 3);
  }

  function Shl2(f: Word): Word { f << 2 }

  lemma Shl2Is(f: Word)
    ensures Shl1(Shl1(f)) == Shl2(f)
  {
  }

  lemma Shl2Bits(f: Word)
    ensures WordBits(Shl2(f)) == Shl(WordBits(f), 2)
  {
    Shl2Is(f);
    Shl1Bits(f);
    Shl1Bits(Shl1(f));
    ShlAdd(WordBits(f), 1, 1);
  }

  function Shl3(f: Word): Word { f << 3 }

  lemma Shl3Is(f: Word)
    ensures Shl1(Shl2(f)) == Shl3(f)
  {
  }

  lemma Shl3Bits(f: Word)
    ensures WordBits(Shl3(f)) == Shl(WordBits(f), 3)
  {
    Shl3Is(f);
    Shl2Bits(f);
    Shl1Bits(Shl2(f));
    ShlAdd(WordBits(f), 2, 1);
  }

  function Shl6(f: Word): Word { f << 6 }

  lemma Shl6Is(f: Word)
    ensures Shl3(Shl3(f)) == Shl6(f)
  {
  }

  lemma Shl6Bits(f: Word)
    ensures WordBits(Shl6(f)) == Shl(WordBits(f), 6)
  {
    Shl6Is(f);
    Shl3Bits(f);
    Shl3Bits(Shl3(f));
    ShlAdd(WordBits(f), 3, 3);
  }

  function Shl7(f: Word): Word { f << 7 }

  lemma Shl7Is(f: Word)
    ensures Shl1(Shl6(f)) == Shl7(f)
  {
  }

  lemma Shl7Bits(f: Word)
    ensures WordBits(Shl7(f)) == Shl(WordBits(f), 7)
  {
    Shl7Is(f);
    Shl6Bits(f);
    Shl1Bits(Shl6(f));
    ShlAdd(WordBits(f), 6, 1);
  }

  function Shl13(f: Word): Word { f << 13 }

  lemma Shl13Is(f: Word)
    ensures Shl6(Shl7(f)) == Shl13(f)
  {
  }

  lemma Shl13Bits(f: Word)
    ensures WordBits(Shl13(f)) == Shl(WordBits(f), 13)
  {
    Shl13Is(f);
    Shl7Bits(f);
    Shl6Bits(Shl7(f));
    ShlAdd(WordBits(f), 7, 6);
  }

  function Shl14(f: Word): Word { f << 14 }

  lemma Shl14Is(f: Word)
    ensures Shl7(Shl7(f)) == Shl14(f)
  {
  }

  lemma Shl14Bits(f: Word)
    ensures WordBits(Shl14(f)) == Shl(WordBits(f), 14)
  {
    Shl14Is(f);
    Shl7Bits(f);
    Shl7Bits(Shl7(f));
    ShlAdd(WordBits(f), 7, 7);
  }

  function Shl17(f: Word): Word { f << 17 }

  lemma Shl17Is(f: Word)
    ensures Shl3(Shl14(f)) == Shl17(f)
  {
  }

  lemma Shl17Bits(f: Word)
    ensures WordBits(Shl17(f)) == Shl(WordBits(f), 17)
  {
    Shl17Is(f);
    Shl14Bits(f);
    Shl3Bits(Shl14(f));
    ShlAdd(WordBits(f), 14, 3);
  }

  function Shl21(f: Word): Word { f << 21 }

  lemma Shl21Is(f: Word)
    ensures Shl7(Shl14(f)) == Shl21(f)
  {
  }

  lemma Shl21Bits(f: Word)
    ensures WordBits(Shl21(f)) == Shl(WordBits(f), 21)
  {
    Shl21Is(f);
    Shl14Bits(f);
    Shl7Bits(Shl14(f));
    ShlAdd(WordBits(f), 14, 7);
  }

  function Shl42(f: Word): Word { f << 42 }

  lemma Shl42Is(f: Word)
    ensures Shl21(Shl21(f)) == Shl42(f)
  {
  }

  lemma Shl42Bits(f: Word)
    ensures WordBits(Shl42(f)) == Shl(WordBits(f), 42)
  {
    Shl42Is(f);
    Shl21Bits(f);
    Shl21Bits(Shl21(f));
    ShlAdd(WordBits(f), 21, 21);
  }
}
