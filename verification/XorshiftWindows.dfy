/** Which differences of xorshift states can hide in the top bits.

    A rounded value shows about the top 22 bits of its state, up to a carry, so two states of the
    same value differ there by a run of low ones at most. This module shows that no difference but
    zero looks like that four states running. The twenty quadruples of tables below combine to the
    empty mask, and only runs of length zero satisfy them all; eight more read the bits just below
    the window. They were found by elimination; that they do this is a computation. */
module XorshiftWindows {
  import opened BitMasks
  import opened Xorshift
  import opened XorshiftMasks

  // ---------------------------------------------------------------- bits of a table word

  /** `bit` reads bit `j` of any word at the mark `s`. */
  ghost predicate Selects<S>(bit: (Word, S) -> bool, s: S, j: nat) {
    forall g: Word :: bit(g, s) == LowBit(Down(g, j))
  }

  lemma DownNext(g: Word, j: nat)
    ensures Down(g, j + 1) == Down(Half(g), j)
  {
  }

  lemma SelectsNext<S>(bit: (Word, S) -> bool, s: S, r: S, j: nat)
    requires Selects(bit, s, j) && forall g: Word :: bit(g, r) == bit(Half(g), s)
    ensures Selects(bit, r, j + 1)
  {
    forall g: Word
      ensures bit(g, r) == LowBit(Down(g, j + 1))
    {
      DownNext(g, j);
    }
  }

  lemma ShownAt<S>(bit: (Word, S) -> bool, g: Word, s: S, j: nat)
    requires Selects(bit, s, j) && j < WIDTH && !LowBit(g)
    ensures Shown(g, j) == bit(g, s)
  {
    FirstBit(g);
  }

  // ---------------------------------------------------------------- marks

  predicate Bit(g: Word, m: Word) { g & m != 0 }

  lemma BitTwice(g: Word, m: Word, n: Word)
    requires m < 0x400000 && n == m << 1
    ensures (g & n != 0) == ((g >> 1) & m != 0)
  {
  }

  lemma BitNext(g: Word, m: Word, n: Word)
    requires m < 0x400000 && n == m << 1
    ensures Bit(g, n) == Bit(Half(g), m)
  {
    BitTwice(g, m, n);
  }

  lemma BitFirst(g: Word)
    ensures Bit(g, 1) == LowBit(g)
  {
  }

  /** The word with only bit `j` set. */
  function Mark(j: nat): Word {
    if j == 0 then 0x1 else if j == 1 then 0x2 else if j == 2 then 0x4 else if j == 3 then 0x8 else
    if j == 4 then 0x10 else if j == 5 then 0x20 else if j == 6 then 0x40 else if j == 7 then 0x80 else
    if j == 8 then 0x100 else if j == 9 then 0x200 else if j == 10 then 0x400 else if j == 11 then 0x800 else
    if j == 12 then 0x1000 else if j == 13 then 0x2000 else if j == 14 then 0x4000 else if j == 15 then 0x8000 else
    if j == 16 then 0x10000 else if j == 17 then 0x20000 else if j == 18 then 0x40000 else if j == 19 then 0x80000 else
    if j == 20 then 0x100000 else if j == 21 then 0x200000 else 0x400000
  }

  lemma MarkNextLow(j: nat)
    requires j < 11
    ensures Mark(j) < 0x400000 && Mark(j + 1) == Mark(j) << 1
  {
  }

  lemma MarkNextHigh(j: nat)
    requires 11 <= j < 22
    ensures Mark(j) < 0x400000 && Mark(j + 1) == Mark(j) << 1
  {
  }

  /** One bit, among the lowest 23. */
  predicate OneBit(m: Word) {
    m != 0 && m & (m - 1) == 0 && m < 0x800000
  }

  lemma MarkIsOneBit(j: nat)
    requires j <= 22
    ensures OneBit(Mark(j)) && (Mark(j) == 1 ==> j == 0)
  {
  }

  lemma MarkReads(j: nat, g: Word)
    requires j < 22
    ensures Bit(g, Mark(j + 1)) == Bit(Half(g), Mark(j))
  {
    if j < 11 {
      MarkNextLow(j);
    } else {
      MarkNextHigh(j);
    }
    BitNext(g, Mark(j), Mark(j + 1));
  }

  lemma {:induction false} SelectsEvery<S>(bit: (Word, S) -> bool, mark: nat -> S, j: nat, top: nat)
    requires j <= top && Selects(bit, mark(0), 0)
    requires forall i: nat, k: nat, g: Word :: i < top && k == i + 1 ==> bit(g, mark(k)) == bit(Half(g), mark(i))
    ensures Selects(bit, mark(j), j)
  {
    if j > 0 {
      SelectsEvery(bit, mark, j - 1, top);
      SelectsNext(bit, mark(j - 1), mark(j), j - 1);
    }
  }

  lemma FirstSelects()
    ensures Selects(Bit, 1, 0)
  {
    forall g: Word
      ensures Bit(g, 1) == LowBit(Down(g, 0))
    {
      BitFirst(g);
    }
  }

  lemma MarkSelects(j: nat)
    requires j <= 22
    ensures Selects(Bit, Mark(j), j)
  {
    FirstSelects();
    forall i: nat, k: nat, g: Word | i < 22 && k == i + 1
      ensures Bit(g, Mark(k)) == Bit(Half(g), Mark(i))
    {
      MarkReads(i, g);
    }
    SelectsEvery(Bit, Mark, j, 22);
  }

  // ---------------------------------------------------------------- relations between the lengths of four runs

  predicate Cancelling(g0: Word, g1: Word, g2: Word, g3: Word) {
    Combined(g0, g1, g2, g3) == 0 && (g0 | g1 | g2 | g3) & 1 == 0
  }

  lemma AllEven(g0: Word, g1: Word, g2: Word, g3: Word)
    requires (g0 | g1 | g2 | g3) & 1 == 0
    ensures !LowBit(g0) && !LowBit(g1) && !LowBit(g2) && !LowBit(g3)
  {
  }

  lemma RunsCancel<S(!new)>(bit: (Word, S) -> bool, a: S, b: S, c: S, e: S, d: Bits, j0: nat, j1: nat, j2: nat, j3: nat,
                            g0: Word, g1: Word, g2: Word, g3: Word)
    requires Runs(d, j0, j1, j2, j3)
    requires Selects(bit, a, j0) && Selects(bit, b, j1) && Selects(bit, c, j2) && Selects(bit, e, j3)
    requires !LowBit(g0) && !LowBit(g1) && !LowBit(g2) && !LowBit(g3) && Combined(g0, g1, g2, g3) == 0
    ensures (bit(g0, a) != (bit(g1, b) != (bit(g2, c) != bit(g3, e)))) == false
  {
    ShownCancel(g0, g1, g2, g3, d, j0, j1, j2, j3);
    ShownAt(bit, g0, a, j0);
    ShownAt(bit, g1, b, j1);
    ShownAt(bit, g2, c, j2);
    ShownAt(bit, g3, e, j3);
  }

  function Even<S>(bit: (Word, S) -> bool, a: S, b: S, c: S, e: S): (Word, Word, Word, Word) -> bool {
    (g0: Word, g1: Word, g2: Word, g3: Word) => (bit(g0, a) != (bit(g1, b) != (bit(g2, c) != bit(g3, e)))) == false
  }

  lemma RunsAreEven<S(!new)>(bit: (Word, S) -> bool, a: S, b: S, c: S, e: S, d: Bits, j0: nat, j1: nat, j2: nat, j3: nat)
    requires Runs(d, j0, j1, j2, j3)
    requires Selects(bit, a, j0) && Selects(bit, b, j1) && Selects(bit, c, j2) && Selects(bit, e, j3)
    ensures forall g0: Word, g1: Word, g2: Word, g3: Word :: Cancelling(g0, g1, g2, g3) ==> Even(bit, a, b, c, e)(g0, g1, g2, g3)
  {
    forall g0: Word, g1: Word, g2: Word, g3: Word | Cancelling(g0, g1, g2, g3)
      ensures Even(bit, a, b, c, e)(g0, g1, g2, g3)
    {
      AllEven(g0, g1, g2, g3);
      RunsCancel(bit, a, b, c, e, d, j0, j1, j2, j3, g0, g1, g2, g3);
    }
  }

  /** `rel` holds of the twenty quadruples. */
  ghost predicate Tables(rel: (Word, Word, Word, Word) -> bool) {
    && rel(0x2C0D88, 0x507F6E, 0x2C03B4, 0x7FFFE0)
    && rel(0x2C5850, 0x1D9AF8, 0x26F2B8, 0x7FFFC0)
    && rel(0x7CE370, 0x8F7FE, 0x151FE0, 0x7FFF80)
    && rel(0x70C510, 0x51C4A, 0x7228DE, 0x7FFF00)
    && rel(0x7F8C8, 0x40E96A, 0x43E7D8, 0x7FFE00)
    && rel(0x3B2F58, 0x13CE92, 0x20945A, 0x7FFC00)
    && rel(0x6FF258, 0x1B447C, 0x536010, 0x7FF800)
    && rel(0x623988, 0x4F9B08, 0x598CD4, 0x7FF000)
    && rel(0x4D52E0, 0x23100, 0x5EF076, 0x7FE000)
    && rel(0x657BC0, 0x726AA6, 0x81E2C, 0x7FC000)
    && rel(0x43F470, 0x7026FA, 0x482B46, 0x7F8000)
    && rel(0x4CE828, 0x7BA514, 0x7D0FA6, 0x7F0000)
    && rel(0x34A270, 0x267336, 0x4F0C02, 0x7E0000)
    && rel(0x79EBF8, 0x1B3082, 0x5447BE, 0x7C0000)
    && rel(0x4E0AC8, 0x4F72F4, 0x57C388, 0x780000)
    && rel(0xCBA88, 0x493306, 0x65D8AA, 0x700000)
    && rel(0x7F07F8, 0x274BF2, 0x6C0730, 0x600000)
    && rel(0x43F0C8, 0x3E70B2, 0x12BC54, 0x400000)
    && rel(0x7C155E, 0x22C326, 0x6DC0BC, 0x0)
    && rel(0x4CD674, 0x2192AC, 0x492452, 0x0)
  }

  lemma TablesCancel(rel: (Word, Word, Word, Word) -> bool)
    requires forall g0: Word, g1: Word, g2: Word, g3: Word :: Cancelling(g0, g1, g2, g3) ==> rel(g0, g1, g2, g3)
    ensures Tables(rel)
  {
  }

  /** The same quadruples, read at four marks: only the first mark makes them all even. */
  lemma OnlyFirstMarks(a: Word, b: Word, c: Word, e: Word)
    requires a != 0 && a & (a - 1) == 0 && a < 0x800000
    requires b != 0 && b & (b - 1) == 0 && b < 0x800000
    requires c != 0 && c & (c - 1) == 0 && c < 0x800000
    requires e != 0 && e & (e - 1) == 0 && e < 0x800000
    requires ((0x2C0D88 & a != 0) != ((0x507F6E & b != 0) != ((0x2C03B4 & c != 0) != (0x7FFFE0 & e != 0)))) == false
    requires ((0x2C5850 & a != 0) != ((0x1D9AF8 & b != 0) != ((0x26F2B8 & c != 0) != (0x7FFFC0 & e != 0)))) == false
    requires ((0x7CE370 & a != 0) != ((0x8F7FE & b != 0) != ((0x151FE0 & c != 0) != (0x7FFF80 & e != 0)))) == false
    requires ((0x70C510 & a != 0) != ((0x51C4A & b != 0) != ((0x7228DE & c != 0) != (0x7FFF00 & e != 0)))) == false
    requires ((0x7F8C8 & a != 0) != ((0x40E96A & b != 0) != ((0x43E7D8 & c != 0) != (0x7FFE00 & e != 0)))) == false
    requires ((0x3B2F58 & a != 0) != ((0x13CE92 & b != 0) != ((0x20945A & c != 0) != (0x7FFC00 & e != 0)))) == false
    requires ((0x6FF258 & a != 0) != ((0x1B447C & b != 0) != ((0x536010 & c != 0) != (0x7FF800 & e != 0)))) == false
    requires ((0x623988 & a != 0) != ((0x4F9B08 & b != 0) != ((0x598CD4 & c != 0) != (0x7FF000 & e != 0)))) == false
    requires ((0x4D52E0 & a != 0) != ((0x23100 & b != 0) != ((0x5EF076 & c != 0) != (0x7FE000 & e != 0)))) == false
    requires ((0x657BC0 & a != 0) != ((0x726AA6 & b != 0) != ((0x81E2C & c != 0) != (0x7FC000 & e != 0)))) == false
    requires ((0x43F470 & a != 0) != ((0x7026FA & b != 0) != ((0x482B46 & c != 0) != (0x7F8000 & e != 0)))) == false
    requires ((0x4CE828 & a != 0) != ((0x7BA514 & b != 0) != ((0x7D0FA6 & c != 0) != (0x7F0000 & e != 0)))) == false
    requires ((0x34A270 & a != 0) != ((0x267336 & b != 0) != ((0x4F0C02 & c != 0) != (0x7E0000 & e != 0)))) == false
    requires ((0x79EBF8 & a != 0) != ((0x1B3082 & b != 0) != ((0x5447BE & c != 0) != (0x7C0000 & e != 0)))) == false
    requires ((0x4E0AC8 & a != 0) != ((0x4F72F4 & b != 0) != ((0x57C388 & c != 0) != (0x780000 & e != 0)))) == false
    requires ((0xCBA88 & a != 0) != ((0x493306 & b != 0) != ((0x65D8AA & c != 0) != (0x700000 & e != 0)))) == false
    requires ((0x7F07F8 & a != 0) != ((0x274BF2 & b != 0) != ((0x6C0730 & c != 0) != (0x600000 & e != 0)))) == false
    requires ((0x43F0C8 & a != 0) != ((0x3E70B2 & b != 0) != ((0x12BC54 & c != 0) != (0x400000 & e != 0)))) == false
    requires ((0x7C155E & a != 0) != ((0x22C326 & b != 0) != ((0x6DC0BC & c != 0) != (0x0 & e != 0)))) == false
    requires ((0x4CD674 & a != 0) != ((0x2192AC & b != 0) != ((0x492452 & c != 0) != (0x0 & e != 0)))) == false
    ensures a == 1 && b == 1 && c == 1
  {
  }

  lemma TablesFixMarks(rel: (Word, Word, Word, Word) -> bool, a: Word, b: Word, c: Word, e: Word)
    requires Tables(rel)
    requires a != 0 && a & (a - 1) == 0 && a < 0x800000
    requires b != 0 && b & (b - 1) == 0 && b < 0x800000
    requires c != 0 && c & (c - 1) == 0 && c < 0x800000
    requires e != 0 && e & (e - 1) == 0 && e < 0x800000
    requires forall g0: Word, g1: Word, g2: Word, g3: Word :: rel(g0, g1, g2, g3) ==>
               ((g0 & a != 0) != ((g1 & b != 0) != ((g2 & c != 0) != (g3 & e != 0)))) == false
    ensures a == 1 && b == 1 && c == 1
  {
    OnlyFirstMarks(a, b, c, e);
  }

  lemma EvenMeans(a: Word, b: Word, c: Word, e: Word, g0: Word, g1: Word, g2: Word, g3: Word)
    requires Even(Bit, a, b, c, e)(g0, g1, g2, g3)
    ensures ((g0 & a != 0) != ((g1 & b != 0) != ((g2 & c != 0) != (g3 & e != 0)))) == false
  {
    assert (Bit(g0, a) != (Bit(g1, b) != (Bit(g2, c) != Bit(g3, e)))) == false;
  }

  lemma EvenFixesMarks(a: Word, b: Word, c: Word, e: Word)
    requires OneBit(a) && OneBit(b) && OneBit(c) && OneBit(e)
    requires Tables(Even(Bit, a, b, c, e))
    ensures a == 1 && b == 1 && c == 1
  {
    var rel := Even(Bit, a, b, c, e);
    forall g0: Word, g1: Word, g2: Word, g3: Word | rel(g0, g1, g2, g3)
      ensures ((g0 & a != 0) != ((g1 & b != 0) != ((g2 & c != 0) != (g3 & e != 0)))) == false
    {
      EvenMeans(a, b, c, e, g0, g1, g2, g3);
    }
    TablesFixMarks(rel, a, b, c, e);
  }

  /** The first three of four runs are empty. */
  lemma RunsAreEmpty(d: Bits, j0: nat, j1: nat, j2: nat, j3: nat)
    requires Runs(d, j0, j1, j2, j3)
    ensures j0 == j1 == j2 == 0
  {
    var a, b, c, e := Mark(j0), Mark(j1), Mark(j2), Mark(j3);
    MarkIsOneBit(j0);
    MarkIsOneBit(j1);
    MarkIsOneBit(j2);
    MarkIsOneBit(j3);
    MarkSelects(j0);
    MarkSelects(j1);
    MarkSelects(j2);
    MarkSelects(j3);
    RunsAreEven(Bit, a, b, c, e, d, j0, j1, j2, j3);
    TablesCancel(Even(Bit, a, b, c, e));
    EvenFixesMarks(a, b, c, e);
  }

  lemma MarkInTail(m: Word)
    requires m != 0 && m & (m - 1) == 0 && m < 0x800000 && 0x7FFFFE & m == 0
    ensures m == 1
  {
  }

  lemma EmptyTail(j: nat)
    requires j <= 22 && !Shown(0x7FFFFE, j)
    ensures j == 0
  {
    MarkIsOneBit(j);
    MarkSelects(j);
    ShownAt(Bit, 0x7FFFFE, Mark(j), j);
    MarkInTail(Mark(j));
  }

  lemma LastRunIsEmpty(d: Bits, j: nat)
    requires Runs(d, 0, 0, 0, j)
    ensures j == 0
  {
    ShownCancel(0xA4008, 0x3675DE, 0x316E8, 0x7FFFFE, d, 0, 0, 0, j);
    EmptyTail(j);
  }

  // ---------------------------------------------------------------- the bits below the window

  ghost predicate ZeroFrom(d: Bits, h: nat) {
    |d| == WIDTH && forall i :: h <= i < WIDTH ==> !d[i]
  }

  lemma NoTops()
    ensures Tops(0) == 0
  {
  }

  lemma WindowShowsNothing(g: Word, d: Bits)
    requires ZeroFrom(d, 42)
    ensures !Parity(Tops(g), d)
  {
    ParityOfTops(g, d, 0);
  }

  lemma ZeroWindowsShowNothing(g0: Word, g1: Word, g2: Word, d: Bits)
    requires ZeroFrom(d, 42) && ZeroFrom(Next(d), 42) && ZeroFrom(Next(Next(d)), 42)
    ensures !Parity(Combined(g0, g1, g2, 0), d)
  {
    ParityOfFour(Tops(g0), Tops(g1), Tops(g2), Tops(0), d);
    WindowShowsNothing(g0, d);
    WindowShowsNothing(g1, Next(d));
    WindowShowsNothing(g2, Next(Next(d)));
    NoTops();
    NothingSet(Next(Next(Next(d))));
  }

  /** Only bit `k` is set. */
  ghost predicate OnlyAt(b: Bits, k: nat) {
    |b| == WIDTH && forall i :: 0 <= i < WIDTH ==> b[i] == (i == k)
  }

  function Unit(n: nat): Word {
    if n == 0 then Shl42(1) else Shr1(Unit(n - 1))
  }

  lemma FirstIsOnlyAt()
    ensures OnlyAt(WordBits(1), 0)
  {
    forall i | 0 <= i < WIDTH
      ensures WordBits(1)[i] == (i == 0)
    {
      HalfOfOne();
      DropFew(Words(), 1);
      if i > 0 {
        DownNext(1, i - 1);
        DownOfZero(i - 1);
        HalfOfZero();
      }
    }
  }

  lemma HalfOfOne()
    ensures Half(1) == 0 && LowBit(1)
  {
  }

  lemma {:induction false} UnitIsOnlyAt(n: nat)
    requires n <= 8
    ensures OnlyAt(WordBits(Unit(n)), 42 - n)
  {
    if n == 0 {
      FirstIsOnlyAt();
      Shl42Bits(1);
    } else {
      UnitIsOnlyAt(n - 1);
      Shr1Bits(Unit(n - 1));
    }
  }

  lemma {:induction false} DotOnly(m: Bits, d: Bits, k: nat)
    requires |m| == |d| && k < |m| && forall i :: 0 <= i < |m| ==> m[i] == (i == k)
    ensures Dot(m, d) == d[k]
  {
    var n := |m| - 1;
    if k == n {
      assert m[..n] == Zero(n);
      DotZero(m[..n], d[..n]);
    } else {
      DotOnly(m[..n], d[..n], k);
    }
  }

  /** The tables read bit `42 - n` of a state from the windows of it and the next two. */
  lemma BitBelow(g0: Word, g1: Word, g2: Word, n: nat, d: Bits)
    requires n <= 8 && Combined(g0, g1, g2, 0) == Unit(n)
    requires ZeroFrom(d, 42) && ZeroFrom(Next(d), 42) && ZeroFrom(Next(Next(d)), 42)
    ensures !d[42 - n]
  {
    ZeroWindowsShowNothing(g0, g1, g2, d);
    UnitIsOnlyAt(n);
    DotOnly(WordBits(Unit(n)), d, 42 - n);
  }

  lemma ZeroFrom34(d: Bits)
    requires ZeroFrom(d, 42) && ZeroFrom(Next(d), 42) && ZeroFrom(Next(Next(d)), 42)
    ensures ZeroFrom(d, 34)
  {
    BitBelow(0x517488, 0x4BBB88, 0x53BE44, 8, d);
    BitBelow(0x5D3710, 0x1E83B6, 0x128248, 7, d);
    BitBelow(0x2AE338, 0x632524, 0x5AA5EA, 6, d);
    BitBelow(0x17E748, 0x3F59B8, 0x4A0720, 5, d);
    BitBelow(0x499E78, 0x3D9628, 0x646E4, 4, d);
    BitBelow(0x65C300, 0x1023E6, 0x549AD6, 3, d);
    BitBelow(0x765B38, 0x59543C, 0x567958, 2, d);
    BitBelow(0x3E1A50, 0x6A65C0, 0x2C1F3E, 1, d);
  }

  /** Bit `h + 30` of the next state is bit `h` of this one, if no higher bit is set. */
  lemma NextOfHighZeros(d: Bits, h: nat)
    requires h <= 33 && ZeroFrom(d, h + 1)
    ensures Next(d)[h + 30] == d[h]
  {
    var l := XorLeft(d, 13);
    var r := XorRight(l, 7);
    assert l[h + 13] == d[h] && !l[h + 20] && !l[h + 30];
    assert r[h + 13] == d[h];
    assert !r[h + 30];
  }

  lemma {:induction false} ZeroDownTo(d: Bits, h: nat, low: nat)
    requires low <= h <= 34 && ZeroFrom(d, 34) && ZeroFrom(Next(d), low + 30)
    ensures ZeroFrom(d, h)
    decreases 34 - h
  {
    if h < 34 {
      ZeroDownTo(d, h + 1, low);
      NextOfHighZeros(d, h);
    }
  }

  /** MAIN RESULT. A difference of states that shows a run of ones at the bottom of its window, and
      keeps doing so for three more steps, is no difference. */
  lemma FourRunsShowEquality(d: Bits, j0: nat, j1: nat, j2: nat, j3: nat)
    requires Runs(d, j0, j1, j2, j3)
    ensures ZeroFrom(d, 0)
  {
    RunsAreEmpty(d, j0, j1, j2, j3);
    LastRunIsEmpty(d, j3);
    ZeroFrom34(d);
    ZeroFrom34(Next(d));
    ZeroDownTo(Next(d), 12, 12);
    ZeroDownTo(d, 0, 0);
  }
}
