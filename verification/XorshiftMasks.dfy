/** Masks on xorshift states, and what they read.

    The step is linear, so the parity of a state under a mask is the parity of an earlier state
    under another. A run is what the difference of two states shows in the top 22 bits when their
    values are equal: low ones, the trace of a carry, then zeros. A table is a mask of those bits,
    written so that its bit `j` is what it reads of a run of length `j`. */
module XorshiftMasks {
  import opened BitMasks
  import opened Xorshift

  // ---------------------------------------------------------------- parities

  /** Whether an odd number of the bits under the mask are set. */
  function Dot(m: Bits, d: Bits): bool
    requires |m| == |d|
  {
    var k := |m| - 1;
    m != [] && (Dot(m[..k], d[..k]) != (m[k] && d[k]))
  }

  lemma {:induction false} DotXorMask(m: Bits, n: Bits, d: Bits)
    requires |m| == |n| == |d|
    ensures Dot(Xor(m, n), d) == (Dot(m, d) != Dot(n, d))
  {
    if m != [] {
      var k := |m| - 1;
      DotXorMask(m[..k], n[..k], d[..k]);
      assert Xor(m, n)[..k] == Xor(m[..k], n[..k]);
    }
  }

  lemma {:induction false} DotXorBits(m: Bits, x: Bits, y: Bits)
    requires |m| == |x| == |y|
    ensures Dot(m, Xor(x, y)) == (Dot(m, x) != Dot(m, y))
  {
    if m != [] {
      var k := |m| - 1;
      DotXorBits(m[..k], x[..k], y[..k]);
      assert Xor(x, y)[..k] == Xor(x[..k], y[..k]);
    }
  }

  lemma {:induction false} DotConcat(m: Bits, n: Bits, x: Bits, y: Bits)
    requires |m| == |x| && |n| == |y|
    ensures Dot(m + n, x + y) == (Dot(m, x) != Dot(n, y))
  {
    if n == [] {
      assert m + n == m && x + y == x;
    } else {
      var k := |n| - 1;
      DotConcat(m, n[..k], x, y[..k]);
      assert (m + n)[..|m| + k] == m + n[..k] && (x + y)[..|m| + k] == x + y[..k];
    }
  }

  lemma {:induction false} DotZero(m: Bits, d: Bits)
    requires |m| == |d| && (m == Zero(|m|) || d == Zero(|d|))
    ensures !Dot(m, d)
  {
    if m != [] {
      var k := |m| - 1;
      assert Zero(k + 1)[..k] == Zero(k);
      DotZero(m[..k], d[..k]);
    }
  }

  lemma ShiftParts(d: Bits, k: nat)
    requires k <= |d|
    ensures Shl(d, k) == Zero(k) + d[..|d| - k] && Shr(d, k) == d[k..] + Zero(k)
  {
  }

  lemma DotShl(m: Bits, d: Bits, k: nat)
    requires |m| == |d| && k <= |d|
    ensures Dot(m, Shl(d, k)) == Dot(Shr(m, k), d)
  {
    var n := |d| - k;
    ShiftParts(d, k);
    ShiftParts(m, k);
    assert m == m[..k] + m[k..];
    DotConcat(m[..k], m[k..], Zero(k), d[..n]);
    DotZero(m[..k], Zero(k));
    assert d == d[..n] + d[n..];
    DotConcat(m[k..], Zero(k), d[..n], d[n..]);
    DotZero(Zero(k), d[n..]);
  }

  lemma DotShr(m: Bits, d: Bits, k: nat)
    requires |m| == |d| && k <= |d|
    ensures Dot(m, Shr(d, k)) == Dot(Shl(m, k), d)
  {
    var n := |d| - k;
    assert m == m[..n] + m[n..] && Shr(d, k) == d[k..] + Zero(k);
    DotConcat(m[..n], m[n..], d[k..], Zero(k));
    DotZero(m[n..], Zero(k));
    assert Shl(m, k) == Zero(k) + m[..n] && d == d[..k] + d[k..];
    DotConcat(Zero(k), m[..n], d[..k], d[k..]);
    DotZero(Zero(k), d[..k]);
  }

  lemma DotXorLeft(m: Bits, d: Bits, k: nat)
    requires |m| == |d| && k <= |d|
    ensures Dot(m, XorLeft(d, k)) == Dot(XorRight(m, k), d)
  {
    DotXorBits(m, d, Shl(d, k));
    DotShl(m, d, k);
    DotXorMask(m, Shr(m, k), d);
  }

  lemma DotXorRight(m: Bits, d: Bits, k: nat)
    requires |m| == |d| && k <= |d|
    ensures Dot(m, XorRight(d, k)) == Dot(XorLeft(m, k), d)
  {
    DotXorBits(m, d, Shr(d, k));
    DotShr(m, d, k);
    DotXorMask(m, Shl(m, k), d);
  }

  // ---------------------------------------------------------------- parities of the next state

  predicate Parity(f: Word, d: Bits) {
    |d| == WIDTH && Dot(WordBits(f), d)
  }

  lemma ParityOfPulled(f: Word, a: Word, b: Word, p: Word, d: Bits)
    requires |d| == WIDTH && WordBits(a) == XorRight(WordBits(f), 17)
    requires WordBits(b) == XorLeft(WordBits(a), 7) && WordBits(p) == XorRight(WordBits(b), 13)
    ensures Parity(f, Next(d)) == Parity(p, d)
  {
    DotNext(WordBits(f), d);
  }

  lemma DotNext(m: Bits, d: Bits)
    requires |m| == |d| == WIDTH
    ensures Dot(m, Next(d)) == Dot(XorRight(XorLeft(XorRight(m, 17), 7), 13), d)
  {
    var x := XorLeft(d, 13);
    DotXorLeft(m, XorRight(x, 7), 17);
    DotXorRight(XorRight(m, 17), x, 7);
    DotXorLeft(XorLeft(XorRight(m, 17), 7), d, 13);
  }

  lemma ParityOfXor(f: Word, g: Word, d: Bits)
    requires |d| == WIDTH
    ensures Parity(XorWords(f, g), d) == (Parity(f, d) != Parity(g, d))
  {
    XorBits(f, g);
    DotXorMask(WordBits(f), WordBits(g), d);
  }

  // ---------------------------------------------------------------- what a window shows of a difference

  /** From bit 42 on: `j` ones, then zeros. */
  ghost predicate RunOfOnes(d: Bits, j: nat) {
    |d| == WIDTH && j <= 22 && forall i :: 42 <= i < WIDTH ==> d[i] == (i < 42 + j)
  }

  /** The mask of bits 42 and up, from the table `g` of the parities of its runs. */
  lemma {:induction false} DotOfRun(g: Bits, m: Bits, d: Bits, j: nat, n: nat)
    requires |g| == WIDTH && |m| == |d| == n && j <= n < WIDTH
    requires forall i :: 0 <= i < n ==> m[i] == (g[i] != g[i + 1]) && d[i] == (i < j)
    ensures Dot(m, d) == (g[0] != g[j])
  {
    if n > 0 {
      DotOfRun(g, m[..n - 1], d[..n - 1], if j < n then j else n - 1, n - 1);
    }
  }

  lemma DotOfWindow(g: Bits, d: Bits, j: nat)
    requires |g| == WIDTH && RunOfOnes(d, j)
    ensures Dot(Shl(XorRight(g, 1), 42), d) == (g[0] != g[j])
  {
    var m, w := XorRight(g, 1), d[42..];
    assert Shl(m, 42) == Zero(42) + m[..22] && d == d[..42] + w;
    DotConcat(Zero(42), m[..22], d[..42], w);
    DotZero(Zero(42), d[..42]);
    DotOfRun(g, m[..22], w, j, 22);
  }

  function PullLeft17(f: Word): Word { f ^ (f >> 17) }

  function PullRight7(f: Word): Word { f ^ (f << 7) }

  function PullLeft13(f: Word): Word { f ^ (f >> 13) }

  /** The mask that reads from a state what `f` reads from the next one. */
  function Pull(f: Word): Word {
    PullLeft13(PullRight7(PullLeft17(f)))
  }

  lemma PullLeft17Is(f: Word)
    ensures PullLeft17(f) == XorWords(f, Shr17(f))
  {
    XorIs(f, f >> 17);
  }

  lemma PullLeft17Bits(f: Word)
    ensures WordBits(PullLeft17(f)) == XorRight(WordBits(f), 17)
  {
    PullLeft17Is(f);
    Shr17Bits(f);
    XorBits(f, Shr17(f));
  }

  lemma PullRight7Is(f: Word)
    ensures PullRight7(f) == XorWords(f, Shl7(f))
  {
    XorIs(f, f << 7);
  }

  lemma PullRight7Bits(f: Word)
    ensures WordBits(PullRight7(f)) == XorLeft(WordBits(f), 7)
  {
    PullRight7Is(f);
    Shl7Bits(f);
    XorBits(f, Shl7(f));
  }

  lemma PullLeft13Is(f: Word)
    ensures PullLeft13(f) == XorWords(f, Shr13(f))
  {
    XorIs(f, f >> 13);
  }

  lemma PullLeft13Bits(f: Word)
    ensures WordBits(PullLeft13(f)) == XorRight(WordBits(f), 13)
  {
    PullLeft13Is(f);
    Shr13Bits(f);
    XorBits(f, Shr13(f));
  }

  lemma ParityOfPull(f: Word, d: Bits)
    requires |d| == WIDTH
    ensures Parity(f, Next(d)) == Parity(Pull(f), d)
  {
    var a := PullLeft17(f);
    PullLeft17Bits(f);
    PullRight7Bits(a);
    PullLeft13Bits(PullRight7(a));
    ParityOfPulled(f, a, PullRight7(a), Pull(f), d);
  }

  /** `f` on a state and `g` on the next one, as one mask on the state. */
  function Stack(f: Word, g: Word): Word {
    f ^ Pull(g)
  }

  lemma StackIs(f: Word, g: Word)
    ensures Stack(f, g) == XorWords(f, Pull(g))
  {
  }

  /** `h` reads from a state what `f` reads from it and `g` from the next one, together. */
  ghost predicate Reads(h: Word, f: Word, g: Word, d: Bits) {
    Parity(h, d) == (Parity(f, d) != Parity(g, Next(d)))
  }

  lemma StackReads(f: Word, g: Word, d: Bits)
    requires |d| == WIDTH
    ensures Reads(Stack(f, g), f, g, d)
  {
    StackIs(f, g);
    ParityOfXor(f, Pull(g), d);
    ParityOfPull(g, d);
  }

  lemma ReadsFour(f0: Word, f1: Word, f2: Word, f3: Word, h0: Word, h1: Word, h2: Word, d: Bits)
    requires Reads(h0, f0, h1, d) && Reads(h1, f1, h2, Next(d)) && Reads(h2, f2, f3, Next(Next(d)))
    ensures Parity(h0, d)
         == (Parity(f0, d) != (Parity(f1, Next(d)) != (Parity(f2, Next(Next(d))) != Parity(f3, Next(Next(Next(d)))))))
  {
  }

  lemma ParityOfFour(f0: Word, f1: Word, f2: Word, f3: Word, d: Bits)
    requires |d| == WIDTH
    ensures Parity(Stack(f0, Stack(f1, Stack(f2, f3))), d)
         == (Parity(f0, d) != (Parity(f1, Next(d)) != (Parity(f2, Next(Next(d))) != Parity(f3, Next(Next(Next(d)))))))
  {
    var h2 := Stack(f2, f3);
    var h1 := Stack(f1, h2);
    StackReads(f0, h1, d);
    StackReads(f1, h2, Next(d));
    StackReads(f2, f3, Next(Next(d)));
    ReadsFour(f0, f1, f2, f3, Stack(f0, h1), h1, h2, d);
  }

  /** The mask of bits 42 and up that reads bit `j` of `g` from a run of `j` ones. */
  function Tops(g: Word): Word {
    (g ^ (g >> 1)) << 42
  }

  lemma TopsIs(g: Word)
    ensures Tops(g) == Shl42(XorWords(g, Shr1(g)))
  {
  }

  lemma TopsBits(g: Word)
    ensures WordBits(Tops(g)) == Shl(XorRight(WordBits(g), 1), 42)
  {
    TopsIs(g);
    Shr1Bits(g);
    XorBits(g, Shr1(g));
    Shl42Bits(XorWords(g, Shr1(g)));
  }

  lemma ParityOfTops(g: Word, d: Bits, j: nat)
    requires RunOfOnes(d, j)
    ensures Parity(Tops(g), d) == (WordBits(g)[0] != WordBits(g)[j])
  {
    TopsBits(g);
    DotOfWindow(WordBits(g), d, j);
  }

  /** One mask on a state that does what four masks do on it and the next three. */
  function Combined(g0: Word, g1: Word, g2: Word, g3: Word): Word {
    Stack(Tops(g0), Stack(Tops(g1), Stack(Tops(g2), Tops(g3))))
  }

  ghost predicate Runs(d: Bits, j0: nat, j1: nat, j2: nat, j3: nat) {
    && RunOfOnes(d, j0) && RunOfOnes(Next(d), j1)
    && RunOfOnes(Next(Next(d)), j2) && RunOfOnes(Next(Next(Next(d))), j3)
  }

  function Shown(g: Word, j: nat): bool
    requires j < WIDTH
  {
    WordBits(g)[0] != WordBits(g)[j]
  }

  lemma ParityOfCombined(g0: Word, g1: Word, g2: Word, g3: Word, d: Bits, j0: nat, j1: nat, j2: nat, j3: nat)
    requires Runs(d, j0, j1, j2, j3)
    ensures Parity(Combined(g0, g1, g2, g3), d)
         == (Shown(g0, j0) != (Shown(g1, j1) != (Shown(g2, j2) != Shown(g3, j3))))
  {
    ParityOfFour(Tops(g0), Tops(g1), Tops(g2), Tops(g3), d);
    ParityOfTops(g0, d, j0);
    ParityOfTops(g1, Next(d), j1);
    ParityOfTops(g2, Next(Next(d)), j2);
    ParityOfTops(g3, Next(Next(Next(d))), j3);
  }

  lemma {:induction false} NothingSet(d: Bits)
    requires |d| == WIDTH
    ensures !Parity(0, d)
  {
    ZeroIsBlank(64);
    assert WordBits(0) == Zero(64);
    DotZero(WordBits(0), d);
  }

  lemma ShownCancel(g0: Word, g1: Word, g2: Word, g3: Word, d: Bits, j0: nat, j1: nat, j2: nat, j3: nat)
    requires Runs(d, j0, j1, j2, j3) && Combined(g0, g1, g2, g3) == 0
    ensures (Shown(g0, j0) != (Shown(g1, j1) != (Shown(g2, j2) != Shown(g3, j3)))) == false
  {
    ParityOfCombined(g0, g1, g2, g3, d, j0, j1, j2, j3);
    NothingSet(d);
  }
}
