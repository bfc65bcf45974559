/** The generator behind the mask values of the smoke test
    (crates/diar-core/src/provision/verify.rs): a seed mix, then one xorshift per value.

    A 64-bit word is its sequence of bits, least significant first; the multiplication is on
    integers modulo 2^64. */
module Xorshift {
  import opened BitMasks

  const WIDTH: nat := 64
  const MODULUS: int := 0x1_0000_0000_0000_0000

  // ---------------------------------------------------------------- words

  function ToBits(n: nat, width: nat): (b: Bits)
    ensures |b| == width
  {
    if width == 0 then [] else [n % 2 == 1] + ToBits(n / 2, width - 1)
  }

  function ToNum(b: Bits): nat {
    if b == [] then 0 else (if b[0] then 1 else 0) + 2 * ToNum(b[1..])
  }

  function Pow2(k: nat): nat {
    if k == 0 then 1 else 2 * Pow2(k - 1)
  }

  // ---------------------------------------------------------------- the generator

  const MULTIPLIER: nat := 0x9E37_79B9_7F4A_7C15
  const MIX: nat := 0xDEAD_BEEF_CAFE_BABE
  const ZERO_GUARD: nat := 0x1234_5678_9ABC_DEF0

  type Seed = s: int | 0 <= s < MODULUS

  function Mixed(seed: Seed): (b: Bits)
    ensures |b| == WIDTH
  {
    Xor(ToBits(seed * MULTIPLIER % MODULUS, WIDTH), ToBits(MIX, WIDTH))
  }

  function Start(seed: Seed): (b: Bits)
    ensures |b| == WIDTH
  {
    if Mixed(seed) == Zero(WIDTH) then ToBits(ZERO_GUARD, WIDTH) else Mixed(seed)
  }

  function XorLeft(s: Bits, k: nat): (r: Bits)
    ensures |r| == |s|
  {
    Xor(s, Shl(s, k))
  }

  function XorRight(s: Bits, k: nat): (r: Bits)
    ensures |r| == |s|
  {
    Xor(s, Shr(s, k))
  }

  function Next(s: Bits): (r: Bits)
    ensures |r| == |s|
  {
    XorLeft(XorRight(XorLeft(s, 13), 7), 17)
  }

  /** The state after `k` values. */
  function StateAt(seed: Seed, k: nat): (s: Bits)
    ensures |s| == WIDTH
  {
    if k == 0 then Start(seed) else Next(StateAt(seed, k - 1))
  }

  /** The three in-place updates of one value. */
  method Advance(s: Bits) returns (r: Bits)
    ensures r == Next(s)
  {
    r := s;
    r := Xor(r, Shl(r, 13));
    r := Xor(r, Shr(r, 7));
    r := Xor(r, Shl(r, 17));
  }

  // ---------------------------------------------------------------- words and numbers

  lemma {:induction false} ToNumInvertsToBits(n: nat, width: nat)
    requires n < Pow2(width)
    ensures ToNum(ToBits(n, width)) == n
  {
    if width > 0 {
      ToNumInvertsToBits(n / 2, width - 1);
      assert ToBits(n, width)[1..] == ToBits(n / 2, width - 1);
    }
  }

  lemma {:induction false} ToNumIsInjective(a: Bits, b: Bits)
    requires |a| == |b| && ToNum(a) == ToNum(b)
    ensures a == b
  {
    if a != [] {
      assert a[0] == b[0];
      ToNumIsInjective(a[1..], b[1..]);
      assert a == [a[0]] + a[1..] && b == [b[0]] + b[1..];
    }
  }

  lemma {:induction false} ToNumBelow(b: Bits)
    ensures ToNum(b) < Pow2(|b|)
  {
    if b != [] {
      ToNumBelow(b[1..]);
    }
  }

  /** High zero bits do not count. */
  lemma {:induction false} ToNumHighZeros(b: Bits, k: nat)
    requires k <= |b| && forall i :: k <= i < |b| ==> !b[i]
    ensures ToNum(b) == ToNum(b[..k])
  {
    if b != [] {
      if k > 0 {
        ToNumHighZeros(b[1..], k - 1);
        assert b[..k][1..] == b[1..][..k - 1];
      } else {
        ToNumHighZeros(b[1..], 0);
        assert b[1..][..0] == b[..0];
      }
    }
  }

  lemma Pow2Byte(k: nat)
    ensures Pow2(k + 8) == 256 * Pow2(k)
  {
    assert Pow2(k + 2) == 4 * Pow2(k);
    assert Pow2(k + 4) == 4 * Pow2(k + 2);
    assert Pow2(k + 6) == 4 * Pow2(k + 4);
  }

  lemma Pow2Values()
    ensures Pow2(53) == 9007199254740992 && Pow2(64) == MODULUS
  {
    assert Pow2(5) == 2 * Pow2(4) == 32;
    Pow2Byte(5);
    Pow2Byte(13);
    Pow2Byte(21);
    Pow2Byte(29);
    Pow2Byte(37);
    Pow2Byte(45);
    Pow2Byte(53);
    assert Pow2(64) == 8 * Pow2(61);
  }

  // ---------------------------------------------------------------- every step is injective

  lemma {:induction false} XorLeftBit(a: Bits, b: Bits, k: nat, i: nat)
    requires |a| == |b| && i < |a| && k > 0
    requires XorLeft(a, k) == XorLeft(b, k)
    ensures a[i] == b[i]
    decreases i
  {
    assert XorLeft(a, k)[i] == XorLeft(b, k)[i];
    if i >= k {
      XorLeftBit(a, b, k, i - k);
    }
  }

  lemma {:induction false} XorRightBit(a: Bits, b: Bits, k: nat, i: nat)
    requires |a| == |b| && i < |a| && k > 0
    requires XorRight(a, k) == XorRight(b, k)
    ensures a[i] == b[i]
    decreases |a| - i
  {
    assert XorRight(a, k)[i] == XorRight(b, k)[i];
    if i + k < |a| {
      XorRightBit(a, b, k, i + k);
    }
  }

  lemma NextIsInjective(a: Bits, b: Bits)
    requires |a| == |b|
    ensures Next(a) == Next(b) <==> a == b
  {
    if Next(a) == Next(b) {
      var a1, b1 := XorLeft(a, 13), XorLeft(b, 13);
      var a2, b2 := XorRight(a1, 7), XorRight(b1, 7);
      forall i | 0 <= i < |a| ensures a2[i] == b2[i] { XorLeftBit(a2, b2, 17, i); }
      forall i | 0 <= i < |a| ensures a1[i] == b1[i] { XorRightBit(a1, b1, 7, i); }
      forall i | 0 <= i < |a| ensures a[i] == b[i] { XorLeftBit(a, b, 13, i); }
    }
  }

  lemma NextOfZero(width: nat)
    ensures Next(Zero(width)) == Zero(width)
  {
    assert XorLeft(Zero(width), 13) == Zero(width);
    assert XorRight(Zero(width), 7) == Zero(width);
    assert XorLeft(Zero(width), 17) == Zero(width);
  }

  // ---------------------------------------------------------------- the seed mix

  /** The multiplicative inverse of the odd multiplier modulo 2^64. */
  const INVERSE: nat := 0xF1DE_83E1_9937_733D

  lemma MultiplierIsInvertible()
    ensures MULTIPLIER * INVERSE % MODULUS == 1
  {
  }

  lemma ModMul(x: nat, c: nat)
    ensures (x % MODULUS) * c % MODULUS == x * c % MODULUS
  {
    var q, r := x / MODULUS, x % MODULUS;
    assert x * c == (q * MODULUS + r) * c == (q * c) * MODULUS + r * c;
    ModShift(r * c, q * c);
  }

  lemma ModShift(y: nat, k: nat)
    ensures (k * MODULUS + y) % MODULUS == y % MODULUS
  {
  }

  /** Multiplying by the inverse undoes multiplying by the multiplier, and the other way round. */
  lemma InverseUndoes(x: Seed, c: nat, d: nat)
    requires c * d % MODULUS == 1
    ensures (x * c % MODULUS) * d % MODULUS == x
  {
    ModMul(x * c, d);
    assert x * c * d == (c * d) * x;
    ModMul(c * d, x);
  }

  lemma XorCancels(a: Bits, b: Bits)
    requires |a| == |b|
    ensures Xor(Xor(a, b), b) == a
  {
  }

  lemma MixedIsInjective(a: Seed, b: Seed)
    ensures Mixed(a) == Mixed(b) <==> a == b
  {
    if Mixed(a) == Mixed(b) {
      var x, y := a * MULTIPLIER % MODULUS, b * MULTIPLIER % MODULUS;
      XorCancels(ToBits(x, WIDTH), ToBits(MIX, WIDTH));
      XorCancels(ToBits(y, WIDTH), ToBits(MIX, WIDTH));
      Pow2Values();
      ToNumInvertsToBits(x, WIDTH);
      ToNumInvertsToBits(y, WIDTH);
      MultiplierIsInvertible();
      InverseUndoes(a, MULTIPLIER, INVERSE);
      InverseUndoes(b, MULTIPLIER, INVERSE);
    }
  }

  /** The seed that is mixed into a given word. */
  function SeedOf(word: Bits): Seed
    requires |word| == WIDTH
  {
    ToNum(Xor(word, ToBits(MIX, WIDTH))) * INVERSE % MODULUS
  }

  lemma MixedOfSeedOf(word: Bits)
    requires |word| == WIDTH
    ensures Mixed(SeedOf(word)) == word
  {
    var x := Xor(word, ToBits(MIX, WIDTH));
    ToNumBelow(x);
    Pow2Values();
    MultiplierIsInvertible();
    InverseUndoes(ToNum(x), INVERSE, MULTIPLIER);
    ToNumInvertsToBits(ToNum(x), WIDTH);
    ToNumIsInjective(ToBits(ToNum(x), WIDTH), x);
    XorCancels(word, ToBits(MIX, WIDTH));
  }

  /** The two seeds the zero guard merges: the one mixed to zero and the one mixed to the guard. */
  predicate Merged(a: Seed, b: Seed) {
    || (a == SeedOf(Zero(WIDTH)) && b == SeedOf(ToBits(ZERO_GUARD, WIDTH)))
    || (b == SeedOf(Zero(WIDTH)) && a == SeedOf(ToBits(ZERO_GUARD, WIDTH)))
  }

  lemma GuardIsNotZero()
    ensures ToBits(ZERO_GUARD, WIDTH) != Zero(WIDTH)
  {
    Pow2Values();
    ToNumInvertsToBits(ZERO_GUARD, WIDTH);
    ToNumHighZeros(Zero(WIDTH), 0);
  }

  /** Distinct seeds start in distinct states, but for the one pair the zero guard merges. */
  lemma StartExactlyWhen(a: Seed, b: Seed)
    ensures Start(a) != Zero(WIDTH)
    ensures Start(a) == Start(b) <==> a == b || Merged(a, b)
  {
    var zero, guard := Zero(WIDTH), ToBits(ZERO_GUARD, WIDTH);
    GuardIsNotZero();
    MixedOfSeedOf(zero);
    MixedOfSeedOf(guard);
    MixedIsInjective(a, b);
    MixedIsInjective(a, SeedOf(zero));
    MixedIsInjective(b, SeedOf(zero));
    MixedIsInjective(a, SeedOf(guard));
    MixedIsInjective(b, SeedOf(guard));
  }

  /** MAIN RESULT. The state is never zero, and at every index two seeds are in the same state
      exactly when they are equal or the merged pair. */
  lemma {:induction false} StatesExactlyWhen(a: Seed, b: Seed, k: nat)
    ensures StateAt(a, k) != Zero(WIDTH)
    ensures StateAt(a, k) == StateAt(b, k) <==> a == b || Merged(a, b)
  {
    if k == 0 {
      StartExactlyWhen(a, b);
    } else {
      StatesExactlyWhen(a, b, k - 1);
      NextOfZero(WIDTH);
      NextIsInjective(StateAt(a, k - 1), Zero(WIDTH));
      NextIsInjective(StateAt(a, k - 1), StateAt(b, k - 1));
    }
  }

  lemma MergedStaysMerged(a: Seed, b: Seed)
    requires a == b || Merged(a, b)
    ensures forall k: nat :: StateAt(a, k) == StateAt(b, k)
  {
    forall k: nat ensures StateAt(a, k) == StateAt(b, k) {
      StatesExactlyWhen(a, b, k);
    }
  }

  lemma SeedMixedToZero()
    ensures SeedOf(Zero(WIDTH)) == MIX * INVERSE % MODULUS
  {
    assert Xor(Zero(WIDTH), ToBits(MIX, WIDTH)) == ToBits(MIX, WIDTH);
    Pow2Values();
    ToNumInvertsToBits(MIX, WIDTH);
  }

  lemma MixTimesInverse()
    ensures MIX * INVERSE % MODULUS == 0x438_6CA7_7967_D946
  {
  }

  /** The merged pair is out of the way of every seed the smoke test uses. */
  lemma SmallSeedsAreNotMerged(a: Seed, b: Seed)
    requires a < 0x1_0000_0000 && b < 0x1_0000_0000
    ensures !Merged(a, b)
  {
    SeedMixedToZero();
    MixTimesInverse();
  }

  // ---------------------------------------------------------------- differences of states

  lemma XorLeftOfXor(a: Bits, b: Bits, k: nat)
    requires |a| == |b|
    ensures XorLeft(Xor(a, b), k) == Xor(XorLeft(a, k), XorLeft(b, k))
  {
  }

  lemma XorRightOfXor(a: Bits, b: Bits, k: nat)
    requires |a| == |b|
    ensures XorRight(Xor(a, b), k) == Xor(XorRight(a, k), XorRight(b, k))
  {
  }

  /** The difference of two states goes through the same step as the states. */
  lemma NextOfXor(a: Bits, b: Bits)
    requires |a| == |b|
    ensures Next(Xor(a, b)) == Xor(Next(a), Next(b))
  {
    XorLeftOfXor(a, b, 13);
    XorRightOfXor(XorLeft(a, 13), XorLeft(b, 13), 7);
    XorLeftOfXor(XorRight(XorLeft(a, 13), 7), XorRight(XorLeft(b, 13), 7), 17);
  }
}
