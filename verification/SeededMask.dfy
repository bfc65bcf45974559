/** The mask rows of the smoke test (crates/diar-core/src/provision/verify.rs): one 32-bit float
    for each xorshift state, and which seeds give which rows. */
module SeededMask {
  import opened BitMasks
  import opened Xorshift
  import opened XorshiftMasks
  import opened XorshiftWindows
  import opened Float32

  /** The literals 0.9 and 0.1 as 32-bit floats. */
  const NINE_TENTHS := 0.89999997615814208984375
  const TENTH := 0.100000001490116119384765625

  /** The mask value of a state: its top 53 bits as a fraction, moved into (0, 1], every operation
      rounded. Dividing by 2^53 rounds nothing: it only moves the exponent. */
  function MaskValue(s: Bits): (v: real)
    requires |s| == WIDTH
    ensures 0.0 < v <= 1.0
  {
    TopFitsLimit(s);
    MovedValue(F32(TopNumber(s) as real) / LIMIT)
  }

  function TopNumber(s: Bits): nat {
    ToNum(Shr(s, 11))
  }

  function MovedValue(x: real): (v: real)
    requires 0.0 <= x <= 1.0
    ensures 0.0 < v <= 1.0
  {
    ProductIsBelow(x);
    SumIsBelow(x * NINE_TENTHS);
    F32(F32(x * NINE_TENTHS) + TENTH)
  }

  lemma ProductIsBelow(x: real)
    requires 0.0 <= x <= 1.0
    ensures 0.0 <= x * NINE_TENTHS <= NINE_TENTHS
  {
  }

  lemma SumIsBelow(z: real)
    requires 0.0 <= z <= NINE_TENTHS
    ensures F32(z) <= NINE_TENTHS
    ensures 0.0 < F32(F32(z) + TENTH) <= 1.0
  {
    F32AtMost(z, 15099494);
    F32BelowOne(F32(z) + TENTH);
  }

  lemma TopFitsLimit(s: Bits)
    requires |s| == WIDTH
    ensures TopNumber(s) as real < LIMIT && F32(TopNumber(s) as real) <= LIMIT
  {
    TopBits(s);
    ToNumBelow(s[11..]);
    Xorshift.Pow2Values();
    F32OfWhole(TopNumber(s) as real);
  }

  lemma TopBits(s: Bits)
    requires |s| == WIDTH
    ensures ToNum(Shr(s, 11)) == ToNum(s[11..])
  {
    ToNumHighZeros(Shr(s, 11), 53);
    assert Shr(s, 11)[..53] == s[11..];
  }

  lemma LiteralsAreRounded()
    ensures F32(0.9) == NINE_TENTHS && F32(0.1) == TENTH
  {
    DoubledUnit();
    UlpIs(0.9, UNIT, 53, HALVINGS);
    Doubled3(UNIT / 8.0);
    DoubledAdd(UNIT / 8.0, 3, 53);
    UlpIs(0.1, UNIT / 8.0, 56, HALVINGS);
  }

  method SeededMask(n: nat, seed: Seed) returns (mask: seq<real>)
    ensures mask == Row(seed, n)
  {
    var s := Mixed(seed);
    if s == Zero(WIDTH) {
      s := ToBits(ZERO_GUARD, WIDTH);
    }
    mask := [];
    for i := 0 to n
      invariant s == StateAt(seed, i)
      invariant mask == Row(seed, i)
    {
      s := Advance(s);
      assert StateAt(seed, i + 1) == Next(StateAt(seed, i));
      mask := mask + [MaskValue(s)];
    }
  }

  /** The first `n` values for a seed. */
  function Row(seed: Seed, n: nat): (row: seq<real>)
    ensures |row| == n
  {
    if n == 0 then [] else Row(seed, n - 1) + [MaskValue(StateAt(seed, n))]
  }

  lemma {:induction false} RowAt(seed: Seed, n: nat, k: nat)
    requires 1 <= k <= n
    ensures Row(seed, n)[k - 1] == MaskValue(StateAt(seed, k))
  {
    if k < n {
      RowAt(seed, n - 1, k);
      assert Row(seed, n)[k - 1] == Row(seed, n - 1)[k - 1];
    } else {
      assert Row(seed, n)[n - 1] == MaskValue(StateAt(seed, n));
    }
  }

  // ---------------------------------------------------------------- what a value tells

  lemma MovedValuesApart(x: real, y: real)
    requires 0.0 <= x <= 1.0 && 0.0 <= y <= 1.0 && MovedValue(x) == MovedValue(y)
    ensures NINE_TENTHS * (x - y) <= 2.0 * UNIT
  {
    ProductIsBelow(x);
    ProductIsBelow(y);
    var p, q := x * NINE_TENTHS, y * NINE_TENTHS;
    F32AtMost(p, 15099494);
    F32AtMost(q, 15099494);
    F32BelowOne(p);
    F32BelowOne(q);
    F32BelowOne(F32(p) + TENTH);
    F32BelowOne(F32(q) + TENTH);
  }

  /** States of the same value have top numbers less than 2^31 apart. */
  lemma ValueBoundsTopNumber(s: Bits, t: Bits)
    requires |s| == |t| == WIDTH && MaskValue(s) == MaskValue(t)
    ensures TopNumber(s) - TopNumber(t) < 0x8000_0000
  {
    TopFitsLimit(s);
    TopFitsLimit(t);
    F32OfWhole(TopNumber(s) as real);
    F32OfWhole(TopNumber(t) as real);
    MovedValuesApart(F32(TopNumber(s) as real) / LIMIT, F32(TopNumber(t) as real) / LIMIT);
  }

  // ---------------------------------------------------------------- what a value shows of a difference

  lemma {:induction false} ToNumSplit(b: Bits, k: nat)
    requires k <= |b|
    ensures ToNum(b) == ToNum(b[..k]) + Xorshift.Pow2(k) * ToNum(b[k..])
  {
    if k == 0 {
      assert b[0..] == b;
    } else {
      ToNumSplit(b[1..], k - 1);
      SplitRest(b, k);
      ToNumOfFirst(b);
      ToNumOfFirst(b[..k]);
      Regroup(Xorshift.Pow2(k - 1), ToNum(b[k..]));
    }
  }

  lemma SplitRest(b: Bits, k: nat)
    requires 1 <= k <= |b|
    ensures b[..k][1..] == b[1..][..k - 1] && b[1..][k - 1..] == b[k..] && b[..k][0] == b[0]
  {
  }

  lemma ToNumOfFirst(b: Bits)
    requires b != []
    ensures ToNum(b) == (if b[0] then 1 else 0) + 2 * ToNum(b[1..])
  {
  }

  lemma Regroup(p: nat, n: nat)
    ensures 2 * p * n == 2 * (p * n)
  {
  }

  /** Two words of numbers that follow each other differ in a run of low bits. */
  lemma {:induction false} SuccessorDiffers(a: Bits, b: Bits) returns (j: nat)
    requires |a| == |b| && ToNum(b) == ToNum(a) + 1
    ensures j <= |a| && forall i :: 0 <= i < |a| ==> (a[i] != b[i]) == (i < j)
  {
    if a[0] {
      var k := SuccessorDiffers(a[1..], b[1..]);
      j := k + 1;
      forall i | 0 < i < |a|
        ensures (a[i] != b[i]) == (i < j)
      {
        assert a[i] == a[1..][i - 1] && b[i] == b[1..][i - 1];
      }
    } else {
      ToNumIsInjective(a[1..], b[1..]);
      j := 1;
      forall i | 0 < i < |a|
        ensures a[i] == b[i]
      {
        assert a[i] == a[1..][i - 1] && b[i] == b[1..][i - 1];
      }
    }
  }

  lemma NeighboursDiffer(a: Bits, b: Bits) returns (j: nat)
    requires |a| == |b| && -1 <= ToNum(a) - ToNum(b) <= 1
    ensures j <= |a| && forall i :: 0 <= i < |a| ==> (a[i] != b[i]) == (i < j)
  {
    if ToNum(a) < ToNum(b) {
      j := SuccessorDiffers(a, b);
    } else if ToNum(b) < ToNum(a) {
      j := SuccessorDiffers(b, a);
    } else {
      ToNumIsInjective(a, b);
      j := 0;
    }
  }

  /** The top 22 bits of a state, as the top number has them. */
  lemma WindowNumber(s: Bits)
    requires |s| == WIDTH
    ensures 0 <= TopNumber(s) - 0x8000_0000 * ToNum(s[42..]) < 0x8000_0000
  {
    TopBits(s);
    ToNumSplit(s[11..], 31);
    assert s[11..][31..] == s[42..];
    ToNumBelow(s[11..][..31]);
    Pow2Of31();
  }

  lemma Pow2Of31()
    ensures Xorshift.Pow2(31) == 0x8000_0000
  {
    Pow2Byte(7);
    Pow2Byte(15);
    Pow2Byte(23);
  }

  /** States of the same value differ in their top 22 bits by a run of ones, the trace of a carry. */
  lemma SameValueShowsRun(s: Bits, t: Bits) returns (j: nat)
    requires |s| == |t| == WIDTH && MaskValue(s) == MaskValue(t)
    ensures RunOfOnes(Xor(s, t), j)
  {
    ValueBoundsTopNumber(s, t);
    ValueBoundsTopNumber(t, s);
    WindowNumber(s);
    WindowNumber(t);
    j := NeighboursDiffer(s[42..], t[42..]);
    forall i | 42 <= i < WIDTH
      ensures Xor(s, t)[i] == (i < 42 + j)
    {
      assert s[i] == s[42..][i - 42] && t[i] == t[42..][i - 42];
    }
  }

  // ---------------------------------------------------------------- rows

  /** Four consecutive values determine the state. */
  lemma FourValuesDetermineTheState(s: Bits, t: Bits)
    requires |s| == |t| == WIDTH
    requires MaskValue(s) == MaskValue(t) && MaskValue(Next(s)) == MaskValue(Next(t))
    requires MaskValue(Next(Next(s))) == MaskValue(Next(Next(t)))
    requires MaskValue(Next(Next(Next(s)))) == MaskValue(Next(Next(Next(t))))
    ensures s == t
  {
    var j0 := SameValueShowsRun(s, t);
    var j1 := SameValueShowsRun(Next(s), Next(t));
    var j2 := SameValueShowsRun(Next(Next(s)), Next(Next(t)));
    var j3 := SameValueShowsRun(Next(Next(Next(s))), Next(Next(Next(t))));
    NextOfXor(s, t);
    NextOfXor(Next(s), Next(t));
    NextOfXor(Next(Next(s)), Next(Next(t)));
    FourRunsShowEquality(Xor(s, t), j0, j1, j2, j3);
    forall i | 0 <= i < WIDTH
      ensures s[i] == t[i]
    {
      assert !Xor(s, t)[i];
    }
  }

  lemma {:induction false} EqualStatesEqualRows(a: Seed, b: Seed, n: nat)
    requires forall k: nat :: StateAt(a, k) == StateAt(b, k)
    ensures Row(a, n) == Row(b, n)
  {
    if n > 0 {
      EqualStatesEqualRows(a, b, n - 1);
      assert StateAt(a, n) == StateAt(b, n);
    }
  }

  lemma ValuesOfEqualRows(a: Seed, b: Seed, n: nat, k: nat)
    requires Row(a, n) == Row(b, n) && 1 <= k <= n
    ensures MaskValue(StateAt(a, k)) == MaskValue(StateAt(b, k))
  {
    RowAt(a, n, k);
    RowAt(b, n, k);
  }

  lemma EqualRowsEqualStates(a: Seed, b: Seed, n: nat)
    requires n >= 4 && Row(a, n) == Row(b, n)
    ensures StateAt(a, 1) == StateAt(b, 1)
  {
    ValuesOfEqualRows(a, b, n, 1);
    ValuesOfEqualRows(a, b, n, 2);
    ValuesOfEqualRows(a, b, n, 3);
    ValuesOfEqualRows(a, b, n, 4);
    FourStates(a);
    FourStates(b);
    FourValuesDetermineTheState(StateAt(a, 1), StateAt(b, 1));
  }

  lemma FourStates(a: Seed)
    ensures StateAt(a, 2) == Next(StateAt(a, 1)) && StateAt(a, 3) == Next(Next(StateAt(a, 1)))
    ensures StateAt(a, 4) == Next(Next(Next(StateAt(a, 1))))
  {
    assert StateAt(a, 4) == Next(StateAt(a, 3));
  }

  /** MAIN RESULT. Of four values or more, the rows for two seeds are equal exactly when the seeds
      are equal or the merged pair. */
  lemma RowsExactlyWhen(a: Seed, b: Seed, n: nat)
    requires n >= 4
    ensures Row(a, n) == Row(b, n) <==> a == b || Merged(a, b)
  {
    if a == b || Merged(a, b) {
      MergedStaysMerged(a, b);
      EqualStatesEqualRows(a, b, n);
    } else if Row(a, n) == Row(b, n) {
      EqualRowsEqualStates(a, b, n);
      StatesExactlyWhen(a, b, 1);
    }
  }

  /** Below 2^32 distinct seeds give distinct rows. */
  lemma SmallSeedsGiveDistinctRows(a: Seed, b: Seed, n: nat, rowA: seq<real>, rowB: seq<real>)
    requires n >= 4 && a < 0x1_0000_0000 && b < 0x1_0000_0000
    requires rowA == Row(a, n) && rowB == Row(b, n)
    ensures rowA == rowB <==> a == b
  {
    RowsExactlyWhen(a, b, n);
    SmallSeedsAreNotMerged(a, b);
  }
}
