/** Single-precision floats (IEEE 754-2019, binary32) as the reals they stand for: rounding to
    nearest, ties to even, of non-negative reals below 2^53. */
module Float32 {

  function Nearest(x: real): (n: int)
    requires x >= 0.0
    ensures -0.5 <= x - n as real <= 0.5 && n >= 0
    ensures x - n as real == 0.5 || x - n as real == -0.5 ==> n % 2 == 0
  {
    var n, r := x.Floor, x - x.Floor as real;
    if r < 0.5 || (r == 0.5 && n % 2 == 0) then n else n + 1
  }

  /** The spacing of the floats around `x`: halved until `x` fills 24 bits of it, or the smallest
      spacing is reached. */
  function Ulp(x: real, u: real, halvings: nat): (v: real)
    requires u > 0.0
    ensures 0.0 < v <= u
    decreases halvings
  {
    if halvings == 0 || x >= 8388608.0 * u then u else Ulp(x, u / 2.0, halvings - 1)
  }

  /** The spacing between 2^52 and 2^53 is 2^29; the smallest one is 2^-149. */
  const TOP_ULP := 536870912.0
  const HALVINGS := 178
  const LIMIT := 9007199254740992.0

  function UlpOf(x: real): (v: real)
    ensures 0.0 < v <= TOP_ULP
  {
    Ulp(x, TOP_ULP, HALVINGS)
  }

  function F32(x: real): (y: real)
    requires 0.0 <= x < LIMIT
    ensures y >= 0.0
  {
    Rounded(x, UlpOf(x))
  }

  function Rounded(x: real, v: real): (y: real)
    requires x >= 0.0 && v > 0.0
    ensures y >= 0.0
  {
    Nearest(x / v) as real * v
  }

  lemma Scaled(a: real, b: real, v: real)
    requires a <= b && v > 0.0
    ensures a * v <= b * v
  {
  }

  predicate Near(x: real, y: real, h: real) {
    x - h <= y <= x + h
  }

  lemma ScaledNear(a: real, b: real, v: real)
    requires Near(a, b, 0.5) && v > 0.0
    ensures Near(a * v, b * v, 0.5 * v)
  {
    Scaled(a - b, 0.5, v);
    Scaled(-0.5, a - b, v);
    assert (a - b) * v == a * v - b * v;
  }

  lemma ProductsNear(a: real, b: real, v: real, x: real, y: real)
    requires Near(a, b, 0.5) && v > 0.0 && x == a * v && y == b * v
    ensures Near(x, y, 0.5 * v)
  {
    ScaledNear(a, b, v);
  }

  lemma Quotient(x: real, v: real)
    requires v > 0.0
    ensures x / v * v == x
  {
  }

  lemma RoundedIsNear(x: real, v: real)
    requires x >= 0.0 && v > 0.0
    ensures Near(x, Rounded(x, v), 0.5 * v)
  {
    Quotient(x, v);
    ProductsNear(x / v, Nearest(x / v) as real, v, x, Rounded(x, v));
  }

  lemma QuotientAtMost(x: real, v: real, k: real)
    requires v > 0.0 && x <= k * v
    ensures x / v <= k
  {
    var q := x / v;
    Quotient(x, v);
    if q > k {
      var d := q - k;
      assert d * v > 0.0;
      assert d * v == q * v - k * v;
    }
  }

  /** No multiple of the spacing is passed by. */
  lemma RoundedAtMost(x: real, v: real, k: int)
    requires x >= 0.0 && v > 0.0 && x <= k as real * v
    ensures Rounded(x, v) <= k as real * v
  {
    QuotientAtMost(x, v, k as real);
    assert Nearest(x / v) <= k;
    Scaled(Nearest(x / v) as real, k as real, v);
  }

  // ---------------------------------------------------------------- which spacing

  function Doubled(v: real, k: nat): (u: real)
    requires v > 0.0
    ensures u >= v
  {
    if k == 0 then v else 2.0 * Doubled(v, k - 1)
  }

  /** The spacing at which `x` fills 24 bits is the one that is found. */
  lemma {:induction false} UlpIs(x: real, v: real, k: nat, halvings: nat)
    requires k <= halvings && v > 0.0 && 8388608.0 * v <= x < 16777216.0 * v
    ensures Ulp(x, Doubled(v, k), halvings) == v
  {
    if k > 0 {
      UlpIs(x, v, k - 1, halvings - 1);
    }
  }

  lemma {:induction false} UlpAtMost(x: real, v: real, k: nat, halvings: nat)
    requires k < halvings && v > 0.0 && 0.0 <= x < 16777216.0 * v
    ensures var u := Ulp(x, Doubled(v, k), halvings); u == v || u <= v / 2.0
  {
    if k > 0 {
      UlpAtMost(x, v, k - 1, halvings - 1);
    }
  }

  lemma {:induction false} UlpHolds(x: real, u: real, halvings: nat)
    requires u > 0.0 && 0.0 <= x < 16777216.0 * u
    ensures x < 16777216.0 * Ulp(x, u, halvings)
    decreases halvings
  {
    if halvings > 0 && x < 8388608.0 * u {
      UlpHolds(x, u / 2.0, halvings - 1);
    }
  }

  /** Below 1 the spacing is at most 2^-24. */
  const UNIT := 0.000000059604644775390625

  lemma {:induction false} DoubledAdd(v: real, j: nat, k: nat)
    requires v > 0.0
    ensures Doubled(Doubled(v, j), k) == Doubled(v, j + k)
  {
    if k > 0 {
      DoubledAdd(v, j, k - 1);
    }
  }

  lemma Doubled3(v: real)
    requires v > 0.0
    ensures Doubled(v, 1) == 2.0 * v && Doubled(v, 2) == 4.0 * v && Doubled(v, 3) == 8.0 * v
  {
  }

  lemma Doubled6(v: real)
    requires v > 0.0
    ensures Doubled(v, 5) == 32.0 * v && Doubled(v, 6) == 64.0 * v
  {
    Doubled3(v);
    Doubled3(8.0 * v);
    DoubledAdd(v, 3, 2);
    DoubledAdd(v, 3, 3);
  }

  lemma Doubled24(v: real)
    requires v > 0.0
    ensures Doubled(v, 24) == 16777216.0 * v
  {
    Doubled6(v);
    Doubled6(64.0 * v);
    DoubledAdd(v, 6, 6);
    Doubled6(4096.0 * v);
    DoubledAdd(v, 12, 6);
    Doubled6(262144.0 * v);
    DoubledAdd(v, 18, 6);
  }

  lemma DoubledUnit()
    ensures Doubled(UNIT, 53) == TOP_ULP
  {
    Doubled24(UNIT);
    Doubled24(1.0);
    DoubledAdd(UNIT, 24, 24);
    Doubled6(16777216.0);
    DoubledAdd(UNIT, 48, 5);
  }

  lemma UlpBelowOne(x: real)
    requires 0.0 <= x < 1.0
    ensures UlpOf(x) == UNIT || UlpOf(x) <= UNIT / 2.0
  {
    DoubledUnit();
    UlpAtMost(x, UNIT, 53, HALVINGS);
  }

  lemma F32BelowOne(x: real)
    requires 0.0 <= x < 1.0
    ensures Near(x, F32(x), 0.5 * UNIT)
    ensures F32(x) <= 1.0
  {
    UlpBelowOne(x);
    RoundedIsNear(x, UlpOf(x));
    UlpHolds(x, TOP_ULP, HALVINGS);
    RoundedAtMost(x, UlpOf(x), 16777216);
  }

  /** A multiple of 2^-24 between 1/2 and 1 is a bound on roundings below it. */
  lemma F32AtMost(x: real, k: int)
    requires 0.0 <= x <= k as real * UNIT && 8388608 <= k < 16777216
    ensures F32(x) <= k as real * UNIT
  {
    UlpBelowOne(x);
    if UlpOf(x) == UNIT {
      RoundedAtMost(x, UNIT, k);
    } else {
      UlpHolds(x, TOP_ULP, HALVINGS);
      RoundedAtMost(x, UlpOf(x), 16777216);
    }
  }

  lemma F32OfWhole(x: real)
    requires 0.0 <= x < LIMIT
    ensures Near(x, F32(x), 0.5 * TOP_ULP)
    ensures F32(x) <= LIMIT
  {
    RoundedIsNear(x, UlpOf(x));
    UlpHolds(x, TOP_ULP, HALVINGS);
    RoundedAtMost(x, UlpOf(x), 16777216);
  }
}
