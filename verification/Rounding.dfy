/**
 * Half-up rounding of a quotient as the simulator computes it: in binary64, with a product and a
 * division that each round to a nearest double, followed by Math.round.
 */
module Rounding {

  /** n/d rounded to the nearest integer, ties upwards: the integer arithmetic the prices are meant in. */
  function HalfUp(n: nat, d: nat): nat
    requires d > 0
  {
    (2 * n + d) / (2 * d)
  }

  /** ECMAScript's Math.round: the nearest integer, ties upwards. */
  function JsRound(x: real): int {
    (x + 0.5).Floor
  }

  // ---- binary64 ----

  function Pow2(n: nat): (p: nat)
    ensures p >= 1
  {
    if n == 0 then 1 else 2 * Pow2(n - 1)
  }

  function Scale(e: int): (r: real)
    ensures r > 0.0
  {
    if e >= 0 then Pow2(e) as real else 1.0 / Pow2(-e) as real
  }

  const LIMIT: int := 0x20_0000_0000_0000   // 2^53
  const LIMIT_REAL: real := 9007199254740992.0
  const HALF_LIMIT: real := 4503599627370496.0

  /** Significand and exponent of a finite double. */
  predicate IsDouble(m: int, e: int) {
    -LIMIT < m < LIMIT && -1074 <= e <= 971
  }

  function Value(m: int, e: int): real {
    m as real * Scale(e)
  }

  ghost predicate Representable(x: real) {
    exists m, e :: IsDouble(m, e) && Value(m, e) == x
  }

  function Abs(x: real): real { if x < 0.0 then -x else x }

  /** Some double nearest to `x`; which of two equally near ones does not matter here. */
  ghost predicate NearestDouble(x: real, f: real) {
    Representable(f) && forall g :: Representable(g) ==> Abs(f - x) <= Abs(g - x)
  }

  /** Every number has a nearest double: there are only finitely many to choose from. */
  lemma NearestExists(x: real) returns (f: real)
    ensures NearestDouble(x, f)
  {
    hide Value;
    var all := set m: int, e: int | -LIMIT < m < LIMIT && -1074 <= e <= 971 :: (m, e);
    assert (0, 0) in all;
    var best := Closest(all, x);
    f := Value(best.0, best.1);
    assert IsDouble(best.0, best.1);
    forall g | Representable(g) ensures Abs(f - x) <= Abs(g - x) {
      var m', e' :| IsDouble(m', e') && Value(m', e') == g;
      assert (m', e') in all;
    }
  }

  lemma {:induction false} Closest(candidates: set<(int, int)>, x: real) returns (best: (int, int))
    requires candidates != {}
    ensures best in candidates
    ensures forall c :: c in candidates ==> Abs(Value(best.0, best.1) - x) <= Abs(Value(c.0, c.1) - x)
    decreases |candidates|
  {
    hide Value;
    var c :| c in candidates;
    var others := candidates - {c};
    best := c;
    if others != {} {
      var other := Closest(others, x);
      if Abs(Value(other.0, other.1) - x) < Abs(Value(c.0, c.1) - x) {
        best := other;
      }
    }
    assert candidates == others + {c};
  }

  lemma IntegersAreDoubles(n: int)
    requires -LIMIT < n < LIMIT
    ensures Representable(n as real)
  {
    assert IsDouble(n, 0) && Value(n, 0) == n as real;
  }

  lemma HalvesAreDoubles(n: int)
    requires -LIMIT < n < LIMIT
    ensures Representable(n as real / 2.0)
  {
    assert Pow2(1) == 2 && Scale(-1) == 0.5;
    assert IsDouble(n, -1) && Value(n, -1) == n as real * 0.5;
  }

  lemma NearestOfDouble(x: real, f: real)
    requires Representable(x) && NearestDouble(x, f)
    ensures f == x
  {
    assert Abs(f - x) <= Abs(x - x);
  }

  lemma ProductNotNegative(a: real, b: real)
    requires a >= 0.0 && b >= 0.0
    ensures a * b >= 0.0
  {
  }

  lemma ScaleHalves(e: int)
    requires e <= 0
    ensures Scale(e - 1) * 2.0 == Scale(e)
  {
    var p := Pow2(-e) as real;
    assert Pow2(-e + 1) as real == 2.0 * p;
    assert 1.0 / (2.0 * p) * 2.0 == 1.0 / p;
  }

  /** The binade of x: the exponent that gives it a 53-bit significand. */
  lemma {:induction false} FindExponent(x: real, e: int) returns (k: int)
    requires -112 <= e <= 0 && x < LIMIT_REAL * Scale(e)
    requires x >= HALF_LIMIT * Scale(-112)
    ensures -112 <= k <= 0 && HALF_LIMIT * Scale(k) <= x < LIMIT_REAL * Scale(k)
    decreases e + 112
  {
    hide Scale;
    if x >= HALF_LIMIT * Scale(e) {
      k := e;
    } else {
      ScaleHalves(e);
      assert LIMIT_REAL * Scale(e - 1) == HALF_LIMIT * Scale(e);
      k := FindExponent(x, e - 1);
    }
  }

  /** A double within half a unit in the last place. */
  lemma CloseDouble(x: real, k: int) returns (g: real)
    requires -112 <= k <= 0 && HALF_LIMIT * Scale(k) <= x < LIMIT_REAL * Scale(k)
    ensures Representable(g) && Abs(g - x) * 2.0 <= Scale(k)
  {
    hide Scale, Representable;
    var s := Scale(k);
    var q := x / s;
    DivideBounds(x, s, HALF_LIMIT, LIMIT_REAL);
    var m := (q + 0.5).Floor;
    assert m as real <= q + 0.5 < m as real + 1.0;
    g := Value(m, k);
    ScaledError(m as real, q, s, x);
    RoundedUpIsDouble(m, k);
  }

  /** Rounding the significand up to 2^53 moves into the next binade. */
  lemma RoundedUpIsDouble(m: int, k: int)
    requires 0 <= m <= LIMIT && -112 <= k <= 0
    ensures Representable(Value(m, k))
  {
    hide Scale;
    if m == LIMIT {
      NextScale(k);
      var h := LIMIT / 2;
      var s := Scale(k);
      assert h as real == HALF_LIMIT && m as real == LIMIT_REAL;
      assert LIMIT_REAL * s == HALF_LIMIT * (2.0 * s);
      assert IsDouble(h, k + 1) && Value(h, k + 1) == m as real * s;
    } else {
      assert IsDouble(m, k) && Value(m, k) == m as real * Scale(k);
    }
  }

  lemma NextScale(k: int)
    requires k <= 0
    ensures Scale(k + 1) == 2.0 * Scale(k)
  {
    if k == 0 {
      assert Pow2(0) == 1 && Pow2(1) == 2;
    } else {
      ScaleHalves(k + 1);
    }
  }

  lemma DivideBounds(x: real, s: real, low: real, high: real)
    requires s > 0.0 && low * s <= x < high * s
    ensures low <= x / s < high && x / s * s == x
  {
    DivideMonotone(low * s, x, s);
    assert low * s / s == low && high * s / s == high;
    assert (high * s - x) / s == high * s / s - x / s;
    assert (high * s - x) / s > 0.0;
  }

  lemma ScaledError(m: real, q: real, s: real, x: real)
    requires s > 0.0 && m <= q + 0.5 && q - 0.5 <= m && q * s == x
    ensures Abs(m * s - x) * 2.0 <= s
  {
    var above, below := 0.5 - (m - q), 0.5 - (q - m);
    ProductNotNegative(above, s);
    ProductNotNegative(below, s);
    assert above * s == 0.5 * s - m * s + x;
    assert below * s == 0.5 * s - x + m * s;
  }

  /** The relative error of rounding to a nearest double is at most 2^-53 on this range. */
  lemma RelativeError(x: real, f: real)
    requires HALF_LIMIT * Scale(-112) <= x < LIMIT_REAL
    requires NearestDouble(x, f)
    ensures Abs(f - x) * LIMIT_REAL <= x
  {
    hide Representable, Pow2;
    ScaleZero();
    var k := FindExponent(x, 0);
    var g := CloseDouble(x, k);
    assert Abs(f - x) <= Abs(g - x);
    ErrorFromUlp(Abs(f - x), Scale(k), x);
  }

  lemma ScaleZero()
    ensures Scale(0) == 1.0
  {
  }

  lemma ErrorFromUlp(error: real, ulp: real, x: real)
    requires error * 2.0 <= ulp && HALF_LIMIT * ulp <= x
    ensures error * LIMIT_REAL <= x
  {
  }

  lemma TinyBound()
    ensures HALF_LIMIT * Scale(-112) <= 1.0 / 0x10_0000 as real
  {
    PowersUsed();
    assert Scale(-112) == 1.0 / Pow2(112) as real;
    assert HALF_LIMIT * (1.0 / 5192296858534827628530496329220096.0) <= 1.0 / 1048576.0;
  }

  lemma PowersUsed()
    ensures Pow2(112) == 5192296858534827628530496329220096
  {
    hide Pow2;
    SeventhPower();
    PowAdd(7, 7);
    assert Pow2(14) == 16384;
    PowAdd(14, 14);
    assert Pow2(28) == 268435456;
    PowAdd(28, 28);
    assert Pow2(56) == 72057594037927936;
    PowAdd(56, 56);
  }

  lemma SeventhPower()
    ensures Pow2(7) == 128
  {
    assert Pow2(3) == 8;
    assert Pow2(5) == 32;
  }

  lemma {:induction false} PowAdd(m: nat, n: nat)
    ensures Pow2(m + n) == Pow2(m) * Pow2(n)
  {
    if m > 0 {
      PowAdd(m - 1, n);
      assert Pow2(m + n) == 2 * Pow2(m - 1 + n);
      assert 2 * (Pow2(m - 1) * Pow2(n)) == 2 * Pow2(m - 1) * Pow2(n);
    }
  }

  // ---- the quotient ----

  /** Where n/d lies between the half-integers around its rounded value, for an even divisor d = 2c. */
  lemma BetweenHalves(n: nat, c: nat)
    requires c > 0
    ensures var k := HalfUp(n, 2 * c);
      && (2 * k - 1) * c <= n
      && n + 1 <= (2 * k + 1) * c
  {
    var k := HalfUp(n, 2 * c);
    var t := 2 * n + 2 * c;
    assert k == t / (4 * c);
    DivisionBounds(t, 4 * c);
    assert 4 * c * k == 2 * (2 * k * c);
    assert (2 * k - 1) * c == 2 * k * c - c && (2 * k + 1) * c == 2 * k * c + c;
  }

  lemma DivisionBounds(t: nat, b: nat)
    requires b > 0
    ensures b * (t / b) <= t < b * (t / b) + b
  {
  }

  /** Dividing n < 2^53 by an even divisor up to 2^20 in binary64 and rounding half up is exact. */
  lemma RoundedQuotientIsExact(n: nat, d: nat, f: real)
    requires n < LIMIT && 0 < d <= 0x10_0000 && d % 2 == 0
    requires NearestDouble(n as real / d as real, f)
    ensures JsRound(f) == HalfUp(n, d)
  {
    hide Representable, NearestDouble, HalfUp;
    var c, k := d / 2, HalfUp(n, d);
    if n == 0 {
      IntegersAreDoubles(0);
      NearestOfDouble(0.0, f);
      HalfUpOfZero(d);
    } else {
      QuotientError(n, d, f);
      BetweenHalves(n, c);
      // an integer numerator keeps the quotient at least 1/d below the next half-integer
      QuotientAtMost(n + 1, (2 * k + 1) * c, d, c, 2 * k + 1);
      NextQuotient(n, d);
      if (2 * k - 1) * c == n {
        // the quotient is itself a half-integer, which is a double
        HalfQuotient(n, c, 2 * k - 1);
        FactorBelow(2 * k - 1, c, n);
        HalvesAreDoubles(2 * k - 1);
        NearestOfDouble(n as real / d as real, f);
      } else {
        QuotientAtLeast(n - 1, d, c, 2 * k - 1);
        NextQuotient(n - 1, d);
      }
    }
  }

  lemma HalfUpOfZero(d: nat)
    requires d > 0
    ensures HalfUp(0, d) == 0
  {
  }

  lemma NextQuotient(n: int, d: nat)
    requires d > 0
    ensures (n + 1) as real / d as real == n as real / d as real + 1.0 / d as real
  {
    var N, D := n as real, d as real;
    assert (N + 1.0) / D == N / D + 1.0 / D;
  }

  lemma FactorBelow(a: int, c: nat, n: nat)
    requires c > 0 && a * c == n
    ensures a <= n
  {
    if a > 0 {
      assert a * c >= a;
    }
  }

  /** The rounding error of n/d stays below 1/d. */
  lemma QuotientError(n: nat, d: nat, f: real)
    requires 0 < n < LIMIT && 0 < d <= 0x10_0000
    requires NearestDouble(n as real / d as real, f)
    ensures Abs(f - n as real / d as real) < 1.0 / d as real
  {
    hide NearestDouble, Scale;
    var x, step := n as real / d as real, 1.0 / d as real;
    QuotientRange(n as real, d as real);
    TinyBound();
    RelativeError(x, f);
    SmallRelative(Abs(f - x), x, step);
  }

  lemma QuotientRange(n: real, d: real)
    requires 1.0 <= n < LIMIT_REAL && 1.0 <= d <= 1048576.0
    ensures 1.0 / 1048576.0 <= n / d < LIMIT_REAL
    ensures n / d < LIMIT_REAL * (1.0 / d)
  {
    ReciprocalBounds(d);
    DivideMonotone(1.0, n, d);
    ProductNotNegative(n, d - 1.0);
    assert n * (d - 1.0) == n * d - n;
    DivideMonotone(n, n * d, d);
    MultiplyThenDivide(n, d);
    DivideStrictly(n, LIMIT_REAL, d);
    assert LIMIT_REAL / d == LIMIT_REAL * (1.0 / d);
  }

  lemma MultiplyThenDivide(x: real, d: real)
    requires d > 0.0
    ensures x * d / d == x
  {
  }

  lemma DivideStrictly(x: real, y: real, d: real)
    requires d > 0.0 && x < y
    ensures x / d < y / d
  {
    assert (y - x) / d > 0.0;
    assert (y - x) / d == y / d - x / d;
  }

  lemma ReciprocalBounds(d: real)
    requires 1.0 <= d <= 1048576.0
    ensures 1.0 / 1048576.0 <= 1.0 / d <= 1.0
  {
    DivideMonotone(1.0, d, d);
    DivideMonotone(d, 1048576.0, 1048576.0 * d);
    assert d / (1048576.0 * d) == 1.0 / 1048576.0;
    assert 1048576.0 / (1048576.0 * d) == 1.0 / d;
  }

  lemma SmallRelative(error: real, x: real, step: real)
    requires error * LIMIT_REAL <= x < LIMIT_REAL * step
    ensures error < step
  {
  }

  lemma HalfQuotient(n: nat, c: nat, h: int)
    requires c > 0 && h * c == n
    ensures n as real / (2 * c) as real == h as real / 2.0
  {
    var C := c as real;
    assert n as real == h as real * C;
    assert h as real / 2.0 * (2.0 * C) == h as real * C;
  }

  lemma QuotientAtMost(n: nat, m: int, d: nat, c: nat, h: int)
    requires c > 0 && d == 2 * c && m == h * c && n <= m
    ensures n as real / d as real <= h as real / 2.0
  {
    HalfQuotient(m, c, h);
    DivideMonotone(n as real, m as real, d as real);
  }

  lemma QuotientAtLeast(n: int, d: nat, c: nat, h: int)
    requires c > 0 && d == 2 * c && h * c <= n
    ensures h as real / 2.0 <= n as real / d as real
  {
    var H, C, D := h as real, c as real, d as real;
    assert H * C <= n as real;
    DivideMonotone(H * C, n as real, D);
    assert H * C == H / 2.0 * D;
    MultiplyThenDivide(H / 2.0, D);
  }

  lemma DivideMonotone(x: real, y: real, d: real)
    requires d > 0.0 && x <= y
    ensures x / d <= y / d
  {
    assert (y - x) / d >= 0.0;
    assert (y - x) / d == y / d - x / d;
  }

  /** The whole expression `Math.round(a * b / d)` in binary64, for products that are safe integers. */
  lemma JsRoundOfProductIsExact(a: nat, b: nat, d: nat, product: real, quotient: real)
    requires a * b < LIMIT && d in {60, 3600, 10000, 1000000}
    requires NearestDouble((a * b) as real, product) && NearestDouble(product / d as real, quotient)
    ensures JsRound(quotient) == HalfUp(a * b, d)
  {
    IntegersAreDoubles(a * b);
    NearestOfDouble((a * b) as real, product);
    RoundedQuotientIsExact(a * b, d, quotient);
  }
}
