/** The tariff engine: sanitising, half-up rounding of each component, and tax on the rounded subtotal. */
module Pricing {
  import opened Rounding

  /** What `Number(value)` yields: not a number, or a finite one. */
  datatype JsNumber = NaN | Finite(value: real)

  function Max0(n: int): nat { if n < 0 then 0 else n }

  function OrZero(v: JsNumber): real {
    match v
    case NaN => 0.0
    case Finite(r) => r
  }

  function NonNegativeInteger(v: JsNumber): nat { Max0(JsRound(OrZero(v))) }

  function NonNegativeSeconds(v: JsNumber): nat { Max0(OrZero(v).Floor) }

  /** A tariff as handed in; a missing rate is NaN. */
  datatype Tariff = Tariff(fixedMinor: JsNumber, energyPerKwhMinor: JsNumber, timePerMinuteMinor: JsNumber,
      taxBasisPoints: JsNumber)

  /** The rates a tariff is priced with. */
  datatype Rates = Rates(fixed: nat, perKwh: nat, perMinute: nat, tax: nat)

  datatype Charge = Charge(fixedMinor: nat, energyMinor: nat, timeMinor: nat, taxMinor: nat, totalMinor: nat)

  const KWH: nat := 1000000
  const MINUTE: nat := 60
  const WHOLE: nat := 10000

  function Sanitized(t: Tariff): Rates {
    Rates(NonNegativeInteger(t.fixedMinor), NonNegativeInteger(t.energyPerKwhMinor),
          NonNegativeInteger(t.timePerMinuteMinor), NonNegativeInteger(t.taxBasisPoints))
  }

  function Price(energy: nat, seconds: nat, r: Rates): Charge {
    var energyMinor := HalfUp(energy * r.perKwh, KWH);
    var timeMinor := HalfUp(seconds * r.perMinute, MINUTE);
    var subtotal := r.fixed + energyMinor + timeMinor;
    var taxMinor := HalfUp(subtotal * r.tax, WHOLE);
    Charge(r.fixed, energyMinor, timeMinor, taxMinor, subtotal + taxMinor)
  }

  const NO_CHARGE: Charge := Charge(0, 0, 0, 0, 0)

  /** `calculateCharge` */
  function CalculateCharge(energyMilliWh: JsNumber, activeSeconds: JsNumber, tariff: Tariff,
      sessionStarted: bool): Charge {
    if !sessionStarted then NO_CHARGE
    else Price(NonNegativeInteger(energyMilliWh), NonNegativeSeconds(activeSeconds), Sanitized(tariff))
  }

  // ---- rounding facts ----

  lemma HalfUpBounds(n: nat, d: nat)
    requires d > 0
    ensures 2 * d * HalfUp(n, d) <= 2 * n + d < 2 * d * HalfUp(n, d) + 2 * d
  {
    DivisionBounds(2 * n + d, 2 * d);
  }

  lemma HalfUpUnique(n: nat, d: nat, k: int)
    requires d > 0 && 2 * d * k <= 2 * n + d < 2 * d * k + 2 * d
    ensures k == HalfUp(n, d)
  {
    HalfUpBounds(n, d);
    var h := HalfUp(n, d);
    SameQuotient(2 * d, h, k, 2 * n + d);
  }

  lemma SameQuotient(b: nat, h: int, k: int, t: int)
    requires b > 0 && b * h <= t < b * h + b && b * k <= t < b * k + b
    ensures h == k
  {
    if h < k {
      MultiplyMonotone(h + 1, k, b);
    } else if k < h {
      MultiplyMonotone(k + 1, h, b);
    }
  }

  lemma MultiplyMonotone(x: int, y: int, b: nat)
    requires x <= y
    ensures b * x <= b * y
  {
  }

  lemma ProductMonotone(a: nat, b: nat, c: nat, d: nat)
    requires a <= c && b <= d
    ensures a * b <= c * d
  {
    MultiplyMonotone(b, d, a);
    MultiplyMonotone(a, c, d);
  }

  lemma HalfUpMonotone(n: nat, m: nat, d: nat)
    requires d > 0 && n <= m
    ensures HalfUp(n, d) <= HalfUp(m, d)
  {
    HalfUpBounds(n, d);
    HalfUpBounds(m, d);
    var h, k := HalfUp(n, d), HalfUp(m, d);
    if k < h {
      MultiplyMonotone(k + 1, h, 2 * d);
    }
  }

  /** Adding c whole units to the quotient adds c. */
  lemma HalfUpShift(n: nat, d: nat, c: nat)
    requires d > 0
    ensures HalfUp(n + c * d, d) == HalfUp(n, d) + c
  {
    hide HalfUp;
    HalfUpBounds(n, d);
    var h := HalfUp(n, d);
    assert 2 * d * (h + c) == 2 * d * h + 2 * (c * d);
    HalfUpUnique(n + c * d, d, h + c);
  }

  /** Each part is the integer nearest to its exact value, and the tax is taken of the rounded parts. */
  lemma PartsAreNearest(energy: nat, seconds: nat, r: Rates)
    ensures var p := Price(energy, seconds, r); var subtotal := p.totalMinor - p.taxMinor;
      && p.fixedMinor == r.fixed && subtotal == p.fixedMinor + p.energyMinor + p.timeMinor
      && 2 * KWH * p.energyMinor <= 2 * (energy * r.perKwh) + KWH < 2 * KWH * (p.energyMinor + 1)
      && 2 * MINUTE * p.timeMinor <= 2 * (seconds * r.perMinute) + MINUTE < 2 * MINUTE * (p.timeMinor + 1)
      && 2 * WHOLE * p.taxMinor <= 2 * (subtotal * r.tax) + WHOLE < 2 * WHOLE * (p.taxMinor + 1)
  {
    hide HalfUp;
    HalfUpBounds(energy * r.perKwh, KWH);
    HalfUpBounds(seconds * r.perMinute, MINUTE);
    var p := Price(energy, seconds, r);
    HalfUpBounds((p.totalMinor - p.taxMinor) * r.tax, WHOLE);
  }

  /**
   * Sanitising: the nearest integer with ties upwards, whole seconds rounded down, and never below zero; NaN
   * counts as zero.
   */
  lemma SanitizingExactly(v: JsNumber, n: nat)
    ensures n == NonNegativeInteger(v) <==>
      if v.NaN? || v.value < 0.5 then n == 0 else n as real - 0.5 <= v.value < n as real + 0.5
    ensures n == NonNegativeSeconds(v) <==>
      if v.NaN? || v.value < 1.0 then n == 0 else n as real <= v.value < n as real + 1.0
  {
    var x := OrZero(v);
    assert x.Floor as real <= x < x.Floor as real + 1.0;
    var h := (x + 0.5).Floor;
    assert h as real <= x + 0.5 < h as real + 1.0;
  }

  // ---- the total grows with everything it is made of ----

  predicate RatesAtMost(r: Rates, q: Rates) {
    r.fixed <= q.fixed && r.perKwh <= q.perKwh && r.perMinute <= q.perMinute && r.tax <= q.tax
  }

  lemma PriceMonotone(e: nat, s: nat, r: Rates, e': nat, s': nat, r': Rates)
    requires e <= e' && s <= s' && RatesAtMost(r, r')
    ensures Price(e, s, r).totalMinor <= Price(e', s', r').totalMinor
    ensures Price(e, s, r).energyMinor <= Price(e', s', r').energyMinor
  {
    hide HalfUp;
    ProductMonotone(e, r.perKwh, e', r'.perKwh);
    HalfUpMonotone(e * r.perKwh, e' * r'.perKwh, KWH);
    ProductMonotone(s, r.perMinute, s', r'.perMinute);
    HalfUpMonotone(s * r.perMinute, s' * r'.perMinute, MINUTE);
    var p, p' := Price(e, s, r), Price(e', s', r');
    var sub, sub' := p.fixedMinor + p.energyMinor + p.timeMinor, p'.fixedMinor + p'.energyMinor + p'.timeMinor;
    ProductMonotone(sub, r.tax, sub', r'.tax);
    HalfUpMonotone(sub * r.tax, sub' * r'.tax, WHOLE);
  }

  // ---- and stays close to the unrounded price ----

  /** The price without any rounding. */
  function ExactPrice(energy: nat, seconds: nat, r: Rates): real {
    var subtotal := r.fixed as real + (energy * r.perKwh) as real / 1000000.0 + (seconds * r.perMinute) as real / 60.0;
    subtotal + Share(subtotal, r.tax as real)
  }

  /** `tax` hundredths of a percent of `x`. */
  function Share(x: real, tax: real): real {
    x * tax / 10000.0
  }

  lemma HalfUpError(n: nat, d: nat)
    requires d > 0
    ensures Abs(HalfUp(n, d) as real - n as real / d as real) <= 0.5
  {
    hide HalfUp;
    HalfUpBounds(n, d);
    var h := HalfUp(n, d);
    NearQuotient(h, n, d);
  }

  /** An integer h with h*d within half a divisor of n is within a half of n/d. */
  lemma NearQuotient(h: nat, n: nat, d: nat)
    requires d > 0 && 2 * d * h <= 2 * n + d <= 2 * d * h + 2 * d
    ensures Abs(h as real - n as real / d as real) <= 0.5
  {
    var hd := h * d;
    assert 2 * d * h == 2 * hd;
    WholeQuotient(h, d);
    WithinHalf(hd, n, d);
    QuotientWithin(hd as real, n as real, d as real);
  }

  lemma WithinHalf(hd: nat, n: nat, d: nat)
    requires 2 * hd <= 2 * n + d <= 2 * hd + 2 * d
    ensures n as real - 0.5 * d as real <= hd as real <= n as real + 0.5 * d as real
  {
  }

  lemma QuotientWithin(x: real, n: real, d: real)
    requires d > 0.0 && n - 0.5 * d <= x <= n + 0.5 * d
    ensures Abs(x / d - n / d) <= 0.5
  {
    DivideMonotone(n + -0.5 * d, x, d);
    DivideMonotone(x, n + 0.5 * d, d);
    ShiftQuotient(n, 0.5, d);
    ShiftQuotient(n, -0.5, d);
  }

  lemma WholeQuotient(h: nat, d: nat)
    requires d > 0
    ensures (h * d) as real / d as real == h as real
  {
    var H, D := h as real, d as real;
    assert (h * d) as real == H * D;
    MultiplyThenDivide(H, D);
  }

  lemma ShiftQuotient(n: real, x: real, d: real)
    requires d > 0.0
    ensures (n + x * d) / d == n / d + x
  {
    MultiplyThenDivide(x, d);
    SplitQuotient(n, x * d, d);
  }

  lemma SplitQuotient(a: real, b: real, d: real)
    requires d > 0.0
    ensures (a + b) / d == a / d + b / d
  {
  }

  /** Three roundings: half a unit each for energy and time, both taxed, and half a unit for the tax. */
  lemma PriceError(energy: nat, seconds: nat, r: Rates)
    ensures Abs(Price(energy, seconds, r).totalMinor as real - ExactPrice(energy, seconds, r))
      <= 1.5 + r.tax as real / 10000.0
  {
    hide HalfUp, Share;
    var p := Price(energy, seconds, r);
    HalfUpError(energy * r.perKwh, KWH);
    HalfUpError(seconds * r.perMinute, MINUTE);
    var sub := p.fixedMinor + p.energyMinor + p.timeMinor;
    HalfUpError(sub * r.tax, WHOLE);
    ShareOfIntegers(sub, r.tax);
    CombineErrors(r.fixed as real, p.energyMinor as real, p.timeMinor as real,
                  (energy * r.perKwh) as real / 1000000.0, (seconds * r.perMinute) as real / 60.0,
                  r.tax as real, p.taxMinor as real);
  }

  lemma CombineErrors(fixed: real, energy: real, time: real, exactEnergy: real, exactTime: real, tax: real,
      taxMinor: real)
    requires Abs(energy - exactEnergy) <= 0.5 && Abs(time - exactTime) <= 0.5 && tax >= 0.0
    requires Abs(taxMinor - Share(fixed + energy + time, tax)) <= 0.5
    ensures var exact := fixed + exactEnergy + exactTime;
      Abs(fixed + energy + time + taxMinor - (exact + Share(exact, tax))) <= 1.5 + tax / 10000.0
  {
    hide Share;
    var sub, exact := fixed + energy + time, fixed + exactEnergy + exactTime;
    ShareOfSum(exact, sub - exact, tax);
    assert exact + (sub - exact) == sub;
    ShareOfSmall(sub - exact, tax);
  }

  lemma ShareOfIntegers(x: nat, tax: nat)
    ensures (x * tax) as real / 10000.0 == Share(x as real, tax as real)
  {
  }

  lemma ShareOfSum(x: real, y: real, tax: real)
    ensures Share(x + y, tax) == Share(x, tax) + Share(y, tax)
  {
    assert (x + y) * tax == x * tax + y * tax;
  }

  lemma ShareOfSmall(delta: real, tax: real)
    requires -1.0 <= delta <= 1.0 && tax >= 0.0
    ensures -(tax / 10000.0) <= Share(delta, tax) <= tax / 10000.0
  {
    ProductNotNegative(1.0 - delta, tax);
    ProductNotNegative(1.0 + delta, tax);
    assert (1.0 - delta) * tax == tax - delta * tax;
    assert (1.0 + delta) * tax == tax + delta * tax;
  }

  // ---- pricing the whole-Wh projection ----

  /**
   * Pricing the energy cut down to whole Wh never charges more, and its energy part is lower by at most ceil(999
   * rate / 10^6).
   */
  lemma RepricingTruncatedEnergy(energy: nat, seconds: nat, r: Rates)
    ensures var whole := energy / 1000 * 1000;
      && Price(whole, seconds, r).totalMinor <= Price(energy, seconds, r).totalMinor
      && Price(energy, seconds, r).energyMinor <= Price(whole, seconds, r).energyMinor
          + (999 * r.perKwh + KWH - 1) / KWH
  {
    hide HalfUp;
    var whole := energy / 1000 * 1000;
    PriceMonotone(whole, seconds, r, energy, seconds, r);
    var c := (999 * r.perKwh + KWH - 1) / KWH;
    assert energy <= whole + 999;
    MultiplyMonotone(energy, whole + 999, r.perKwh);
    assert r.perKwh * (whole + 999) == whole * r.perKwh + 999 * r.perKwh;
    assert 999 * r.perKwh <= c * KWH;
    HalfUpMonotone(energy * r.perKwh, whole * r.perKwh + c * KWH, KWH);
    HalfUpShift(whole * r.perKwh, KWH, c);
  }

  // ---- binary64 computes exactly these prices ----

  /**
   * The doubles that `calculateCharge` passes through; each is a nearest double of the operation on the ones
   * before, products, quotients and sums alike.
   */
  datatype Doubles = Doubles(energyProduct: real, energyQuotient: real, timeProduct: real, timeQuotient: real,
                             fixedAndEnergy: real, subtotal: real,
                             taxProduct: real, taxQuotient: real, total: real)

  ghost predicate PartsInDoubles(energyProduct: nat, timeProduct: nat, x: Doubles) {
    && NearestDouble(energyProduct as real, x.energyProduct)
    && NearestDouble(x.energyProduct / KWH as real, x.energyQuotient)
    && NearestDouble(timeProduct as real, x.timeProduct)
    && NearestDouble(x.timeProduct / MINUTE as real, x.timeQuotient)
  }

  ghost predicate SubtotalInDoubles(fixed: nat, x: Doubles) {
    && NearestDouble(fixed as real + JsRound(x.energyQuotient) as real, x.fixedAndEnergy)
    && NearestDouble(x.fixedAndEnergy + JsRound(x.timeQuotient) as real, x.subtotal)
  }

  function Times(x: real, y: real): real { x * y }

  /** `product` is the exact product of the subtotal and the tax rate. */
  ghost predicate TaxInDoubles(product: real, x: Doubles) {
    && NearestDouble(product, x.taxProduct)
    && NearestDouble(x.taxProduct / WHOLE as real, x.taxQuotient)
    && NearestDouble(x.subtotal + JsRound(x.taxQuotient) as real, x.total)
  }

  ghost predicate ComputedInDoubles(energy: nat, seconds: nat, r: Rates, x: Doubles) {
    && PartsInDoubles(energy * r.perKwh, seconds * r.perMinute, x)
    && SubtotalInDoubles(r.fixed, x)
    && TaxInDoubles(Times(x.subtotal, r.tax as real), x)
  }

  /** The three products and the total are safe integers. */
  predicate SafeCharge(energy: nat, seconds: nat, r: Rates) {
    var p := Price(energy, seconds, r);
    && energy * r.perKwh < LIMIT && seconds * r.perMinute < LIMIT
    && (p.totalMinor - p.taxMinor) * r.tax < LIMIT && p.totalMinor < LIMIT
  }

  /** As long as they are, the charge in doubles is the charge in integers, part by part. */
  lemma ChargeInDoublesIsExact(energy: nat, seconds: nat, r: Rates, x: Doubles)
    requires ComputedInDoubles(energy, seconds, r, x) && SafeCharge(energy, seconds, r)
    ensures var p := Price(energy, seconds, r);
      && JsRound(x.energyQuotient) == p.energyMinor && JsRound(x.timeQuotient) == p.timeMinor
      && JsRound(x.taxQuotient) == p.taxMinor && x.total == p.totalMinor as real
  {
    hide PartsInDoubles, SubtotalInDoubles, TaxInDoubles, Times, JsRound, HalfUp;
    var p := Price(energy, seconds, r);
    EnergyIsExact(energy, r.perKwh, seconds * r.perMinute, x);
    TimeIsExact(energy * r.perKwh, seconds, r.perMinute, x);
    SubtotalIsExact(r.fixed, p.energyMinor, p.timeMinor, x);
    IntegerProduct(p.totalMinor - p.taxMinor, r.tax);
    TaxIsExact(p.totalMinor - p.taxMinor, r.tax, p.taxMinor, x);
  }

  lemma EnergyIsExact(energy: nat, perKwh: nat, timeProduct: nat, x: Doubles)
    requires PartsInDoubles(energy * perKwh, timeProduct, x) && energy * perKwh < LIMIT
    ensures JsRound(x.energyQuotient) == HalfUp(energy * perKwh, KWH)
  {
    hide NearestDouble, JsRound, HalfUp;
    JsRoundOfProductIsExact(energy, perKwh, KWH, x.energyProduct, x.energyQuotient);
  }

  lemma TimeIsExact(energyProduct: nat, seconds: nat, perMinute: nat, x: Doubles)
    requires PartsInDoubles(energyProduct, seconds * perMinute, x) && seconds * perMinute < LIMIT
    ensures JsRound(x.timeQuotient) == HalfUp(seconds * perMinute, MINUTE)
  {
    hide NearestDouble, JsRound, HalfUp;
    JsRoundOfProductIsExact(seconds, perMinute, MINUTE, x.timeProduct, x.timeQuotient);
  }

  lemma SubtotalIsExact(fixed: nat, energyMinor: nat, timeMinor: nat, x: Doubles)
    requires SubtotalInDoubles(fixed, x) && fixed + energyMinor + timeMinor < LIMIT
    requires JsRound(x.energyQuotient) == energyMinor && JsRound(x.timeQuotient) == timeMinor
    ensures x.subtotal == (fixed + energyMinor + timeMinor) as real
  {
    hide NearestDouble, JsRound;
    SumIsExact(fixed, energyMinor, x.fixedAndEnergy);
    SumIsExact(fixed + energyMinor, timeMinor, x.subtotal);
  }

  lemma TaxIsExact(subtotal: nat, tax: nat, taxMinor: nat, x: Doubles)
    requires TaxInDoubles((subtotal * tax) as real, x) && x.subtotal == subtotal as real
    requires subtotal * tax < LIMIT && taxMinor == HalfUp(subtotal * tax, WHOLE) && subtotal + taxMinor < LIMIT
    ensures JsRound(x.taxQuotient) == taxMinor && x.total == (subtotal + taxMinor) as real
  {
    hide NearestDouble, JsRound, HalfUp;
    JsRoundOfProductIsExact(subtotal, tax, WHOLE, x.taxProduct, x.taxQuotient);
    SumIsExact(subtotal, taxMinor, x.total);
  }

  /** A sum of integers below 2^53 is not rounded. */
  lemma SumIsExact(a: nat, b: nat, sum: real)
    requires a + b < LIMIT && NearestDouble(a as real + b as real, sum)
    ensures sum == (a + b) as real
  {
    IntegersAreDoubles(a + b);
    NearestOfDouble((a + b) as real, sum);
  }

  lemma IntegerProduct(a: nat, b: nat)
    ensures Times(a as real, b as real) == (a * b) as real
  {
  }

  /** A charge at most as large in everything is safe too. */
  lemma SmallerChargeIsSafe(energy: nat, seconds: nat, r: Rates, energy': nat, seconds': nat, r': Rates)
    requires energy <= energy' && seconds <= seconds' && RatesAtMost(r, r') && SafeCharge(energy', seconds', r')
    ensures SafeCharge(energy, seconds, r)
  {
    hide HalfUp;
    PriceMonotone(energy, seconds, r, energy', seconds', r');
    ProductMonotone(energy, r.perKwh, energy', r'.perKwh);
    ProductMonotone(seconds, r.perMinute, seconds', r'.perMinute);
    HalfUpMonotone(seconds * r.perMinute, seconds' * r'.perMinute, MINUTE);
    var p, p' := Price(energy, seconds, r), Price(energy', seconds', r');
    ProductMonotone(p.totalMinor - p.taxMinor, r.tax, p'.totalMinor - p'.taxMinor, r'.tax);
  }
}
