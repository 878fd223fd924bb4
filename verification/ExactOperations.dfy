/** The exact operations built on Fractions. Values inside the envelope are compared and added in
    units of `10^-256`, of which every admitted Decimal is a whole number. */
module ExactOperations {
  import opened Arithmetic
  import opened ExactDecimal

  ghost const UNIT: nat := Pow(10, MAX_SCALE)

  /** The value of an admitted Decimal in units of `10^-256`. */
  ghost function Units(v: Decimal): (u: int)
    requires InEnvelope(v)
    ensures u == 0 <==> v.coefficient == 0
    ensures u > 0 ==> !v.negative
    ensures u < 0 ==> v.negative
  {
    if v.coefficient == 0 then 0 else
      var m := v.coefficient * Pow(10, v.exponent + MAX_SCALE);
      assert m > 0 by { MulMono(1, v.coefficient, Pow(10, v.exponent + MAX_SCALE)); }
      if v.negative then -m else m
  }

  ghost predicate UnitsRepresentable(u: int) {
    exists v: Decimal :: InEnvelope(v) && Units(v) == u
  }

  lemma UnitsAreTheValue(v: Decimal)
    requires InEnvelope(v)
    ensures HasValue(v, Units(v), UNIT)
    ensures Abs(Units(v)) < Pow(10, MAX_INTEGER_DIGITS + MAX_SCALE)
  {
    hide DigitCount;
    if v.coefficient != 0 {
      var c, e := v.coefficient, v.exponent;
      UnitsMagnitude(c, e, MAX_SCALE, MAX_INTEGER_DIGITS);
      var m := c * Pow(10, e + MAX_SCALE);
      if e >= 0 {
        SignedProduct(c, Pow(10, e));
        SignedProduct(c * Pow(10, e), UNIT);
      } else {
        SignedProduct(c, UNIT);
        SignedProduct(m, Pow(10, -e));
      }
    }
  }

  lemma SignedProduct(c: int, p: int)
    ensures (-c) * p == -(c * p)
  {
  }

  lemma UnitsMagnitude(c: nat, e: int, s: nat, k: nat)
    requires c > 0 && -e <= s && DigitCount(c) + e <= k
    ensures 0 < c * Pow(10, e + s) < Pow(10, k + s)
    ensures e >= 0 ==> (c * Pow(10, e)) * Pow(10, s) == c * Pow(10, e + s)
    ensures e < 0 ==> c * Pow(10, s) == (c * Pow(10, e + s)) * Pow(10, -e)
  {
    IntegerMagnitude(c, e + s, k + s);
    if e >= 0 {
      PowAdd(10, e, s);
      MulAssoc(c, Pow(10, e), Pow(10, s));
    } else {
      PowAdd(10, e + s, -e);
      MulAssoc(c, Pow(10, e + s), Pow(10, -e));
    }
  }

  /** A value in the envelope is determined by its units, and conversely. */
  lemma UnitsCharacterize(v: Decimal, u: int)
    requires InEnvelope(v)
    ensures HasValue(v, u, UNIT) <==> Units(v) == u
  {
    UnitsAreTheValue(v);
    if HasValue(v, u, UNIT) {
      MulCancel(u, Units(v), Den(v));
    }
  }

  lemma RepresentableUnits(n: int, d: nat, u: int)
    requires d > 0 && n * UNIT == u * d
    ensures Representable(n, d) <==> UnitsRepresentable(u)
  {
    RepresentableSameValue(n, d, u, UNIT);
    forall v: Decimal | InEnvelope(v) ensures HasValue(v, u, UNIT) <==> Units(v) == u {
      UnitsCharacterize(v, u);
    }
  }

  /** The fraction `f` is worth `u` units. */
  ghost predicate Worth(f: Fraction, u: int) {
    f.Valid() && f.num * UNIT == u * f.den
  }

  lemma WorthOfDecimal(v: Decimal, f: Fraction)
    requires InEnvelope(v) && f.Valid() && HasValue(v, f.num, f.den)
    ensures Worth(f, Units(v))
  {
    UnitsAreTheValue(v);
    ValueTransfer(f.num, f.den, Num(v), Den(v), Units(v), UNIT);
  }

  lemma WorthBounds(f: Fraction, u: int)
    requires Worth(f, u)
    ensures Abs(f.num) <= Abs(u) && f.den <= UNIT && Divides(f.den, UNIT)
  {
    ReducedIsLeast(f, u, UNIT);
  }

  lemma WorthReduced(f: Fraction, u: int)
    requires Worth(f, u)
    ensures f == Reduce(u, UNIT)
  {
    var g := Reduce(u, UNIT);
    ValueTransfer(g.num, g.den, u, UNIT, f.num, f.den);
    ReducedUnique(f, g);
  }

  /** Fewer than `10^512` added values cannot reach the intermediate guard. */
  lemma WorthBounded(f: Fraction, u: int)
    requires Worth(f, u) && Abs(u) < Pow(10, MAX_RATIONAL_DIGITS)
    ensures Bounded(f)
  {
    WorthBounds(f, u);
    PowMonotone(10, MAX_SCALE + 1, MAX_RATIONAL_DIGITS);
    PowAdd(10, 1, MAX_SCALE);
    BoundedBelow(f, MAX_RATIONAL_DIGITS);
  }

  // ----------------------------------------------------- fraction arithmetic

  function Add(x: Fraction, y: Fraction): (f: Fraction)
    requires x.Valid() && y.Valid()
    ensures f.Valid()
  {
    PositiveProduct(x.den, y.den);
    Reduce(x.num * y.den + y.num * x.den, x.den * y.den)
  }

  function Negate(x: Fraction): (f: Fraction)
    requires x.Valid()
    ensures f.Valid()
  {
    Fraction(-x.num, x.den)
  }

  function Multiply(x: Fraction, y: Fraction): (f: Fraction)
    requires x.Valid() && y.Valid()
    ensures f.Valid()
  {
    PositiveProduct(x.den, y.den);
    Reduce(x.num * y.num, x.den * y.den)
  }

  /** Division by a positive fraction. */
  function Divide(x: Fraction, y: Fraction): (f: Fraction)
    requires x.Valid() && y.Valid() && y.num > 0
    ensures f.Valid()
  {
    PositiveProduct(x.den, y.num);
    Reduce(x.num * y.den, x.den * y.num)
  }

  lemma PositiveProduct(x: int, y: int)
    requires x > 0 && y > 0
    ensures x * y > 0
  {
    MulMono(1, x, y);
  }

  lemma WorthAdd(x: Fraction, y: Fraction, u: int, w: int)
    requires Worth(x, u) && Worth(y, w)
    ensures Worth(Add(x, y), u + w)
  {
    var f := Add(x, y);
    PositiveProduct(x.den, y.den);
    SumTransfer(x.num, x.den, y.num, y.den, f.num, f.den, u, w, UNIT);
  }

  lemma SumTransfer(ln: int, ld: int, rn: int, rd: int, sn: int, sd: int, u: int, w: int, unit: int)
    requires ld > 0 && rd > 0 && ld * rd > 0
    requires ln * unit == u * ld && rn * unit == w * rd
    requires sn * (ld * rd) == (ln * rd + rn * ld) * sd
    ensures sn * unit == (u + w) * sd
  {
    assert (ln * rd) * unit == u * (ld * rd) by {
      MulAssoc(ln, rd, unit);
      MulAssoc(ln, unit, rd);
      MulAssoc(u, ld, rd);
    }
    assert (rn * ld) * unit == w * (ld * rd) by {
      MulAssoc(rn, ld, unit);
      MulAssoc(rn, unit, ld);
      MulAssoc(w, rd, ld);
    }
    var a, m := ln * rd + rn * ld, ld * rd;
    assert a * unit == (u + w) * m;
    CancelMiddle(sn, sd, a, m, u + w, unit);
  }

  lemma CancelMiddle(sn: int, sd: int, a: int, m: int, t: int, unit: int)
    requires m > 0 && sn * m == a * sd && a * unit == t * m
    ensures sn * unit == t * sd
  {
    assert (sn * unit) * m == (t * sd) * m by {
      MulAssoc(sn, unit, m);
      MulAssoc(sn, m, unit);
      MulAssoc(a, sd, unit);
      MulAssoc(a, unit, sd);
      MulAssoc(t, m, sd);
      MulAssoc(t, sd, m);
    }
    MulCancel(sn * unit, t * sd, m);
  }

  lemma WorthNegate(x: Fraction, u: int)
    requires Worth(x, u)
    ensures Worth(Negate(x), -u)
  {
  }

  // ------------------------------------------------------------- add, abs

  /** Turning an exact sum back into a Decimal succeeds exactly when the sum is representable, and
      the only failures left are failures of the envelope itself. */
  method Settle(f: Fraction, ghost u: int) returns (r: Result<Decimal>)
    requires Worth(f, u)
    ensures r.Ok? <==> UnitsRepresentable(u)
    ensures r.Ok? ==> InEnvelope(r.value) && Normalized(r.value) && Units(r.value) == u
    ensures r.Err? && Bounded(f) ==> r.error !in {NumeratorTooLarge, DenominatorTooLarge}
    ensures r.Err? ==> r.error != NonTerminating
  {
    RepresentableUnits(f.num, f.den, u);
    WorthBounds(f, u);
    assert Terminates(f.den);
    r := TerminatingDecimal(f);
    if r.Ok? {
      ValueTransfer(Num(r.value), Den(r.value), f.num, f.den, u, UNIT);
      UnitsCharacterize(r.value, u);
    }
  }

  method ExactAbs(value: Decimal) returns (r: Result<Decimal>)
    ensures r.Ok? <==> InEnvelope(value)
    ensures r.Ok? ==> InEnvelope(r.value) && Normalized(r.value) && Units(r.value) == Abs(Units(value))
  {
    var f := AsFraction(value);
    if f.Err? {
      return Err(f.error);
    }
    WorthOfDecimal(value, f.value);
    var magnitude := if f.value.num < 0 then Negate(f.value) else f.value;
    WorthSign(f.value, Units(value));
    WorthNegate(f.value, Units(value));
    AbsRepresentable(value);
    r := Settle(magnitude, Abs(Units(value)));
  }

  lemma AbsRepresentable(value: Decimal)
    requires InEnvelope(value)
    ensures UnitsRepresentable(Abs(Units(value)))
  {
    var flipped := value.(negative := false);
    assert InEnvelope(flipped) && Units(flipped) == Abs(Units(value));
  }

  lemma WorthSign(f: Fraction, u: int)
    requires Worth(f, u)
    ensures f.num < 0 <==> u < 0
    ensures f.num == 0 <==> u == 0
  {
    if f.num < 0 { MulMono(f.num, -1, UNIT); }
    if f.num > 0 { MulMono(1, f.num, UNIT); }
    if u < 0 { MulMono(u, -1, f.den); }
    if u > 0 { MulMono(1, u, f.den); }
  }

  method ExactAdd(left: Decimal, right: Decimal) returns (r: Result<Decimal>)
    ensures r.Ok? <==> InEnvelope(left) && InEnvelope(right) && UnitsRepresentable(Units(left) + Units(right))
    ensures r.Ok? ==> InEnvelope(r.value) && Normalized(r.value) && Units(r.value) == Units(left) + Units(right)
    ensures r.Err? ==> r.error !in {NumeratorTooLarge, DenominatorTooLarge, NonTerminating}
  {
    hide Bounded, Units, Pow;
    var x := AsFraction(left);
    if x.Err? {
      return Err(x.error);
    }
    var y := AsFraction(right);
    if y.Err? {
      return Err(y.error);
    }
    WorthOfDecimal(left, x.value);
    WorthOfDecimal(right, y.value);
    ghost var u, w := Units(left), Units(right);
    WorthAdd(x.value, y.value, u, w);
    var sum := Add(x.value, y.value);
    TwoTermsBounded(left, right, u + w, sum);
    var guard := ValidateFractionIntermediate(sum);
    assert guard.Ok?;
    r := Settle(sum, u + w);
  }

  lemma TwoTermsBounded(left: Decimal, right: Decimal, u: int, f: Fraction)
    requires InEnvelope(left) && InEnvelope(right) && Worth(f, u)
    requires u == Units(left) + Units(right) || u == Units(left) - Units(right)
    ensures Bounded(f)
  {
    UnitsAreTheValue(left);
    UnitsAreTheValue(right);
    PowMonotone(10, MAX_INTEGER_DIGITS + MAX_SCALE + 1, MAX_RATIONAL_DIGITS);
    PowAdd(10, 1, MAX_INTEGER_DIGITS + MAX_SCALE);
    WorthBounded(f, u);
  }

  method ExactSubtract(left: Decimal, right: Decimal) returns (r: Result<Decimal>)
    ensures r.Ok? <==> InEnvelope(left) && InEnvelope(right) && UnitsRepresentable(Units(left) - Units(right))
    ensures r.Ok? ==> InEnvelope(r.value) && Normalized(r.value) && Units(r.value) == Units(left) - Units(right)
    ensures r.Err? ==> r.error !in {NumeratorTooLarge, DenominatorTooLarge, NonTerminating}
  {
    hide Bounded, Units, Pow;
    var x := AsFraction(left);
    if x.Err? {
      return Err(x.error);
    }
    var y := AsFraction(right);
    if y.Err? {
      return Err(y.error);
    }
    WorthOfDecimal(left, x.value);
    WorthOfDecimal(right, y.value);
    ghost var u, w := Units(left), Units(right);
    WorthNegate(y.value, w);
    WorthAdd(x.value, Negate(y.value), u, -w);
    var difference := Add(x.value, Negate(y.value));
    TwoTermsBounded(left, right, u - w, difference);
    var guard := ValidateFractionIntermediate(difference);
    assert guard.Ok?;
    r := Settle(difference, u - w);
  }

  // ------------------------------------------------------------------ sum

  ghost predicate AllInEnvelope(values: seq<Decimal>) {
    forall i :: 0 <= i < |values| ==> InEnvelope(values[i])
  }

  ghost function Total(values: seq<Decimal>): (u: int)
    requires AllInEnvelope(values)
  {
    if values == [] then 0 else Total(values[..|values| - 1]) + Units(values[|values| - 1])
  }

  /** Every running total stays below the intermediate guard. */
  ghost predicate RunningTotalsBounded(start: Decimal, values: seq<Decimal>)
    requires InEnvelope(start) && AllInEnvelope(values)
  {
    values == [] ||
    (RunningTotalsBounded(start, values[..|values| - 1]) &&
     Bounded(Reduce(Units(start) + Total(values), UNIT)))
  }

  lemma {:induction false} RunningTotalsPrefix(start: Decimal, values: seq<Decimal>, i: nat)
    requires InEnvelope(start) && AllInEnvelope(values) && i <= |values|
    requires RunningTotalsBounded(start, values)
    ensures RunningTotalsBounded(start, values[..i])
    decreases |values|
  {
    if i < |values| {
      var init := values[..|values| - 1];
      RunningTotalsPrefix(start, init, i);
      assert init[..i] == values[..i];
    } else {
      assert values[..i] == values;
    }
  }

  lemma SumStep(start: Decimal, values: seq<Decimal>, i: nat, sum: Fraction, next: Fraction)
    requires i < |values| && InEnvelope(start) && AllInEnvelope(values[..i]) && InEnvelope(values[i])
    requires Worth(sum, Units(start) + Total(values[..i]))
    requires next.Valid() && HasValue(values[i], next.num, next.den)
    requires RunningTotalsBounded(start, values[..i])
    ensures AllInEnvelope(values[..i + 1])
    ensures Worth(Add(sum, next), Units(start) + Total(values[..i + 1]))
    ensures RunningTotalsBounded(start, values[..i + 1]) <==> Bounded(Add(sum, next))
  {
    hide Pow, UnitsRepresentable;
    assert values[..i + 1][..i] == values[..i];
    var u := Units(start) + Total(values[..i]);
    assert Units(start) + Total(values[..i + 1]) == u + Units(values[i]);
    WorthOfDecimal(values[i], next);
    WorthAdd(sum, next, u, Units(values[i]));
    WorthReduced(Add(sum, next), u + Units(values[i]));
  }

  method ExactSum(values: seq<Decimal>, start: Decimal) returns (r: Result<Decimal>)
    ensures r.Ok? <==> InEnvelope(start) && AllInEnvelope(values) &&
                       RunningTotalsBounded(start, values) && UnitsRepresentable(Units(start) + Total(values))
    ensures r.Ok? ==> InEnvelope(r.value) && Normalized(r.value) && Units(r.value) == Units(start) + Total(values)
  {
    hide UnitsRepresentable, Units, Den, Num, Pow;
    var first := AsFraction(start);
    if first.Err? {
      return Err(first.error);
    }
    WorthOfDecimal(start, first.value);
    var sum := first.value;
    for i := 0 to |values|
      invariant AllInEnvelope(values[..i])
      invariant Worth(sum, Units(start) + Total(values[..i]))
      invariant RunningTotalsBounded(start, values[..i])
    {
      var next := AsFraction(values[i]);
      if next.Err? {
        return Err(next.error);
      }
      SumStep(start, values, i, sum, next.value);
      sum := Add(sum, next.value);
      var guard := ValidateFractionIntermediate(sum);
      if guard.Err? {
        if AllInEnvelope(values) && RunningTotalsBounded(start, values) {
          RunningTotalsPrefix(start, values, i + 1);
        }
        return Err(guard.error);
      }
    }
    assert values[..|values|] == values;
    r := Settle(sum, Units(start) + Total(values));
  }

  /** A total is the sum of its terms, wherever it is cut. */
  lemma {:induction false} TotalsAddUp(a: seq<Decimal>, b: seq<Decimal>)
    requires AllInEnvelope(a) && AllInEnvelope(b)
    ensures Total(a + b) == Total(a) + Total(b)
    ensures |a| == 1 ==> Total(a) == Units(a[0])
    decreases |b|
  {
    hide Units, InEnvelope;
    if b == [] {
      assert a + b == a;
      assert |a| == 1 ==> Total(a[..0]) == 0;
    } else {
      var n := |b| - 1;
      assert (a + b)[..|a + b| - 1] == a + b[..n] && (a + b)[|a + b| - 1] == b[n];
      TotalsAddUp(a, b[..n]);
    }
  }

  /** The guard on a sum: every running total, reduced, has a numerator below 10^1024; the
      denominators never come near. */
  lemma {:induction false} SumGuardMeans(start: Decimal, values: seq<Decimal>)
    requires InEnvelope(start) && AllInEnvelope(values)
    ensures RunningTotalsBounded(start, values) <==>
              forall k :: 1 <= k <= |values| ==>
                Abs(Reduce(Units(start) + Total(values[..k]), UNIT).num) < Pow(10, 1024)
    decreases |values|
  {
    hide Bounded, Total, Units, Reduce, InEnvelope, Pow;
    if values != [] {
      var n := |values| - 1;
      SumGuardMeans(start, values[..n]);
      forall k | 1 <= k <= n ensures values[..n][..k] == values[..k] {
      }
      assert values[..|values|] == values;
      var f := Reduce(Units(start) + Total(values), UNIT);
      BoundedMeans(f);
      PowMonotone(10, MAX_SCALE + 1, 1024);
      UnitBelow();
    }
  }

  lemma UnitBelow()
    ensures UNIT < Pow(10, MAX_SCALE + 1)
  {
  }

  /** With fewer than `10^511` terms the guard never fires, so the outcome depends on the total
      alone: neither the order of the terms nor the size of a running total matters. */
  lemma {:induction false} SumGuardNeverFires(start: Decimal, values: seq<Decimal>)
    requires InEnvelope(start) && AllInEnvelope(values)
    requires |values| < Pow(10, MAX_RATIONAL_DIGITS - MAX_INTEGER_DIGITS - MAX_SCALE - 1)
    ensures RunningTotalsBounded(start, values)
  {
    if values != [] {
      SumGuardNeverFires(start, values[..|values| - 1]);
      TotalBelowGuard(start, values, MAX_INTEGER_DIGITS + MAX_SCALE, MAX_RATIONAL_DIGITS);
      var u := Units(start) + Total(values);
      WorthBounded(Reduce(u, UNIT), u);
    }
  }

  lemma TotalBelowGuard(start: Decimal, values: seq<Decimal>, k: nat, limit: nat)
    requires InEnvelope(start) && AllInEnvelope(values)
    requires k == MAX_INTEGER_DIGITS + MAX_SCALE && k < limit && |values| < Pow(10, limit - k - 1)
    ensures Abs(Units(start) + Total(values)) < Pow(10, limit)
  {
    UnitsAreTheValue(start);
    TotalMagnitude(values, Pow(10, k));
    BoundTotal(Units(start), Total(values), |values|, k, limit);
  }

  lemma BoundTotal(b: int, t: int, n: nat, k: nat, limit: nat)
    requires k < limit && n < Pow(10, limit - k - 1)
    requires Abs(b) < Pow(10, k) && Abs(t) <= n * Pow(10, k)
    ensures Abs(b + t) < Pow(10, limit)
  {
    var m, e := Pow(10, k), limit - k - 1;
    MulMono(n + 1, Pow(10, e), m);
    assert (n + 1) * m == n * m + m;
    PowAdd(10, e, k);
    assert Pow(10, limit) == 10 * Pow(10, e + k);
  }

  lemma {:induction false} TotalMagnitude(values: seq<Decimal>, m: nat)
    requires AllInEnvelope(values) && m == Pow(10, MAX_INTEGER_DIGITS + MAX_SCALE)
    ensures Abs(Total(values)) <= |values| * m
  {
    hide InEnvelope, DigitCount, Units, Pow;
    if values != [] {
      var n := |values| - 1;
      TotalMagnitude(values[..n], m);
      UnitsAreTheValue(values[n]);
      assert n * m + m == |values| * m;
    }
  }

  // -------------------------------------------------------------- multiply

  ghost function FractionOf(v: Decimal): (f: Fraction)
    requires InEnvelope(v)
    ensures f.Valid() && HasValue(v, f.num, f.den)
  {
    Reduce(Num(v), Den(v))
  }

  /** The exact product of the values. */
  ghost function Product(values: seq<Decimal>): (f: Fraction)
    requires AllInEnvelope(values)
    ensures f.Valid()
  {
    if values == [] then BezoutCoprime(1, 1, 0, 1); Fraction(1, 1)
    else Multiply(Product(values[..|values| - 1]), FractionOf(values[|values| - 1]))
  }

  /** The product of the numerators, and of the denominators, of what the values denote. */
  ghost function Numerators(values: seq<Decimal>): int
    requires AllInEnvelope(values)
  {
    if values == [] then 1 else Numerators(values[..|values| - 1]) * Num(values[|values| - 1])
  }

  ghost function Denominators(values: seq<Decimal>): (d: nat)
    requires AllInEnvelope(values)
    ensures d > 0
  {
    if values == [] then 1
    else
      PositiveProduct(Denominators(values[..|values| - 1]), Den(values[|values| - 1]));
      Denominators(values[..|values| - 1]) * Den(values[|values| - 1])
  }

  /** The fold with a reduction at every step is the product of the rationals the values denote. */
  lemma {:induction false} ProductIsExact(values: seq<Decimal>)
    requires AllInEnvelope(values)
    ensures Product(values).num * Denominators(values) == Numerators(values) * Product(values).den
  {
    if values != [] {
      var n := |values| - 1;
      var x, y := Product(values[..n]), FractionOf(values[n]);
      ProductIsExact(values[..n]);
      MultiplyIsExact(x, y, Numerators(values[..n]), Denominators(values[..n]), Num(values[n]), Den(values[n]));
    }
  }

  lemma MultiplyIsExact(x: Fraction, y: Fraction, n: int, d: nat, m: int, e: nat)
    requires x.Valid() && y.Valid() && d > 0 && e > 0
    requires x.num * d == n * x.den && y.num * e == m * y.den
    ensures Multiply(x, y).num * (d * e) == (n * m) * Multiply(x, y).den
  {
    var f := Multiply(x, y);
    PositiveProduct(x.den, y.den);
    MulShuffle(x.num, y.num, d, e);
    MulShuffle(n, m, x.den, y.den);
    CancelMiddle(f.num, f.den, x.num * y.num, x.den * y.den, n * m, d * e);
  }

  ghost predicate RunningProductsBounded(values: seq<Decimal>)
    requires AllInEnvelope(values)
  {
    values == [] || (RunningProductsBounded(values[..|values| - 1]) && Bounded(Product(values)))
  }

  /** The guard on a product: every running product, reduced, has both parts below 10^1024. */
  lemma {:induction false} ProductGuardMeans(values: seq<Decimal>)
    requires AllInEnvelope(values)
    ensures RunningProductsBounded(values) <==>
              forall k :: 1 <= k <= |values| ==>
                Abs(Product(values[..k]).num) < Pow(10, 1024) && Product(values[..k]).den < Pow(10, 1024)
    decreases |values|
  {
    hide Bounded, Product, InEnvelope, Pow;
    if values != [] {
      var n := |values| - 1;
      ProductGuardMeans(values[..n]);
      forall k | 1 <= k <= n ensures values[..n][..k] == values[..k] {
      }
      assert values[..|values|] == values;
      BoundedMeans(Product(values));
    }
  }

  lemma {:induction false} RunningProductsPrefix(values: seq<Decimal>, i: nat)
    requires AllInEnvelope(values) && i <= |values| && RunningProductsBounded(values)
    ensures RunningProductsBounded(values[..i])
    decreases |values|
  {
    if i < |values| {
      var init := values[..|values| - 1];
      RunningProductsPrefix(init, i);
      assert init[..i] == values[..i];
    } else {
      assert values[..i] == values;
    }
  }

  method ExactMultiply(values: seq<Decimal>) returns (r: Result<Decimal>)
    ensures r.Ok? <==> AllInEnvelope(values) && RunningProductsBounded(values) &&
                       Representable(Product(values).num, Product(values).den)
    ensures r.Ok? ==> InEnvelope(r.value) && Normalized(r.value) &&
                      HasValue(r.value, Product(values).num, Product(values).den) &&
                      HasValue(r.value, Numerators(values), Denominators(values))
    ensures r.Err? && r.error in {NumeratorTooLarge, DenominatorTooLarge} && AllInEnvelope(values) ==>
              !RunningProductsBounded(values)
  {
    var product := Fraction(1, 1);
    for i := 0 to |values|
      invariant AllInEnvelope(values[..i]) && RunningProductsBounded(values[..i])
      invariant product == Product(values[..i])
    {
      var next := AsFraction(values[i]);
      if next.Err? {
        return Err(next.error);
      }
      ProductStep(values, i, next.value);
      product := Multiply(product, next.value);
      var guard := ValidateFractionIntermediate(product);
      if guard.Err? {
        if AllInEnvelope(values) && RunningProductsBounded(values) {
          RunningProductsPrefix(values, i + 1);
        }
        return Err(guard.error);
      }
    }
    assert values[..|values|] == values;
    assert Bounded(product) by { if values == [] { assert DigitCount(1) == 1; } }
    r := TerminatingDecimal(product);
    if r.Ok? {
      ProductIsExact(values);
      ValueTransfer(Num(r.value), Den(r.value), product.num, product.den, Numerators(values), Denominators(values));
    }
  }

  lemma ProductStep(values: seq<Decimal>, i: nat, next: Fraction)
    requires i < |values| && AllInEnvelope(values[..i]) && InEnvelope(values[i])
    requires next.Valid() && HasValue(values[i], next.num, next.den)
    requires RunningProductsBounded(values[..i])
    ensures AllInEnvelope(values[..i + 1])
    ensures Product(values[..i + 1]) == Multiply(Product(values[..i]), next)
    ensures RunningProductsBounded(values[..i + 1]) <==> Bounded(Product(values[..i + 1]))
  {
    assert values[..i + 1][..i] == values[..i];
    SameValueReduced(values[i], next);
  }

  lemma SameValueReduced(v: Decimal, f: Fraction)
    requires InEnvelope(v) && f.Valid() && HasValue(v, f.num, f.den)
    ensures f == FractionOf(v)
  {
    var g := FractionOf(v);
    ValueTransfer(g.num, g.den, Num(v), Den(v), f.num, f.den);
    ReducedUnique(f, g);
  }

  lemma {:induction false} ProductMagnitude(values: seq<Decimal>, k: nat)
    requires AllInEnvelope(values) && k == MAX_SCALE
    ensures Abs(Product(values).num) <= Pow(10, k * |values|)
    ensures Product(values).den <= Pow(10, k * |values|)
  {
    hide InEnvelope, Pow, FractionOf;
    if values != [] {
      var n := |values| - 1;
      var x, y := Product(values[..n]), FractionOf(values[n]);
      ProductMagnitude(values[..n], k);
      FactorMagnitude(values[n]);
      PowAdd(10, k * n, k);
      assert k * n + k == k * |values|;
      ProductBound(Abs(x.num), Abs(y.num), Pow(10, k * n), Pow(10, k));
      ProductBound(x.den, y.den, Pow(10, k * n), Pow(10, k));
      AbsProduct(x.num, y.num);
    }
  }

  lemma FactorMagnitude(v: Decimal)
    requires InEnvelope(v)
    ensures Abs(FractionOf(v).num) <= Pow(10, MAX_SCALE) && FractionOf(v).den <= Pow(10, MAX_SCALE)
  {
    EnvelopeMagnitude(v);
    if v.coefficient == 0 {
      ReducedUnique(FractionOf(v), Reduce(0, 1));
      PowMonotone(10, 0, MAX_SCALE);
    }
  }

  lemma ProductBound(a: nat, b: nat, x: nat, y: nat)
    requires a <= x && b <= y
    ensures a * b <= x * y
  {
    MulMono(a, x, b);
    MulMono(b, y, x);
  }

  lemma AbsProduct(a: int, b: int)
    ensures Abs(a * b) == Abs(a) * Abs(b)
  {
    if b >= 0 {
      AbsScaled(a, b);
    } else {
      AbsScaled(a, -b);
      assert a * b == -(a * -b);
    }
  }

  lemma ProductBounded(values: seq<Decimal>, n: nat)
    requires AllInEnvelope(values) && |values| == n && n <= 3
    ensures Bounded(Product(values))
  {
    ProductMagnitude(values, MAX_SCALE);
    PowAdd(10, 1, MAX_SCALE * n);
    BoundedBelow(Product(values), MAX_SCALE * n + 1);
  }

  /** Up to three factors never reach the intermediate guard. */
  lemma {:induction false} ThreeFactorsNeverGuarded(values: seq<Decimal>)
    requires AllInEnvelope(values) && |values| <= 3
    ensures RunningProductsBounded(values)
    decreases |values|
  {
    if values != [] {
      ThreeFactorsNeverGuarded(values[..|values| - 1]);
      ProductBounded(values, |values|);
    }
  }

  /** Up to four factors the product is returned exactly when it is representable. */
  lemma FourFactorsComplete(values: seq<Decimal>)
    requires AllInEnvelope(values) && |values| <= 4
    requires Representable(Product(values).num, Product(values).den)
    ensures RunningProductsBounded(values)
  {
    if |values| <= 3 {
      ThreeFactorsNeverGuarded(values);
    } else {
      ThreeFactorsNeverGuarded(values[..|values| - 1]);
      RepresentableBounded(Product(values));
    }
  }

  /** The product of two values is the product of what they denote. */
  lemma ProductOfTwo(left: Decimal, right: Decimal)
    requires InEnvelope(left) && InEnvelope(right)
    ensures var f := Product([left, right]);
            f.num * (Den(left) * Den(right)) == (Num(left) * Num(right)) * f.den
  {
    var values := [left, right];
    ProductIsExact(values);
    assert values[..1] == [left] && [left][..0] == [];
    assert Numerators([left]) == Num(left) && Denominators([left]) == Den(left);
  }

  /** The tiniest admitted positive value. */
  const TINY := Finite(false, 1, -256)

  /** From five factors on the guard makes the outcome depend on the order: four tiny factors
      before a zero are refused, after it they are not. */
  lemma FiveFactorsOrderMatters()
    ensures AllInEnvelope([TINY, TINY, TINY, TINY, ZERO]) && AllInEnvelope([ZERO, TINY, TINY, TINY, TINY])
    ensures Representable(Product([TINY, TINY, TINY, TINY, ZERO]).num, Product([TINY, TINY, TINY, TINY, ZERO]).den)
    ensures !RunningProductsBounded([TINY, TINY, TINY, TINY, ZERO])
    ensures RunningProductsBounded([ZERO, TINY, TINY, TINY, TINY])
  {
    hide Bounded, Representable, Pow;
    var a, b := [TINY, TINY, TINY, TINY, ZERO], [ZERO, TINY, TINY, TINY, TINY];
    assert InEnvelope(TINY) && InEnvelope(ZERO);
    ZeroLast(a[..4]);
    assert a == a[..4] + [ZERO];
    TinyPower(4);
    assert a[..4] == TinyList(4);
    DenominatorOverflow(TinyList(4), MAX_SCALE * 4);
    assert !RunningProductsBounded(a[..4]);
    ZeroFirst(b);
  }

  ghost function TinyList(n: nat): (s: seq<Decimal>)
    ensures |s| == n && AllInEnvelope(s)
  {
    if n == 0 then [] else TinyList(n - 1) + [TINY]
  }

  lemma {:induction false} TinyPower(n: nat)
    ensures Product(TinyList(n)) == Fraction(1, Pow(10, MAX_SCALE * n))
  {
    hide Representable, UnitsRepresentable, InEnvelope, Bounded, Coprime, Reduce, Pow, Num, Den;
    TinyFraction();
    if n > 0 {
      TinyPower(n - 1);
      var s := TinyList(n);
      assert s[..n - 1] == TinyList(n - 1);
      var k := MAX_SCALE;
      PowAdd(10, k * (n - 1), k);
      assert k * (n - 1) + k == k * n;
      UnitFraction(Pow(10, k * (n - 1)) * Pow(10, k));
    }
  }

  lemma TinyFraction()
    ensures FractionOf(TINY) == Fraction(1, Pow(10, MAX_SCALE)) && Pow(10, 0) == 1
  {
    hide Reduce;
    UnitFraction(Pow(10, MAX_SCALE));
  }

  lemma UnitFraction(d: nat)
    requires d > 0
    ensures Reduce(1, d) == Fraction(1, d)
  {
    BezoutCoprime(1, d, 1, 0);
    ReducedUnique(Fraction(1, d), Reduce(1, d));
  }

  lemma DenominatorOverflow(values: seq<Decimal>, k: nat)
    requires AllInEnvelope(values) && values != [] && k >= MAX_RATIONAL_DIGITS
    requires Product(values) == Fraction(1, Pow(10, k))
    ensures !RunningProductsBounded(values)
  {
    DigitCountAtMost(Pow(10, k), MAX_RATIONAL_DIGITS);
    PowMonotone(10, MAX_RATIONAL_DIGITS, k);
  }

  lemma ZeroLast(values: seq<Decimal>)
    requires AllInEnvelope(values)
    ensures AllInEnvelope(values + [ZERO])
    ensures Representable(Product(values + [ZERO]).num, Product(values + [ZERO]).den)
    ensures RunningProductsBounded(values + [ZERO]) ==> RunningProductsBounded(values)
  {
    var s := values + [ZERO];
    assert s[..|s| - 1] == values;
    var f := Product(s);
    assert Num(ZERO) == 0;
    assert f.num == 0;
    assert HasValue(ZERO, f.num, f.den);
  }

  lemma {:induction false} ZeroFirst(values: seq<Decimal>)
    requires AllInEnvelope(values) && values != [] && values[0] == ZERO
    ensures Product(values) == Fraction(0, 1) && RunningProductsBounded(values)
  {
    var n := |values| - 1;
    var x, y := Product(values[..n]), FractionOf(values[n]);
    if n > 0 {
      ZeroFirst(values[..n]);
    } else {
      assert values[..n] == [];
    }
    assert Product(values) == Multiply(x, y);
    assert x.num * y.num == 0;
    BezoutCoprime(0, 1, 0, 1);
    ReducedUnique(Product(values), Fraction(0, 1));
    assert RunningProductsBounded(values[..n]);
    assert Product(values) == Fraction(0, 1);
    assert Abs(0) == 0 && Abs(1) == 1;
    assert DigitCount(0) == 1 && DigitCount(1) == 1;
    assert Bounded(Product(values));
  }
}
