/** Rounding an exact rational to a decimal quantum, and the grid test.

    A ratio `a / b` counts quanta; `IsRounded(mode, a, b, k)` says what it means for the whole
    number `k` to be its rounding, without saying how to compute it. */
module Rounding {
  import opened Arithmetic
  import opened ExactDecimal
  import opened ExactOperations

  ghost predicate IsRounded(mode: string, a: int, b: int, k: int)
    requires b > 0
  {
    || (mode == "FLOOR" && k * b <= a < (k + 1) * b)
    || (mode == "CEILING" && (k - 1) * b < a <= k * b)
    || (mode == "HALF_EVEN" && -b <= 2 * (a - k * b) <= b && (Abs(2 * (a - k * b)) == b ==> k % 2 == 0))
  }

  // ------------------------------------------------------ what rounding means

  /** The rounding depends on the ratio only. */
  lemma IsRoundedScaled(mode: string, a: int, b: int, t: int, k: int)
    requires b > 0 && t > 0
    ensures b * t > 0
    ensures IsRounded(mode, a * t, b * t, k) <==> IsRounded(mode, a, b, k)
  {
    PositiveProduct(b, t);
    ScaledOrder(a, b, t, k);
    ScaledOrder(a, b, t, k + 1);
    ScaledOrder(a, b, t, k - 1);
    ScaledTie(2 * (a - k * b), b, t);
    ScaledTie(-(2 * (a - k * b)), b, t);
    assert 2 * (a * t - k * (b * t)) == (2 * (a - k * b)) * t by {
      MulAssoc(k, b, t);
      assert (a - k * b) * t == a * t - (k * b) * t;
      MulAssoc(2, a - k * b, t);
    }
  }

  lemma ScaledOrder(a: int, b: int, t: int, k: int)
    requires t > 0
    ensures k * (b * t) <= a * t <==> k * b <= a
    ensures a * t <= k * (b * t) <==> a <= k * b
  {
    MulAssoc(k, b, t);
    ScaledTie(k * b, a, t);
    ScaledTie(a, k * b, t);
  }

  lemma ScaledTie(x: int, y: int, t: int)
    requires t > 0
    ensures x * t <= y * t <==> x <= y
    ensures x * t == y * t <==> x == y
    ensures (-x) * t == -(x * t)
  {
    if x <= y { MulMono(x, y, t); }
    if x * t <= y * t { MulCancelLe(x, y, t); }
    if y * t <= x * t { MulCancelLe(y, x, t); }
  }

  lemma SameRatioRounds(mode: string, a: int, b: int, a': int, b': int, k: int)
    requires b > 0 && b' > 0 && a * b' == a' * b
    ensures IsRounded(mode, a, b, k) <==> IsRounded(mode, a', b', k)
  {
    IsRoundedScaled(mode, a, b, b', k);
    IsRoundedScaled(mode, a', b', b, k);
  }

  /** Every mode is monotone, hence single-valued. */
  lemma RoundingMonotone(mode: string, a: int, b: int, k: int, a': int, b': int, k': int)
    requires b > 0 && b' > 0 && a * b' <= a' * b
    requires IsRounded(mode, a, b, k) && IsRounded(mode, a', b', k')
    ensures k <= k'
  {
    IsRoundedScaled(mode, a, b, b', k);
    IsRoundedScaled(mode, a', b', b, k');
    MonotoneSameGrid(mode, a * b', a' * b, b * b', k, k');
  }

  lemma MonotoneSameGrid(mode: string, x: int, y: int, b: int, k: int, k': int)
    requires b > 0 && x <= y
    requires IsRounded(mode, x, b, k) && IsRounded(mode, y, b, k')
    ensures k <= k'
  {
    assert (k' + 1) * b == k' * b + b;
    assert (k - 1) * b == k * b - b;
    if k' + 1 < k {
      MulMono(k' + 2, k, b);
    } else if k' < k {
      MulMono(k' + 1, k, b);
    }
  }

  /** FLOOR is the greatest multiple not above, CEILING the least not below. */
  lemma DirectedTightest(a: int, b: int, k: int, j: int)
    requires b > 0
    ensures IsRounded("FLOOR", a, b, k) && j * b <= a ==> k * b <= a && j <= k
    ensures IsRounded("CEILING", a, b, k) && a <= j * b ==> a <= k * b && k <= j
  {
    if IsRounded("FLOOR", a, b, k) && j * b <= a && k < j {
      MulMono(k + 1, j, b);
    }
    if IsRounded("CEILING", a, b, k) && a <= j * b && j < k {
      MulMono(j, k - 1, b);
    }
  }

  /** HALF_EVEN is a nearest multiple, and the even one of two nearest. */
  lemma HalfEvenNearest(a: int, b: int, k: int, j: int)
    requires b > 0 && IsRounded("HALF_EVEN", a, b, k)
    ensures Abs(a - k * b) <= Abs(a - j * b)
    ensures j != k && Abs(a - k * b) == Abs(a - j * b) ==> k % 2 == 0
  {
    if j < k {
      MulMono(j, k - 1, b);
      assert (k - 1) * b == k * b - b;
    } else if k < j {
      MulMono(k + 1, j, b);
      assert (k + 1) * b == k * b + b;
    }
  }

  /** Every mode leaves a value alone exactly when it is a multiple of the quantum. */
  lemma RoundingFixes(mode: string, u: int, q: int, k: int)
    requires q > 0 && IsRounded(mode, u, q, k)
    ensures k * q == u <==> u % q == 0
  {
    if k * q == u {
      DividesProduct(q, k);
    }
    if u % q == 0 {
      var j := DividesQuotient(q, u);
      assert 2 * (u - j * q) == 0;
      assert IsRounded(mode, u, q, j) by {
        assert (j + 1) * q == j * q + q;
        assert (j - 1) * q == j * q - q;
      }
      MonotoneSameGrid(mode, u, u, q, j, k);
      MonotoneSameGrid(mode, u, u, q, k, j);
    }
  }

  // ------------------------------------------------------------- the methods

  /** The number of quanta in a value, as a reduced fraction. */
  lemma QuantaRatio(value: Fraction, q: Fraction, uq: int)
    requires value.Valid() && Worth(q, uq) && uq > 0
    ensures q.num > 0
    ensures value.den * uq > 0
    ensures var units := Divide(value, q);
            units.num * (value.den * uq) == (value.num * UNIT) * units.den
  {
    WorthSign(q, uq);
    PositiveProduct(value.den, uq);
    PositiveProduct(value.den, q.num);
    var units := Divide(value, q);
    var a, m := value.num * q.den, value.den * q.num;
    assert units.num * m == a * units.den;
    assert q.den * uq == UNIT * q.num;
    hide Divide;
    assert a * (value.den * uq) == (value.num * UNIT) * m by {
      MulShuffle(value.num, q.den, value.den, uq);
      MulShuffle(value.num, UNIT, value.den, q.num);
    }
    CancelMiddle(units.num, units.den, a, m, value.num * UNIT, value.den * uq);
  }

  method IsExactDecimalMultiple(value: Decimal, quantum: Decimal) returns (r: Result<bool>)
    ensures r.Ok? <==> InEnvelope(value) && InEnvelope(quantum) && Units(quantum) > 0
    ensures r.Ok? ==> (r.value <==> Units(value) % Units(quantum) == 0)
  {
    var v := AsFraction(value);
    if v.Err? {
      return Err(v.error);
    }
    var q := AsFraction(quantum);
    if q.Err? {
      return Err(q.error);
    }
    WorthOfDecimal(value, v.value);
    WorthOfDecimal(quantum, q.value);
    WorthSign(q.value, Units(quantum));
    if q.value.num <= 0 {
      return Err(QuantumNotPositive);
    }
    var units := Divide(v.value, q.value);
    ghost var u, w := Units(value), Units(quantum);
    QuantaOfDecimal(v.value, q.value, u, w);
    UnitsAreTheValue(value);
    UnitsAreTheValue(quantum);
    RatioBounded(units, u, w, MAX_INTEGER_DIGITS + MAX_SCALE);
    var guard := ValidateFractionIntermediate(units);
    assert guard.Ok?;
    WholeRatio(units, u, w);
    return Ok(units.den == 1);
  }

  lemma QuantaOfDecimal(v: Fraction, q: Fraction, u: int, w: int)
    requires Worth(v, u) && Worth(q, w) && w > 0
    ensures q.num > 0 && Divide(v, q).num * w == u * Divide(v, q).den
  {
    QuantaRatio(v, q, w);
    var units := Divide(v, q);
    hide Divide;
    CancelDenominator(units.num, units.den, v.num * UNIT, v.den, u, w);
  }

  lemma CancelDenominator(n: int, e: int, x: int, d: int, u: int, w: int)
    requires d > 0 && n * (d * w) == x * e && x == u * d
    ensures n * w == u * e
  {
    assert (n * w) * d == n * (d * w) by { MulAssoc(n, w, d); }
    assert (u * e) * d == (u * d) * e by { MulAssoc(u, e, d); MulAssoc(u, d, e); }
    MulCancel(n * w, u * e, d);
  }

  lemma RatioBounded(f: Fraction, u: int, w: int, k: nat)
    requires f.Valid() && w > 0 && f.num * w == u * f.den
    requires Abs(u) < Pow(10, k) && w < Pow(10, k) && 1 <= k <= MAX_RATIONAL_DIGITS
    ensures Bounded(f)
  {
    ReducedIsLeast(f, u, w);
    BoundedBelow(f, k);
  }

  lemma WholeRatio(f: Fraction, u: int, w: int)
    requires f.Valid() && w > 0 && f.num * w == u * f.den
    ensures f.den == 1 <==> u % w == 0
  {
    if f.den == 1 {
      DividesProduct(w, f.num);
    }
    if u % w == 0 {
      var k := DividesQuotient(w, u);
      BezoutCoprime(Abs(k), 1, 0, 1);
      assert (f.num) * w == (k * f.den) * w by { MulAssoc(k, f.den, w); MulAssoc(k, w, f.den); }
      MulCancel(f.num, k * f.den, w);
      ReducedUnique(f, Fraction(k, 1));
    }
  }

  /** The three integer formulas of the source. */
  method RoundedQuanta(units: Fraction, mode: string) returns (r: Result<int>)
    requires units.Valid()
    ensures r.Ok? <==> mode == "FLOOR" || mode == "CEILING" || mode == "HALF_EVEN"
    ensures r.Ok? ==> IsRounded(mode, units.num, units.den, r.value)
    ensures r.Err? ==> r.error == UnsupportedMode
  {
    var n, d := units.num, units.den;
    var floor := n / d;
    FloorIs(n, d);
    if mode == "FLOOR" {
      return Ok(floor);
    } else if mode == "CEILING" {
      CeilingIs(n, d);
      return Ok(-((-n) / d));
    } else if mode == "HALF_EVEN" {
      var remainder := n - floor * d;
      var doubled := remainder * 2;
      HalfEvenIs(n, d);
      if doubled < d {
        return Ok(floor);
      } else if doubled > d {
        return Ok(floor + 1);
      } else {
        return Ok(if floor % 2 == 0 then floor else floor + 1);
      }
    }
    return Err(UnsupportedMode);
  }

  lemma FloorIs(n: int, d: int)
    requires d > 0
    ensures IsRounded("FLOOR", n, d, n / d)
  {
    var k := n / d;
    assert n == k * d + n % d;
    assert (k + 1) * d == k * d + d;
  }

  lemma CeilingIs(n: int, d: int)
    requires d > 0
    ensures IsRounded("CEILING", n, d, -((-n) / d))
  {
    var k := -((-n) / d);
    assert -n == (-k) * d + (-n) % d;
    assert (-k) * d == -(k * d);
    assert (k - 1) * d == k * d - d;
  }

  lemma HalfEvenIs(n: int, d: int)
    requires d > 0
    ensures var k := n / d;
            var doubled := (n - k * d) * 2;
            IsRounded("HALF_EVEN", n, d,
              if doubled < d || (doubled == d && k % 2 == 0) then k else k + 1)
  {
    var k := n / d;
    assert n == k * d + n % d;
    assert (k + 1) * d == k * d + d;
  }

  /** `k` is the rounding of `value` counted in quanta of `uq` units. */
  ghost predicate Rounded(mode: string, value: Fraction, uq: int, k: int)
    requires value.Valid() && uq > 0
  {
    PositiveProduct(value.den, uq);
    IsRounded(mode, value.num * UNIT, value.den * uq, k)
  }

  /** The exact count of quanta, which must itself stay below the intermediate guard. */
  ghost function QuantaOf(value: Fraction, uq: int): (f: Fraction)
    requires value.Valid() && uq > 0
    ensures f.Valid()
  {
    PositiveProduct(value.den, uq);
    Reduce(value.num * UNIT, value.den * uq)
  }

  lemma QuantaAreExact(value: Fraction, q: Fraction, uq: int, mode: string)
    requires value.Valid() && Worth(q, uq) && uq > 0
    ensures q.num > 0 && Divide(value, q) == QuantaOf(value, uq)
    ensures forall k :: IsRounded(mode, Divide(value, q).num, Divide(value, q).den, k) <==> Rounded(mode, value, uq, k)
  {
    QuantaRatio(value, q, uq);
    var units, f := Divide(value, q), QuantaOf(value, uq);
    var a, b := value.num * UNIT, value.den * uq;
    ValueTransfer(f.num, f.den, a, b, units.num, units.den);
    ReducedUnique(units, f);
    forall k ensures IsRounded(mode, units.num, units.den, k) <==> Rounded(mode, value, uq, k) {
      SameRatioRounds(mode, units.num, units.den, a, b, k);
    }
  }

  lemma RoundedUnique(mode: string, value: Fraction, uq: int, k: int, j: int)
    requires value.Valid() && uq > 0 && Rounded(mode, value, uq, k) && Rounded(mode, value, uq, j)
    ensures j == k
  {
    PositiveProduct(value.den, uq);
    var a, b := value.num * UNIT, value.den * uq;
    MonotoneSameGrid(mode, a, a, b, j, k);
    MonotoneSameGrid(mode, a, a, b, k, j);
  }

  /** Succeeds exactly when the arguments are admitted, the exact count of quanta stays below the
      guard, and the rounded multiple is representable; the result is that multiple. */
  method RoundFractionToQuantum(value: Fraction, quantum: Decimal, mode: string) returns (r: Result<Decimal>)
    requires value.Valid()
    ensures r.Ok? <==> Bounded(value) && InEnvelope(quantum) && Units(quantum) > 0 &&
                       Bounded(QuantaOf(value, Units(quantum))) &&
                       exists k :: Rounded(mode, value, Units(quantum), k) && UnitsRepresentable(k * Units(quantum))
    ensures r.Ok? ==> InEnvelope(r.value) && Normalized(r.value) &&
                      exists k :: Rounded(mode, value, Units(quantum), k) && Units(r.value) == k * Units(quantum)
  {
    var guard := ValidateFractionIntermediate(value);
    if guard.Err? {
      return Err(guard.error);
    }
    var q := AsFraction(quantum);
    if q.Err? {
      return Err(q.error);
    }
    WorthOfDecimal(quantum, q.value);
    ghost var uq := Units(quantum);
    WorthSign(q.value, uq);
    if q.value.num <= 0 {
      return Err(QuantumNotPositive);
    }
    var units := Divide(value, q.value);
    QuantaAreExact(value, q.value, uq, mode);
    guard := ValidateFractionIntermediate(units);
    if guard.Err? {
      return Err(guard.error);
    }
    var quanta := RoundedQuanta(units, mode);
    if quanta.Err? {
      return Err(quanta.error);
    }
    var k := quanta.value;
    assert Rounded(mode, value, uq, k);
    forall j | Rounded(mode, value, uq, j) ensures j == k { RoundedUnique(mode, value, uq, k, j); }
    r := SettleMultiple(q.value, k, uq);
  }

  method SettleMultiple(q: Fraction, k: int, ghost uq: int) returns (r: Result<Decimal>)
    requires Worth(q, uq)
    ensures r.Ok? <==> UnitsRepresentable(k * uq)
    ensures r.Ok? ==> InEnvelope(r.value) && Normalized(r.value) && Units(r.value) == k * uq
  {
    var rounded := Multiply(q, Whole(k));
    WorthMultiple(q, uq, k);
    var guard := ValidateFractionIntermediate(rounded);
    if guard.Err? {
      if UnitsRepresentable(k * uq) {
        RepresentableUnits(rounded.num, rounded.den, k * uq);
        RepresentableBounded(rounded);
      }
      return Err(guard.error);
    }
    r := Settle(rounded, k * uq);
  }

  function Whole(k: int): (f: Fraction)
    ensures f.Valid()
  {
    BezoutCoprime(Abs(k), 1, 0, 1);
    Fraction(k, 1)
  }

  lemma WorthMultiple(q: Fraction, uq: int, k: int)
    requires Worth(q, uq)
    ensures Worth(Multiply(q, Whole(k)), k * uq)
  {
    var f := Multiply(q, Whole(k));
    assert f.num * q.den == (q.num * k) * f.den;
    assert (q.num * k) * UNIT == (k * uq) * q.den by {
      MulAssoc(k, q.num, UNIT);
      MulAssoc(k, uq, q.den);
    }
    CancelMiddle(f.num, f.den, q.num * k, q.den, k * uq, UNIT);
  }

  /** A Decimal is rounded on its own grid by the ratio of its units to the quantum's, so all
      modes fix it exactly when `is_exact_decimal_multiple` answers yes. */
  lemma DecimalRounding(mode: string, v: Decimal, f: Fraction, q: Decimal, k: int)
    requires InEnvelope(v) && InEnvelope(q) && Units(q) > 0
    requires f.Valid() && HasValue(v, f.num, f.den) && Rounded(mode, f, Units(q), k)
    ensures IsRounded(mode, Units(v), Units(q), k)
    ensures k * Units(q) == Units(v) <==> Units(v) % Units(q) == 0
  {
    WorthOfDecimal(v, f);
    IsRoundedScaled(mode, Units(v), Units(q), f.den, k);
    RoundingFixes(mode, Units(v), Units(q), k);
  }

  /** Rounding is monotone in the value, in every mode. */
  lemma RoundedMonotone(mode: string, f: Fraction, g: Fraction, uq: int, k: int, j: int)
    requires f.Valid() && g.Valid() && uq > 0 && f.num * g.den <= g.num * f.den
    requires Rounded(mode, f, uq, k) && Rounded(mode, g, uq, j)
    ensures k <= j
  {
    PositiveProduct(f.den, uq);
    PositiveProduct(g.den, uq);
    PositiveProduct(UNIT, uq);
    MulMono(f.num * g.den, g.num * f.den, UNIT * uq);
    MulShuffle(f.num, g.den, UNIT, uq);
    MulShuffle(g.num, f.den, UNIT, uq);
    RoundingMonotone(mode, f.num * UNIT, f.den * uq, k, g.num * UNIT, g.den * uq, j);
  }
}
