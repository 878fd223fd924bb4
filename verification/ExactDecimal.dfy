/** Bounded exact decimal arithmetic: a Decimal is admitted by its resource envelope, turned into
    a reduced Fraction, computed on exactly, and turned back only if the result terminates inside
    the envelope.

    The contracts are stated on mathematical values, never on how a method computes them:
    `HasValue(v, n, d)` says that the Decimal `v` denotes the rational `n / d`, and
    `Representable(n, d)` that some Decimal inside the envelope does. */
module ExactDecimal {
  import opened Arithmetic

  const MAX_SIGNIFICANT_DIGITS := 256
  const MAX_SCALE := 256
  const MAX_INTEGER_DIGITS := 256
  const MAX_RATIONAL_DIGITS := 1024

  /** A Python Decimal: sign, coefficient (its digit tuple read in base ten) and exponent.
      `Special` stands for the infinities and the NaNs. */
  datatype Decimal =
    | Finite(negative: bool, coefficient: nat, exponent: int)
    | Special

  const ZERO := Finite(false, 0, 0)

  datatype Error =
    | NotFinite
    | TooManySignificantDigits
    | ScaleTooLarge
    | NegativeScale
    | TooManyIntegerDigits
    | NumeratorTooLarge
    | DenominatorTooLarge
    | NonTerminating
    | QuantumNotPositive
    | UnsupportedMode
    | BadText

  datatype Result<+T> = Ok(value: T) | Err(error: Error)

  /** The failures of the envelope check itself. */
  predicate EnvelopeError(e: Error) {
    e in {NotFinite, TooManySignificantDigits, ScaleTooLarge, TooManyIntegerDigits}
  }

  // ------------------------------------------------------------ values

  /** The rational denoted by a finite Decimal is `Num(v) / Den(v)`. */
  function Num(v: Decimal): (n: int)
    requires v.Finite?
    ensures n < 0 ==> v.negative
    ensures n == 0 <==> v.coefficient == 0
  {
    var c: int := if v.negative then -(v.coefficient as int) else v.coefficient;
    if v.exponent >= 0 then c * Pow(10, v.exponent) else c
  }

  function Den(v: Decimal): (d: nat)
    requires v.Finite?
    ensures d > 0
  {
    if v.exponent >= 0 then 1 else Pow(10, -v.exponent)
  }

  ghost predicate HasValue(v: Decimal, n: int, d: nat)
  {
    v.Finite? && Num(v) * d == n * Den(v)
  }

  /** The resource envelope; a zero passes whatever its exponent. */
  predicate InEnvelope(v: Decimal)
  {
    v.Finite? &&
    (v.coefficient == 0 ||
     (DigitCount(v.coefficient) <= MAX_SIGNIFICANT_DIGITS &&
      -v.exponent <= MAX_SCALE &&
      DigitCount(v.coefficient) + v.exponent <= MAX_INTEGER_DIGITS))
  }

  /** The envelope by magnitudes: a coefficient and a value below 10^256, and no place below the
      256th after the point. */
  lemma EnvelopeMeans(v: Decimal)
    ensures InEnvelope(v) <==>
              v.Finite? &&
              (v.coefficient == 0 ||
               (v.coefficient < Pow(10, 256) && v.exponent >= -256 && Abs(Num(v)) < Pow(10, 256) * Den(v)))
  {
    hide Pow, DigitCount;
    if v.Finite? && v.coefficient != 0 {
      var c, e := v.coefficient, v.exponent;
      DigitCountAtMost(c, 256);
      if e >= 0 {
        DigitCountShift(c, e);
        DigitCountAtMost(c * Pow(10, e), 256);
        SignOfProduct(c, Pow(10, e));
      } else {
        PowAdd(10, 256, -e);
        DigitCountAtMost(c, 256 - e);
      }
    }
  }

  lemma SignOfProduct(c: nat, p: nat)
    ensures (0 - c) * p == 0 - c * p && Abs(c * p) == c * p && Abs(0 - c * p) == c * p
  {
  }

  /** Some Decimal inside the envelope denotes `n / d`. */
  ghost predicate Representable(n: int, d: nat)
  {
    exists v: Decimal :: InEnvelope(v) && HasValue(v, n, d)
  }

  // --------------------------------------------------------- fractions

  datatype Fraction = Fraction(num: int, den: int) {
    /** Python keeps every Fraction reduced with a positive denominator. */
    predicate Valid() {
      den > 0 && Coprime(Abs(num), den)
    }
  }

  function Reduce(n: int, d: nat): (f: Fraction)
    requires d > 0
    ensures f.Valid() && f.num * d == n * f.den
    ensures Abs(f.num) <= Abs(n) && f.den <= d
  {
    var g := Gcd(Abs(n), d);
    ReduceFacts(n, d);
    Fraction(n / g, d / g)
  }

  lemma ReduceFacts(n: int, d: nat)
    requires d > 0
    ensures var g := Gcd(Abs(n), d);
            var f := Fraction(n / g, d / g);
            f.Valid() && f.num * d == n * f.den && Abs(f.num) <= Abs(n) && f.den <= d
  {
    var g := Gcd(Abs(n), d);
    var x, y := GcdBezout(Abs(n), d);
    var p := DividesQuotient(g, Abs(n));
    var q := DividesQuotient(g, d);
    var s := if n < 0 then -p else p;
    assert n == s * g;
    DividesProduct(g, s);
    assert n / g == s && Abs(s) == p by { if p < 0 { MulMono(p, -1, g); } }
    if q <= 0 { MulMono(q, 0, g); }
    BezoutScaled(x, y, p, q, g);
    BezoutCoprime(p, q, x, y);
    assert s * d == n * q by { MulAssoc(s, g, q); }
    MulMono(1, g, p);
    MulMono(1, g, q);
  }

  lemma BezoutScaled(x: int, y: int, p: int, q: int, g: int)
    requires g > 0 && x * (g * p) + y * (g * q) == g
    ensures x * p + y * q == 1
  {
    assert x * (g * p) == (x * p) * g by { MulAssoc(x, p, g); }
    assert y * (g * q) == (y * q) * g by { MulAssoc(y, q, g); }
    MulCancel(x * p + y * q, 1, g);
  }

  /** Two reduced fractions of the same value are the same fraction. */
  lemma ReducedUnique(f: Fraction, g: Fraction)
    requires f.Valid() && g.Valid() && f.num * g.den == g.num * f.den
    ensures f == g
  {
    DividesProduct(f.den, g.num);
    CoprimeDivides(f.den, f.num, g.den);
    DividesProduct(g.den, f.num);
    CoprimeDivides(g.den, g.num, f.den);
    DividesAtMost(f.den, g.den);
    DividesAtMost(g.den, f.den);
    MulCancel(f.num, g.num, f.den);
  }

  /** Representability belongs to the value, not to the pair that spells it. */
  lemma RepresentableSameValue(n: int, d: nat, n': int, d': nat)
    requires d > 0 && d' > 0 && n * d' == n' * d
    ensures Representable(n, d) <==> Representable(n', d')
  {
    forall v: Decimal | v.Finite? ensures HasValue(v, n, d) <==> HasValue(v, n', d') {
      ValueTransfer(Num(v), Den(v), n, d, n', d');
      ValueTransfer(Num(v), Den(v), n', d', n, d);
    }
  }

  lemma ValueTransfer(vn: int, vd: int, n: int, d: int, n': int, d': int)
    requires d > 0 && d' > 0 && vd > 0 && n * d' == n' * d
    ensures vn * d == n * vd ==> vn * d' == n' * vd
  {
    if vn * d == n * vd {
      assert (vn * d') * d == (vn * d) * d' by { MulAssoc(vn, d', d); MulAssoc(vn, d, d'); }
      assert (n * vd) * d' == (n * d') * vd by { MulAssoc(n, vd, d'); MulAssoc(n, d', vd); }
      assert (n' * d) * vd == (n' * vd) * d by { MulAssoc(n', d, vd); MulAssoc(n', vd, d); }
      MulCancel(vn * d', n' * vd, d);
    }
  }

  // ------------------------------------------------------ digit counting

  /** The bit-length shortcut and the early exit together compute exactly the digit count,
      saturated one past the limit. */
  method IntegerDigitCount(value: int, limit: nat) returns (count: nat)
    ensures count == Min(DigitCount(Abs(value)), limit + 1)
  {
    var number := Abs(value);
    if number == 0 {
      return 1;
    }
    if BitLength(number) > limit * 4 + 1 {
      BitLengthForcesDigits(number, limit);
      return limit + 1;
    }
    count := 0;
    ghost var total := DigitCount(number);
    while number > 0
      invariant number > 0 ==> count + DigitCount(number) == total
      invariant number == 0 ==> count == total
      invariant count <= limit
      decreases number
    {
      number := number / 10;
      count := count + 1;
      if count > limit {
        return count;
      }
    }
  }

  method ValidateDecimalEnvelope(value: Decimal) returns (r: Result<()>)
    ensures r.Ok? <==> InEnvelope(value)
    ensures r.Err? ==> EnvelopeError(r.error)
  {
    if value.Special? {
      return Err(NotFinite);
    }
    if value.coefficient == 0 {
      return Ok(());
    }
    var digitCount := DigitCount(value.coefficient);
    if digitCount > MAX_SIGNIFICANT_DIGITS {
      return Err(TooManySignificantDigits);
    }
    if value.exponent < -MAX_SCALE {
      return Err(ScaleTooLarge);
    }
    var integerDigits := Max(digitCount + value.exponent, 0);
    if integerDigits > MAX_INTEGER_DIGITS {
      return Err(TooManyIntegerDigits);
    }
    return Ok(());
  }

  predicate Bounded(f: Fraction) {
    DigitCount(Abs(f.num)) <= MAX_RATIONAL_DIGITS && DigitCount(Abs(f.den)) <= MAX_RATIONAL_DIGITS
  }

  lemma BoundedMeans(f: Fraction)
    ensures Bounded(f) <==> Abs(f.num) < Pow(10, 1024) && Abs(f.den) < Pow(10, 1024)
  {
    hide DigitCount, Pow;
    DigitCountAtMost(Abs(f.num), 1024);
    DigitCountAtMost(Abs(f.den), 1024);
  }

  method ValidateFractionIntermediate(f: Fraction) returns (r: Result<()>)
    ensures r.Ok? <==> Bounded(f)
    ensures r.Err? ==> r.error in {NumeratorTooLarge, DenominatorTooLarge}
  {
    var n := IntegerDigitCount(f.num, MAX_RATIONAL_DIGITS);
    if n > MAX_RATIONAL_DIGITS {
      return Err(NumeratorTooLarge);
    }
    var d := IntegerDigitCount(f.den, MAX_RATIONAL_DIGITS);
    if d > MAX_RATIONAL_DIGITS {
      return Err(DenominatorTooLarge);
    }
    return Ok(());
  }

  /** Numerators and denominators below `10^(k-1)` have fewer than `k` digits. */
  lemma BoundedBelow(f: Fraction, k: nat)
    requires 1 <= k <= MAX_RATIONAL_DIGITS
    requires Abs(f.num) < Pow(10, k) && Abs(f.den) < Pow(10, k)
    ensures Bounded(f)
  {
    DigitCountAtMost(Abs(f.num), k);
    DigitCountAtMost(Abs(f.den), k);
  }

  // -------------------------------------------------- Decimal to Fraction

  /** The digit tuple of a coefficient, most significant first. */
  function Digits(n: nat): (s: seq<nat>)
    ensures |s| == DigitCount(n)
    ensures forall i :: 0 <= i < |s| ==> s[i] < 10
  {
    if n < 10 then [n] else Digits(n / 10) + [n % 10]
  }

  function Horner(s: seq<nat>): (n: nat)
  {
    if s == [] then 0 else Horner(s[..|s| - 1]) * 10 + s[|s| - 1]
  }

  lemma {:induction false} HornerDigits(n: nat)
    ensures Horner(Digits(n)) == n
  {
    if n < 10 {
      assert Digits(n)[..0] == [];
    } else {
      HornerDigits(n / 10);
      assert Digits(n)[..|Digits(n)| - 1] == Digits(n / 10);
    }
  }

  /** Inside the envelope numerators and denominators are at most `10^256`. */
  lemma EnvelopeMagnitude(v: Decimal)
    requires InEnvelope(v)
    ensures Abs(Num(v)) <= Pow(10, MAX_INTEGER_DIGITS)
    ensures v.coefficient != 0 ==> Den(v) <= Pow(10, MAX_SCALE)
  {
    if v.coefficient != 0 {
      SpelledMagnitude(v.negative, v.coefficient, v.exponent, MAX_INTEGER_DIGITS);
    }
  }

  lemma SpelledMagnitude(negative: bool, c: nat, e: int, k: nat)
    requires c > 0 && DigitCount(c) <= k && -e <= k && DigitCount(c) + e <= k
    ensures Abs(Num(Finite(negative, c, e))) <= Pow(10, k)
    ensures Den(Finite(negative, c, e)) <= Pow(10, k)
  {
    if e >= 0 {
      IntegerMagnitude(c, e, k);
      PowMonotone(10, 0, k);
      AbsScaled(c, Pow(10, e));
      AbsScaled(0 - c, Pow(10, e));
    } else {
      DigitCountAtMost(c, k);
      PowMonotone(10, -e, k);
    }
  }

  lemma IntegerMagnitude(c: nat, e: nat, k: nat)
    requires c > 0 && DigitCount(c) + e <= k
    ensures 0 < c * Pow(10, e) < Pow(10, k)
  {
    DigitCountShift(c, e);
    DigitCountAtMost(c * Pow(10, e), k);
  }

  /** `as_fraction`: succeeds exactly inside the envelope, with the exact reduced value; its own
      intermediate guard never fires. */
  method AsFraction(value: Decimal) returns (r: Result<Fraction>)
    ensures r.Ok? <==> InEnvelope(value)
    ensures r.Ok? ==> r.value.Valid() && HasValue(value, r.value.num, r.value.den)
    ensures r.Ok? ==> Abs(r.value.num) <= Pow(10, MAX_INTEGER_DIGITS) && r.value.den <= Pow(10, MAX_SCALE)
    ensures r.Err? ==> EnvelopeError(r.error)
  {
    hide Pow, DigitCount, Bounded;
    var admitted := ValidateDecimalEnvelope(value);
    if admitted.Err? {
      return Err(admitted.error);
    }
    var coefficient: int := 0;
    var digits := Digits(value.coefficient);
    for i := 0 to |digits|
      invariant coefficient == Horner(digits[..i])
    {
      assert digits[..i + 1][..i] == digits[..i];
      coefficient := coefficient * 10 + digits[i];
    }
    assert digits[..|digits|] == digits;
    HornerDigits(value.coefficient);
    hide Horner, Digits, DigitCount;
    if value.negative {
      coefficient := -coefficient;
    }
    if coefficient == 0 {
      var zero := Fraction(0, 1);
      BezoutCoprime(0, 1, 0, 1);
      PowMonotone(10, 0, MAX_SCALE);
      return Ok(zero);
    }
    var f := if value.exponent >= 0
      then Reduce(coefficient * Pow(10, value.exponent), 1)
      else Reduce(coefficient, Pow(10, -value.exponent));
    assert f.num * Den(value) == Num(value) * f.den;
    EnvelopeFraction(value, f);
    var guard := ValidateFractionIntermediate(f);
    assert guard.Ok?;
    return Ok(f);
  }

  /** A fraction no larger than the spelling of an admitted Decimal passes the guard. */
  lemma EnvelopeFraction(v: Decimal, f: Fraction)
    requires InEnvelope(v) && v.coefficient != 0
    requires f.den > 0 && Abs(f.num) <= Abs(Num(v)) && f.den <= Den(v)
    ensures Abs(f.num) <= Pow(10, MAX_INTEGER_DIGITS) && f.den <= Pow(10, MAX_SCALE) && Bounded(f)
  {
    hide Bounded;
    EnvelopeMagnitude(v);
    PowAdd(10, 1, MAX_INTEGER_DIGITS);
    BoundedBelow(f, MAX_INTEGER_DIGITS + 1);
  }

  // -------------------------------------------------- Fraction to Decimal

  /** The spelling `terminating_decimal` always returns: the least non-negative scale, and plain
      zero for zero. */
  predicate Normalized(v: Decimal) {
    v.Finite? && v.exponent <= 0 && (v.exponent < 0 ==> v.coefficient % 10 != 0) &&
    (v.coefficient == 0 ==> v == ZERO)
  }

  method DecimalFromScaledInteger(coefficient: int, scale: int) returns (r: Result<Decimal>)
    ensures r.Ok? <==> 0 <= scale <= MAX_SCALE && InEnvelope(Finite(coefficient < 0, Abs(coefficient), 0 - scale))
    ensures r.Ok? ==> r.value == if coefficient == 0 then ZERO else Finite(coefficient < 0, Abs(coefficient), 0 - scale)
    ensures r.Err? ==> r.error in {NegativeScale, ScaleTooLarge, TooManySignificantDigits, TooManyIntegerDigits}
  {
    if scale < 0 {
      return Err(NegativeScale);
    }
    if scale > MAX_SCALE {
      return Err(ScaleTooLarge);
    }
    if coefficient == 0 {
      return Ok(ZERO);
    }
    var absolute := Abs(coefficient);
    var digitCount := IntegerDigitCount(absolute, MAX_SIGNIFICANT_DIGITS);
    if digitCount > MAX_SIGNIFICANT_DIGITS {
      return Err(TooManySignificantDigits);
    }
    if Max(digitCount - scale, 0) > MAX_INTEGER_DIGITS {
      return Err(TooManyIntegerDigits);
    }
    var digits: seq<nat> := [];
    while absolute > 0
      invariant absolute > 0 ==> Digits(absolute) + digits == Digits(Abs(coefficient))
      invariant absolute == 0 ==> digits == Digits(Abs(coefficient))
    {
      digits := [absolute % 10] + digits;
      absolute := absolute / 10;
    }
    HornerDigits(Abs(coefficient));
    return Ok(Finite(coefficient < 0, Horner(digits), 0 - scale));
  }

  /** The written scale of a Decimal, so that `Den(v) == 10^ScaleOf(v)`. */
  function ScaleOf(v: Decimal): (k: nat)
    requires v.Finite?
    ensures Den(v) == Pow(10, k)
  {
    if v.exponent >= 0 then 0 else -v.exponent
  }

  lemma EnvelopeDigits(v: Decimal)
    requires InEnvelope(v) && v.coefficient != 0
    ensures ScaleOf(v) <= MAX_SCALE
    ensures DigitCount(Abs(Num(v))) <= MAX_SIGNIFICANT_DIGITS
    ensures DigitCount(Abs(Num(v))) - ScaleOf(v) <= MAX_INTEGER_DIGITS
  {
    hide DigitCount, Pow;
    if v.exponent >= 0 {
      NumMagnitude(v);
      DigitCountShift(v.coefficient, v.exponent);
    }
  }

  lemma NumMagnitude(v: Decimal)
    requires v.Finite? && v.exponent >= 0
    ensures Abs(Num(v)) == v.coefficient * Pow(10, v.exponent)
  {
    hide Pow;
    AbsScaled(v.coefficient, Pow(10, v.exponent));
    AbsScaled(0 - v.coefficient, Pow(10, v.exponent));
  }

  /** A reduced fraction equal to `x / y` has a denominator dividing `y` and is no larger. */
  lemma ReducedIsLeast(f: Fraction, x: int, y: nat)
    requires f.Valid() && y > 0 && x * f.den == f.num * y
    ensures Divides(f.den, y) && Abs(f.num) <= Abs(x) && f.den <= y
  {
    DividesProduct(f.den, x);
    CoprimeDivides(f.den, f.num, y);
    var g := Reduce(x, y);
    assert f.num * g.den == g.num * f.den by {
      ValueTransfer(g.num, g.den, x, y, f.num, f.den);
    }
    ReducedUnique(f, g);
  }

  /** In particular it divides the power of ten of every Decimal that spells it. */
  lemma SpellingDivides(f: Fraction, v: Decimal)
    requires f.Valid() && HasValue(v, f.num, f.den)
    ensures Divides(f.den, Pow(10, ScaleOf(v)))
    ensures Abs(f.num) <= Abs(Num(v)) && f.den <= Den(v)
  {
    ReducedIsLeast(f, Num(v), Den(v));
  }

  lemma EnvelopeScale(f: Fraction, v: Decimal) returns (k: nat)
    requires f.Valid() && InEnvelope(v) && HasValue(v, f.num, f.den)
    ensures k <= MAX_SCALE && Divides(f.den, Pow(10, k))
  {
    if v.coefficient != 0 {
      k := ScaleOf(v);
      EnvelopeDigits(v);
      SpellingDivides(f, v);
    } else {
      k := 0;
      ReducedUnique(f, Reduce(0, 1));
      assert f.den == 1;
    }
  }

  lemma RepresentableBounded(f: Fraction)
    requires f.Valid() && Representable(f.num, f.den)
    ensures Bounded(f)
  {
    hide Bounded;
    var v: Decimal :| InEnvelope(v) && HasValue(v, f.num, f.den);
    SpellingDivides(f, v);
    if v.coefficient == 0 {
      assert f.num == 0;
      ReducedUnique(f, Reduce(0, 1));
      ZeroIsBounded(f);
    } else {
      EnvelopeFraction(v, f);
    }
  }

  lemma ZeroIsBounded(f: Fraction)
    requires f.num == 0 && f.den == 1
    ensures Bounded(f)
  {
  }

  /** `2^a * 5^b * rest` with nothing of two or five left in `rest`: what the two stripping
      loops of `terminating_decimal` compute. */
  ghost predicate Stripped(den: int, a: nat, b: nat, rest: nat)
  {
    rest > 0 && den == Pow(2, a) * Pow(5, b) * rest
  }

  lemma FactorDivides(den: int, a: nat, b: nat, rest: nat)
    requires Stripped(den, a, b, rest)
    ensures den > 0 && Divides(Pow(2, a), den) && Divides(Pow(5, b), den) && Divides(rest, den)
  {
    var x, y := Pow(2, a), Pow(5, b);
    MulAssoc(x, y, rest);
    MulMono(1, x * y, rest);
    DividesProduct(x, y * rest);
    DividesProduct(rest, x * y);
    assert den == y * (x * rest) by { MulAssoc(y, x, rest); }
    DividesProduct(y, x * rest);
  }

  /** Each of the loop counters is a lower bound on every power of ten the denominator divides,
      and a leftover factor rules out all of them. */
  lemma StrippedBounds(den: nat, a: nat, b: nat, rest: nat, k: nat)
    requires den > 0 && Stripped(den, a, b, rest) && Divides(den, Pow(10, k))
    ensures a <= k && b <= k
    ensures rest % 2 != 0 && rest % 5 != 0 ==> rest == 1
  {
    FactorDivides(den, a, b, rest);
    PrimePowerScale(den, 2, 5, a, k);
    PrimePowerScale(den, 5, 2, b, k);
    DividesTransitive(rest, den, Pow(10, k));
    if rest % 2 != 0 && rest % 5 != 0 {
      CoprimeToTenPower(rest, k);
    }
  }

  lemma PrimePowerScale(den: nat, p: nat, q: nat, e: nat, k: nat)
    requires (p == 2 && q == 5) || (p == 5 && q == 2)
    requires den > 0 && Divides(Pow(p, e), den) && Divides(den, Pow(10, k))
    ensures e <= k
  {
    DividesTransitive(Pow(p, e), den, Pow(10, k));
    assert Pow(10, k) == Pow(p, k) * Pow(q, k) by { PowOfProduct(p, q, k); }
    PowNotDivisible(q, p, k);
    PrimePowerBound(p, e, k, Pow(q, k));
  }

  /** Some finite decimal expansion, of whatever length, has this denominator. */
  ghost predicate Terminates(den: nat)
    requires den > 0
  {
    exists k: nat :: Divides(den, Pow(10, k))
  }

  /** The scaled coefficient spells the fraction. */
  lemma ScaledValue(num: int, den: int, a: nat, b: nat, scale: nat)
    requires Stripped(den, a, b, 1) && a <= scale && b <= scale
    ensures num * Pow(2, scale - a) * Pow(5, scale - b) * den == num * Pow(10, scale)
  {
    var p, q := Pow(2, scale - a), Pow(5, scale - b);
    var x, y := Pow(2, a), Pow(5, b);
    PowAdd(2, scale - a, a);
    PowAdd(5, scale - b, b);
    PowOfProduct(2, 5, scale);
    assert (p * q) * (x * y) == (p * x) * (q * y) by { MulShuffle(p, q, x, y); }
    assert num * p * q * den == num * ((p * q) * (x * y)) by {
      MulAssoc(num, p, q);
      MulAssoc(num, p * q, x * y);
    }
  }

  /** Every spelling is the least-scale one padded with zeros. */
  lemma PaddedSpelling(num: int, den: nat, x: int, k: nat, coefficient: int, scale: nat)
    requires den > 0 && scale <= k
    requires x * den == num * Pow(10, k) && coefficient * den == num * Pow(10, scale)
    ensures x == coefficient * Pow(10, k - scale)
  {
    var t := Pow(10, k - scale);
    PowAdd(10, scale, k - scale);
    MulAssoc(num, Pow(10, scale), t);
    MulAssoc(coefficient, den, t);
    MulAssoc(coefficient, t, den);
    MulCancel(x, coefficient * t, den);
  }

  /** At the least scale every spelling inside the envelope shrinks to one inside it. */
  lemma LeastScaleFits(f: Fraction, v: Decimal, coefficient: int, scale: nat)
    requires f.Valid() && InEnvelope(v) && HasValue(v, f.num, f.den)
    requires coefficient * f.den == f.num * Pow(10, scale) && scale <= ScaleOf(v)
    ensures InEnvelope(Finite(coefficient < 0, Abs(coefficient), 0 - scale))
  {
    var k := ScaleOf(v);
    PaddedSpelling(f.num, f.den, Num(v), k, coefficient, scale);
    if coefficient != 0 {
      AbsScaled(coefficient, Pow(10, k - scale));
      DigitCountShift(Abs(coefficient), k - scale);
      EnvelopeDigits(v);
    }
  }

  lemma AbsScaled(c: int, p: nat)
    ensures Abs(c * p) == Abs(c) * p
    ensures c != 0 && p > 0 ==> c * p != 0
  {
    if c < 0 {
      MulMono(c, 0, p);
      assert (-c) * p == -(c * p);
      MulMono(1, -c, p);
    } else {
      MulMono(0, c, p);
      if c > 0 { MulMono(1, c, p); }
    }
  }

  /** At the least scale the coefficient has no trailing zero. */
  lemma LeastScaleNormal(f: Fraction, a: nat, b: nat, scale: nat, coefficient: int)
    requires f.Valid() && Stripped(f.den, a, b, 1) && scale == Max(a, b) > 0
    requires coefficient == f.num * Pow(2, scale - a) * Pow(5, scale - b)
    ensures Abs(coefficient) % 10 != 0
  {
    FactorDivides(f.den, a, b, 1);
    assert Pow(2, 0) == 1 && Pow(5, 0) == 1;
    if a == scale {
      PowNotDivisible(5, 2, scale - b);
      PrimeNotInCoefficient(f, 2, a, Pow(5, scale - b), coefficient);
    } else {
      PowNotDivisible(2, 5, scale - a);
      PrimeNotInCoefficient(f, 5, b, Pow(2, scale - a), coefficient);
    }
  }

  lemma PrimeNotInCoefficient(f: Fraction, p: nat, e: nat, m: nat, coefficient: int)
    requires f.Valid() && (p == 2 || p == 5) && e > 0 && Divides(Pow(p, e), f.den)
    requires m % p != 0 && coefficient == f.num * m
    ensures Abs(coefficient) % 10 != 0
  {
    if Abs(coefficient) % 10 == 0 {
      TenDividesBoth(coefficient);
      PrimeDividesFactor(p, m, f.num);
      assert Divides(p, f.den) by {
        DividesProduct(p, Pow(p, e - 1));
        DividesTransitive(p, Pow(p, e), f.den);
      }
      CommonDivisorOfCoprime(p, f.num, f.den);
      assert false;
    }
  }

  lemma TenDividesBoth(c: int)
    requires Abs(c) % 10 == 0
    ensures Divides(2, c) && Divides(5, c)
  {
    var t := if c < 0 then -(Abs(c) / 10) else Abs(c) / 10;
    assert c == 10 * t;
    DividesProduct(2, 5 * t);
    DividesProduct(5, 2 * t);
    assert c == 2 * (5 * t) && c == 5 * (2 * t);
  }

  lemma PrimeDividesFactor(p: nat, m: nat, n: int)
    requires p == 2 || p == 5
    requires m % p != 0 && Divides(p, n * m)
    ensures Divides(p, n)
  {
    var q, r := m / p, m % p;
    var k := DividesQuotient(p, n * m);
    assert n * m == p * (n * q) + n * r by {
      assert n * m == n * (p * q) + n * r;
      MulAssoc(n, p, q);
      MulAssoc(p, n, q);
    }
    assert n * r == p * (k - n * q);
    SmallMultiple(p, r, n, k - n * q);
  }

  lemma SmallMultiple(p: nat, r: nat, n: int, t: int)
    requires p == 2 || p == 5
    requires 0 < r < p && n * r == p * t
    ensures Divides(p, n)
  {
    if r == 1 {
    } else if r == 2 {
    } else if r == 3 {
    } else {
      assert r == 4;
    }
  }

  lemma CommonDivisorOfCoprime(p: nat, n: int, d: nat)
    requires p > 1 && d > 0 && Divides(p, n) && Divides(p, d)
    ensures !Coprime(Abs(n), d)
  {
    var x, y := GcdBezout(Abs(n), d);
    var q' := DividesQuotient(p, n);
    var q := if n < 0 then -q' else q';
    assert Abs(n) == p * q;
    var r := DividesQuotient(p, d);
    CombineTwoMultiples(p, x, y, q, r);
    DividesProduct(p, x * q + y * r);
    if Coprime(Abs(n), d) {
      DividesAtMost(p, 1);
      assert false;
    }
  }

  lemma CombineTwoMultiples(p: int, x: int, y: int, q: int, r: int)
    ensures x * (p * q) + y * (p * r) == p * (x * q + y * r)
  {
    assert x * (p * q) == p * (x * q) by { MulAssoc(x, p, q); MulAssoc(p, x, q); }
    assert y * (p * r) == p * (y * r) by { MulAssoc(y, p, r); MulAssoc(p, y, r); }
  }

  lemma NothingStripped(den: nat)
    requires den > 0
    ensures Stripped(den, 0, 0, den)
  {
  }

  /** `terminating_decimal`: the two early exits, the leftover test and the envelope test of the
      scaled integer together succeed exactly when some Decimal in the envelope has this value. */
  method TerminatingDecimal(value: Fraction) returns (r: Result<Decimal>)
    requires value.Valid()
    ensures r.Ok? <==> Representable(value.num, value.den)
    ensures r.Ok? ==> InEnvelope(r.value) && HasValue(r.value, value.num, value.den) && Normalized(r.value)
    ensures r.Err? && r.error in {NumeratorTooLarge, DenominatorTooLarge} ==> !Bounded(value)
    ensures r == Err(NonTerminating) ==> !Terminates(value.den)
  {
    hide Stripped, Pow, Representable, Divides, Bounded;
    NothingStripped(value.den);
    var guard := ValidateFractionIntermediate(value);
    if guard.Err? {
      if Representable(value.num, value.den) { RepresentableBounded(value); }
      return Err(guard.error);
    }
    var denominator: nat := value.den;
    var powersOfTwo, powersOfFive := 0, 0;
    while denominator % 2 == 0
      invariant Stripped(value.den, powersOfTwo, 0, denominator)
      invariant powersOfTwo <= MAX_SCALE
      decreases denominator
    {
      StripTwo(value.den, powersOfTwo, denominator);
      denominator := denominator / 2;
      powersOfTwo := powersOfTwo + 1;
      if powersOfTwo > MAX_SCALE {
        Unspellable(value, powersOfTwo, 0, denominator);
        return Err(ScaleTooLarge);
      }
    }
    while denominator % 5 == 0
      invariant Stripped(value.den, powersOfTwo, powersOfFive, denominator)
      invariant denominator % 2 != 0
      invariant powersOfFive <= MAX_SCALE
      decreases denominator
    {
      StripFive(value.den, powersOfTwo, powersOfFive, denominator);
      denominator := denominator / 5;
      powersOfFive := powersOfFive + 1;
      if powersOfFive > MAX_SCALE {
        Unspellable(value, powersOfTwo, powersOfFive, denominator);
        return Err(ScaleTooLarge);
      }
    }
    if denominator != 1 {
      Unspellable(value, powersOfTwo, powersOfFive, denominator);
      forall k: nat ensures !Divides(value.den, Pow(10, k)) {
        if Divides(value.den, Pow(10, k)) {
          StrippedBounds(value.den, powersOfTwo, powersOfFive, denominator, k);
        }
      }
      return Err(NonTerminating);
    }
    var scale := Max(powersOfTwo, powersOfFive);
    var coefficient := value.num;
    coefficient := coefficient * Pow(2, scale - powersOfTwo);
    coefficient := coefficient * Pow(5, scale - powersOfFive);
    r := DecimalFromScaledInteger(coefficient, scale);
    ScaledResult(value, powersOfTwo, powersOfFive, scale, coefficient);
  }

  lemma StripTwo(den: int, a: nat, rest: nat)
    requires Stripped(den, a, 0, rest) && rest % 2 == 0
    ensures Stripped(den, a + 1, 0, rest / 2)
  {
    var h := rest / 2;
    assert rest == 2 * h;
    assert Pow(2, a) * (2 * h) == (2 * Pow(2, a)) * h by { MulAssoc(Pow(2, a), 2, h); }
    assert Pow(5, 0) == 1;
  }

  lemma StripFive(den: int, a: nat, b: nat, rest: nat)
    requires Stripped(den, a, b, rest) && rest % 5 == 0 && rest % 2 != 0
    ensures Stripped(den, a, b + 1, rest / 5) && (rest / 5) % 2 != 0
  {
    var h, x, y := rest / 5, Pow(2, a), Pow(5, b);
    assert rest == 5 * h;
    assert h % 2 != 0 by { if h % 2 == 0 { assert rest == 2 * (5 * (h / 2)); DividesProduct(2, 5 * (h / 2)); } }
    assert (x * y) * (5 * h) == (x * (5 * y)) * h by {
      MulAssoc(x * y, 5, h);
      MulAssoc(x, y, 5);
    }
  }

  lemma Unspellable(f: Fraction, a: nat, b: nat, rest: nat)
    requires f.Valid() && Stripped(f.den, a, b, rest)
    requires a > MAX_SCALE || b > MAX_SCALE || (rest % 2 != 0 && rest % 5 != 0 && rest != 1)
    ensures !Representable(f.num, f.den)
  {
    if Representable(f.num, f.den) {
      var v: Decimal :| InEnvelope(v) && HasValue(v, f.num, f.den);
      var k := EnvelopeScale(f, v);
      StrippedBounds(f.den, a, b, rest, k);
      assert false;
    }
  }

  lemma ScaledResult(f: Fraction, a: nat, b: nat, scale: nat, coefficient: int)
    requires f.Valid() && Stripped(f.den, a, b, 1) && scale == Max(a, b) <= MAX_SCALE
    requires coefficient == f.num * Pow(2, scale - a) * Pow(5, scale - b)
    ensures var v := Finite(coefficient < 0, Abs(coefficient), 0 - scale);
            && HasValue(v, f.num, f.den)
            && (InEnvelope(v) <==> Representable(f.num, f.den))
            && (coefficient != 0 ==> Normalized(v))
            && (coefficient == 0 ==> HasValue(ZERO, f.num, f.den))
  {
    var v := Finite(coefficient < 0, Abs(coefficient), 0 - scale);
    ScaledValue(f.num, f.den, a, b, scale);
    SpelledAtScale(f, coefficient, scale);
    if coefficient != 0 && scale > 0 {
      LeastScaleNormal(f, a, b, scale, coefficient);
    }
    if Representable(f.num, f.den) {
      SpellingShrinks(f, a, b, scale, coefficient);
    }
  }

  lemma SpelledAtScale(f: Fraction, coefficient: int, scale: nat)
    requires f.Valid() && coefficient * f.den == f.num * Pow(10, scale)
    ensures HasValue(Finite(coefficient < 0, Abs(coefficient), 0 - scale), f.num, f.den)
    ensures coefficient == 0 ==> HasValue(ZERO, f.num, f.den)
  {
    var v := Finite(coefficient < 0, Abs(coefficient), 0 - scale);
    assert Pow(10, 0) == 1;
    assert Num(v) == coefficient && Den(v) == Pow(10, scale);
    if coefficient == 0 && f.num != 0 {
      AbsScaled(f.num, Pow(10, scale));
    }
  }

  lemma SpellingShrinks(f: Fraction, a: nat, b: nat, scale: nat, coefficient: int)
    requires f.Valid() && Stripped(f.den, a, b, 1) && scale == Max(a, b)
    requires coefficient * f.den == f.num * Pow(10, scale) && Representable(f.num, f.den)
    ensures InEnvelope(Finite(coefficient < 0, Abs(coefficient), 0 - scale))
  {
    var w: Decimal :| InEnvelope(w) && HasValue(w, f.num, f.den);
    SpellingDivides(f, w);
    StrippedBounds(f.den, a, b, 1, ScaleOf(w));
    LeastScaleFits(f, w, coefficient, scale);
  }
}
