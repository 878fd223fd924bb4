/** The causal pre-decision risk cut, computed with the exact-decimal operations.

    Amounts are spoken of in units of `10^-256`; times are microseconds from the epoch. */
module RiskCut {
  import opened Arithmetic
  import opened ExactDecimal
  import opened ExactOperations
  import opened DecimalPreflight
  import DecimalText
  import opened Rounding

  const DAY_MICROS := 86400000000

  datatype Completed = Completed(episode: int, reconciled: bool, cash: Input, position: Input, equity: Input)

  datatype Cut = Cut(
    episode: int, observedAt: int, cash: Decimal, position: Decimal, equity: Decimal,
    dailyStart: Decimal, peak: Decimal, drawdown: Decimal, dailyPnl: Decimal)

  datatype Outcome<+T> = Ready(value: T) | Rejected

  // ------------------------------------------------------------ amounts

  ghost predicate Admitted(i: Input) {
    InEnvelope(Stands(i, true))
  }

  ghost function U(i: Input): int
    requires Admitted(i)
  {
    Units(Stands(i, true))
  }

  /** The amount an input stands for; zero where it is not admitted. */
  ghost function Amount(i: Input): int {
    if Admitted(i) then U(i) else 0
  }

  /** The Decimal an input is read as. */
  ghost function Reading(i: Input): (d: Decimal)
    ensures InEnvelope(d) && Units(d) == Amount(i)
  {
    if !Admitted(i) || Stands(i, true).coefficient == 0 then ZERO else Stands(i, true)
  }

  method Dec(i: Input) returns (r: Outcome<Decimal>)
    ensures r.Ready? <==> Admitted(i)
    ensures r.Ready? ==> r.value == Reading(i)
  {
    var parsed := ParseBoundedExactDecimal(i, true);
    if parsed.Err? {
      return Rejected;
    }
    return Ready(parsed.value);
  }

  /** Decimal comparison is comparison of the exact values. */
  function Less(a: Decimal, b: Decimal): bool
    requires a.Finite? && b.Finite?
  {
    Num(a) * Den(b) < Num(b) * Den(a)
  }

  lemma LessIsUnits(a: Decimal, b: Decimal)
    requires InEnvelope(a) && InEnvelope(b)
    ensures Less(a, b) <==> Units(a) < Units(b)
    ensures Num(a) * Den(b) == Num(b) * Den(a) <==> Units(a) == Units(b)
  {
    UnitsAreTheValue(a);
    UnitsAreTheValue(b);
    var x, y, p, q := Num(a), Num(b), Den(a), Den(b);
    assert (x * q) * UNIT == Units(a) * (p * q) by {
      MulAssoc(x, q, UNIT);
      MulAssoc(x, UNIT, q);
      MulAssoc(Units(a), p, q);
    }
    assert (y * p) * UNIT == Units(b) * (p * q) by {
      MulAssoc(y, p, UNIT);
      MulAssoc(y, UNIT, p);
      MulAssoc(Units(b), q, p);
    }
    PositiveProduct(p, q);
    CompareScaled(x * q, y * p, UNIT, Units(a), Units(b), p * q);
  }

  lemma CompareScaled(s: int, t: int, m: int, u: int, v: int, n: int)
    requires m > 0 && n > 0 && s * m == u * n && t * m == v * n
    ensures s < t <==> u < v
    ensures s == t <==> u == v
  {
    if s <= t { MulMono(s, t, m); MulCancelLe(u, v, n); }
    if t <= s { MulMono(t, s, m); MulCancelLe(v, u, n); }
    if u <= v { MulMono(u, v, n); MulCancelLe(s, t, m); }
    if v <= u { MulMono(v, u, n); MulCancelLe(t, s, m); }
  }

  // ------------------------------------------------------------ equity

  /** Both the marked position and its sum with the cash are representable. */
  ghost predicate EquityDefined(cash: int, position: int, mark: int) {
    exists u :: u * UNIT == position * mark && UnitsRepresentable(u) && UnitsRepresentable(cash + u)
  }

  ghost function EquityUnits(cash: int, position: int, mark: int): int {
    cash + (position * mark) / UNIT
  }

  lemma MarkedUnits(u: int, position: int, mark: int)
    requires u * UNIT == position * mark
    ensures (position * mark) / UNIT == u
  {
    DividesProduct(UNIT, u);
  }

  /** The product of two admitted Decimals in units. */
  lemma ProductUnits(a: Decimal, b: Decimal, u: int)
    requires InEnvelope(a) && InEnvelope(b)
    ensures var f := Product([a, b]); f.num * UNIT == u * f.den <==> u * UNIT == Units(a) * Units(b)
  {
    ProductOfTwo(a, b);
    UnitsAreTheValue(a);
    UnitsAreTheValue(b);
    var f := Product([a, b]);
    var n, d := Num(a) * Num(b), Den(a) * Den(b);
    PositiveProduct(Den(a), Den(b));
    PositiveProduct(UNIT, UNIT);
    MulShuffle(Num(a), Num(b), UNIT, UNIT);
    MulShuffle(Units(a), Units(b), Den(a), Den(b));
    ValueTransfer(f.num, f.den, n, d, Units(a) * Units(b), UNIT * UNIT);
    TwoScales(f.num, f.den, u, Units(a) * Units(b));
  }

  lemma TwoScales(n: int, d: int, u: int, w: int)
    requires d > 0 && n * (UNIT * UNIT) == w * d
    ensures n * UNIT == u * d <==> u * UNIT == w
  {
    assert (n * UNIT) * UNIT == w * d by { MulAssoc(n, UNIT, UNIT); }
    assert (u * UNIT) * d == (u * d) * UNIT by { MulAssoc(u, UNIT, d); MulAssoc(u, d, UNIT); }
    if n * UNIT == u * d {
      MulCancel(u * UNIT, w, d);
    }
    if u * UNIT == w {
      MulCancel(n * UNIT, u * d, UNIT);
    }
  }

  method Marked(position: Decimal, mark: Decimal) returns (r: Outcome<Decimal>)
    requires InEnvelope(position) && InEnvelope(mark)
    ensures r.Ready? <==> exists u :: u * UNIT == Units(position) * Units(mark) && UnitsRepresentable(u)
    ensures r.Ready? ==> InEnvelope(r.value) && Units(r.value) * UNIT == Units(position) * Units(mark)
  {
    ghost var values := [position, mark];
    ghost var f := Product(values);
    ThreeFactorsNeverGuarded(values);
    var product := ExactMultiply([position, mark]);
    if product.Err? {
      forall u | u * UNIT == Units(position) * Units(mark) ensures !UnitsRepresentable(u) {
        ProductUnits(position, mark, u);
        RepresentableUnits(f.num, f.den, u);
      }
      return Rejected;
    }
    ghost var u := Units(product.value);
    UnitsAreTheValue(product.value);
    ValueTransfer(f.num, f.den, Num(product.value), Den(product.value), u, UNIT);
    ProductUnits(position, mark, u);
    assert UnitsRepresentable(u);
    return Ready(product.value);
  }

  method Equity(cash: Decimal, position: Decimal, mark: Decimal) returns (r: Outcome<Decimal>)
    requires InEnvelope(cash) && InEnvelope(position) && InEnvelope(mark)
    ensures r.Ready? <==> EquityDefined(Units(cash), Units(position), Units(mark))
    ensures r.Ready? ==> InEnvelope(r.value) && Normalized(r.value) &&
                         Units(r.value) == EquityUnits(Units(cash), Units(position), Units(mark))
    ensures r.Ready? ==> (Units(r.value) - Units(cash)) * UNIT == Units(position) * Units(mark)
  {
    var value := Marked(position, mark);
    if value.Rejected? {
      return Rejected;
    }
    ghost var u := Units(value.value);
    MarkedUnits(u, Units(position), Units(mark));
    forall w | w * UNIT == Units(position) * Units(mark) ensures w == u {
      MulCancel(w, u, UNIT);
    }
    var sum := ExactAdd(cash, value.value);
    if sum.Err? {
      return Rejected;
    }
    assert UnitsRepresentable(u) && UnitsRepresentable(Units(cash) + u);
    return Ready(sum.value);
  }

  // ---------------------------------------------------------- the drawdown

  const QUANTUM := Finite(false, 1, -18)

  ghost const QUANTUM_UNITS: nat := Pow(10, MAX_SCALE - 18)

  lemma QuantumUnits()
    ensures InEnvelope(QUANTUM) && Units(QUANTUM) == QUANTUM_UNITS > 0
  {
  }

  /** The number of quanta not below `(peak - equity) / peak`. */
  ghost function DrawdownQuanta(peak: int, equity: int): (k: int) {
    if peak <= 0 then 0
    else
      PositiveProduct(peak, QUANTUM_UNITS);
      var b := peak * QUANTUM_UNITS;
      -((-((peak - equity) * UNIT)) / b)
  }

  ghost predicate DrawdownDefined(peak: int, equity: int) {
    UnitsRepresentable(peak - equity) && UnitsRepresentable(DrawdownQuanta(peak, equity) * QUANTUM_UNITS)
  }

  /** The rounded drawdown is never below the true fraction and less than `10^-18` above it. */
  lemma DrawdownTight(peak: int, equity: int)
    requires peak > 0
    ensures var d := DrawdownQuanta(peak, equity) * QUANTUM_UNITS;
            (peak - equity) * UNIT <= d * peak < (peak - equity) * UNIT + peak * QUANTUM_UNITS
  {
    PositiveProduct(peak, QUANTUM_UNITS);
    var a, b, k := (peak - equity) * UNIT, peak * QUANTUM_UNITS, DrawdownQuanta(peak, equity);
    CeilingIs(a, b);
    assert (k - 1) * b == k * b - b;
    assert (k * QUANTUM_UNITS) * peak == k * b by {
      MulAssoc(k, QUANTUM_UNITS, peak);
    }
  }

  lemma RatioWithinGuards(f: Fraction, d: int, peak: int, k: nat)
    requires f.Valid() && peak > 0 && f.num * peak == d * f.den
    requires Abs(d) < Pow(10, k) && peak < Pow(10, k) && 1 <= k && k + MAX_SCALE <= MAX_RATIONAL_DIGITS
    ensures Bounded(f)
    ensures Bounded(QuantaOf(f, QUANTUM_UNITS))
  {
    hide Bounded;
    ReducedIsLeast(f, d, peak);
    PowMonotone(10, k, k + MAX_SCALE);
    BoundedBelow(f, k + MAX_SCALE);
    PositiveProduct(f.den, QUANTUM_UNITS);
    var g := QuantaOf(f, QUANTUM_UNITS);
    PowAdd(10, k, MAX_SCALE);
    PowMonotone(10, MAX_SCALE - 18, MAX_SCALE);
    AbsScaled(f.num, UNIT);
    ProductBelow(Abs(f.num), Pow(10, k), UNIT);
    ProductBelow(f.den, Pow(10, k), QUANTUM_UNITS);
    MulMono(QUANTUM_UNITS, UNIT, Pow(10, k));
    BoundedBelow(g, k + MAX_SCALE);
  }

  lemma ProductBelow(a: int, b: int, c: int)
    requires a < b && c > 0
    ensures a * c < b * c
  {
    MulMono(a + 1, b, c);
    assert (a + 1) * c == a * c + c;
  }

  /** `as_fraction(exact_subtract(peak, equity)) / as_fraction(peak)`, rounded up. */
  method Drawdown(peak: Decimal, equity: Decimal) returns (r: Outcome<Decimal>)
    requires InEnvelope(peak) && InEnvelope(equity) && Units(peak) > 0
    ensures r.Ready? <==> DrawdownDefined(Units(peak), Units(equity))
    ensures r.Ready? ==> InEnvelope(r.value) && Normalized(r.value) &&
                         Units(r.value) == DrawdownQuanta(Units(peak), Units(equity)) * QUANTUM_UNITS
  {
    hide Pow, UnitsRepresentable, InEnvelope, Units, DrawdownQuanta;
    var difference := ExactSubtract(peak, equity);
    if difference.Err? {
      return Rejected;
    }
    var x := AsFraction(difference.value);
    var y := AsFraction(peak);
    assert x.Ok? && y.Ok?;
    ghost var d, p := Units(difference.value), Units(peak);
    WorthOfDecimal(difference.value, x.value);
    WorthOfDecimal(peak, y.value);
    WorthSign(y.value, p);
    var ratio := Divide(x.value, y.value);
    QuantaOfDecimal(x.value, y.value, d, p);
    QuantumUnits();
    UnitsAreTheValue(difference.value);
    UnitsAreTheValue(peak);
    RatioWithinGuards(ratio, d, p, MAX_INTEGER_DIGITS + MAX_SCALE);
    RatioRounds(ratio, d, p, p - d);
    var rounded := RoundFractionToQuantum(ratio, QUANTUM, "CEILING");
    ghost var k := DrawdownQuanta(p, Units(equity));
    forall j | Rounded("CEILING", ratio, QUANTUM_UNITS, j) ensures j == k {
      RoundedUnique("CEILING", ratio, QUANTUM_UNITS, j, k);
    }
    if rounded.Err? {
      return Rejected;
    }
    return Ready(rounded.value);
  }

  lemma RatioRounds(ratio: Fraction, d: int, peak: int, equity: int)
    requires ratio.Valid() && peak > 0 && d == peak - equity && ratio.num * peak == d * ratio.den
    ensures Rounded("CEILING", ratio, QUANTUM_UNITS, DrawdownQuanta(peak, equity))
  {
    PositiveProduct(peak, QUANTUM_UNITS);
    PositiveProduct(ratio.den, QUANTUM_UNITS);
    var a, b, k := d * UNIT, peak * QUANTUM_UNITS, DrawdownQuanta(peak, equity);
    CeilingIs(a, b);
    MulShuffle(d, UNIT, ratio.den, QUANTUM_UNITS);
    MulShuffle(ratio.num, UNIT, peak, QUANTUM_UNITS);
    SameRatioRounds("CEILING", a, b, ratio.num * UNIT, ratio.den * QUANTUM_UNITS, k);
  }

  // -------------------------------------------------- what the cut must be

  function Day(t: int): int {
    t / DAY_MICROS
  }

  /** One completed episode is coherent with the stream before `now`. */
  ghost predicate EpisodeOk(completed: seq<Completed>, prices: seq<Input>, times: seq<int>, i: nat, now: int)
    requires i < |completed| <= |prices| && |prices| == |times|
  {
    var c := completed[i];
    && c.episode == i + 1 && c.reconciled
    && (i > 0 ==> times[i - 1] < times[i]) && times[i] < now
    && Admitted(prices[i]) && Admitted(c.cash) && Admitted(c.position) && Admitted(c.equity)
    && (U(c.equity) - U(c.cash)) * UNIT == U(c.position) * U(prices[i])
    && UnitsRepresentable(U(c.equity) - U(c.cash))
  }

  ghost predicate PrefixOk(completed: seq<Completed>, prices: seq<Input>, times: seq<int>, n: nat, now: int)
    requires n <= |completed| <= |prices| && |prices| == |times|
  {
    forall i :: 0 <= i < n ==> EpisodeOk(completed, prices, times, i, now)
  }

  ghost function Equities(completed: seq<Completed>): (s: seq<int>)
    ensures |s| == |completed| && forall i :: 0 <= i < |s| ==> s[i] == Amount(completed[i].equity)
  {
    if completed == [] then []
    else Equities(completed[..|completed| - 1]) + [Amount(completed[|completed| - 1].equity)]
  }

  /** The greatest of `base` and the first `n` equities. */
  ghost function PeakUnits(equities: seq<int>, n: nat, base: int): (peak: int)
    requires n <= |equities|
    ensures peak >= base
    decreases n
  {
    if n == 0 then base else Max(PeakUnits(equities, n - 1, base), equities[n - 1])
  }

  /** The equity of the last of the first `n` episodes on an earlier UTC day, or the start. */
  ghost function LastEarlier<T>(equities: seq<T>, times: seq<int>, n: nat, now: int, start: T): T
    requires n <= |equities| && n <= |times|
    decreases n
  {
    if n == 0 then start
    else if Day(times[n - 1]) < Day(now) then equities[n - 1]
    else LastEarlier(equities, times, n - 1, now, start)
  }

  /** Cash and position after the completed episodes. */
  ghost function LastCash(completed: seq<Completed>, start: Decimal): Decimal {
    if completed == [] then start else Reading(completed[|completed| - 1].cash)
  }

  ghost function LastPosition(completed: seq<Completed>): Decimal {
    if completed == [] then ZERO else Reading(completed[|completed| - 1].position)
  }

  ghost function Readings(completed: seq<Completed>): (s: seq<Decimal>)
    ensures Matches(s, Equities(completed))
    ensures forall i :: 0 <= i < |s| ==> s[i] == Reading(completed[i].equity)
  {
    seq(|completed|, i requires 0 <= i < |completed| => Reading(completed[i].equity))
  }

  ghost predicate Matches(equities: seq<Decimal>, units: seq<int>) {
    |equities| == |units| && forall i :: 0 <= i < |units| ==> InEnvelope(equities[i]) && Units(equities[i]) == units[i]
  }

  /** The first greatest of the starting cash, the current equity and the first `n` equities. */
  ghost function FirstGreatest(starting: Decimal, equity: Decimal, equities: seq<Decimal>, n: nat): (peak: Decimal)
    requires starting.Finite? && equity.Finite? && n <= |equities|
    requires forall i :: 0 <= i < |equities| ==> equities[i].Finite?
    ensures peak.Finite?
    decreases n
  {
    if n == 0 then if Less(starting, equity) then equity else starting
    else
      var peak := FirstGreatest(starting, equity, equities, n - 1);
      if Less(peak, equities[n - 1]) then equities[n - 1] else peak
  }

  datatype CutUnits = CutUnits(
    cash: int, position: int, equity: int, dailyStart: int, peak: int, drawdown: int, dailyPnl: int)

  ghost predicate Positive(i: Input) {
    Admitted(i) && U(i) > 0
  }

  /** Shape and admission of the call. */
  ghost predicate CallOk(completed: seq<Completed>, prices: seq<Input>, times: seq<int>, episode: int, initial: Input) {
    && episode == |completed| + 1 && episode <= |prices| && |prices| == |times|
    && Positive(initial) && Positive(prices[episode - 1])
    && PrefixOk(completed, prices, times, |completed|, times[episode - 1])
  }

  /** The values of a cut from the amounts it is made of. */
  ghost function CutFrom(start: int, mark: int, cash: int, position: int, equities: seq<int>, times: seq<int>, now: int): CutUnits
    requires |equities| <= |times|
  {
    var equity := EquityUnits(cash, position, mark);
    var peak := PeakUnits(equities, |equities|, Max(start, equity));
    var dailyStart := LastEarlier(equities, times, |equities|, now, start);
    CutUnits(cash, position, equity, dailyStart, peak, DrawdownQuanta(peak, equity) * QUANTUM_UNITS, equity - dailyStart)
  }

  /** The values of the cut, in units. */
  ghost function CutOf(completed: seq<Completed>, prices: seq<Input>, times: seq<int>, initial: Input): (c: CutUnits)
    requires |completed| < |prices| == |times|
  {
    var n, start := |completed|, Reading(initial);
    var cash, position := LastCash(completed, start), LastPosition(completed);
    CutFrom(Units(start), Amount(prices[n]), Units(cash), Units(position), Equities(completed), times, times[n])
  }

  /** The arithmetic of the cut stays representable, and there is equity left: the risk context
      refuses any other. */
  ghost predicate CutAdmitted(c: CutUnits, mark: int) {
    && EquityDefined(c.cash, c.position, mark) && DrawdownDefined(c.peak, c.equity) && UnitsRepresentable(c.dailyPnl)
    && c.equity > 0
  }

  /** When there is a cut. */
  ghost predicate CutDefined(completed: seq<Completed>, prices: seq<Input>, times: seq<int>, episode: int, initial: Input) {
    CallOk(completed, prices, times, episode, initial) &&
    CutAdmitted(CutOf(completed, prices, times, initial), Amount(prices[episode - 1]))
  }

  ghost predicate Enveloped(cut: Cut) {
    && InEnvelope(cut.cash) && InEnvelope(cut.position) && InEnvelope(cut.equity) && InEnvelope(cut.dailyStart)
    && InEnvelope(cut.peak) && InEnvelope(cut.drawdown) && InEnvelope(cut.dailyPnl)
  }

  ghost function Amounts(cut: Cut): CutUnits
    requires Enveloped(cut)
  {
    CutUnits(Units(cut.cash), Units(cut.position), Units(cut.equity), Units(cut.dailyStart),
             Units(cut.peak), Units(cut.drawdown), Units(cut.dailyPnl))
  }

  ghost predicate Realizes(cut: Cut, c: CutUnits) {
    Enveloped(cut) && c == Amounts(cut)
  }

  /** The one cut there is, to the spelling of its Decimals: inputs as they are read, selections as
      they stand, and results of arithmetic in normal form. */
  ghost predicate IsTheCut(cut: Cut, completed: seq<Completed>, prices: seq<Input>, times: seq<int>, initial: Input)
    requires |completed| < |prices| == |times|
  {
    var n, start, equities := |completed|, Reading(initial), Readings(completed);
    && cut.episode == n + 1 && cut.observedAt == times[n]
    && Realizes(cut, CutOf(completed, prices, times, initial))
    && cut.cash == LastCash(completed, start) && cut.position == LastPosition(completed)
    && Normalized(cut.equity) && Normalized(cut.drawdown) && Normalized(cut.dailyPnl)
    && cut.peak == FirstGreatest(start, cut.equity, equities, n)
    && cut.dailyStart == LastEarlier(equities, times, n, times[n], start)
  }

  lemma CutIsUnique(
    a: Cut, b: Cut, completed: seq<Completed>, prices: seq<Input>, times: seq<int>, initial: Input)
    requires |completed| < |prices| == |times|
    requires IsTheCut(a, completed, prices, times, initial) && IsTheCut(b, completed, prices, times, initial)
    ensures a == b
  {
    DecimalText.NormalizedUnique(a.equity, b.equity);
    DecimalText.NormalizedUnique(a.drawdown, b.drawdown);
    DecimalText.NormalizedUnique(a.dailyPnl, b.dailyPnl);
  }

  // ------------------------------------------- what the cut is, on its own terms

  /** The same cut described by what its amounts are to each other: cash and position are the last
      completed ones, equity is cash plus the position at the current mark, the daily profit makes up
      the difference to the equity before the UTC midnight that starts this day, the peak is the
      greatest amount seen, the drawdown is the loss from it in whole quanta, rounded up. */
  ghost predicate IsACut(cut: Cut, completed: seq<Completed>, prices: seq<Input>, times: seq<int>, initial: Input)
    requires |completed| < |prices| == |times|
  {
    && cut.episode == |completed| + 1 && cut.observedAt == times[|completed|]
    && Enveloped(cut)
    && Describes(Amounts(cut), completed, Amount(prices[|completed|]), times, Amount(initial))
  }

  ghost predicate Describes(c: CutUnits, completed: seq<Completed>, mark: int, times: seq<int>, start: int)
    requires |completed| < |times|
  {
    var n := |completed|;
    && c.cash == (if n == 0 then start else Amount(completed[n - 1].cash))
    && c.position == (if n == 0 then 0 else Amount(completed[n - 1].position))
    && (c.equity - c.cash) * UNIT == c.position * mark
    && c.equity > 0
    && c.dailyPnl + c.dailyStart == c.equity
    && (exists i :: 0 <= i <= n && StartsToday(times, i, n) &&
          c.dailyStart == if i == 0 then start else Amount(completed[i - 1].equity))
    && IsGreatest(c.peak, start, c.equity, completed)
    && IsLoss(c.drawdown, c.peak, c.equity)
  }

  /** Episode `i` is the first at or after the midnight before episode `n`. */
  ghost predicate StartsToday(times: seq<int>, i: nat, n: nat)
    requires i <= n < |times|
  {
    var midnight := times[n] - times[n] % (24 * 3600 * 1000000);
    times[i] >= midnight && forall j :: 0 <= j < i ==> times[j] < midnight
  }

  /** `drawdown` is the least whole number of quanta of `10^-18` not below `(peak - equity) / peak`. */
  ghost predicate IsLoss(drawdown: int, peak: int, equity: int) {
    && (exists k :: drawdown == k * Pow(10, 238))
    && (peak - equity) * UNIT <= drawdown * peak < (peak - equity) * UNIT + peak * Pow(10, 238)
  }

  /** `peak` is the greatest of two amounts and every completed equity. */
  ghost predicate IsGreatest(peak: int, first: int, second: int, completed: seq<Completed>) {
    && peak >= first && peak >= second
    && (forall i :: 0 <= i < |completed| ==> peak >= Amount(completed[i].equity))
    && (peak == first || peak == second || exists i :: 0 <= i < |completed| && peak == Amount(completed[i].equity))
  }

  lemma GreatestUnique(a: int, b: int, first: int, second: int, completed: seq<Completed>)
    requires IsGreatest(a, first, second, completed) && IsGreatest(b, first, second, completed)
    ensures a == b
  {
    hide Amount;
  }

  lemma PeakUnitsIsGreatest(completed: seq<Completed>, first: int, second: int)
    ensures IsGreatest(PeakUnits(Equities(completed), |completed|, Max(first, second)), first, second, completed)
  {
    hide Amount, PeakUnits, Equities;
    var equities, n, base := Equities(completed), |completed|, Max(first, second);
    forall i | 0 <= i < n
      ensures PeakUnits(equities, n, base) >= equities[i]
      ensures PeakUnits(equities, n, base) == base || exists j :: 0 <= j < n && PeakUnits(equities, n, base) == equities[j]
    {
      PeakIsGreatest(equities, n, base, i);
    }
    if n == 0 {
      NoEquities(equities, base);
    } else {
      PeakIsGreatest(equities, n, base, 0);
    }
  }

  lemma NoEquities(equities: seq<int>, base: int)
    ensures PeakUnits(equities, 0, base) == base
  {
  }

  lemma DayStartsAtMidnight(t: int, now: int)
    ensures t < now - now % (24 * 3600 * 1000000) <==> Day(t) < Day(now)
  {
  }

  lemma {:induction false} FirstToday(times: seq<int>, k: nat, n: nat) returns (i: nat)
    requires k <= n < |times|
    requires var midnight := times[n] - times[n] % (24 * 3600 * 1000000);
             forall j :: 0 <= j < k ==> times[j] < midnight
    ensures i <= n && StartsToday(times, i, n)
    decreases n - k
  {
    if times[k] >= times[n] - times[n] % (24 * 3600 * 1000000) {
      i := k;
    } else {
      i := FirstToday(times, k + 1, n);
    }
  }

  lemma EarlierIsBeforeToday<T>(units: seq<T>, times: seq<int>, n: nat, i: nat, start: T)
    requires i <= n == |units| < |times| && StartsToday(times, i, n)
    requires forall j :: 0 < j < n ==> times[j - 1] < times[j]
    ensures LastEarlier(units, times, n, times[n], start) == if i == 0 then start else units[i - 1]
  {
    hide Day;
    var now := times[n];
    DayStartsAtMidnight(times[i], now);
    LaterDays(units, times, i, n, now, start);
    if i > 0 {
      DayStartsAtMidnight(times[i - 1], now);
    }
  }

  lemma AdmittedUnits(i: Input)
    requires Admitted(i)
    ensures UnitsRepresentable(U(i))
  {
  }

  lemma PrefixTimes(completed: seq<Completed>, prices: seq<Input>, times: seq<int>, episode: int, initial: Input)
    requires CallOk(completed, prices, times, episode, initial)
    ensures forall j :: 0 < j < |completed| ==> times[j - 1] < times[j]
    ensures forall i :: 0 <= i < |completed| ==>
              completed[i].episode == i + 1 && completed[i].reconciled && times[i] < times[episode - 1]
  {
    hide Admitted, U;
    forall j | 0 < j < |completed| ensures times[j - 1] < times[j] {
      assert EpisodeOk(completed, prices, times, j, times[episode - 1]);
    }
    forall i | 0 <= i < |completed|
      ensures completed[i].episode == i + 1 && completed[i].reconciled && times[i] < times[episode - 1] {
      assert EpisodeOk(completed, prices, times, i, times[episode - 1]);
    }
  }

  /** The specified amounts up to the profit, once the start of the day is found. */
  lemma CutOfIs(completed: seq<Completed>, prices: seq<Input>, times: seq<int>, initial: Input, i: nat)
    requires CallOk(completed, prices, times, |completed| + 1, initial)
    requires i <= |completed| && StartsToday(times, i, |completed|)
    ensures var n, c := |completed|, CutOf(completed, prices, times, initial);
            && c.cash == (if n == 0 then Amount(initial) else Amount(completed[n - 1].cash))
            && c.position == (if n == 0 then 0 else Amount(completed[n - 1].position))
            && c.equity == EquityUnits(c.cash, c.position, Amount(prices[n]))
            && c.dailyStart == (if i == 0 then Amount(initial) else Amount(completed[i - 1].equity))
            && IsGreatest(c.peak, Amount(initial), c.equity, completed)
            && c.drawdown == DrawdownQuanta(c.peak, c.equity) * QUANTUM_UNITS
            && c.dailyPnl == c.equity - c.dailyStart && c.peak > 0
  {
    PrefixTimes(completed, prices, times, |completed| + 1, initial);
    assert Amount(initial) > 0;
    hide CallOk, IsGreatest, EquityUnits, DrawdownQuanta, LastEarlier, PeakUnits, Equities, StartsToday, Amount;
    var n, start := |completed|, Reading(initial);
    EarlierIsBeforeToday(Equities(completed), times, n, i, Units(start));
    PeakUnitsIsGreatest(completed, Amount(initial), CutOf(completed, prices, times, initial).equity);
    ZeroUnits();
  }

  lemma ZeroUnits()
    ensures InEnvelope(ZERO) && Units(ZERO) == 0
  {
  }

  lemma LossIsRoundedUp(peak: int, equity: int)
    requires peak > 0
    ensures IsLoss(DrawdownQuanta(peak, equity) * QUANTUM_UNITS, peak, equity)
  {
    hide DrawdownQuanta, Pow;
    DrawdownTight(peak, equity);
  }

  lemma LossUnique(drawdown: int, peak: int, equity: int)
    requires peak > 0 && IsLoss(drawdown, peak, equity)
    ensures drawdown == DrawdownQuanta(peak, equity) * QUANTUM_UNITS
  {
    hide DrawdownQuanta, Pow;
    DrawdownTight(peak, equity);
    var k :| drawdown == k * Pow(10, 238);
    SameQuanta(peak, (peak - equity) * UNIT, k, DrawdownQuanta(peak, equity));
  }

  /** The specified amounts answer the description, and nothing else does. */
  lemma DescribesExactly(completed: seq<Completed>, prices: seq<Input>, times: seq<int>, initial: Input, d: CutUnits)
    requires CallOk(completed, prices, times, |completed| + 1, initial)
    ensures var c, mark := CutOf(completed, prices, times, initial), Amount(prices[|completed|]);
            Describes(d, completed, mark, times, Amount(initial)) <==>
              d == c && c.equity > 0 && (c.equity - c.cash) * UNIT == c.position * mark
  {
    hide PrefixOk, Positive, EpisodeOk, CutOf, Amount, IsGreatest, IsLoss, DrawdownQuanta, StartsToday, EquityUnits, Pow;
    var n, c, mark := |completed|, CutOf(completed, prices, times, initial), Amount(prices[|completed|]);
    var i := FirstToday(times, 0, n);
    CutOfIs(completed, prices, times, initial, i);
    LossIsRoundedUp(c.peak, c.equity);
    if Describes(d, completed, mark, times, Amount(initial)) {
      var j :| 0 <= j <= n && StartsToday(times, j, n) &&
        d.dailyStart == if j == 0 then Amount(initial) else Amount(completed[j - 1].equity);
      OneStart(times, i, j, n);
      MarkedEquity(d.cash, d.position, mark, d.equity);
      GreatestUnique(c.peak, d.peak, Amount(initial), c.equity, completed);
      LossUnique(d.drawdown, c.peak, c.equity);
    }
  }

  lemma MarkedEquity(cash: int, position: int, mark: int, equity: int)
    requires (equity - cash) * UNIT == position * mark
    ensures equity == EquityUnits(cash, position, mark)
  {
    MarkedUnits(equity - cash, position, mark);
  }

  lemma OneStart(times: seq<int>, i: nat, j: nat, n: nat)
    requires i <= n < |times| && j <= n && StartsToday(times, i, n) && StartsToday(times, j, n)
    ensures i == j
  {
  }

  lemma MarkedIsRepresentable(c: CutUnits, mark: int)
    requires EquityDefined(c.cash, c.position, mark) && c.equity == EquityUnits(c.cash, c.position, mark)
    ensures (c.equity - c.cash) * UNIT == c.position * mark && UnitsRepresentable(c.equity - c.cash)
    ensures UnitsRepresentable(c.equity)
  {
    var u :| u * UNIT == c.position * mark && UnitsRepresentable(u) && UnitsRepresentable(c.cash + u);
    MarkedUnits(u, c.position, mark);
  }

  lemma EquityOfCut(completed: seq<Completed>, prices: seq<Input>, times: seq<int>, initial: Input)
    requires |completed| < |prices| == |times|
    ensures var c := CutOf(completed, prices, times, initial);
            c.equity == EquityUnits(c.cash, c.position, Amount(prices[|completed|]))
  {
  }

  /** The specified cut answers the description. */
  lemma SpecifiedIsACut(cut: Cut, completed: seq<Completed>, prices: seq<Input>, times: seq<int>, initial: Input)
    requires CutDefined(completed, prices, times, |completed| + 1, initial)
    requires cut.episode == |completed| + 1 && cut.observedAt == times[|completed|]
    requires Realizes(cut, CutOf(completed, prices, times, initial))
    ensures IsACut(cut, completed, prices, times, initial)
  {
    hide PrefixOk, Positive, CutOf, Amount, EquityDefined, EquityUnits, DrawdownDefined, Describes, Enveloped, Pow, EpisodeOk;
    EquityOfCut(completed, prices, times, initial);
    MarkedIsRepresentable(CutOf(completed, prices, times, initial), Amount(prices[|completed|]));
    DescribesExactly(completed, prices, times, initial, CutOf(completed, prices, times, initial));
  }

  /** The two amounts the arithmetic passes through, the marked position and the loss from the peak. */
  ghost predicate StepsRepresentable(cut: Cut) {
    && Enveloped(cut)
    && UnitsRepresentable(Units(cut.equity) - Units(cut.cash)) && UnitsRepresentable(Units(cut.peak) - Units(cut.equity))
  }

  /** There is a cut exactly when the call is coherent and the amounts of a cut exist in the envelope,
      the marked position and the loss from the peak among them. */
  lemma CutExists(completed: seq<Completed>, prices: seq<Input>, times: seq<int>, episode: int, initial: Input)
    ensures CutDefined(completed, prices, times, episode, initial) <==>
              CallOk(completed, prices, times, episode, initial) &&
              exists cut: Cut :: IsACut(cut, completed, prices, times, initial) && StepsRepresentable(cut)
  {
    hide CutOf, CutAdmitted, IsACut, StepsRepresentable;
    if CallOk(completed, prices, times, episode, initial) {
      hide CallOk;
      if CutDefined(completed, prices, times, episode, initial) {
        var cut := SomeCut(completed, prices, times, initial);
      } else {
        forall cut: Cut | IsACut(cut, completed, prices, times, initial) && StepsRepresentable(cut) ensures false {
          DescribedIsSpecified(cut, completed, prices, times, initial);
        }
      }
    }
  }

  lemma Spelling(u: int) returns (v: Decimal)
    requires UnitsRepresentable(u)
    ensures InEnvelope(v) && Units(v) == u
  {
    v :| InEnvelope(v) && Units(v) == u;
  }

  lemma SpelledPeak(peak: int, first: int, second: int, completed: seq<Completed>)
    requires UnitsRepresentable(first) && UnitsRepresentable(second) && IsGreatest(peak, first, second, completed)
    ensures UnitsRepresentable(peak)
  {
    hide Amount;
    if i :| 0 <= i < |completed| && peak == Amount(completed[i].equity) {
      AmountIsRepresentable(completed[i].equity);
    }
  }

  lemma AmountIsRepresentable(i: Input)
    ensures UnitsRepresentable(Amount(i))
  {
    assert Units(Reading(i)) == Amount(i);
  }

  lemma ZeroIsRepresentable()
    ensures UnitsRepresentable(0)
  {
    ZeroUnits();
  }

  lemma SpelledCut(c: CutUnits, episode: int, observedAt: int) returns (cut: Cut)
    requires UnitsRepresentable(c.cash) && UnitsRepresentable(c.position) && UnitsRepresentable(c.equity)
    requires UnitsRepresentable(c.dailyStart) && UnitsRepresentable(c.peak) && UnitsRepresentable(c.drawdown)
    requires UnitsRepresentable(c.dailyPnl)
    ensures cut.episode == episode && cut.observedAt == observedAt && Realizes(cut, c)
  {
    hide UnitsRepresentable, Units, InEnvelope;
    var cash := Spelling(c.cash);
    var position := Spelling(c.position);
    var equity := Spelling(c.equity);
    var daily := Spelling(c.dailyStart);
    var peak := Spelling(c.peak);
    var drawdown := Spelling(c.drawdown);
    var pnl := Spelling(c.dailyPnl);
    cut := Cut(episode, observedAt, cash, position, equity, daily, peak, drawdown, pnl);
  }

  lemma SomeCut(completed: seq<Completed>, prices: seq<Input>, times: seq<int>, initial: Input) returns (cut: Cut)
    requires CutDefined(completed, prices, times, |completed| + 1, initial)
    ensures IsACut(cut, completed, prices, times, initial)
    ensures StepsRepresentable(cut)
  {
    hide PrefixOk, Positive, CutOf, IsACut, DrawdownQuanta, IsGreatest, UnitsRepresentable, Units, Amount, InEnvelope;
    hide EquityUnits, EquityDefined, StartsToday, Describes, Pow, EpisodeOk, Enveloped;
    var n := |completed|;
    var c := CutOf(completed, prices, times, initial);
    var i := FirstToday(times, 0, n);
    CutOfIs(completed, prices, times, initial, i);
    forall input: Input ensures UnitsRepresentable(Amount(input)) {
      AmountIsRepresentable(input);
    }
    ZeroIsRepresentable();
    MarkedIsRepresentable(c, Amount(prices[n]));
    SpelledPeak(c.peak, Amount(initial), c.equity, completed);
    cut := SpelledCut(c, n + 1, times[n]);
    SpecifiedIsACut(cut, completed, prices, times, initial);
  }

  /** Whatever answers the description has the specified amounts. */
  lemma DescribedIsSpecified(cut: Cut, completed: seq<Completed>, prices: seq<Input>, times: seq<int>, initial: Input)
    requires CallOk(completed, prices, times, |completed| + 1, initial)
    requires IsACut(cut, completed, prices, times, initial)
    requires StepsRepresentable(cut)
    ensures Realizes(cut, CutOf(completed, prices, times, initial))
    ensures CutDefined(completed, prices, times, |completed| + 1, initial)
  {
    hide PrefixOk, Positive, CutOf, Amount, DrawdownQuanta, IsGreatest, Describes, UnitsRepresentable, EquityUnits;
    hide EquityDefined, StartsToday, Units, InEnvelope, Enveloped, Pow, EpisodeOk;
    var n, c := |completed|, CutOf(completed, prices, times, initial);
    assert Enveloped(cut);
    var i := FirstToday(times, 0, n);
    CutOfIs(completed, prices, times, initial, i);
    EnvelopedUnits(cut);
    DescribesExactly(completed, prices, times, initial, Amounts(cut));
    EquityAgrees(c.cash, c.position, Amount(prices[n]), c.equity);
  }

  lemma EnvelopedUnits(cut: Cut)
    requires Enveloped(cut)
    ensures UnitsRepresentable(Units(cut.equity)) && UnitsRepresentable(Units(cut.drawdown))
    ensures UnitsRepresentable(Units(cut.dailyPnl))
  {
  }

  lemma SameQuanta(peak: int, a: int, k: int, m: int)
    requires peak > 0
    requires a <= (k * QUANTUM_UNITS) * peak < a + peak * QUANTUM_UNITS
    requires a <= (m * QUANTUM_UNITS) * peak < a + peak * QUANTUM_UNITS
    ensures k == m
  {
    var b := peak * QUANTUM_UNITS;
    PositiveProduct(peak, QUANTUM_UNITS);
    assert (k * QUANTUM_UNITS) * peak == k * b by { MulAssoc(k, QUANTUM_UNITS, peak); }
    assert (m * QUANTUM_UNITS) * peak == m * b by { MulAssoc(m, QUANTUM_UNITS, peak); }
    WithinOne(k, m, b);
    WithinOne(m, k, b);
  }

  lemma WithinOne(k: int, m: int, b: int)
    requires b > 0 && m * b < k * b + b
    ensures m <= k
  {
    assert (k + 1) * b == k * b + b;
    if k + 1 <= m {
      MulMono(k + 1, m, b);
      assert false;
    }
  }

  // --------------------------------------------------------------- the loops

  /** The completed prefix: equities and times collected, the last cash and position kept. */
  method ReadCompleted(completed: seq<Completed>, prices: seq<Input>, times: seq<int>, now: int, starting: Decimal)
    returns (ok: bool, equities: seq<Decimal>, cash: Decimal, position: Decimal)
    requires |completed| <= |prices| && |prices| == |times| && InEnvelope(starting)
    ensures ok <==> PrefixOk(completed, prices, times, |completed|, now)
    ensures ok ==> equities == Readings(completed)
    ensures ok ==> cash == LastCash(completed, starting) && position == LastPosition(completed)
  {
    hide EpisodeOk, Reading;
    equities, cash, position := [], starting, ZERO;
    for i := 0 to |completed|
      invariant PrefixOk(completed, prices, times, i, now)
      invariant equities == Readings(completed)[..i]
      invariant cash == LastCash(completed[..i], starting) && position == LastPosition(completed[..i])
    {
      var fine, c, p, e := ReadEpisode(completed, prices, times, i, now);
      if !fine {
        return false, equities, cash, position;
      }
      cash, position, equities := c, p, equities + [e];
    }
    assert completed[..|completed|] == completed;
    return true, equities, cash, position;
  }

  /** Equity that agrees with cash, position and mark is the one recomputed from them. */
  lemma EquityAgrees(cash: int, position: int, mark: int, equity: int)
    requires UnitsRepresentable(equity)
    ensures EquityDefined(cash, position, mark) && equity == EquityUnits(cash, position, mark) <==>
            (equity - cash) * UNIT == position * mark && UnitsRepresentable(equity - cash)
  {
    var v := equity - cash;
    if v * UNIT == position * mark && UnitsRepresentable(v) {
      MarkedUnits(v, position, mark);
      assert UnitsRepresentable(cash + v);
    } else if EquityDefined(cash, position, mark) {
      var u :| u * UNIT == position * mark && UnitsRepresentable(u) && UnitsRepresentable(cash + u);
      MarkedUnits(u, position, mark);
    }
  }

  method SameValue(a: Decimal, b: Decimal) returns (same: bool)
    requires InEnvelope(a) && InEnvelope(b)
    ensures same <==> Units(a) == Units(b)
  {
    LessIsUnits(a, b);
    same := Num(a) * Den(b) == Num(b) * Den(a);
  }

  method ReadEpisode(completed: seq<Completed>, prices: seq<Input>, times: seq<int>, i: nat, now: int)
    returns (ok: bool, cash: Decimal, position: Decimal, equity: Decimal)
    requires i < |completed| <= |prices| && |prices| == |times|
    ensures ok <==> EpisodeOk(completed, prices, times, i, now)
    ensures ok ==> cash == Reading(completed[i].cash) && position == Reading(completed[i].position) &&
                   equity == Reading(completed[i].equity)
  {
    hide EquityDefined, EquityUnits, UnitsRepresentable, Stands, Units, InEnvelope, Num, Den, Admitted, U, Reading;
    cash, position, equity := ZERO, ZERO, ZERO;
    var item := completed[i];
    if item.episode != i + 1 || !item.reconciled {
      return false, cash, position, equity;
    }
    if (i > 0 && times[i] <= times[i - 1]) || times[i] >= now {
      return false, cash, position, equity;
    }
    var mark := Dec(prices[i]);
    var c := Dec(item.cash);
    var p := Dec(item.position);
    var e := Dec(item.equity);
    if mark.Rejected? || c.Rejected? || p.Rejected? || e.Rejected? {
      return false, cash, position, equity;
    }
    AdmittedUnits(item.equity);
    EquityAgrees(U(item.cash), U(item.position), U(prices[i]), U(item.equity));
    var recomputed := Equity(c.value, p.value, mark.value);
    if recomputed.Rejected? {
      return false, cash, position, equity;
    }
    var same := SameValue(e.value, recomputed.value);
    if !same {
      return false, cash, position, equity;
    }
    return true, c.value, p.value, e.value;
  }

  method PeakOf(first: Decimal, second: Decimal, equities: seq<Decimal>, ghost units: seq<int>) returns (peak: Decimal)
    requires InEnvelope(first) && InEnvelope(second)
    requires Matches(equities, units)
    ensures InEnvelope(peak) && Units(peak) == PeakUnits(units, |units|, Max(Units(first), Units(second)))
    ensures peak == FirstGreatest(first, second, equities, |equities|)
  {
    LessIsUnits(first, second);
    peak := if Less(first, second) then second else first;
    for i := 0 to |equities|
      invariant InEnvelope(peak) && Units(peak) == PeakUnits(units, i, Max(Units(first), Units(second)))
      invariant peak == FirstGreatest(first, second, equities, i)
    {
      LessIsUnits(peak, equities[i]);
      if Less(peak, equities[i]) {
        peak := equities[i];
      }
    }
  }

  /** The loop that stops at the first episode of the current day finds the same equity as a search
      for the last earlier one, because times increase. */
  method DailyStart(
    starting: Decimal, equities: seq<Decimal>, times: seq<int>, now: int, ghost units: seq<int>)
    returns (daily: Decimal)
    requires InEnvelope(starting) && |units| <= |times| && Matches(equities, units)
    requires forall i :: 0 < i < |units| ==> times[i - 1] < times[i]
    ensures InEnvelope(daily)
    ensures Units(daily) == LastEarlier(units, times, |units|, now, Units(starting))
    ensures daily == LastEarlier(equities, times, |equities|, now, starting)
  {
    daily := starting;
    var i := 0;
    while i < |equities| && Day(times[i]) < Day(now)
      invariant 0 <= i <= |equities|
      invariant InEnvelope(daily) && Units(daily) == LastEarlier(units, times, i, now, Units(starting))
      invariant daily == LastEarlier(equities, times, i, now, starting)
    {
      daily := equities[i];
      i := i + 1;
    }
    LaterDays(units, times, i, |units|, now, Units(starting));
    LaterDays(equities, times, i, |equities|, now, starting);
  }

  lemma {:induction false} LaterDays<T>(units: seq<T>, times: seq<int>, i: nat, n: nat, now: int, start: T)
    requires i <= n <= |units| <= |times|
    requires forall j :: 0 < j < |units| ==> times[j - 1] < times[j]
    requires i < n ==> Day(times[i]) >= Day(now)
    ensures LastEarlier(units, times, n, now, start) == LastEarlier(units, times, i, now, start)
    decreases n
  {
    if i < n {
      LaterDays(units, times, i, n - 1, now, start);
      assert Day(times[n - 1]) >= Day(now) by {
        TimesIncrease(times, |units|, i, n - 1);
        DayMonotone(times[i], times[n - 1]);
      }
    }
  }

  lemma {:induction false} TimesIncrease(times: seq<int>, n: nat, i: nat, j: nat)
    requires i <= j < n <= |times|
    requires forall k :: 0 < k < n ==> times[k - 1] < times[k]
    ensures times[i] <= times[j]
    decreases j
  {
    if i < j {
      TimesIncrease(times, n, i, j - 1);
    }
  }

  lemma DayMonotone(s: int, t: int)
    requires s <= t
    ensures Day(s) <= Day(t)
  {
  }

  /** `causal_historical_risk_cut`: succeeds exactly when the prefix is coherent, the arithmetic stays
      representable and the equity is positive, with exactly the specified cut. */
  method CausalRiskCut(completed: seq<Completed>, prices: seq<Input>, times: seq<int>, episode: int, initial: Input)
    returns (r: Outcome<Cut>)
    ensures r.Ready? <==> CutDefined(completed, prices, times, episode, initial)
    ensures r.Ready? ==> IsTheCut(r.value, completed, prices, times, initial)
    ensures r.Ready? ==> IsACut(r.value, completed, prices, times, initial)
    ensures r.Ready? ==> forall i :: 0 <= i < |completed| ==>
              completed[i].episode == i + 1 && completed[i].reconciled && times[i] < times[episode - 1]
  {
    hide PrefixOk, EpisodeOk, IsACut, CutFrom, CutAdmitted, Stands;
    if episode != |completed| + 1 || episode > |prices| || |times| != |prices| {
      return Rejected;
    }
    var starting := Dec(initial);
    if starting.Rejected? {
      return Rejected;
    }
    LessIsUnits(ZERO, starting.value);
    var price := Dec(prices[episode - 1]);
    if price.Rejected? {
      return Rejected;
    }
    LessIsUnits(ZERO, price.value);
    if !Less(ZERO, starting.value) || !Less(ZERO, price.value) {
      return Rejected;
    }
    var now := times[episode - 1];
    var ok, equities, cash, position := ReadCompleted(completed, prices, times, now, starting.value);
    if !ok {
      return Rejected;
    }
    assert CallOk(completed, prices, times, episode, initial);
    PrefixTimes(completed, prices, times, episode, initial);
    r := FinishCut(starting.value, price.value, equities, cash, position, times, now, Equities(completed));
    if r.Ready? {
      SpecifiedIsACut(r.value, completed, prices, times, initial);
    }
  }

  /** The arithmetic after the completed prefix has been read. */
  method FinishCut(
    starting: Decimal, price: Decimal, equities: seq<Decimal>, cash: Decimal, position: Decimal,
    times: seq<int>, now: int, ghost units: seq<int>) returns (r: Outcome<Cut>)
    requires InEnvelope(starting) && InEnvelope(price) && InEnvelope(cash) && InEnvelope(position)
    requires Units(starting) > 0 && Units(price) > 0 && Matches(equities, units) && |units| <= |times|
    requires forall i :: 0 < i < |units| ==> times[i - 1] < times[i]
    ensures var c := CutFrom(Units(starting), Units(price), Units(cash), Units(position), units, times, now);
            (r.Ready? <==> CutAdmitted(c, Units(price))) &&
            (r.Ready? ==> r.value.episode == |units| + 1 && r.value.observedAt == now && Realizes(r.value, c))
    ensures r.Ready? ==>
              && r.value.cash == cash && r.value.position == position
              && Normalized(r.value.equity) && Normalized(r.value.drawdown) && Normalized(r.value.dailyPnl)
              && r.value.peak == FirstGreatest(starting, r.value.equity, equities, |equities|)
              && r.value.dailyStart == LastEarlier(equities, times, |equities|, now, starting)
  {
    var equity := Equity(cash, position, price);
    if equity.Rejected? {
      return Rejected;
    }
    var peak := PeakOf(starting, equity.value, equities, units);
    assert Units(peak) > 0;
    var drawdown := Drawdown(peak, equity.value);
    if drawdown.Rejected? {
      return Rejected;
    }
    var daily := DailyStart(starting, equities, times, now, units);
    var pnl := ExactSubtract(equity.value, daily);
    if pnl.Err? {
      return Rejected;
    }
    var accepted := ContextAccepts(price, equity.value, drawdown.value);
    if Units(equity.value) > 0 {
      DrawdownAtMostOne(Units(peak), Units(equity.value));
    }
    if !accepted {
      return Rejected;
    }
    return Ready(Cut(|equities| + 1, now, cash, position, equity.value, daily, peak, drawdown.value, pnl.value));
  }

  const ONE := Finite(false, 1, 0)

  /** The checks of the risk context that this call can fail: a positive mark, a drawdown between
      zero and one, a positive equity. */
  method ContextAccepts(mark: Decimal, equity: Decimal, drawdown: Decimal) returns (ok: bool)
    requires InEnvelope(mark) && InEnvelope(equity) && InEnvelope(drawdown)
    ensures ok <==> Units(mark) > 0 && 0 <= Units(drawdown) <= UNIT && Units(equity) > 0
  {
    OneUnit();
    LessIsUnits(ZERO, mark);
    LessIsUnits(drawdown, ZERO);
    LessIsUnits(ONE, drawdown);
    LessIsUnits(ZERO, equity);
    ok := Less(ZERO, mark) && !Less(drawdown, ZERO) && !Less(ONE, drawdown) && Less(ZERO, equity);
  }

  lemma OneUnit()
    ensures InEnvelope(ONE) && Units(ONE) == UNIT
  {
    assert DigitCount(1) == 1;
  }

  /** While there is equity the drawdown is a fraction, so the context's bounds on it never fire by
      themselves. */
  lemma DrawdownAtMostOne(peak: int, equity: int)
    requires peak >= equity > 0
    ensures 0 <= DrawdownQuanta(peak, equity) * QUANTUM_UNITS <= UNIT
  {
    hide Pow;
    PositiveProduct(peak, QUANTUM_UNITS);
    var a, b, k, m := (peak - equity) * UNIT, peak * QUANTUM_UNITS, DrawdownQuanta(peak, equity), Pow(10, 18);
    CeilingIs(a, b);
    MulMono(0, peak - equity, UNIT);
    if k < 0 { MulMono(k, -1, b); }
    PowAdd(10, 18, MAX_SCALE - 18);
    assert m * b == peak * UNIT by {
      MulAssoc(m, QUANTUM_UNITS, peak);
    }
    MulMono(peak - equity, peak, UNIT);
    DirectedTightest(a, b, k, m);
    MulMono(0, k, QUANTUM_UNITS);
    MulMono(k, m, QUANTUM_UNITS);
  }

  // --------------------------------------------------------------- theorems

  /** The streams agree up to and including the given number of episodes. */
  predicate AgreeThrough(prices: seq<Input>, times: seq<int>, prices': seq<Input>, times': seq<int>, n: nat)
    requires n <= |prices| == |times| && n <= |prices'| == |times'|
  {
    forall i :: 0 <= i < n ==> prices[i] == prices'[i] && times[i] == times'[i]
  }

  /** Causality: whether a cut exists and what it is depends only on the completed prefix and on
      prices and times through the current episode; the future of the stream is irrelevant. */
  lemma CutIsCausal(
    completed: seq<Completed>, prices: seq<Input>, times: seq<int>, prices': seq<Input>, times': seq<int>, initial: Input)
    requires |completed| < |prices| == |times| && |completed| < |prices'| == |times'|
    requires AgreeThrough(prices, times, prices', times', |completed| + 1)
    ensures var e := |completed| + 1;
            CutDefined(completed, prices, times, e, initial) <==> CutDefined(completed, prices', times', e, initial)
    ensures CutOf(completed, prices, times, initial) == CutOf(completed, prices', times', initial)
    ensures forall cut :: IsTheCut(cut, completed, prices, times, initial) <==>
                          IsTheCut(cut, completed, prices', times', initial)
  {
    hide Admitted, Amount, Reading, EquityUnits, EquityDefined, PeakUnits, DrawdownQuanta, Equities, Readings, CutAdmitted,
      EpisodeOk, FirstGreatest, LastCash, LastPosition, Realizes, Normalized;
    var n, start := |completed|, Reading(initial);
    PrefixOkIsCausal(completed, prices, times, prices', times', times[n]);
    SameLastEarlier(Equities(completed), times, times', n, times[n], Units(start));
    SameLastEarlier(Readings(completed), times, times', n, times[n], start);
    assert CutOf(completed, prices, times, initial) == CutOf(completed, prices', times', initial);
  }

  lemma PrefixOkIsCausal(
    completed: seq<Completed>, prices: seq<Input>, times: seq<int>, prices': seq<Input>, times': seq<int>, now: int)
    requires |completed| < |prices| == |times| && |completed| < |prices'| == |times'|
    requires AgreeThrough(prices, times, prices', times', |completed| + 1)
    ensures PrefixOk(completed, prices, times, |completed|, now) <==> PrefixOk(completed, prices', times', |completed|, now)
  {
    forall i | 0 <= i < |completed|
      ensures EpisodeOk(completed, prices, times, i, now) <==> EpisodeOk(completed, prices', times', i, now)
    {
    }
  }

  lemma {:induction false} SameLastEarlier<T>(
    units: seq<T>, times: seq<int>, times': seq<int>, n: nat, now: int, start: T)
    requires n <= |units| && n <= |times| && n <= |times'|
    requires forall i :: 0 <= i < n ==> times[i] == times'[i]
    ensures LastEarlier(units, times, n, now, start) == LastEarlier(units, times', n, now, start)
    decreases n
  {
    if n > 0 {
      SameLastEarlier(units, times, times', n - 1, now, start);
    }
  }

  /** The drawdown of a cut bounds the true fraction from above, within one quantum. */
  lemma CutDrawdownIsTight(completed: seq<Completed>, prices: seq<Input>, times: seq<int>, initial: Input)
    requires |completed| < |prices| == |times| && Positive(initial)
    ensures var c := CutOf(completed, prices, times, initial);
            (c.peak - c.equity) * UNIT <= c.drawdown * c.peak < (c.peak - c.equity) * UNIT + c.peak * QUANTUM_UNITS
  {
    hide Stands, Reading, Equities, EquityUnits, DrawdownQuanta, LastEarlier, LastCash, LastPosition;
    var c := CutOf(completed, prices, times, initial);
    DrawdownTight(c.peak, c.equity);
  }

  /** With equity left, which every cut has, the drawdown lies between zero and one, and it is zero
      exactly at the peak. */
  lemma CutDrawdownIsAFraction(completed: seq<Completed>, prices: seq<Input>, times: seq<int>, initial: Input)
    requires |completed| < |prices| == |times| && Positive(initial)
    requires CutOf(completed, prices, times, initial).equity > 0
    ensures var c := CutOf(completed, prices, times, initial);
            0 <= c.drawdown <= UNIT && (c.drawdown == 0 <==> c.equity == c.peak)
  {
    hide Stands, Reading, Equities, EquityUnits, DrawdownQuanta, LastEarlier, LastCash, LastPosition;
    var c := CutOf(completed, prices, times, initial);
    DrawdownAtMostOne(c.peak, c.equity);
    DrawdownTight(c.peak, c.equity);
    ZeroDrawdown(c.peak, c.equity, c.drawdown);
  }

  lemma ZeroDrawdown(peak: int, equity: int, drawdown: int)
    requires peak >= equity && peak > 0 && drawdown >= 0
    requires drawdown == DrawdownQuanta(peak, equity) * QUANTUM_UNITS
    requires (peak - equity) * UNIT <= drawdown * peak < (peak - equity) * UNIT + peak * QUANTUM_UNITS
    ensures drawdown == 0 <==> equity == peak
  {
    if drawdown == 0 {
      if peak > equity { PositiveProduct(peak - equity, UNIT); }
    }
    if equity == peak {
      var k := DrawdownQuanta(peak, equity);
      if k > 0 {
        MulMono(1, k, QUANTUM_UNITS);
        MulMono(QUANTUM_UNITS, drawdown, peak);
      } else if k < 0 {
        MulMono(k, -1, QUANTUM_UNITS);
      }
    }
  }

  /** The peak is the greatest of the initial cash, the current equity and every completed one. */
  lemma {:induction false} PeakIsGreatest(equities: seq<int>, n: nat, base: int, i: nat)
    requires i < n <= |equities|
    ensures PeakUnits(equities, n, base) >= equities[i]
    ensures PeakUnits(equities, n, base) == base || exists j :: 0 <= j < n && PeakUnits(equities, n, base) == equities[j]
    decreases n
  {
    if i < n - 1 {
      PeakIsGreatest(equities, n - 1, base, i);
    } else if n > 1 {
      PeakIsGreatest(equities, n - 1, base, 0);
    }
  }

  // ----------------------------------------------------------------- the gate

  /** The pause adapter over an append-only journal of completed episodes. `blocks` stands for the
      risk engine's verdict on a cut: whether a loss or drawdown rule fails. */
  class Gate {
    const prices: seq<Input>
    const times: seq<int>
    const initial: Input
    var lastCut: Outcome<Cut>
    var blocked: bool

    constructor (prices: seq<Input>, times: seq<int>, initial: Input)
      ensures this.prices == prices && this.times == times && this.initial == initial
      ensures lastCut.Rejected? && !blocked
    {
      this.prices, this.times, this.initial, lastCut, blocked := prices, times, initial, Rejected, false;
    }

    /** The live evaluation before the next episode. */
    method Evaluate(journal: seq<Completed>, blocks: Cut -> bool) returns (r: Outcome<bool>)
      modifies this`lastCut, this`blocked
      ensures |journal| + 1 > |prices| ==> r == Ready(false) && lastCut == old(lastCut) && blocked == old(blocked)
      ensures |journal| + 1 <= |prices| ==>
                (r.Ready? <==> CutDefined(journal, prices, times, |journal| + 1, initial))
      ensures |journal| + 1 <= |prices| && r.Ready? ==>
                lastCut.Ready? && |prices| == |times| && IsTheCut(lastCut.value, journal, prices, times, initial) &&
                r.value == blocked == blocks(lastCut.value)
      ensures r.Rejected? ==> lastCut == old(lastCut) && blocked == old(blocked)
    {
      var episode := |journal| + 1;
      if episode > |prices| {
        return Ready(false);
      }
      var cut := CausalRiskCut(journal, prices, times, episode, initial);
      if cut.Rejected? {
        return Rejected;
      }
      lastCut := cut;
      blocked := blocks(cut.value);
      return Ready(blocked);
    }

    /** The cut reported after a restart, rebuilt from the journal without its last episode. */
    method RestoreLastCompletedPredecision(journal: seq<Completed>, blocks: Cut -> bool) returns (ok: bool)
      modifies this`lastCut, this`blocked
      ensures old(lastCut).Ready? || journal == [] ==> ok && lastCut == old(lastCut) && blocked == old(blocked)
      ensures old(lastCut).Rejected? && journal != [] ==>
                (ok <==> CutDefined(journal[..|journal| - 1], prices, times, |journal|, initial))
      ensures old(lastCut).Rejected? && journal != [] && ok ==>
                lastCut.Ready? && |journal| <= |prices| == |times| && blocked == blocks(lastCut.value) &&
                IsTheCut(lastCut.value, journal[..|journal| - 1], prices, times, initial)
      ensures !ok ==> lastCut == old(lastCut) && blocked == old(blocked)
    {
      if lastCut.Ready? || journal == [] {
        return true;
      }
      var cut := CausalRiskCut(journal[..|journal| - 1], prices, times, |journal|, initial);
      if cut.Rejected? {
        return false;
      }
      lastCut := cut;
      blocked := blocks(cut.value);
      return true;
    }
  }

  /** A fresh gate's live cut, and a fresh gate's rebuilt one. */
  method LiveCut(prices: seq<Input>, times: seq<int>, initial: Input, journal: seq<Completed>, blocks: Cut -> bool)
    returns (cut: Outcome<Cut>, blocked: bool)
    requires |journal| < |prices|
    ensures cut.Ready? <==> CutDefined(journal, prices, times, |journal| + 1, initial)
    ensures cut.Ready? ==> |prices| == |times| && IsTheCut(cut.value, journal, prices, times, initial) &&
                           blocked == blocks(cut.value)
  {
    var gate := new Gate(prices, times, initial);
    var r := gate.Evaluate(journal, blocks);
    return gate.lastCut, gate.blocked;
  }

  method RebuiltCut(prices: seq<Input>, times: seq<int>, initial: Input, journal: seq<Completed>, blocks: Cut -> bool)
    returns (cut: Outcome<Cut>, blocked: bool)
    requires journal != [] && |journal| <= |prices|
    ensures var before := journal[..|journal| - 1];
            (cut.Ready? <==> CutDefined(before, prices, times, |journal|, initial)) &&
            (cut.Ready? ==> |prices| == |times| && IsTheCut(cut.value, before, prices, times, initial) &&
                            blocked == blocks(cut.value))
  {
    var gate := new Gate(prices, times, initial);
    var ok := gate.RestoreLastCompletedPredecision(journal, blocks);
    return gate.lastCut, gate.blocked;
  }

  /** Both streams are refused for their lengths, or they agree through the episode. */
  predicate SameSoFar(prices: seq<Input>, times: seq<int>, prices': seq<Input>, times': seq<int>, n: nat)
    requires n <= |prices| && n <= |prices'|
  {
    (|prices| == |times| <==> |prices'| == |times'|) &&
    (|prices| == |times| ==> AgreeThrough(prices, times, prices', times', n))
  }

  /** Restart stability: evaluate live before an episode, let the episode complete, restart on the
      longer journal, with a stream that may have grown or been cut since: the rebuilt cut exists
      exactly when the live one did and is the same cut, Decimal by Decimal. The restart resolves the
      policy anew, so the verdict is the same if that policy decides this cut as the live one did. */
  method RestartRebuildsTheSameCut(
    prices: seq<Input>, times: seq<int>, prices': seq<Input>, times': seq<int>, initial: Input,
    journal: seq<Completed>, next: Completed, livePolicy: Cut -> bool, restartPolicy: Cut -> bool)
    returns (live: Outcome<Cut>, liveBlocked: bool, rebuilt: Outcome<Cut>, rebuiltBlocked: bool)
    requires |journal| < |prices| && |journal| < |prices'|
    requires SameSoFar(prices, times, prices', times', |journal| + 1)
    ensures live == rebuilt
    ensures live.Ready? ==> live.value.episode == |journal| + 1
    ensures live.Ready? ==> liveBlocked == livePolicy(live.value) && rebuiltBlocked == restartPolicy(live.value)
  {
    live, liveBlocked := LiveCut(prices, times, initial, journal, livePolicy);
    var longer := journal + [next];
    assert longer[..|longer| - 1] == journal;
    rebuilt, rebuiltBlocked := RebuiltCut(prices', times', initial, longer, restartPolicy);
    if |prices| == |times| {
      CutIsCausal(journal, prices, times, prices', times', initial);
      if live.Ready? {
        CutIsUnique(live.value, rebuilt.value, journal, prices, times, initial);
      }
    }
  }
}
