/** The learner's extraction of flat-to-position-to-flat cycles from simulation decisions.

    Amounts are whole units of `10^-256`, as admitted by the exact-decimal boundary. The net cash
    outcome is Python's Decimal subtraction under an ambient context of some precision, which
    rounds; the lemmas say what survives that and what does not. */
module ClosedCycles {
  import opened Arithmetic
  import opened Common
  import ExactDecimal
  import ExactOperations

  type Time = int

  /** What the exact-decimal boundary admits, in units. */
  type Amount = u: int | ExactOperations.UnitsRepresentable(u) ghost witness (SmallAmounts(); 0)

  lemma SmallAmounts()
    ensures ExactOperations.UnitsRepresentable(0) && ExactOperations.UnitsRepresentable(1)
  {
    assert ExactOperations.Units(ExactDecimal.ZERO) == 0;
    AmountOfDigit(1, 0);
    assert Pow(10, 0) == 1;
  }

  lemma AmountOfDigit(d: nat, e: nat)
    requires 0 < d < 10 && e < ExactDecimal.MAX_INTEGER_DIGITS + ExactDecimal.MAX_SCALE
    ensures ExactOperations.UnitsRepresentable(d * Pow(10, e))
  {
    var v := ExactDecimal.Finite(false, d, e - ExactDecimal.MAX_SCALE);
    assert ExactDecimal.InEnvelope(v) && ExactOperations.Units(v) == d * Pow(10, e);
  }

  lemma AmountBelow(a: Amount)
    ensures Abs(a) < Pow(10, FULL_PRECISION)
  {
    assert ExactOperations.UnitsRepresentable(a);
    var v :| ExactDecimal.InEnvelope(v) && ExactOperations.Units(v) == a;
    ExactOperations.UnitsAreTheValue(v);
  }

  /** The digits of the envelope from its first integer place to its last fractional one. */
  const FULL_PRECISION := ExactDecimal.MAX_INTEGER_DIGITS + ExactDecimal.MAX_SCALE

  datatype Status = Filled | Partial | NoFill | OtherStatus

  /** A completed-bar receipt; `canonical` covers its schema and its digests. */
  datatype Receipt = Receipt(
    canonical: bool, status: Status, requested: Option<Amount>, executed: Option<Amount>,
    completedAt: Option<Time>, availableAt: Option<Time>)

  /** One simulated decision. Amounts are `None` when the exact-decimal boundary refuses them;
      `bound` covers the schema, the protocol digest and the reconciled flag. The receipt is absent,
      present but null, or a receipt. `positionText` and `cashText` are the fields as written, and
      `positionIsText` says that the position is written as a string, not as a number. */
  datatype Decision = Decision(
    bound: bool, episode: int, status: Status, fillId: string, position: Option<Amount>, cash: Option<Amount>,
    equity: Option<Amount>, receipt: Option<Option<Receipt>>, reconciliation: string,
    positionText: string, cashText: string, positionIsText: bool)

  /** The terminal account state is compared as written, not by value. */
  datatype Simulation = Simulation(
    admitted: bool, completedEpisodes: int, decisions: seq<Decision>, cashText: string, positionText: string)

  datatype OutcomeClass = Positive | Negative | Null

  datatype Cycle = Cycle(
    openEpisode: nat, closeEpisode: nat, openFill: string, closeFill: string, closedAt: Time,
    netCash: int, outcome: OutcomeClass, reconciliation: string)

  // ------------------------------------------------- context-rounded subtraction

  /** `n / q` rounded half to even. */
  function HalfEven(n: nat, q: nat): nat
    requires q > 0
  {
    var floor, doubled := n / q, 2 * (n % q);
    if doubled < q || (doubled == q && floor % 2 == 0) then floor else floor + 1
  }

  /** A value rounded to `p` significant digits, as a Decimal context of precision `p` does. */
  function RoundSignificant(p: nat, x: int): int
    requires p >= 1
  {
    var digits := DigitCount(Abs(x));
    if digits <= p then x
    else
      var q := Pow(10, digits - p);
      var m := HalfEven(Abs(x), q) * q;
      if x < 0 then -m else m
  }

  /** The value has a spelling of at most `p` digits. */
  ghost predicate Fits(p: nat, x: int) {
    exists c: nat, k: nat :: DigitCount(c) <= p && Abs(x) == c * Pow(10, k)
  }

  /** Rounding never loses the sign: a nonzero difference stays nonzero. */
  lemma RoundingKeepsSign(p: nat, x: int)
    requires p >= 1
    ensures RoundSignificant(p, x) > 0 <==> x > 0
    ensures RoundSignificant(p, x) < 0 <==> x < 0
  {
    var n := Abs(x);
    if DigitCount(n) > p {
      LeadingQuotient(n, p);
      var q := Pow(10, DigitCount(n) - p);
      MulMono(1, HalfEven(n, q), q);
    }
  }

  /** With digits to drop there is at least one unit of the last kept digit. */
  lemma LeadingQuotient(n: nat, p: nat)
    requires 1 <= p < DigitCount(n)
    ensures n > 0 && n / Pow(10, DigitCount(n) - p) >= 1
  {
    var q := Pow(10, DigitCount(n) - p);
    DigitCountBounds(n);
    PowMonotone(10, DigitCount(n) - p, DigitCount(n) - 1);
    var k := n / q;
    assert n == k * q + n % q;
    if k < 1 {
      MulMono(k, 0, q);
    }
  }

  /** Rounding is exact precisely when the value fits. */
  lemma RoundingExactWhenFits(p: nat, x: int)
    requires p >= 1
    ensures RoundSignificant(p, x) == x <==> Fits(p, x)
  {
    var n := Abs(x);
    if DigitCount(n) <= p {
      assert Pow(10, 0) == 1;
      assert n == n * Pow(10, 0);
    } else {
      var q := Pow(10, DigitCount(n) - p);
      HalfEvenExact(n, q);
      if n % q == 0 {
        QuotientDigits(n, p);
      } else if Fits(p, x) {
        var c: nat, k: nat :| DigitCount(c) <= p && n == c * Pow(10, k);
        LeadingQuotient(n, p);
        FittingIsMultiple(n, c, k, p);
      }
    }
  }

  lemma HalfEvenExact(n: nat, q: nat)
    requires q > 0
    ensures HalfEven(n, q) * q == n <==> n % q == 0
    ensures n % q == 0 ==> n == (n / q) * q
  {
    assert n == (n / q) * q + n % q;
    assert (n / q + 1) * q == (n / q) * q + q;
  }

  /** Half to even: of a multiple of the last kept digit's place at most half a place away, the even
      one when it is exactly half. */
  lemma HalfEvenIsNear(n: nat, q: nat)
    requires q > 0
    ensures var m := HalfEven(n, q);
            2 * Abs(m * q - n) <= q && (2 * Abs(m * q - n) == q ==> m % 2 == 0)
  {
    assert n == (n / q) * q + n % q;
    assert (n / q + 1) * q == (n / q) * q + q;
  }

  lemma NegatedMultiple(m: int, q: int)
    ensures (0 - m) * q == 0 - m * q
  {
  }

  lemma RoundingIsHalfEven(p: nat, x: int) returns (m: int)
    requires 1 <= p < DigitCount(Abs(x))
    ensures var q := Pow(10, DigitCount(Abs(x)) - p);
            && RoundSignificant(p, x) == m * q
            && 2 * Abs(m * q - x) <= q && (2 * Abs(m * q - x) == q ==> m % 2 == 0)
  {
    var q := Pow(10, DigitCount(Abs(x)) - p);
    HalfEvenIsNear(Abs(x), q);
    m := HalfEven(Abs(x), q);
    hide HalfEven, Pow, DigitCount;
    if x < 0 {
      NegatedMultiple(m, q);
      m := 0 - m;
    }
  }

  /** Rounding is to the nearest: the result fits, and no value that fits is nearer. */
  lemma RoundedIsNearest(p: nat, x: int, y: int)
    requires p >= 1 && Fits(p, y)
    ensures Fits(p, RoundSignificant(p, x))
    ensures Abs(RoundSignificant(p, x) - x) <= Abs(y - x)
  {
    hide HalfEven, Fits, Pow, DigitCount;
    var n := Abs(x);
    if DigitCount(n) <= p {
      RoundingExactWhenFits(p, x);
    } else {
      RoundedFits(p, n);
      FitsBySize(p, HalfEven(n, Pow(10, DigitCount(n) - p)) * Pow(10, DigitCount(n) - p), RoundSignificant(p, x));
      FitsBySize(p, y, Abs(y));
      NearestOfSize(p, n, Abs(y));
      NearestOfSize(p, n, 0);
    }
  }

  lemma NearestOfSize(p: nat, n: nat, y: nat)
    requires 1 <= p < DigitCount(n) && (y == 0 || Fits(p, y))
    ensures var q := Pow(10, DigitCount(n) - p);
            Abs(HalfEven(n, q) * q - n) <= Abs(y - n)
  {
    var q := Pow(10, DigitCount(n) - p);
    HalfEvenIsNear(n, q);
    hide HalfEven, Pow, DigitCount;
    LeadingPlaces(n, p);
    if y < Pow(10, DigitCount(n) - 1) {
      NearMultiple(n, q, HalfEven(n, q), Pow(10, p - 1), y);
    } else {
      var c: nat, k: nat :| DigitCount(c) <= p && y == c * Pow(10, k);
      var j := FittingQuotient(y, c, k, p, n);
      NearMultiple(n, q, HalfEven(n, q), j, y);
    }
  }

  /** `m * q` is at most half a place from `n`; so a multiple of `q`, or anything below a multiple
      that is not above `n`, is no nearer. */
  lemma NearMultiple(n: nat, q: nat, m: nat, k: nat, near: nat)
    requires q > 0 && 2 * Abs(m * q - n) <= q
    requires near == k * q || (near <= k * q && k * q <= n)
    ensures Abs(m * q - n) <= Abs(near - n)
  {
    if m < k {
      MulMono(m + 1, k, q);
      assert (m + 1) * q == m * q + q;
    } else if k < m {
      MulMono(k + 1, m, q);
      assert (k + 1) * q == k * q + q;
    }
  }

  /** The leading digit's place, in units of the last kept one. */
  lemma LeadingPlaces(n: nat, p: nat)
    requires 1 <= p < DigitCount(n)
    ensures Pow(10, p - 1) * Pow(10, DigitCount(n) - p) == Pow(10, DigitCount(n) - 1) <= n
  {
    PowAdd(10, p - 1, DigitCount(n) - p);
    DigitCountBounds(n);
  }

  lemma FitsBySize(p: nat, x: int, y: int)
    requires Abs(x) == Abs(y) && Fits(p, x)
    ensures Fits(p, y)
  {
  }

  lemma FitsAs(p: nat, x: int, c: nat, k: nat)
    requires DigitCount(c) <= p && Abs(x) == c * Pow(10, k)
    ensures Fits(p, x)
  {
  }

  /** What is rounded keeps `p` digits, or becomes the next power of ten. */
  lemma RoundedFits(p: nat, n: nat)
    requires 1 <= p < DigitCount(n)
    ensures var q := Pow(10, DigitCount(n) - p);
            Fits(p, HalfEven(n, q) * q)
  {
    hide HalfEven, Pow, Fits;
    var j := DigitCount(n) - p;
    var q := Pow(10, j);
    var m := HalfEven(n, q);
    DigitCountBounds(n);
    PowAdd(10, p, j);
    QuotientBelow(n, q, Pow(10, p));
    if m == Pow(10, p) {
      assert DigitCount(1) <= p;
      hide DigitCount;
      assert Pow(10, p + j) == 1 * Pow(10, p + j);
      FitsAs(p, Pow(10, p + j), 1, p + j);
    } else {
      hide DigitCount;
      DigitCountAtMost(m, p);
      FitsAs(p, m * q, m, j);
    }
  }

  lemma QuotientBelow(n: nat, q: nat, k: nat)
    requires q > 0 && n < k * q
    ensures HalfEven(n, q) <= k
  {
    assert n == (n / q) * q + n % q;
    if n / q >= k {
      MulMono(k, n / q, q);
    }
  }

  lemma FittingQuotient(y: nat, c: nat, k: nat, p: nat, n: nat) returns (j: nat)
    requires 1 <= p < DigitCount(n) && Pow(10, DigitCount(n) - 1) <= y && DigitCount(c) <= p && y == c * Pow(10, k)
    ensures y == j * Pow(10, DigitCount(n) - p)
  {
    var e := DigitCount(n) - p;
    if DigitCount(n) - 1 >= 1 { DigitCountAtMost(y, DigitCount(n) - 1); }
    assert c > 0;
    DigitCountShift(c, k);
    PowAdd(10, k - e, e);
    MulAssoc(c, Pow(10, k - e), Pow(10, e));
    j := c * Pow(10, k - e);
  }

  lemma QuotientDigits(n: nat, p: nat)
    requires 1 <= p < DigitCount(n) && n % Pow(10, DigitCount(n) - p) == 0
    ensures DigitCount(n / Pow(10, DigitCount(n) - p)) <= p
  {
    var k := DigitCount(n) - p;
    var c := n / Pow(10, k);
    LeadingQuotient(n, p);
    assert n == c * Pow(10, k);
    DigitCountShift(c, k);
  }

  lemma FittingIsMultiple(n: nat, c: nat, k: nat, p: nat)
    requires n > 0 && p < DigitCount(n) && DigitCount(c) <= p && n == c * Pow(10, k)
    ensures n % Pow(10, DigitCount(n) - p) == 0
  {
    if c > 0 {
      DigitCountShift(c, k);
      var j := DigitCount(n) - p;
      PowAdd(10, k - j, j);
      MulAssoc(c, Pow(10, k - j), Pow(10, j));
      DividesProduct(Pow(10, j), c * Pow(10, k - j));
    }
  }

  /** A narrow precision rounds `2 * 10^p - 1` up by one unit. */
  lemma OneUnitIsLost(p: nat)
    requires p >= 1
    ensures RoundSignificant(p, 2 * Pow(10, p) - 1) == 2 * Pow(10, p)
  {
    hide DigitCount, HalfEven, Pow;
    var x, m := 2 * Pow(10, p) - 1, 2 * Pow(10, p - 1) - 1;
    OneDigitOver(p);
    NineRoundsUp(x, m);
  }

  lemma OneDigitOver(p: nat)
    requires p >= 1
    ensures Pow(10, p) == 10 * Pow(10, p - 1) && Pow(10, p - 1) >= 1 && Pow(10, 1) == 10
    ensures DigitCount(2 * Pow(10, p) - 1) == p + 1
  {
    hide DigitCount;
    assert Pow(10, 0) == 1 && Pow(10, p + 1) == 10 * Pow(10, p);
    DigitCountAtMost(2 * Pow(10, p) - 1, p + 1);
    DigitCountAtMost(2 * Pow(10, p) - 1, p);
  }

  lemma NineRoundsUp(x: nat, m: nat)
    requires x == 10 * m + 9
    ensures HalfEven(x, 10) == m + 1
  {
    DivModUnique(x, 10, m, 9);
  }

  /** A difference of two admitted amounts that are not negative never needs more than 512 digits. */
  lemma FullPrecisionFits(p: nat, a: Amount, b: Amount)
    requires p >= FULL_PRECISION && a >= 0 && b >= 0
    ensures Fits(p, a - b)
  {
    AmountBelow(a);
    AmountBelow(b);
    DigitCountAtMost(Abs(a - b), FULL_PRECISION);
    assert Pow(10, 0) == 1;
    assert Abs(a - b) == Abs(a - b) * Pow(10, 0);
  }

  // ----------------------------------------------------------- receipt check

  function ExpectedAt(first: Time, interval: int, d: Decision, episode: nat): Time {
    first + (episode - 1) * interval + (if d.receipt.Some? then interval else 0)
  }

  predicate HasReceipt(d: Decision) {
    d.receipt.Some? && d.receipt.value.Some?
  }

  predicate ReceiptOk(d: Decision, expectedAt: Time) {
    HasReceipt(d) ==>
      var r := d.receipt.value.value;
      && r.canonical
      && d.status == r.status
      && r.requested.Some? && r.executed.Some?
      && r.requested.value > 0 && 0 <= r.executed.value <= r.requested.value
      && r.status == (if r.executed.value == 0 then NoFill else if r.executed.value == r.requested.value then Filled else Partial)
      && r.completedAt == Some(expectedAt) && r.availableAt == Some(expectedAt)
  }

  /** A receipt is either refused or dates the decision exactly one interval after its cut: the
      returned time never comes from the receipt's own label. */
  method HistoricalExecutionAvailableAt(d: Decision, expectedAt: Time) returns (r: Result<Time>)
    ensures r.Ok? <==> ReceiptOk(d, expectedAt)
    ensures r.Ok? ==> r.value == expectedAt
    ensures d.receipt == None || d.receipt == Some(None) ==> r.Ok?
    ensures d.receipt.Some? && d.receipt.value.Some? ==>
              var e := d.receipt.value.value;
              r.Ok? <==>
                && e.canonical && e.requested.Some? && e.executed.Some?
                && 0 < e.requested.value && 0 <= e.executed.value <= e.requested.value
                && (d.status == NoFill <==> e.executed.value == 0)
                && (d.status == Filled <==> e.executed.value == e.requested.value)
                && (d.status == Partial <==> 0 < e.executed.value < e.requested.value)
                && e.status == d.status
                && e.completedAt == Some(expectedAt) && e.availableAt == Some(expectedAt)
  {
    if !HasReceipt(d) {
      return Ok(expectedAt);
    }
    var e := d.receipt.value.value;
    if !e.canonical || e.status == OtherStatus || d.status != e.status {
      return Refused;
    }
    if e.requested.None? || e.executed.None? {
      return Refused;
    }
    var requested, executed := e.requested.value, e.executed.value;
    if requested <= 0 || executed < 0 || executed > requested {
      return Refused;
    }
    var expectedStatus := if executed == 0 then NoFill else if executed == requested then Filled else Partial;
    if e.status != expectedStatus {
      return Refused;
    }
    if e.completedAt.None? || e.availableAt.None? || e.completedAt != e.availableAt || e.availableAt.value != expectedAt {
      return Refused;
    }
    return Ok(e.availableAt.value);
  }

  // ---------------------------------------------------------- the extraction

  datatype Terms = Terms(initialCash: Amount, first: Time, interval: int, precision: nat) {
    predicate Valid() {
      precision >= 1
    }
  }

  datatype Opening = Opening(episode: nat, cashBefore: int, fill: string)

  datatype Walk = Walk(prior: int, flatCash: int, entry: Option<Opening>, cycles: seq<Cycle>)

  predicate HasFill(d: Decision) {
    d.status in {Filled, Partial} && d.fillId != ""
  }

  predicate Readable(d: Decision, episode: nat) {
    d.bound && d.episode == episode &&
    d.position.Some? && d.cash.Some? && d.equity.Some? && d.position.value >= 0 && d.cash.value >= 0
  }

  function Class(pnl: int): OutcomeClass {
    if pnl > 0 then Positive else if pnl < 0 then Negative else Null
  }

  /** One turn of the source's loop. */
  function Advance(t: Terms, w: Walk, d: Decision, episode: nat): Result<Walk>
    requires t.Valid()
  {
    if !Readable(d, episode) || !ReceiptOk(d, ExpectedAt(t.first, t.interval, d, episode)) then Refused
    else
      var position, cash := d.position.value, d.cash.value;
      if w.prior == 0 && position > 0 then
        if !HasFill(d) then Refused
        else Ok(Walk(position, w.flatCash, Some(Opening(episode, w.flatCash, d.fillId)), w.cycles))
      else if w.prior > 0 && position == 0 then
        if w.entry.None? || !HasFill(d) then Refused
        else
          var pnl := RoundSignificant(t.precision, cash - w.entry.value.cashBefore);
          Ok(Walk(position, cash, None, w.cycles + [Cycle(
            w.entry.value.episode, episode, w.entry.value.fill, d.fillId,
            ExpectedAt(t.first, t.interval, d, episode), pnl, Class(pnl), d.reconciliation)]))
      else Ok(w.(prior := position))
  }

  /** The walk over a list of decisions. */
  function Walked(t: Terms, ds: seq<Decision>): Result<Walk>
    requires t.Valid()
  {
    if ds == [] then Ok(Walk(0, t.initialCash, None, []))
    else
      var n := |ds| - 1;
      var before := Walked(t, ds[..n]);
      if before.Refused? then Refused else Advance(t, before.value, ds[n], n + 1)
  }

  lemma {:induction false} WalkedPrefix(t: Terms, ds: seq<Decision>, n: nat)
    requires t.Valid() && n <= |ds| && Walked(t, ds).Ok?
    ensures Walked(t, ds[..n]).Ok?
    ensures Walked(t, ds[..n]).value.cycles <= Walked(t, ds).value.cycles
    decreases |ds|
  {
    if n == |ds| {
      assert ds[..n] == ds;
    } else {
      var m := |ds| - 1;
      WalkedPrefix(t, ds[..m], n);
      assert ds[..m][..n] == ds[..n];
    }
  }

  /** One turn of the loop is one step of the walk, and a refusal in it refuses the whole. */
  lemma WalkedStep(t: Terms, ds: seq<Decision>, i: nat)
    requires t.Valid() && i < |ds| && Walked(t, ds[..i]).Ok?
    ensures Walked(t, ds[..i + 1]) == Advance(t, Walked(t, ds[..i]).value, ds[i], i + 1)
    ensures Walked(t, ds[..i + 1]).Refused? ==> Walked(t, ds).Refused?
  {
    hide Advance;
    assert ds[..i + 1][..i] == ds[..i];
    if Walked(t, ds).Ok? {
      WalkedPrefix(t, ds, i + 1);
    }
  }

  predicate Accepted(t: Terms, s: Simulation)
    requires t.Valid()
  {
    s.admitted && s.decisions != [] && s.completedEpisodes == |s.decisions| && Walked(t, s.decisions).Ok? &&
    s.decisions[|s.decisions| - 1].cashText == s.cashText && s.decisions[|s.decisions| - 1].positionText == s.positionText
  }

  method ClosedCycles(t: Terms, s: Simulation) returns (r: Result<seq<Cycle>>)
    requires t.Valid()
    ensures r.Ok? <==> Accepted(t, s)
    ensures r.Ok? ==> r.value == Walked(t, s.decisions).value.cycles
  {
    if !s.admitted || s.decisions == [] || s.completedEpisodes != |s.decisions| {
      return Refused;
    }
    var ds := s.decisions;
    var priorPosition: int, flatCash: int := 0, t.initialCash;
    var entry: Option<Opening> := None;
    var cycles: seq<Cycle> := [];
    for i := 0 to |ds|
      invariant Walked(t, ds[..i]) == Ok(Walk(priorPosition, flatCash, entry, cycles))
    {
      hide Walked, RoundSignificant, ReceiptOk;
      var d, episode := ds[i], i + 1;
      WalkedStep(t, ds, i);
      if !Readable(d, episode) {
        return Refused;
      }
      var position, cash := d.position.value, d.cash.value;
      var expectedAt := t.first + (episode - 1) * t.interval;
      if d.receipt.Some? {
        expectedAt := expectedAt + t.interval;
      }
      assert expectedAt == ExpectedAt(t.first, t.interval, d, episode);
      hide ExpectedAt;
      var availableAt := HistoricalExecutionAvailableAt(d, expectedAt);
      if availableAt.Refused? {
        return Refused;
      }
      if priorPosition == 0 && position > 0 {
        if !HasFill(d) {
          return Refused;
        }
        entry := Some(Opening(episode, flatCash, d.fillId));
      } else if priorPosition > 0 && position == 0 {
        if entry.None? || !HasFill(d) {
          return Refused;
        }
        var pnl := RoundSignificant(t.precision, cash - entry.value.cashBefore);
        cycles := cycles + [Cycle(entry.value.episode, episode, entry.value.fill, d.fillId, availableAt.value,
                                  pnl, Class(pnl), d.reconciliation)];
        flatCash := cash;
        entry := None;
      }
      priorPosition := position;
    }
    assert ds[..|ds|] == ds;
    if ds[|ds| - 1].cashText != s.cashText || ds[|ds| - 1].positionText != s.positionText {
      return Refused;
    }
    return Ok(cycles);
  }

  // -------------------------------------------------- what the cycles are

  /** The position after an episode; flat before the first. */
  function Position(ds: seq<Decision>, episode: nat): int
    requires episode <= |ds|
  {
    if episode == 0 || ds[episode - 1].position.None? then 0 else ds[episode - 1].position.value
  }

  function Cash(ds: seq<Decision>, episode: nat): int
    requires 1 <= episode <= |ds|
  {
    if ds[episode - 1].cash.None? then 0 else ds[episode - 1].cash.value
  }

  predicate Opens(ds: seq<Decision>, episode: nat) {
    1 <= episode <= |ds| && Position(ds, episode - 1) == 0 && Position(ds, episode) > 0
  }

  predicate Closes(ds: seq<Decision>, episode: nat) {
    1 <= episode <= |ds| && Position(ds, episode - 1) > 0 && Position(ds, episode) == 0
  }

  function CashBefore(t: Terms, ds: seq<Decision>, cycles: seq<Cycle>, i: nat): int
    requires i <= |cycles| && (i > 0 ==> 1 <= cycles[i - 1].closeEpisode <= |ds|)
  {
    if i == 0 then t.initialCash else Cash(ds, cycles[i - 1].closeEpisode)
  }

  predicate InRange(ds: seq<Decision>, cycles: seq<Cycle>) {
    forall i :: 0 <= i < |cycles| ==> 1 <= cycles[i].openEpisode < cycles[i].closeEpisode <= |ds|
  }

  /** Each cycle opens at an opening, closes at a closing with a position held throughout, and
      carries the cash moved between the flats, under the context's rounding. */
  ghost predicate CycleOk(t: Terms, ds: seq<Decision>, cycles: seq<Cycle>, i: nat)
    requires t.Valid() && i < |cycles| && InRange(ds, cycles)
  {
    var c := cycles[i];
    && Opens(ds, c.openEpisode) && Closes(ds, c.closeEpisode)
    && (forall e :: c.openEpisode <= e < c.closeEpisode ==> Position(ds, e) > 0)
    && c.openFill == ds[c.openEpisode - 1].fillId != "" && c.closeFill == ds[c.closeEpisode - 1].fillId != ""
    && c.closedAt == ExpectedAt(t.first, t.interval, ds[c.closeEpisode - 1], c.closeEpisode)
    && c.netCash == RoundSignificant(t.precision, Cash(ds, c.closeEpisode) - CashBefore(t, ds, cycles, i))
    && c.outcome == Class(c.netCash)
    && c.reconciliation == ds[c.closeEpisode - 1].reconciliation
  }

  /** Disjoint and in order. */
  predicate Ordered(cycles: seq<Cycle>) {
    forall i, j :: 0 <= i < j < |cycles| ==> cycles[i].closeEpisode < cycles[j].openEpisode
  }

  /** Exactly the closing transitions are there. */
  ghost predicate Complete(ds: seq<Decision>, cycles: seq<Cycle>) {
    forall e :: Closes(ds, e) <==> exists i :: 0 <= i < |cycles| && cycles[i].closeEpisode == e
  }

  ghost predicate WalkOk(t: Terms, ds: seq<Decision>, w: Walk)
    requires t.Valid()
  {
    && w.prior == Position(ds, |ds|) >= 0
    && InRange(ds, w.cycles)
    && w.flatCash == CashBefore(t, ds, w.cycles, |w.cycles|)
    && (w.entry.Some? <==> w.prior > 0)
    && (w.entry.Some? ==>
          var o := w.entry.value;
          && Opens(ds, o.episode) && (forall e :: o.episode <= e <= |ds| ==> Position(ds, e) > 0)
          && o.cashBefore == w.flatCash && o.fill == ds[o.episode - 1].fillId != ""
          && forall i :: 0 <= i < |w.cycles| ==> w.cycles[i].closeEpisode < o.episode)
    && (forall i :: 0 <= i < |w.cycles| ==> CycleOk(t, ds, w.cycles, i))
    && Ordered(w.cycles)
    && Complete(ds, w.cycles)
  }

  /** What is true of a cycle stays true when a decision is appended. */
  lemma CycleOkExtends(t: Terms, ds: seq<Decision>, d: Decision, cycles: seq<Cycle>, more: seq<Cycle>, i: nat)
    requires t.Valid() && InRange(ds, cycles) && InRange(ds + [d], cycles + more) && i < |cycles| && CycleOk(t, ds, cycles, i)
    ensures CycleOk(t, ds + [d], cycles + more, i)
  {
    hide Class, RoundSignificant, ExpectedAt;
    var longer := ds + [d];
    var c := cycles[i];
    forall e: nat | e <= |ds| ensures Position(longer, e) == Position(ds, e) {
    }
    assert (cycles + more)[i] == c;
    if i > 0 { assert (cycles + more)[i - 1] == cycles[i - 1]; }
  }

  lemma ClosesExtends(ds: seq<Decision>, d: Decision, e: nat)
    ensures e <= |ds| ==> (Closes(ds + [d], e) <==> Closes(ds, e)) && Position(ds + [d], e) == Position(ds, e)
    ensures e > |ds| + 1 ==> !Closes(ds + [d], e)
  {
  }

  lemma AdvanceOpens(t: Terms, ds: seq<Decision>, w: Walk, d: Decision)
    requires t.Valid() && WalkOk(t, ds, w) && Advance(t, w, d, |ds| + 1).Ok?
    requires !(w.prior > 0 && d.position.value == 0)
    ensures WalkOk(t, ds + [d], Advance(t, w, d, |ds| + 1).value)
  {
    hide CycleOk, RoundSignificant, ReceiptOk, ExpectedAt;
    var longer, n := ds + [d], |ds| + 1;
    var v := Advance(t, w, d, n).value;
    assert v.cycles == w.cycles == w.cycles + [];
    assert InRange(longer, v.cycles);
    forall i | 0 <= i < |v.cycles| ensures CycleOk(t, longer, v.cycles, i) {
      CycleOkExtends(t, ds, d, w.cycles, [], i);
    }
    forall e: nat ensures e <= |ds| ==> Position(longer, e) == Position(ds, e) {
      ClosesExtends(ds, d, e);
    }
    assert Position(longer, n) == d.position.value;
    CompleteStays(ds, d, w.cycles);
    hide Complete;
  }

  /** Without a closing in the last place the cycles stay complete. */
  lemma CompleteStays(ds: seq<Decision>, d: Decision, cycles: seq<Cycle>)
    requires Complete(ds, cycles) && !Closes(ds + [d], |ds| + 1)
    ensures Complete(ds + [d], cycles)
  {
    hide Closes;
    forall e: nat ensures Closes(ds + [d], e) <==> Closes(ds, e) {
      ClosesWithin(ds, d, e);
    }
  }

  lemma AdvanceCloses(t: Terms, ds: seq<Decision>, w: Walk, d: Decision)
    requires t.Valid() && WalkOk(t, ds, w) && Advance(t, w, d, |ds| + 1).Ok?
    requires w.prior > 0 && d.position.value == 0
    ensures WalkOk(t, ds + [d], Advance(t, w, d, |ds| + 1).value)
  {
    var longer, n, k := ds + [d], |ds| + 1, |w.cycles|;
    var v := Advance(t, w, d, n).value;
    LastCycle(t, ds, w, d);
    hide Advance, CycleOk, Cash, Position, Opens, Closes, Complete;
    var c := v.cycles[k];
    assert InRange(longer, v.cycles);
    forall i | 0 <= i < k ensures CycleOk(t, longer, v.cycles, i) {
      CycleOkExtends(t, ds, d, w.cycles, [c], i);
    }
    CompleteSnoc(ds, d, w.cycles, c);
  }

  /** The cycle that a closing adds, and the flat walk after it. */
  lemma LastCycle(t: Terms, ds: seq<Decision>, w: Walk, d: Decision)
    requires t.Valid() && WalkOk(t, ds, w) && Advance(t, w, d, |ds| + 1).Ok?
    requires w.prior > 0 && d.position.value == 0
    ensures var longer, n, k := ds + [d], |ds| + 1, |w.cycles|;
            var v := Advance(t, w, d, n).value;
            && |v.cycles| == k + 1 && v.cycles == w.cycles + [v.cycles[k]]
            && v.prior == 0 == Position(longer, n) && v.entry.None? && v.flatCash == Cash(longer, n)
            && v.cycles[k].closeEpisode == n && 1 <= v.cycles[k].openEpisode < n && Closes(longer, n)
            && (forall i :: 0 <= i < k ==> w.cycles[i].closeEpisode < v.cycles[k].openEpisode)
            && InRange(longer, v.cycles) && CycleOk(t, longer, v.cycles, k)
  {
    hide ReceiptOk, RoundSignificant, ExpectedAt, Complete, Ordered;
    var longer, n, k := ds + [d], |ds| + 1, |w.cycles|;
    var v := Advance(t, w, d, n).value;
    assert v.cycles == w.cycles + [v.cycles[k]];
    forall e: nat ensures e <= |ds| ==> Position(longer, e) == Position(ds, e) {
      ClosesExtends(ds, d, e);
    }
    assert Position(longer, n) == 0 && Cash(longer, n) == d.cash.value;
    if k > 0 { assert v.cycles[k - 1] == w.cycles[k - 1]; }
  }

  /** A closing in the last place completes the cycles. */
  lemma CompleteSnoc(ds: seq<Decision>, d: Decision, cycles: seq<Cycle>, c: Cycle)
    requires Complete(ds, cycles) && c.closeEpisode == |ds| + 1 && Closes(ds + [d], |ds| + 1)
    ensures Complete(ds + [d], cycles + [c])
  {
    hide Closes;
    var longer, all := ds + [d], cycles + [c];
    forall e: nat ensures Closes(longer, e) <==> exists i :: 0 <= i < |all| && all[i].closeEpisode == e {
      ClosesWithin(ds, d, e);
      if e == |ds| + 1 {
        assert all[|cycles|].closeEpisode == e;
      } else if Closes(longer, e) {
        var i :| 0 <= i < |cycles| && cycles[i].closeEpisode == e;
        assert all[i].closeEpisode == e;
      }
    }
  }

  lemma ClosesWithin(ds: seq<Decision>, d: Decision, e: nat)
    ensures Closes(ds, e) ==> 1 <= e <= |ds| && Closes(ds + [d], e)
    ensures Closes(ds + [d], e) ==> e == |ds| + 1 || Closes(ds, e)
  {
    ClosesExtends(ds, d, e);
  }

  lemma WalkStarts(t: Terms)
    requires t.Valid()
    ensures WalkOk(t, [], Walk(0, t.initialCash, None, []))
  {
  }

  lemma {:induction false} WalkedIsOk(t: Terms, ds: seq<Decision>)
    requires t.Valid() && Walked(t, ds).Ok?
    ensures WalkOk(t, ds, Walked(t, ds).value)
    decreases |ds|
  {
    hide WalkOk, RoundSignificant;
    if ds == [] {
      WalkStarts(t);
    } else {
      var n := |ds| - 1;
      WalkedIsOk(t, ds[..n]);
      assert ds == ds[..n] + [ds[n]];
      var w := Walked(t, ds[..n]).value;
      if w.prior > 0 && ds[n].position.value == 0 {
        AdvanceCloses(t, ds[..n], w, ds[n]);
      } else {
        AdvanceOpens(t, ds[..n], w, ds[n]);
      }
    }
  }

  // --------------------------------------------------------------- theorems

  /** Accepted decisions yield disjoint, ordered cycles, one for each positive-to-flat transition
      and no other, each with its own fills and cash. */
  lemma CyclesAreTheClosings(t: Terms, s: Simulation)
    requires t.Valid() && Accepted(t, s)
    ensures var cycles := Walked(t, s.decisions).value.cycles;
            && InRange(s.decisions, cycles) && Ordered(cycles) && Complete(s.decisions, cycles)
            && (forall i :: 0 <= i < |cycles| ==> CycleOk(t, s.decisions, cycles, i))
            && forall i :: 0 <= i < |cycles| ==>
                 var close := cycles[i].closeEpisode;
                 var late := s.decisions[close - 1].receipt != None;
                 cycles[i].closedAt == t.first + (if late then close else close - 1) * t.interval
  {
    hide Walked;
    WalkedIsOk(t, s.decisions);
    var cycles := Walked(t, s.decisions).value.cycles;
    forall i | 0 <= i < |cycles|
      ensures var close := cycles[i].closeEpisode;
              var late := s.decisions[close - 1].receipt != None;
              cycles[i].closedAt == t.first + (if late then close else close - 1) * t.interval
    {
      assert CycleOk(t, s.decisions, cycles, i);
      var close := cycles[i].closeEpisode;
      assert (close - 1) * t.interval + t.interval == close * t.interval;
    }
  }

  /** What each decision must be, seen with the ones before it: bound to its place, readable, its
      receipt in order, and with a fill if it opens or closes a position. */
  predicate DecisionOk(t: Terms, ds: seq<Decision>, i: nat)
    requires i < |ds|
  {
    var d := ds[i];
    && d.bound && d.episode == i + 1
    && d.position.Some? && d.cash.Some? && d.equity.Some? && d.position.value >= 0 && d.cash.value >= 0
    && ReceiptOk(d, t.first + (if d.receipt != None then i + 1 else i) * t.interval)
    && (Opens(ds, i + 1) || Closes(ds, i + 1) ==> (d.status == Filled || d.status == Partial) && d.fillId != "")
  }

  lemma DecisionOkPrefix(t: Terms, ds: seq<Decision>, n: nat, i: nat)
    requires i < n <= |ds|
    ensures DecisionOk(t, ds[..n], i) <==> DecisionOk(t, ds, i)
  {
    hide ReceiptOk;
    assert Position(ds[..n], i) == Position(ds, i) && Position(ds[..n], i + 1) == Position(ds, i + 1);
  }

  lemma AdvanceIsDecisionOk(t: Terms, ds: seq<Decision>, w: Walk)
    requires t.Valid() && ds != [] && WalkOk(t, ds[..|ds| - 1], w)
    ensures Advance(t, w, ds[|ds| - 1], |ds|).Ok? <==> DecisionOk(t, ds, |ds| - 1)
  {
    hide ReceiptOk, CycleOk, Ordered, Complete, InRange, RoundSignificant;
    var n := |ds| - 1;
    assert Position(ds[..n], n) == Position(ds, n);
    assert n * t.interval + t.interval == (n + 1) * t.interval;
  }

  lemma AcceptedIs(t: Terms, s: Simulation)
    requires t.Valid()
    ensures Accepted(t, s) <==>
              && s.admitted && s.completedEpisodes == |s.decisions| > 0
              && (forall i :: 0 <= i < |s.decisions| ==> DecisionOk(t, s.decisions, i))
              && s.decisions[|s.decisions| - 1].cashText == s.cashText
              && s.decisions[|s.decisions| - 1].positionText == s.positionText
  {
    hide Walked, DecisionOk;
    AcceptedDecisionByDecision(t, s.decisions);
  }

  /** Acceptance is decided decision by decision. */
  lemma {:induction false} AcceptedDecisionByDecision(t: Terms, ds: seq<Decision>)
    requires t.Valid()
    ensures Walked(t, ds).Ok? <==> forall i :: 0 <= i < |ds| ==> DecisionOk(t, ds, i)
    decreases |ds|
  {
    hide Advance, WalkOk, DecisionOk;
    if ds != [] {
      var n := |ds| - 1;
      AcceptedDecisionByDecision(t, ds[..n]);
      forall i | 0 <= i < n ensures DecisionOk(t, ds[..n], i) <==> DecisionOk(t, ds, i) {
        DecisionOkPrefix(t, ds, n, i);
      }
      if Walked(t, ds[..n]).Ok? {
        WalkedIsOk(t, ds[..n]);
        AdvanceIsDecisionOk(t, ds, Walked(t, ds[..n]).value);
      } else {
        var i :| 0 <= i < n && !DecisionOk(t, ds[..n], i);
        assert !DecisionOk(t, ds, i);
      }
    }
  }

  /** Appending decisions never rewrites an earlier cycle. */
  lemma EarlierCyclesStay(t: Terms, ds: seq<Decision>, more: seq<Decision>)
    requires t.Valid() && Walked(t, ds + more).Ok?
    ensures Walked(t, ds).Ok? && Walked(t, ds).value.cycles <= Walked(t, ds + more).value.cycles
  {
    WalkedPrefix(t, ds + more, |ds|);
    assert (ds + more)[..|ds|] == ds;
  }

  /** Close times strictly increase even when decisions with and without receipts mix. */
  lemma CloseTimesIncrease(t: Terms, ds: seq<Decision>, i: nat, j: nat)
    requires t.Valid() && t.interval > 0 && Walked(t, ds).Ok?
    requires i < j < |Walked(t, ds).value.cycles|
    ensures Walked(t, ds).value.cycles[i].closedAt < Walked(t, ds).value.cycles[j].closedAt
  {
    hide Walked, Advance, RoundSignificant, Cash, CashBefore, Complete;
    WalkedIsOk(t, ds);
    var cycles := Walked(t, ds).value.cycles;
    assert CycleOk(t, ds, cycles, i) && CycleOk(t, ds, cycles, j);
    var a, b := cycles[i].closeEpisode, cycles[j].closeEpisode;
    assert a + 2 <= b;
    MulMono(a + 1, b - 1, t.interval);
    assert (a + 1) * t.interval == (a - 1) * t.interval + 2 * t.interval;
  }

  function SumOutcomes(cycles: seq<Cycle>): int {
    if cycles == [] then 0 else SumOutcomes(cycles[..|cycles| - 1]) + cycles[|cycles| - 1].netCash
  }

  /** The cash at the last flat before an episode: at the last closing, or the initial cash. */
  function FlatCash(t: Terms, ds: seq<Decision>, episode: nat): int
    requires episode <= |ds| + 1
  {
    if episode <= 1 then t.initialCash
    else if Closes(ds, episode - 1) then Cash(ds, episode - 1)
    else FlatCash(t, ds, episode - 1)
  }

  /** At every closing the cash moved since the last flat fits the context. */
  ghost predicate DifferencesFit(t: Terms, ds: seq<Decision>) {
    forall e :: Closes(ds, e) ==> Fits(t.precision, Cash(ds, e) - FlatCash(t, ds, e))
  }

  /** Each cycle starts from the cash at the last flat before it closes. */
  lemma {:induction false} FlatCashIs(t: Terms, ds: seq<Decision>, cycles: seq<Cycle>, i: nat, e: nat)
    requires t.Valid() && InRange(ds, cycles) && i <= |cycles| && 1 <= e <= |ds| + 1
    requires Ordered(cycles) && Complete(ds, cycles)
    requires i > 0 ==> cycles[i - 1].closeEpisode < e
    requires i < |cycles| ==> e <= cycles[i].closeEpisode
    ensures FlatCash(t, ds, e) == CashBefore(t, ds, cycles, i)
    decreases e
  {
    hide Position, Cash;
    if e > 1 {
      if Closes(ds, e - 1) {
        var j :| 0 <= j < |cycles| && cycles[j].closeEpisode == e - 1;
        if i > 0 { CloseOrder(ds, cycles, Min(j, i - 1), Max(j, i - 1)); }
        if i < |cycles| { CloseOrder(ds, cycles, Min(j, i), Max(j, i)); }
      } else {
        if i > 0 { assert Closes(ds, cycles[i - 1].closeEpisode); }
        FlatCashIs(t, ds, cycles, i, e - 1);
      }
    }
  }

  lemma CloseOrder(ds: seq<Decision>, cycles: seq<Cycle>, i: nat, j: nat)
    requires InRange(ds, cycles) && Ordered(cycles) && i <= j < |cycles|
    ensures i < j ==> cycles[i].closeEpisode < cycles[j].closeEpisode
  {
  }

  lemma CycleFits(t: Terms, ds: seq<Decision>, i: nat)
    requires t.Valid() && Walked(t, ds).Ok? && i < |Walked(t, ds).value.cycles|
    ensures InRange(ds, Walked(t, ds).value.cycles)
    ensures var cycles := Walked(t, ds).value.cycles;
            var e := cycles[i].closeEpisode;
            Closes(ds, e) && FlatCash(t, ds, e) == CashBefore(t, ds, cycles, i)
  {
    hide FlatCash, CashBefore, Advance;
    WalkedIsOk(t, ds);
    var cycles := Walked(t, ds).value.cycles;
    assert CycleOk(t, ds, cycles, i);
    if i > 0 { assert cycles[i - 1].closeEpisode < cycles[i].openEpisode; }
    FlatCashIs(t, ds, cycles, i, cycles[i].closeEpisode);
  }

  /** One outcome is exact precisely when its difference fits; its class is right in any case. */
  lemma OutcomeExactness(t: Terms, ds: seq<Decision>, i: nat)
    requires t.Valid() && Walked(t, ds).Ok? && i < |Walked(t, ds).value.cycles|
    ensures InRange(ds, Walked(t, ds).value.cycles)
    ensures var cycles := Walked(t, ds).value.cycles;
            var moved := Cash(ds, cycles[i].closeEpisode) - CashBefore(t, ds, cycles, i);
            && (cycles[i].netCash == moved <==> Fits(t.precision, moved))
            && (cycles[i].outcome == Positive <==> moved > 0)
            && (cycles[i].outcome == Negative <==> moved < 0)
            && (cycles[i].outcome == Null <==> moved == 0)
  {
    hide Walked, Advance, RoundSignificant, Fits, Cash, CashBefore, Position;
    WalkedIsOk(t, ds);
    var cycles := Walked(t, ds).value.cycles;
    assert CycleOk(t, ds, cycles, i);
    var moved := Cash(ds, cycles[i].closeEpisode) - CashBefore(t, ds, cycles, i);
    RoundingKeepsSign(t.precision, moved);
    RoundingExactWhenFits(t.precision, moved);
  }

  /** The first `n` outcomes sum to the cash moved up to there. */
  ghost predicate Telescopes(t: Terms, ds: seq<Decision>, cycles: seq<Cycle>, n: nat)
    requires InRange(ds, cycles) && n <= |cycles|
  {
    SumOutcomes(cycles[..n]) == CashBefore(t, ds, cycles, n) - t.initialCash
  }

  /** Conservation: the outcomes sum to the cash at the last close minus the initial cash. */
  ghost predicate Conserves(t: Terms, ds: seq<Decision>, cycles: seq<Cycle>) {
    InRange(ds, cycles) && SumOutcomes(cycles) == CashBefore(t, ds, cycles, |cycles|) - t.initialCash
  }

  lemma OutcomesTelescope(t: Terms, ds: seq<Decision>)
    requires t.Valid() && Walked(t, ds).Ok? && DifferencesFit(t, ds)
    ensures Conserves(t, ds, Walked(t, ds).value.cycles)
  {
    hide Fits, Walked, CycleOk, FlatCash, SumOutcomes, CashBefore, Advance;
    var cycles := Walked(t, ds).value.cycles;
    RunningTotalsTelescope(t, ds);
    assert Telescopes(t, ds, cycles, |cycles|);
    assert cycles[..|cycles|] == cycles;
  }

  /** After every cycle the outcomes so far telescope, if and only if the decisions move an amount
      that fits at each closing. */
  lemma RunningTotalsTelescope(t: Terms, ds: seq<Decision>)
    requires t.Valid() && Walked(t, ds).Ok?
    ensures InRange(ds, Walked(t, ds).value.cycles)
    ensures var cycles := Walked(t, ds).value.cycles;
            (forall n :: 0 <= n <= |cycles| ==> Telescopes(t, ds, cycles, n)) <==> DifferencesFit(t, ds)
  {
    hide Walked, Advance, Fits, Position, RoundSignificant, SumOutcomes, CashBefore, Cash, FlatCash, Closes;
    WalkedIsOk(t, ds);
    var cycles := Walked(t, ds).value.cycles;
    if DifferencesFit(t, ds) {
      forall n | 0 <= n <= |cycles| ensures Telescopes(t, ds, cycles, n) {
        TelescopePrefix(t, ds, n);
      }
    }
    if forall n :: 0 <= n <= |cycles| ==> Telescopes(t, ds, cycles, n) {
      forall e | Closes(ds, e) ensures Fits(t.precision, Cash(ds, e) - FlatCash(t, ds, e)) {
        var i :| 0 <= i < |cycles| && cycles[i].closeEpisode == e;
        TelescopeStep(t, ds, cycles, i);
        OutcomeExactness(t, ds, i);
        CycleFits(t, ds, i);
      }
    }
  }

  lemma TelescopeStep(t: Terms, ds: seq<Decision>, cycles: seq<Cycle>, i: nat)
    requires InRange(ds, cycles) && i < |cycles|
    requires Telescopes(t, ds, cycles, i) && Telescopes(t, ds, cycles, i + 1)
    ensures cycles[i].netCash == Cash(ds, cycles[i].closeEpisode) - CashBefore(t, ds, cycles, i)
  {
    assert cycles[..i + 1][..i] == cycles[..i];
  }

  lemma {:induction false} TelescopePrefix(t: Terms, ds: seq<Decision>, n: nat)
    requires t.Valid() && Walked(t, ds).Ok? && n <= |Walked(t, ds).value.cycles| && DifferencesFit(t, ds)
    ensures InRange(ds, Walked(t, ds).value.cycles)
    ensures Telescopes(t, ds, Walked(t, ds).value.cycles, n)
    decreases n
  {
    hide Walked, Advance, Fits, FlatCash, RoundSignificant, CycleOk, Closes, Cash, CashBefore, Position, SumOutcomes, Telescopes;
    WalkedIsOk(t, ds);
    var cycles := Walked(t, ds).value.cycles;
    NothingMoved(t, ds, cycles);
    if n > 0 {
      TelescopePrefix(t, ds, n - 1);
      CycleFits(t, ds, n - 1);
      OutcomeExactness(t, ds, n - 1);
      OneMoreMoved(t, ds, cycles, n - 1);
    }
  }

  lemma NothingMoved(t: Terms, ds: seq<Decision>, cycles: seq<Cycle>)
    requires InRange(ds, cycles)
    ensures Telescopes(t, ds, cycles, 0)
  {
    assert cycles[..0] == [];
  }

  lemma OneMoreMoved(t: Terms, ds: seq<Decision>, cycles: seq<Cycle>, i: nat)
    requires InRange(ds, cycles) && i < |cycles| && Telescopes(t, ds, cycles, i)
    requires cycles[i].netCash == Cash(ds, cycles[i].closeEpisode) - CashBefore(t, ds, cycles, i)
    ensures Telescopes(t, ds, cycles, i + 1)
  {
    assert cycles[..i + 1][..i] == cycles[..i];
  }

  // ------------------------------------------ the precision that conserves

  /** Every accepted simulation from positive initial cash conserves under this precision. */
  ghost predicate AlwaysConserves(precision: nat) {
    forall t: Terms, s: Simulation ::
      t.precision == precision && t.Valid() && t.initialCash > 0 && Accepted(t, s) ==>
        Conserves(t, s.decisions, Walked(t, s.decisions).value.cycles)
  }

  /** Conservation depends on the ambient context alone: all accepted simulations conserve if and
      only if its precision is at least 512, which the default of 28 is not. */
  lemma PrecisionDecides(precision: nat)
    requires precision >= 1
    ensures AlwaysConserves(precision) <==> precision >= FULL_PRECISION
  {
    if precision >= FULL_PRECISION {
      forall t: Terms, s: Simulation |
        t.precision == precision && t.Valid() && t.initialCash > 0 && Accepted(t, s)
        ensures Conserves(t, s.decisions, Walked(t, s.decisions).value.cycles)
      {
        FullPrecisionConserves(t, s.decisions);
      }
    } else {
      var t, s := ConservationFails(precision);
    }
  }

  lemma FullPrecisionConserves(t: Terms, ds: seq<Decision>)
    requires t.precision >= FULL_PRECISION && t.Valid() && t.initialCash >= 0 && Walked(t, ds).Ok?
    ensures Conserves(t, ds, Walked(t, ds).value.cycles)
  {
    forall e | Closes(ds, e) ensures Fits(t.precision, Cash(ds, e) - FlatCash(t, ds, e)) {
      var a := CashIsAmount(t, ds, e);
      var b := FlatCashIsAmount(t, ds, e);
      FullPrecisionFits(t.precision, a, b);
    }
    OutcomesTelescope(t, ds);
  }

  lemma {:induction false} CashIsAmount(t: Terms, ds: seq<Decision>, e: nat) returns (a: Amount)
    requires t.Valid() && Walked(t, ds).Ok? && 1 <= e <= |ds|
    ensures a == Cash(ds, e) >= 0
    decreases |ds|
  {
    var n := |ds| - 1;
    if e <= n {
      a := CashIsAmount(t, ds[..n], e);
    } else {
      assert Advance(t, Walked(t, ds[..n]).value, ds[n], n + 1).Ok?;
      a := ds[n].cash.value;
    }
  }

  lemma {:induction false} FlatCashIsAmount(t: Terms, ds: seq<Decision>, e: nat) returns (a: Amount)
    requires t.Valid() && t.initialCash >= 0 && Walked(t, ds).Ok? && e <= |ds| + 1
    ensures a == FlatCash(t, ds, e) >= 0
    decreases e
  {
    if e <= 1 {
      a := t.initialCash;
    } else if Closes(ds, e - 1) {
      a := CashIsAmount(t, ds, e - 1);
    } else {
      a := FlatCashIsAmount(t, ds, e - 1);
    }
  }

  /** And below 512 it does fail: start from one unit, close at `2 * 10^p` units, and the one outcome
      is a unit more than the cash moved. */
  lemma ConservationFails(precision: nat) returns (t: Terms, s: Simulation)
    requires 1 <= precision < FULL_PRECISION
    ensures t.precision == precision && t.Valid() && t.initialCash > 0 && Accepted(t, s)
    ensures !Conserves(t, s.decisions, Walked(t, s.decisions).value.cycles)
  {
    hide DigitCount, RoundSignificant, Pow;
    SmallAmounts();
    AmountOfDigit(2, precision);
    var zero: Amount, one: Amount, cash: Amount := 0, 1, 2 * Pow(10, precision);
    t := Terms(one, 0, 3600, precision);
    var first := Decision(true, 1, Filled, "opening", Some(one), Some(zero), Some(one), None, "", "1E-256", "0", true);
    var second := Decision(true, 2, Filled, "closing", Some(zero), Some(cash), Some(cash), None, "", "0", "closing cash", true);
    var ds := [first, second];
    s := Simulation(true, 2, ds, "closing cash", "0");
    OneUnitIsLost(precision);
    assert ds[..1] == [first] && [first][..0] == [];
    assert Walked(t, []) == Ok(Walk(0, 1, None, []));
    assert Walked(t, [first]) == Ok(Walk(1, 1, Some(Opening(1, 1, "opening")), []));
    var cycles := Walked(t, ds).value.cycles;
    assert cycles[..0] == [];
    assert |cycles| == 1 && cycles[0].netCash == RoundSignificant(precision, cash - 1) == cash;
    assert SumOutcomes(cycles) == cash;
    assert InRange(ds, cycles) ==> CashBefore(t, ds, cycles, 1) == cash;
  }
}
