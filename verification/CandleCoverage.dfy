/** Candle coverage of one UTC month or day: accepted rows and counted gaps together make up every
    interval of the period. */
module CandleCoverage {
  import opened Arithmetic
  import opened Common

  const MAX_ROWS := 100000
  const DAY := 86400
  const MICROS := 1000000

  /** A CSV row after field splitting. `opens` and `closes` are the two time fields as integers with
      their digit counts; prices and volume are `None` when they are not finite decimals. */
  datatype RawRow = RawRow(
    fields: nat, opensDigits: nat, opens: nat, closesDigits: nat, closes: nat,
    open: Option<real>, high: Option<real>, low: Option<real>, close: Option<real>, volume: Option<real>)

  predicate IsLeap(year: nat) {
    year % 4 == 0 && (year % 100 != 0 || year % 400 == 0)
  }

  function DaysInMonth(year: nat, month: nat): (days: nat)
    requires 1 <= month <= 12
    ensures 28 <= days <= 31
  {
    if month == 2 then (if IsLeap(year) then 29 else 28)
    else if month in {4, 6, 9, 11} then 30
    else 31
  }

  /** The first day of a month, counted from 1 January 1970: the lengths of the months between. */
  function FirstDay(year: nat, month: nat): (day: nat)
    requires year >= 1970 && 1 <= month <= 12
    decreases year, month
  {
    if month > 1 then FirstDay(year, month - 1) + DaysInMonth(year, month - 1)
    else if year > 1970 then FirstDay(year - 1, 12) + DaysInMonth(year - 1, 12)
    else 0
  }

  lemma NextMonth(year: nat, month: nat)
    requires year >= 1970 && 1 <= month <= 12
    ensures FirstDay(if month == 12 then year + 1 else year, if month == 12 then 1 else month + 1) ==
            FirstDay(year, month) + DaysInMonth(year, month)
  {
  }

  lemma YearLength(year: nat)
    requires year >= 1970
    ensures FirstDay(year + 1, 1) - FirstDay(year, 1) == if IsLeap(year) then 366 else 365
    ensures FirstDay(year, 3) - FirstDay(year, 1) == if IsLeap(year) then 60 else 59
  {
    hide FirstDay;
    NextMonth(year, 1);
    NextMonth(year, 2);
    NextMonth(year, 3);
    NextMonth(year, 4);
    NextMonth(year, 5);
    NextMonth(year, 6);
    NextMonth(year, 7);
    NextMonth(year, 8);
    NextMonth(year, 9);
    NextMonth(year, 10);
    NextMonth(year, 11);
    NextMonth(year, 12);
  }

  /** The Gregorian calendar in closed form: every fourth year is longer by a day, but not every
      hundredth, but every four-hundredth. */
  lemma {:induction false} YearStarts(year: nat)
    requires year >= 1970
    ensures FirstDay(year, 1) == 365 * (year - 1970) + (year - 1969) / 4 - (year - 1901) / 100 + (year - 1601) / 400
    decreases year
  {
    if year > 1970 {
      YearStarts(year - 1);
      YearLength(year - 1);
      hide FirstDay;
      LeapDays(year - 1);
    }
  }

  lemma LeapDays(year: nat)
    requires year >= 1970
    ensures (year - 1968) / 4 - (year - 1900) / 100 + (year - 1600) / 400 ==
            (year - 1969) / 4 - (year - 1901) / 100 + (year - 1601) / 400 + (if IsLeap(year) then 1 else 0)
  {
    NextMultiple(year - 1969, 4);
    NextMultiple(year - 1901, 100);
    NextMultiple(year - 1601, 400);
    Shifted(year - 1968, 4, 492);
    Shifted(year - 1900, 100, 19);
    Shifted(year - 1600, 400, 4);
    Nested(year);
  }

  lemma Nested(year: nat)
    ensures year % 400 == 0 ==> year % 100 == 0
    ensures year % 100 == 0 ==> year % 4 == 0
  {
    if year % 100 == 0 { MultipleOf(year, 4, 25 * (year / 100)); }
    if year % 400 == 0 { MultipleOf(year, 100, 4 * (year / 400)); }
  }

  lemma Shifted(n: nat, d: nat, k: nat)
    requires d > 0
    ensures (n + k * d) / d == n / d + k && (n + k * d) % d == n % d
  {
    assert n == (n / d) * d + n % d;
    assert (n / d + k) * d == (n / d) * d + k * d;
    DivModUnique(n + k * d, d, n / d + k, n % d);
  }

  /** A quotient grows exactly at the multiples of its divisor. */
  lemma NextMultiple(n: nat, d: nat)
    requires d > 0
    ensures (n + 1) / d == n / d + (if (n + 1) % d == 0 then 1 else 0)
  {
    var q, r := n / d, n % d;
    assert n == q * d + r;
    if r == d - 1 {
      assert n + 1 == (q + 1) * d;
      DivModUnique(n + 1, d, q + 1, 0);
    } else {
      DivModUnique(n + 1, d, q, r + 1);
    }
  }

  lemma FourHundredYears(year: nat)
    requires year >= 1970
    ensures FirstDay(year + 400, 1) - FirstDay(year, 1) == 146097
  {
    hide FirstDay;
    YearStarts(year);
    YearStarts(year + 400);
    Shifted(year - 1969, 4, 100);
    Shifted(year - 1901, 100, 4);
    Shifted(year - 1601, 400, 1);
  }

  lemma SupportedFrom()
    ensures FirstDay(2024, 1) == 19723
  {
    hide FirstDay;
    YearStarts(2024);
  }

  /** The requested month. */
  datatype Month = Month(year: nat, month: nat) {
    predicate Valid() {
      2024 <= year <= 2100 && 1 <= month <= 12
    }
    function Start(): nat
      requires Valid()
    {
      FirstDay(year, month) * DAY
    }
    function End(): nat
      requires Valid()
    {
      Start() + DaysInMonth(year, month) * DAY
    }
  }

  predicate IsInterval(seconds: nat) {
    seconds in {60, 300, 900, 3600, 86400}
  }

  /** The candles a period of so many days has. */
  function Intervals(days: nat, seconds: nat): nat
    requires IsInterval(seconds)
  {
    days * (DAY / seconds)
  }

  // -------------------------------------------------------------- one row

  /** Milliseconds before 2025, microseconds from then on. */
  function UnitDigits(m: Month): nat {
    if m.year < 2025 then 13 else 16
  }

  function PerSecond(m: Month): nat {
    if m.year < 2025 then 1000 else MICROS
  }

  function OpenMicros(row: RawRow): nat {
    if row.opensDigits == 13 then row.opens * 1000 else row.opens
  }

  predicate PricesOk(row: RawRow) {
    && row.open.Some? && row.high.Some? && row.low.Some? && row.close.Some? && row.volume.Some?
    && row.open.value > 0.0 && row.high.value > 0.0 && row.low.value > 0.0 && row.close.value > 0.0 && row.volume.value >= 0.0
    && row.low.value <= row.open.value && row.low.value <= row.close.value
    && row.high.value >= row.open.value && row.high.value >= row.close.value
  }

  /** A well-formed candle of the month, on an interval boundary. */
  predicate RowOk(row: RawRow, m: Month, seconds: nat)
    requires m.Valid() && IsInterval(seconds)
  {
    && row.fields == 12
    && row.opensDigits == UnitDigits(m) && row.closesDigits == UnitDigits(m)
    && row.closes == row.opens + seconds * PerSecond(m) - 1
    && OpenMicros(row) % MICROS == 0
    && m.Start() <= OpenMicros(row) / MICROS < m.End()
    && (OpenMicros(row) / MICROS) % seconds == 0
    && PricesOk(row)
  }

  /** Opening time in seconds. */
  function OpenTime(row: RawRow): nat {
    OpenMicros(row) / MICROS
  }

  lemma RowOkMeans(row: RawRow, m: Month, seconds: nat)
    requires m.Valid() && IsInterval(seconds)
    ensures var first, perSecond := FirstDay(m.year, m.month), if m.year < 2025 then 1000 else 1000000;
            var micros := if m.year < 2025 then row.opens * 1000 else row.opens;
            RowOk(row, m, seconds) <==>
              && row.fields == 12
              && row.opensDigits == row.closesDigits == (if m.year < 2025 then 13 else 16)
              && row.closes + 1 == row.opens + seconds * perSecond
              && micros % 1000000 == 0 && (micros / 1000000) % seconds == 0
              && first * 86400 <= micros / 1000000 < (first + DaysInMonth(m.year, m.month)) * 86400
              && match (row.open, row.high, row.low, row.close, row.volume)
                 case (Some(o), Some(h), Some(l), Some(c), Some(v)) =>
                   o > 0.0 && h > 0.0 && l > 0.0 && c > 0.0 && v >= 0.0 && l <= o <= h && l <= c <= h
                 case _ => false
  {
    hide DaysInMonth, FirstDay;
  }

  /** The checks of the source, in its order, except the cadence against the previous row. */
  method CheckRow(row: RawRow, m: Month, seconds: nat) returns (ok: bool)
    requires m.Valid() && IsInterval(seconds)
    ensures ok <==> RowOk(row, m, seconds)
    ensures var first, perSecond := FirstDay(m.year, m.month), if m.year < 2025 then 1000 else 1000000;
            var micros := if m.year < 2025 then row.opens * 1000 else row.opens;
            ok <==>
              && row.fields == 12
              && row.opensDigits == row.closesDigits == (if m.year < 2025 then 13 else 16)
              && row.closes + 1 == row.opens + seconds * perSecond
              && micros % 1000000 == 0 && (micros / 1000000) % seconds == 0
              && first * 86400 <= micros / 1000000 < (first + DaysInMonth(m.year, m.month)) * 86400
              && match (row.open, row.high, row.low, row.close, row.volume)
                 case (Some(o), Some(h), Some(l), Some(c), Some(v)) =>
                   o > 0.0 && h > 0.0 && l > 0.0 && c > 0.0 && v >= 0.0 && l <= o <= h && l <= c <= h
                 case _ => false
  {
    hide DaysInMonth, FirstDay, PricesOk, PerSecond, OpenMicros;
    RowOkMeans(row, m, seconds);
    if row.fields != 12 {
      return false;
    }
    if row.opensDigits != 13 && row.opensDigits != 16 {
      return false;
    }
    var current := OpenMicros(row);
    if row.opensDigits != UnitDigits(m) || row.closesDigits != UnitDigits(m) {
      return false;
    }
    if row.closes != row.opens + seconds * PerSecond(m) - 1 {
      return false;
    }
    var time := current / MICROS;
    if time < m.Start() || time >= m.End() {
      return false;
    }
    if (seconds == 3600 || seconds == 86400) && time % 3600 != 0 {
      return false;
    }
    if time % 60 != 0 || current % MICROS != 0 {
      MinuteDivides(time, seconds);
      return false;
    }
    if time % seconds != 0 {
      return false;
    }
    ok := PricesOk(row);
  }

  lemma MinuteDivides(time: nat, seconds: nat)
    requires IsInterval(seconds)
    ensures time % seconds == 0 ==> time % 60 == 0
    ensures seconds in {3600, 86400} && time % seconds == 0 ==> time % 3600 == 0
  {
    var q := time / seconds;
    assert time == seconds * q + time % seconds;
    if time % seconds == 0 {
      if seconds == 300 {
        MultipleOf(time, 60, 5 * q);
      } else if seconds == 900 {
        MultipleOf(time, 60, 15 * q);
      } else if seconds == 3600 {
        MultipleOf(time, 60, 60 * q);
      } else if seconds == 86400 {
        MultipleOf(time, 60, 1440 * q);
        MultipleOf(time, 3600, 24 * q);
      }
    }
  }

  lemma MultipleOf(n: int, d: nat, k: int)
    requires d > 0 && n == k * d
    ensures n % d == 0
  {
    ExactDivision(k, d);
  }

  // --------------------------------------------------------------- coverage

  /** Which candle of the month a row is. */
  function Slot(row: RawRow, m: Month, seconds: nat): int
    requires m.Valid() && IsInterval(seconds)
  {
    OpenTime(row) / seconds - m.Start() / seconds
  }

  ghost predicate AllRowsOk(rows: seq<RawRow>, m: Month, seconds: nat)
    requires m.Valid() && IsInterval(seconds)
  {
    forall i :: 0 <= i < |rows| ==> RowOk(rows[i], m, seconds)
  }

  ghost predicate Increasing(rows: seq<RawRow>) {
    forall i :: 0 < i < |rows| ==> OpenTime(rows[i - 1]) < OpenTime(rows[i])
  }

  /** The month starts on an interval boundary, and every accepted time is one. */
  lemma SlotOf(row: RawRow, m: Month, seconds: nat)
    requires m.Valid() && IsInterval(seconds) && RowOk(row, m, seconds)
    ensures 0 <= Slot(row, m, seconds) < Intervals(DaysInMonth(m.year, m.month), seconds)
    ensures OpenTime(row) == m.Start() + Slot(row, m, seconds) * seconds
  {
    hide FirstDay, DaysInMonth, RowOk, OpenTime;
    RowTime(row, m, seconds);
    SlotAmong(OpenTime(row), FirstDay(m.year, m.month), DaysInMonth(m.year, m.month), seconds);
  }

  lemma RowTime(row: RawRow, m: Month, seconds: nat)
    requires m.Valid() && IsInterval(seconds) && RowOk(row, m, seconds)
    ensures var first := FirstDay(m.year, m.month);
            first * DAY <= OpenTime(row) < (first + DaysInMonth(m.year, m.month)) * DAY && OpenTime(row) % seconds == 0
  {
    hide FirstDay, DaysInMonth, PricesOk, OpenMicros;
  }

  /** A boundary time among the days from `first` on. */
  lemma SlotAmong(time: nat, first: nat, days: nat, seconds: nat)
    requires IsInterval(seconds) && time % seconds == 0 && first * DAY <= time < (first + days) * DAY
    ensures var k := time / seconds - first * DAY / seconds;
            0 <= k < Intervals(days, seconds) && time == first * DAY + k * seconds
  {
    var per := DAY / seconds;
    assert DAY == per * seconds;
    Boundary(first, per, seconds);
    Boundary(first + days, per, seconds);
    SlotInside(time, first * per, (first + days) * per, seconds);
    assert (first + days) * per == first * per + days * per;
  }

  /** A boundary time between two boundaries. */
  lemma SlotInside(time: nat, first: nat, last: nat, seconds: nat)
    requires seconds > 0 && time % seconds == 0 && first * seconds <= time < last * seconds
    ensures first <= time / seconds < last
    ensures time == first * seconds + (time / seconds - first) * seconds
  {
    var k := time / seconds;
    assert time == k * seconds;
    OrderOfMultiples(first, k, seconds);
    OrderOfMultiples(k, last, seconds);
    assert (k - first) * seconds == k * seconds - first * seconds;
  }

  lemma Boundary(days: nat, per: nat, seconds: nat)
    requires seconds > 0 && DAY == per * seconds
    ensures days * DAY == (days * per) * seconds && (days * DAY) / seconds == days * per
  {
    assert days * DAY == (days * per) * seconds by { assert days * (per * seconds) == (days * per) * seconds; }
    ExactDivision(days * per, seconds);
  }

  lemma OrderOfMultiples(a: int, b: int, d: nat)
    requires d > 0
    ensures a * d < b * d <==> a < b
    ensures a * d <= b * d <==> a <= b
  {
    if a < b { MulMono(a + 1, b, d); }
    if b < a { MulMono(b + 1, a, d); }
  }

  /** The time between two accepted rows is a whole number of intervals. */
  lemma GapBetween(a: RawRow, b: RawRow, m: Month, seconds: nat)
    requires m.Valid() && IsInterval(seconds) && RowOk(a, m, seconds) && RowOk(b, m, seconds)
    ensures var delta := OpenTime(b) - OpenTime(a);
            delta == (Slot(b, m, seconds) - Slot(a, m, seconds)) * seconds &&
            delta % seconds == 0 && delta / seconds == Slot(b, m, seconds) - Slot(a, m, seconds) &&
            (delta > 0 <==> Slot(a, m, seconds) < Slot(b, m, seconds))
  {
    SlotOf(a, m, seconds);
    SlotOf(b, m, seconds);
    var k := Slot(b, m, seconds) - Slot(a, m, seconds);
    assert OpenTime(b) - OpenTime(a) == k * seconds;
    ExactDivision(k, seconds);
    OrderOfMultiples(0, k, seconds);
  }

  lemma ExactDivision(k: int, d: nat)
    requires d > 0
    ensures (k * d) % d == 0 && (k * d) / d == k
  {
    DivModUnique(k * d, d, k, 0);
  }

  /** `_validated_rows`: accepts exactly non-empty, bounded, strictly increasing lists of good rows,
      and then rows and missing intervals add up to the intervals of the month. */
  method ValidatedRows(rows: seq<RawRow>, m: Month, seconds: nat) returns (r: Result<nat>)
    requires m.Valid() && IsInterval(seconds)
    ensures r.Ok? <==> 0 < |rows| <= MAX_ROWS && AllRowsOk(rows, m, seconds) && Increasing(rows)
    ensures r.Ok? ==> |rows| + r.value == Intervals(DaysInMonth(m.year, m.month), seconds)
  {
    hide Slot, RowOk;
    var missing := 0;
    for i := 0 to |rows|
      invariant i <= MAX_ROWS
      invariant forall j :: 0 <= j < i ==> RowOk(rows[j], m, seconds)
      invariant forall j :: 0 < j < i ==> OpenTime(rows[j - 1]) < OpenTime(rows[j])
      invariant missing >= 0
      invariant i == 0 ==> missing == 0
      invariant i > 0 ==> i + missing == Slot(rows[i - 1], m, seconds) - Slot(rows[0], m, seconds) + 1
    {
      var row := rows[i];
      var ok := CheckRow(row, m, seconds);
      if !ok {
        return Refused;
      }
      if i > 0 {
        var cadence := MissingBetween(rows[i - 1], row, m, seconds);
        if cadence.Refused? {
          return Refused;
        }
        missing := missing + cadence.value;
      }
      if i + 1 > MAX_ROWS {
        return Refused;
      }
    }
    if rows == [] {
      return Refused;
    }
    var edges := MissingAtEnds(rows[0], rows[|rows| - 1], m, seconds);
    return Ok(missing + edges);
  }

  /** The cadence check of two neighbouring rows, and the intervals missing between them. */
  method MissingBetween(prev: RawRow, row: RawRow, m: Month, seconds: nat) returns (r: Result<nat>)
    requires m.Valid() && IsInterval(seconds) && RowOk(prev, m, seconds) && RowOk(row, m, seconds)
    ensures r.Ok? <==> OpenTime(prev) < OpenTime(row)
    ensures r.Ok? ==> r.value == Slot(row, m, seconds) - Slot(prev, m, seconds) - 1
  {
    var delta := OpenTime(row) - OpenTime(prev);
    GapBetween(prev, row, m, seconds);
    if delta <= 0 || delta % seconds != 0 {
      return Refused;
    }
    if delta > seconds {
      OrderOfMultiples(1, Slot(row, m, seconds) - Slot(prev, m, seconds), seconds);
      return Ok(delta / seconds - 1);
    }
    OrderOfMultiples(1, Slot(row, m, seconds) - Slot(prev, m, seconds), seconds);
    return Ok(0);
  }

  /** Coverage must reach both ends of the month. */
  method MissingAtEnds(first: RawRow, last: RawRow, m: Month, seconds: nat) returns (missing: nat)
    requires m.Valid() && IsInterval(seconds) && RowOk(first, m, seconds) && RowOk(last, m, seconds)
    ensures missing == Slot(first, m, seconds) +
                       Intervals(DaysInMonth(m.year, m.month), seconds) - Slot(last, m, seconds) - 1
  {
    Ends(first, m, seconds);
    Ends(last, m, seconds);
    missing := (OpenTime(first) - m.Start()) / seconds;
    var tail := (m.End() - OpenTime(last)) / seconds - 1;
    missing := missing + (if tail > 0 then tail else 0);
  }

  /** What the two ends contribute. */
  lemma Ends(row: RawRow, m: Month, seconds: nat)
    requires m.Valid() && IsInterval(seconds) && RowOk(row, m, seconds)
    ensures (OpenTime(row) - m.Start()) / seconds == Slot(row, m, seconds) >= 0
    ensures (m.End() - OpenTime(row)) / seconds - 1 ==
              Intervals(DaysInMonth(m.year, m.month), seconds) - Slot(row, m, seconds) - 1 >= 0
  {
    hide DaysInMonth, RowOk;
    var days, per, k := DaysInMonth(m.year, m.month), DAY / seconds, Slot(row, m, seconds);
    SlotOf(row, m, seconds);
    ExactDivision(k, seconds);
    assert DAY == per * seconds;
    assert days * DAY == (days * per) * seconds by { Boundary(days, per, seconds); }
    assert (days * per - k) * seconds == (days * per) * seconds - k * seconds;
    ExactDivision(days * per - k, seconds);
  }

  // --------------------------------------------------------------- theorems

  lemma {:induction false} SlotsIncrease(rows: seq<RawRow>, m: Month, seconds: nat, i: nat, j: nat)
    requires m.Valid() && IsInterval(seconds) && AllRowsOk(rows, m, seconds) && Increasing(rows)
    requires i <= j < |rows|
    ensures Slot(rows[j], m, seconds) - Slot(rows[i], m, seconds) >= j - i
    decreases j - i
  {
    if i < j {
      SlotsIncrease(rows, m, seconds, i, j - 1);
      GapBetween(rows[j - 1], rows[j], m, seconds);
    }
  }

  /** With no interval missing, the rows are the candles of the month, each exactly once. */
  lemma CompleteMeansEverySlot(rows: seq<RawRow>, m: Month, seconds: nat, i: nat)
    requires m.Valid() && IsInterval(seconds) && AllRowsOk(rows, m, seconds) && Increasing(rows)
    requires |rows| == Intervals(DaysInMonth(m.year, m.month), seconds) && i < |rows|
    ensures Slot(rows[i], m, seconds) == i
  {
    SlotsIncrease(rows, m, seconds, 0, i);
    SlotsIncrease(rows, m, seconds, i, |rows| - 1);
    SlotOf(rows[0], m, seconds);
    SlotOf(rows[|rows| - 1], m, seconds);
  }

  /** Every accepted row sits in its own slot. */
  lemma SlotsDistinct(rows: seq<RawRow>, m: Month, seconds: nat, i: nat, j: nat)
    requires m.Valid() && IsInterval(seconds) && AllRowsOk(rows, m, seconds) && Increasing(rows)
    requires i < j < |rows|
    ensures Slot(rows[i], m, seconds) < Slot(rows[j], m, seconds)
  {
    SlotsIncrease(rows, m, seconds, i, j);
  }

  /** The daily branch. Its rejection of more rows than a day has intervals never happens: rows that
      passed the monthly checks and the date check cannot be that many. */
  method DailyGaps(rows: seq<RawRow>, m: Month, seconds: nat, day: nat) returns (r: Result<nat>)
    requires m.Valid() && IsInterval(seconds) && rows != [] && AllRowsOk(rows, m, seconds) && Increasing(rows)
    ensures r.Ok? <==> forall i :: 0 <= i < |rows| ==> day * DAY <= OpenTime(rows[i]) < (day + 1) * DAY
    ensures r.Ok? ==> |rows| + r.value == Intervals(1, seconds)
  {
    hide RowOk, Slot;
    for i := 0 to |rows|
      invariant forall j :: 0 <= j < i ==> day * DAY <= OpenTime(rows[j]) < (day + 1) * DAY
    {
      if OpenTime(rows[i]) < day * DAY || OpenTime(rows[i]) >= (day + 1) * DAY {
        return Refused;
      }
    }
    var gaps := DAY / seconds - |rows|;
    SlotsIncrease(rows, m, seconds, 0, |rows| - 1);
    GapBetween(rows[0], rows[|rows| - 1], m, seconds);
    var span := Slot(rows[|rows| - 1], m, seconds) - Slot(rows[0], m, seconds);
    assert span * seconds < DAY;
    OrderOfMultiples(span, DAY / seconds, seconds);
    assert gaps >= 0;
    return Ok(gaps);
  }

  // ------------------------------------------------------------- month range

  /** Months counted from year zero. */
  function Index(year: int, month: int): int {
    year * 12 + (month - 1)
  }

  /** `_month_range` yields every month from the first to the last, in order. */
  method MonthRange(year: int, month: int, lastYear: int, lastMonth: int) returns (r: Result<seq<(int, int)>>)
    requires 1 <= month <= 12 && 1 <= lastMonth <= 12
    ensures r.Ok? <==> Index(year, month) <= Index(lastYear, lastMonth)
    ensures r.Ok? ==> |r.value| == Index(lastYear, lastMonth) - Index(year, month) + 1
    ensures r.Ok? ==> forall i :: 0 <= i < |r.value| ==>
              1 <= r.value[i].1 <= 12 && Index(r.value[i].0, r.value[i].1) == Index(year, month) + i
    ensures r.Ok? ==> r.value != [] && r.value[0] == (year, month) && r.value[|r.value| - 1] == (lastYear, lastMonth)
    ensures r.Ok? ==> forall i, j :: 0 <= i < j < |r.value| && j == i + 1 ==>
              r.value[j] == if r.value[i].1 == 12 then (r.value[i].0 + 1, 1) else (r.value[i].0, r.value[i].1 + 1)
  {
    if lastYear < year || (lastYear == year && lastMonth < month) {
      return Refused;
    }
    var y, mo := year, month;
    var months: seq<(int, int)> := [];
    while y < lastYear || (y == lastYear && mo <= lastMonth)
      invariant 1 <= mo <= 12 && Index(y, mo) == Index(year, month) + |months| <= Index(lastYear, lastMonth) + 1
      invariant forall i :: 0 <= i < |months| ==>
                  1 <= months[i].1 <= 12 && Index(months[i].0, months[i].1) == Index(year, month) + i
      decreases Index(lastYear, lastMonth) + 1 - Index(y, mo)
    {
      months := months + [(y, mo)];
      if mo == 12 {
        y, mo := y + 1, 1;
      } else {
        mo := mo + 1;
      }
    }
    return Ok(months);
  }
}
