/**
 * Calendar conversion of the semantic snapshots (crates/jet3-testkit/src/semantic_values.rs):
 * `date_from_ordinal` inverts the proleptic Gregorian day count by a binary search over years and a scan
 * over months, and the numeric part of `datetime_text` rounds and splits an OLE Automation day count.
 */
module Calendar {
  datatype Date = Date(year: int, month: int, day: int)

  datatype Option<+T> = None | Some(value: T)

  predicate LeapYear(year: int) {
    year % 4 == 0 && (year % 100 != 0 || year % 400 == 0)
  }

  /** Days before 1 January of `year`, counted from 1 January of year 1. */
  function DaysBeforeYear(year: int): (n: int) {
    var prior := year - 1;
    prior * 365 + prior / 4 - prior / 100 + prior / 400
  }

  const STARTS: seq<int> := [0, 31, 59, 90, 120, 151, 181, 212, 243, 273, 304, 334]

  function DaysBeforeMonth(year: int, month: int): (n: int)
    requires 1 <= month <= 12
  {
    STARTS[month - 1] + (if month > 2 && LeapYear(year) then 1 else 0)
  }

  // ----- The calendar itself -----

  /** The length of a month, stated by month number and leap year alone. */
  function MonthLength(year: int, month: int): (n: int)
    requires 1 <= month <= 12
  {
    if month == 2 then (if LeapYear(year) then 29 else 28) else if month in {4, 6, 9, 11} then 30 else 31
  }

  predicate ValidDate(d: Date) {
    1 <= d.year <= 9999 && 1 <= d.month <= 12 && 1 <= d.day <= MonthLength(d.year, d.month)
  }

  /** The ordinal of a date: the days of all earlier years, of all earlier months, and of the month so far. */
  function Ordinal(d: Date): (n: int)
    requires ValidDate(d)
  {
    YearDays(d.year) + MonthDays(d.year, d.month) + d.day - 1
  }

  function YearDays(year: int): (n: int)
    requires year >= 1
  {
    if year == 1 then 0 else YearDays(year - 1) + (if LeapYear(year - 1) then 366 else 365)
  }

  function MonthDays(year: int, month: int): (n: int)
    requires 1 <= month <= 13
  {
    if month == 1 then 0 else MonthDays(year, month - 1) + MonthLength(year, month - 1)
  }

  lemma YearStep(year: int)
    requires year >= 1
    ensures DaysBeforeYear(year + 1) == DaysBeforeYear(year) + (if LeapYear(year) then 366 else 365)
  {
    QuotientStep(year, 4);
    QuotientStep(year, 100);
    QuotientStep(year, 400);
    CenturiesDivide(year);
  }

  lemma QuotientStep(year: int, d: int)
    requires year >= 1 && d > 0
    ensures year / d == (year - 1) / d + (if year % d == 0 then 1 else 0)
  {
    var q, r := (year - 1) / d, (year - 1) % d;
    if r + 1 == d {
      Quotient(year, d, q + 1, 0);
    } else {
      Quotient(year, d, q, r + 1);
    }
  }

  lemma Quotient(n: int, d: int, q: int, r: int)
    requires n >= 0 && d > 0 && 0 <= r < d && n == d * q + r
    ensures n / d == q && n % d == r
  {
    var p := n / d - q;
    assert d * p == r - n % d;
    assert p >= 1 ==> d * p >= d;
    assert p <= -1 ==> d * p <= -d;
  }

  lemma CenturiesDivide(year: int)
    requires year >= 1
    ensures year % 400 == 0 ==> year % 100 == 0
    ensures year % 100 == 0 ==> year % 4 == 0
  {
    assert year == 400 * (year / 400) + year % 400;
    assert year == 100 * (year / 100) + year % 100;
  }

  /** The closed form of the source counts exactly the days of the earlier years. */
  lemma {:induction false} YearCount(year: int)
    requires year >= 1
    ensures DaysBeforeYear(year) == YearDays(year)
  {
    if year > 1 {
      YearCount(year - 1);
      YearStep(year - 1);
    }
  }

  /** The table of the source counts exactly the days of the earlier months. */
  lemma {:induction false} MonthCount(year: int, month: int)
    requires 1 <= month <= 12
    ensures DaysBeforeMonth(year, month) == MonthDays(year, month)
    ensures month == 12 ==> MonthDays(year, 13) == if LeapYear(year) then 366 else 365
  {
    if month > 1 {
      MonthCount(year, month - 1);
    }
  }

  lemma {:induction false} YearsIncrease(y: int, z: int)
    requires 1 <= y < z
    ensures YearDays(y) + 365 <= YearDays(y + 1) <= YearDays(z)
    decreases z
  {
    if y + 1 < z {
      YearsIncrease(y, z - 1);
    }
  }

  lemma {:induction false} MonthsIncrease(year: int, m: int, n: int)
    requires 1 <= m < n <= 13
    ensures MonthDays(year, m) + MonthLength(year, m) == MonthDays(year, m + 1) <= MonthDays(year, n)
    decreases n
  {
    if m + 1 < n {
      MonthsIncrease(year, m, n - 1);
    }
  }

  lemma WithinYear(d: Date)
    requires ValidDate(d)
    ensures YearDays(d.year) <= Ordinal(d) < YearDays(d.year + 1)
  {
    MonthsIncrease(d.year, d.month, 13);
    MonthCount(d.year, 12);
    if d.month > 1 {
      MonthsIncrease(d.year, 1, d.month);
    }
  }

  /** Different dates have different ordinals. */
  lemma OrdinalInjective(a: Date, b: Date)
    requires ValidDate(a) && ValidDate(b) && Ordinal(a) == Ordinal(b)
    ensures a == b
  {
    WithinYear(a);
    WithinYear(b);
    if a.year < b.year {
      YearsIncrease(a.year, b.year);
    } else if b.year < a.year {
      YearsIncrease(b.year, a.year);
    } else if a.month < b.month {
      MonthsIncrease(a.year, a.month, b.month);
    } else if b.month < a.month {
      MonthsIncrease(a.year, b.month, a.month);
    }
  }

  // ----- Inversion -----

  method DateFromOrdinal(ordinal: int) returns (r: Option<Date>)
    ensures r.Some? <==> 0 <= ordinal < DaysBeforeYear(10000)
    ensures r.Some? ==> ValidDate(r.value) && Ordinal(r.value) == ordinal
  {
    if !(0 <= ordinal < DaysBeforeYear(10000)) {
      return None;
    }
    hide DaysBeforeYear, DaysBeforeMonth, YearDays, MonthDays, LeapYear;
    var low, high := 1, 10000;
    YearCount(1);
    assert DaysBeforeYear(1) <= ordinal by {
      FirstDay();
    }
    while low + 1 < high
      invariant 1 <= low < high <= 10000
      invariant DaysBeforeYear(low) <= ordinal < DaysBeforeYear(high)
    {
      var middle := (low + high) / 2;
      if DaysBeforeYear(middle) <= ordinal {
        low := middle;
      } else {
        high := middle;
      }
    }
    var dayOfYear := ordinal - DaysBeforeYear(low);
    var month := 1;
    FirstMonth(low);
    while month < 12 && DaysBeforeMonth(low, month + 1) <= dayOfYear
      invariant 1 <= month <= 12
      invariant DaysBeforeMonth(low, month) <= dayOfYear
    {
      month := month + 1;
    }
    var day := dayOfYear - DaysBeforeMonth(low, month) + 1;
    DayInMonth(low, month, ordinal);
    return Some(Date(low, month, day));
  }

  lemma FirstDay()
    ensures DaysBeforeYear(1) == 0
  {
  }

  lemma FirstMonth(year: int)
    ensures DaysBeforeMonth(year, 1) == 0
  {
  }

  lemma DayInMonth(year: int, month: int, ordinal: int)
    requires 1 <= year <= 9999 && 1 <= month <= 12
    requires DaysBeforeYear(year) <= ordinal < DaysBeforeYear(year + 1)
    requires DaysBeforeMonth(year, month) <= ordinal - DaysBeforeYear(year)
    requires month < 12 ==> ordinal - DaysBeforeYear(year) < DaysBeforeMonth(year, month + 1)
    ensures var d := Date(year, month, ordinal - DaysBeforeYear(year) - DaysBeforeMonth(year, month) + 1);
            ValidDate(d) && Ordinal(d) == ordinal
  {
    YearCount(year);
    YearCount(year + 1);
    MonthCount(year, month);
    if month < 12 {
      MonthCount(year, month + 1);
    }
    MonthsIncrease(year, month, month + 1);
  }

  /** Every valid date is the answer for its own ordinal, and for no other. */
  lemma EveryDateIsReached(d: Date)
    requires ValidDate(d)
    ensures 0 <= Ordinal(d) < DaysBeforeYear(10000)
    ensures forall e :: ValidDate(e) && Ordinal(e) == Ordinal(d) ==> e == d
  {
    WithinYear(d);
    YearCount(10000);
    if d.year > 1 {
      YearsIncrease(1, d.year);
    }
    if d.year < 9999 {
      YearsIncrease(d.year, 10000);
    }
    forall e | ValidDate(e) && Ordinal(e) == Ordinal(d) ensures e == d {
      OrdinalInjective(e, d);
    }
  }

  // ----- The millisecond count of an OLE date -----

  const MILLIS_PER_DAY := 86_400_000

  /** Rust remainder: the sign follows the dividend. */
  function TruncatedRemainder(n: int, d: int): (r: int)
    requires d > 0
  {
    if n >= 0 then n % d else -((-n) % d)
  }

  datatype Moment = Moment(date: Date, hour: int, minute: int, second: int, fraction: int)

  function Epoch(): (n: int) {
    DaysBeforeYear(1899) + DaysBeforeMonth(1899, 12) + 29
  }

  /** The day of a millisecond count, truncated toward the epoch, and its time of day. */
  function DayOf(milliseconds: int): (n: int) {
    if milliseconds >= 0 then milliseconds / MILLIS_PER_DAY else -((-milliseconds) / MILLIS_PER_DAY)
  }

  function ClockOf(milliseconds: int): (n: int) {
    (if milliseconds >= 0 then milliseconds else -milliseconds) % MILLIS_PER_DAY
  }

  /** A moment with that day and time of day. */
  predicate IsMoment(m: Moment, milliseconds: int) {
    && ValidDate(m.date) && m.date.year >= 100
    && Ordinal(m.date) == Epoch() + DayOf(milliseconds)
    && 0 <= m.hour < 24 && 0 <= m.minute < 60 && 0 <= m.second < 60 && 0 <= m.fraction < 1000
    && ((m.hour * 60 + m.minute) * 60 + m.second) * 1000 + m.fraction == ClockOf(milliseconds)
  }

  /** Days of the years 100 to 9999, counted from the epoch. */
  const FIRST_DAY := -657_434
  const LAST_DAY := 2_958_465

  lemma Boundaries()
    ensures DaysBeforeYear(100) == Epoch() + FIRST_DAY && DaysBeforeYear(10000) == Epoch() + LAST_DAY + 1
  {
  }

  lemma CenturyExactly(d: Date)
    requires ValidDate(d)
    ensures d.year >= 100 <==> Ordinal(d) >= Epoch() + FIRST_DAY
  {
    hide DaysBeforeYear, YearDays, MonthDays, Epoch;
    Boundaries();
    YearCount(100);
    WithinYear(d);
    if d.year < 99 {
      YearsIncrease(d.year, 100);
    } else if d.year > 100 {
      YearsIncrease(100, d.year);
    }
  }

  /** The integer part of `datetime_text`: days before the epoch keep a positive time of day. */
  method SplitMoment(scaled: int) returns (r: Option<Moment>)
    ensures r.Some? <==> FIRST_DAY <= DayOf(scaled) <= LAST_DAY
    ensures r.Some? ==> IsMoment(r.value, scaled)
  {
    hide DaysBeforeYear, DaysBeforeMonth, YearDays, MonthDays, LeapYear, Epoch;
    var milliseconds := scaled;
    if milliseconds < 0 {
      milliseconds := milliseconds - TruncatedRemainder(milliseconds, MILLIS_PER_DAY) * 2;
    }
    NegativeDays(scaled, milliseconds);
    Boundaries();
    var ordinal := Epoch() + milliseconds / MILLIS_PER_DAY;
    var clock := milliseconds % MILLIS_PER_DAY;
    var date := DateFromOrdinal(ordinal);
    if date.None? {
      assert Epoch() + FIRST_DAY >= 0 by {
        FirstCentury();
      }
      return None;
    }
    CenturyExactly(date.value);
    if date.value.year < 100 {
      return None;
    }
    var hour, minute := clock / 3_600_000, clock % 3_600_000 / 60_000;
    var second, fraction := clock % 60_000 / 1_000, clock % 1_000;
    ClockParts(clock);
    return Some(Moment(date.value, hour, minute, second, fraction));
  }

  lemma FirstCentury()
    ensures Epoch() + FIRST_DAY >= 0
  {
  }

  /** The nearest millisecond of a day count, halves away from the epoch. */
  function Rounded(days: real): (n: int) {
    var scaled := days * MILLIS_PER_DAY as real;
    if days >= 0.0 then (scaled + 0.5).Floor else -((0.5 - scaled).Floor)
  }

  /**
   * `datetime_text` before formatting, over exact numbers: a day count has a moment exactly when its nearest
   * millisecond lies in the years 100 to 9999, which makes the source's range guard redundant.
   */
  method DateTimeMoment(days: real) returns (r: Option<Moment>)
    ensures Rounded(days) as real - 0.5 <= days * MILLIS_PER_DAY as real <= Rounded(days) as real + 0.5
    ensures r.Some? <==> (FIRST_DAY - 1) * MILLIS_PER_DAY < Rounded(days) < (LAST_DAY + 1) * MILLIS_PER_DAY
    ensures r.Some? ==> IsMoment(r.value, Rounded(days))
  {
    hide IsMoment;
    if days <= -657_435.0 || days >= 2_958_466.0 {
      return None;
    }
    DayRange(Rounded(days));
    r := SplitMoment(Rounded(days));
  }

  lemma DayRange(milliseconds: int)
    ensures FIRST_DAY <= DayOf(milliseconds) <= LAST_DAY <==>
            (FIRST_DAY - 1) * MILLIS_PER_DAY < milliseconds < (LAST_DAY + 1) * MILLIS_PER_DAY
  {
  }

  /** Two counts name one moment only when they are equal or mirror each other within a day of the epoch. */
  lemma MomentsCollide(a: int, b: int)
    ensures DayOf(a) == DayOf(b) && ClockOf(a) == ClockOf(b)
            <==> a == b || (a == -b && -MILLIS_PER_DAY < a < MILLIS_PER_DAY)
  {
  }

  /** Subtracting twice the negative remainder reflects the time of day and keeps the truncated day. */
  lemma NegativeDays(scaled: int, milliseconds: int)
    requires milliseconds == if scaled < 0 then scaled - TruncatedRemainder(scaled, MILLIS_PER_DAY) * 2 else scaled
    ensures milliseconds / MILLIS_PER_DAY
            == if scaled >= 0 then scaled / MILLIS_PER_DAY else -((-scaled) / MILLIS_PER_DAY)
    ensures milliseconds % MILLIS_PER_DAY == (if scaled >= 0 then scaled else -scaled) % MILLIS_PER_DAY
  {
    if scaled < 0 {
      var q, r := (-scaled) / MILLIS_PER_DAY, (-scaled) % MILLIS_PER_DAY;
      assert -scaled == q * MILLIS_PER_DAY + r;
      assert milliseconds == (-q) * MILLIS_PER_DAY + r;
    }
  }

  lemma ClockParts(clock: int)
    requires 0 <= clock < MILLIS_PER_DAY
    ensures var hour, minute, second, fraction := clock / 3_600_000, clock % 3_600_000 / 60_000,
        clock % 60_000 / 1_000, clock % 1_000;
            && 0 <= hour < 24 && 0 <= minute < 60 && 0 <= second < 60 && 0 <= fraction < 1000
            && ((hour * 60 + minute) * 60 + second) * 1000 + fraction == clock
  {
  }
}
