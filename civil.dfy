/** UTC calendar fields of an instant in the proleptic Gregorian calendar,
    counted from the Unix epoch 1970-01-01T00:00:00Z. This is what
    java.util.GregorianCalendar computes for a SimpleDateFormat set to the UTC
    time zone, when the default locale selects the Gregorian calendar (instants
    from 1970 on, where its Julian cutover plays no part). */
module Civil {

  const EpochYear: nat := 1970
  const SecondsPerDay: nat := 86400

  /** The first second of year 10000: the instants before it have four-digit years. */
  const FirstSecondOfYear10000: nat := 253402300800

  predicate IsLeapYear(y: nat) { y % 4 == 0 && (y % 100 != 0 || y % 400 == 0) }

  function DaysInYear(y: nat): nat { if IsLeapYear(y) then 366 else 365 }

  function DaysInMonth(y: nat, m: nat): nat
    requires 1 <= m <= 12
  {
    if m == 2 then (if IsLeapYear(y) then 29 else 28)
    else if m == 4 || m == 6 || m == 9 || m == 11 then 30
    else 31
  }

  /** Days of year y that precede the first of month m. */
  function DaysBeforeMonth(y: nat, m: nat): nat
    requires 1 <= m <= 12
  {
    var common :=
      if m == 1 then 0 else if m == 2 then 31 else if m == 3 then 59
      else if m == 4 then 90 else if m == 5 then 120 else if m == 6 then 151
      else if m == 7 then 181 else if m == 8 then 212 else if m == 9 then 243
      else if m == 10 then 273 else if m == 11 then 304 else 334;
    if m > 2 && IsLeapYear(y) then common + 1 else common
  }

  /** Days from the epoch to the first of January of year y. */
  function DaysBeforeYear(y: nat): nat
    requires y >= EpochYear
    decreases y - EpochYear
  {
    if y == EpochYear then 0 else DaysBeforeYear(y - 1) + DaysInYear(y - 1)
  }

  datatype DateTime = DateTime(year: nat, month: nat, day: nat, hour: nat, minute: nat, second: nat)

  /** Fields that name a real UTC second at or after the epoch. */
  predicate Valid(dt: DateTime) {
    && dt.year >= EpochYear
    && 1 <= dt.month <= 12
    && 1 <= dt.day <= DaysInMonth(dt.year, dt.month)
    && dt.hour < 24 && dt.minute < 60 && dt.second < 60
  }

  function DayNumber(dt: DateTime): nat
    requires Valid(dt)
  {
    DaysBeforeYear(dt.year) + DaysBeforeMonth(dt.year, dt.month) + dt.day - 1
  }

  function SecondOfDay(dt: DateTime): nat
    requires Valid(dt)
  {
    dt.hour * 3600 + dt.minute * 60 + dt.second
  }

  /** Seconds from the epoch to the instant the fields name. */
  function EpochSeconds(dt: DateTime): nat
    requires Valid(dt)
  {
    DayNumber(dt) * SecondsPerDay + SecondOfDay(dt)
  }

  /** Splits a day count starting at the first of January of year y into the
      year it falls in and its zero-based day of that year. */
  function SplitYear(days: nat, y: nat): (r: (nat, nat))
    requires y >= EpochYear
    ensures r.0 >= y && r.1 < DaysInYear(r.0)
    ensures DaysBeforeYear(r.0) + r.1 == DaysBeforeYear(y) + days
    decreases days
  {
    if days < DaysInYear(y) then (y, days) else SplitYear(days - DaysInYear(y), y + 1)
  }

  /** Splits a zero-based day of year y, counted from the first of month m, into
      its month and zero-based day of that month. */
  function SplitMonth(y: nat, m: nat, rest: nat): (r: (nat, nat))
    requires 1 <= m <= 12
    requires DaysBeforeMonth(y, m) + rest < DaysInYear(y)
    ensures m <= r.0 <= 12 && r.1 < DaysInMonth(y, r.0)
    ensures DaysBeforeMonth(y, r.0) + r.1 == DaysBeforeMonth(y, m) + rest
    decreases 12 - m
  {
    if rest < DaysInMonth(y, m) then (m, rest)
    else SplitMonth(y, m + 1, rest - DaysInMonth(y, m))
  }

  /** The UTC calendar fields of the instant t seconds after the epoch. */
  function FromEpochSeconds(t: nat): (dt: DateTime)
    ensures Valid(dt) && EpochSeconds(dt) == t
  {
    var days, secs := t / SecondsPerDay, t % SecondsPerDay;
    var (y, dayOfYear) := SplitYear(days, EpochYear);
    var (m, dayOfMonth) := SplitMonth(y, 1, dayOfYear);
    DateTime(y, m, dayOfMonth + 1, secs / 3600, secs % 3600 / 60, secs % 60)
  }

  lemma {:induction false} DaysBeforeYearMonotone(y1: nat, y2: nat)
    requires EpochYear <= y1 < y2
    ensures DaysBeforeYear(y1) + DaysInYear(y1) <= DaysBeforeYear(y2)
    decreases y2 - y1
  {
    if y1 + 1 < y2 { DaysBeforeYearMonotone(y1, y2 - 1); }
  }

  lemma DaysBeforeMonthMonotone(y: nat, m1: nat, m2: nat)
    requires 1 <= m1 < m2 <= 12
    ensures DaysBeforeMonth(y, m1) + DaysInMonth(y, m1) <= DaysBeforeMonth(y, m2)
  {
  }

  /** Different valid field sets name different seconds. */
  lemma EpochSecondsInjective(a: DateTime, b: DateTime)
    requires Valid(a) && Valid(b) && EpochSeconds(a) == EpochSeconds(b)
    ensures a == b
  {
    assert DayNumber(a) == DayNumber(b);
    var ra := DaysBeforeMonth(a.year, a.month) + a.day - 1;
    var rb := DaysBeforeMonth(b.year, b.month) + b.day - 1;
    assert ra < DaysInYear(a.year) by { if a.month < 12 { DaysBeforeMonthMonotone(a.year, a.month, 12); } }
    assert rb < DaysInYear(b.year) by { if b.month < 12 { DaysBeforeMonthMonotone(b.year, b.month, 12); } }
    if a.year < b.year { DaysBeforeYearMonotone(a.year, b.year); }
    if b.year < a.year { DaysBeforeYearMonotone(b.year, a.year); }
    assert a.year == b.year;
    if a.month < b.month { DaysBeforeMonthMonotone(a.year, a.month, b.month); }
    if b.month < a.month { DaysBeforeMonthMonotone(a.year, b.month, a.month); }
  }

  /** Reading the fields back gives the same fields: FromEpochSeconds and
      EpochSeconds are inverse bijections between seconds and valid fields. */
  lemma FromEpochSecondsOfFields(dt: DateTime)
    requires Valid(dt)
    ensures FromEpochSeconds(EpochSeconds(dt)) == dt
  {
    EpochSecondsInjective(FromEpochSeconds(EpochSeconds(dt)), dt);
  }

  /** Number of leap years among 1 .. y. */
  function LeapYearsThrough(y: nat): nat { y / 4 - y / 100 + y / 400 }

  /** Counting days year by year agrees with the closed form. */
  lemma {:induction false} DaysBeforeYearClosedForm(y: nat)
    requires y >= EpochYear
    ensures DaysBeforeYear(y) == 365 * (y - EpochYear) + LeapYearsThrough(y - 1) - LeapYearsThrough(EpochYear - 1)
    decreases y - EpochYear
  {
    if y > EpochYear {
      DaysBeforeYearClosedForm(y - 1);
      LeapYearStep(y - 1);
    }
  }

  lemma LeapYearStep(x: nat)
    requires x >= 1
    ensures LeapYearsThrough(x) == LeapYearsThrough(x - 1) + if IsLeapYear(x) then 1 else 0
  {
    QuarterStep(x);
    CenturyStep(x);
    QuadricentennialStep(x);
    MultiplesNest(x);
  }

  lemma MultiplesNest(x: nat)
    ensures x % 400 == 0 ==> x % 100 == 0
    ensures x % 100 == 0 ==> x % 4 == 0
  {
    assert x % 400 == 0 ==> x == 100 * (4 * (x / 400));
    assert x % 100 == 0 ==> x == 4 * (25 * (x / 100));
  }

  /** Going from x - 1 to x, the quotient by 4, 100 or 400 grows by one exactly at its multiples. */
  lemma QuarterStep(x: nat)
    requires x >= 1
    ensures x / 4 == (x - 1) / 4 + if x % 4 == 0 then 1 else 0
  {
  }

  lemma CenturyStep(x: nat)
    requires x >= 1
    ensures x / 100 == (x - 1) / 100 + if x % 100 == 0 then 1 else 0
  {
  }

  lemma QuadricentennialStep(x: nat)
    requires x >= 1
    ensures x / 400 == (x - 1) / 400 + if x % 400 == 0 then 1 else 0
  {
  }

  /** The year field has four digits exactly for the seconds before year 10000. */
  lemma YearBelow10000(t: nat)
    ensures FromEpochSeconds(t).year <= 9999 <==> t < FirstSecondOfYear10000
  {
    var dt := FromEpochSeconds(t);
    var limit: nat := 10000;
    DaysBeforeYear10000(limit);
    DayWithinYear(dt);
    if dt.year < limit {
      DaysBeforeYearMonotone(dt.year, limit);
    } else if dt.year > limit {
      DaysBeforeYearMonotone(limit, dt.year);
    }
    SecondsAndDays(dt, DaysBeforeYear(limit));
  }

  /** Year 10000 begins 253402300800 seconds after the epoch. */
  lemma DaysBeforeYear10000(y: nat)
    requires y == 10000
    ensures DaysBeforeYear(y) * SecondsPerDay == FirstSecondOfYear10000
  {
    DaysBeforeYearClosedForm(y);
    assert LeapYearsThrough(y - 1) == 2424;
    assert LeapYearsThrough(EpochYear - 1) == 477;
  }

  /** A day number lies within its year. */
  lemma DayWithinYear(dt: DateTime)
    requires Valid(dt)
    ensures DaysBeforeYear(dt.year) <= DayNumber(dt) < DaysBeforeYear(dt.year) + DaysInYear(dt.year)
  {
    if dt.month < 12 { DaysBeforeMonthMonotone(dt.year, dt.month, 12); }
  }

  /** An instant falls before day d exactly when its day number is below d. */
  lemma SecondsAndDays(dt: DateTime, d: nat)
    requires Valid(dt)
    ensures EpochSeconds(dt) < d * SecondsPerDay <==> DayNumber(dt) < d
  {
    if DayNumber(dt) < d {
      assert (DayNumber(dt) + 1) * SecondsPerDay <= d * SecondsPerDay;
    } else {
      assert d * SecondsPerDay <= DayNumber(dt) * SecondsPerDay;
    }
  }

  /** a's date comes before b's: year, then month, then day. */
  predicate DateBefore(a: DateTime, b: DateTime)
  {
    a.year < b.year || (a.year == b.year && (a.month < b.month || (a.month == b.month && a.day < b.day)))
  }

  /** a's time of day comes before b's: hour, then minute, then second. */
  predicate TimeBefore(a: DateTime, b: DateTime)
  {
    a.hour < b.hour || (a.hour == b.hour && (a.minute < b.minute || (a.minute == b.minute && a.second < b.second)))
  }

  /** The fields of a come first when compared field by field from the year down. */
  predicate Before(a: DateTime, b: DateTime)
  {
    DateBefore(a, b) || (a.year == b.year && a.month == b.month && a.day == b.day && TimeBefore(a, b))
  }

  /** An earlier date has a smaller day number. */
  lemma EarlierDateEarlierDay(a: DateTime, b: DateTime)
    requires Valid(a) && Valid(b) && DateBefore(a, b)
    ensures DayNumber(a) < DayNumber(b)
  {
    if a.year < b.year {
      if a.month < 12 { DaysBeforeMonthMonotone(a.year, a.month, 12); }
      DaysBeforeYearMonotone(a.year, b.year);
    } else if a.month < b.month {
      DaysBeforeMonthMonotone(a.year, a.month, b.month);
    }
  }

  /** Counting seconds from the epoch orders instants as their fields do. */
  lemma EarlierSecondEarlierFields(a: DateTime, b: DateTime)
    requires Valid(a) && Valid(b) && EpochSeconds(a) < EpochSeconds(b)
    ensures Before(a, b)
  {
    if DateBefore(b, a) {
      EarlierDateEarlierDay(b, a);
    }
  }
}
