/** Proleptic Gregorian calendar arithmetic in UTC: a date and time of day to
    milliseconds since 1970-01-01T00:00:00Z (the instant the certificate
    times decode to) and back. */
module Calendar {

  predicate IsLeapYear(y: int)
  {
    y % 4 == 0 && (y % 100 != 0 || y % 400 == 0)
  }

  function DaysInYear(y: int): nat
  {
    if IsLeapYear(y) then 366 else 365
  }

  function DaysInMonth(y: int, m: int): nat
    requires 1 <= m <= 12
  {
    if m == 2 then (if IsLeapYear(y) then 29 else 28)
    else if m == 4 || m == 6 || m == 9 || m == 11 then 30
    else 31
  }

  /** Days from the first of January to the first of month m; for m = 13,
      to the end of the year. */
  function DaysBeforeMonth(y: int, m: int): nat
    requires 1 <= m <= 13
  {
    var common := [0, 31, 59, 90, 120, 151, 181, 212, 243, 273, 304, 334, 365];
    common[m - 1] + (if m > 2 && IsLeapYear(y) then 1 else 0)
  }

  /** Days from 0000-01-01 to the first of January of year y. */
  function DaysBeforeYear(y: nat): nat
  {
    if y == 0 then 0 else DaysBeforeYear(y - 1) + DaysInYear(y - 1)
  }

  const EpochYear: nat := 1970
  /** DaysBeforeYear(EpochYear), see EpochDayValue. */
  const EpochDay: int := 719528
  const MsPerSecond: int := 1000
  const SecondsPerDay: int := 86400

  datatype DateTime = DateTime(year: nat, month: nat, day: nat, hour: nat, minute: nat, second: nat)

  /** A real date of the years 0 to 9999 and a time of day in whole seconds. */
  predicate ValidDateTime(t: DateTime)
  {
    && t.year <= 9999
    && 1 <= t.month <= 12
    && 1 <= t.day <= DaysInMonth(t.year, t.month)
    && t.hour < 24 && t.minute < 60 && t.second < 60
  }

  /** Days from 0000-01-01 to the date of t. */
  function DayNumber(t: DateTime): int
    requires ValidDateTime(t)
  {
    DaysBeforeYear(t.year) + DaysBeforeMonth(t.year, t.month) + t.day - 1
  }

  /** Milliseconds since the epoch. */
  function ToInstant(t: DateTime): int
    requires ValidDateTime(t)
  {
    var days := DayNumber(t) - EpochDay;
    (days * SecondsPerDay + t.hour * 3600 + t.minute * 60 + t.second) * MsPerSecond
  }

  /** The instants of whole seconds from the start of year lo to the end of
      year hi. */
  predicate InYears(ms: int, lo: nat, hi: nat)
  {
    && ms % MsPerSecond == 0
    && (DaysBeforeYear(lo) - EpochDay) * SecondsPerDay * MsPerSecond <= ms
    && ms < (DaysBeforeYear(hi + 1) - EpochDay) * SecondsPerDay * MsPerSecond
  }

  // ---------------------------------------------------------------------------
  // Facts about the day counts

  lemma DaysBeforeYearStep(y: nat)
    ensures DaysBeforeYear(y + 1) == DaysBeforeYear(y) + DaysInYear(y)
  {
  }

  /** The closed form: 365 days a year plus one for each leap year before y. */
  function LeapDayCount(y: nat): int
  {
    365 * y + (y + 3) / 4 - (y + 99) / 100 + (y + 399) / 400
  }

  lemma CeilingStep(y: nat, k: nat)
    requires k == 4 || k == 100 || k == 400
    ensures (y + k) / k - (y + k - 1) / k == if y % k == 0 then 1 else 0
  {
    if k == 4 {
    } else if k == 100 {
    } else {
    }
  }

  /** A multiple of 100 is a multiple of 4, and one of 400 a multiple of 100. */
  lemma MultipleOfCentury(y: nat)
    ensures y % 100 == 0 ==> y % 4 == 0
    ensures y % 400 == 0 ==> y % 100 == 0
  {
    if y % 100 == 0 {
      assert y == 4 * (25 * (y / 100));
    }
    if y % 400 == 0 {
      assert y == 100 * (4 * (y / 400));
    }
  }

  lemma LeapDayCountStep(y: nat)
    ensures LeapDayCount(y + 1) == LeapDayCount(y) + DaysInYear(y)
  {
    CeilingStep(y, 4);
    CeilingStep(y, 100);
    CeilingStep(y, 400);
    MultipleOfCentury(y);
    var a := (y + 4) / 4 - (y + 3) / 4;
    var b := (y + 100) / 100 - (y + 99) / 100;
    var c := (y + 400) / 400 - (y + 399) / 400;
    assert LeapDayCount(y + 1) == LeapDayCount(y) + 365 + a - b + c;
    assert DaysInYear(y) == 365 + a - b + c;
  }

  lemma {:induction false} DaysBeforeYearClosedForm(y: nat)
    ensures DaysBeforeYear(y) == LeapDayCount(y)
  {
    if y > 0 {
      DaysBeforeYearClosedForm(y - 1);
      LeapDayCountStep(y - 1);
    }
  }

  /** The epoch 1970-01-01 is day 719528 counted from 0000-01-01. */
  lemma EpochDayValue()
    ensures DaysBeforeYear(EpochYear) == EpochDay
  {
    DaysBeforeYearClosedForm(EpochYear);
  }

  lemma {:induction false} DaysBeforeYearMonotone(a: nat, b: nat)
    ensures a <= b ==> DaysBeforeYear(a) <= DaysBeforeYear(b)
    decreases if a < b then b - a else 0
  {
    if a < b {
      DaysBeforeYearStep(a);
      DaysBeforeYearMonotone(a + 1, b);
    }
  }

  lemma {:induction false} DaysBeforeYearBound(y: nat)
    ensures 0 <= DaysBeforeYear(y) <= 366 * y
  {
    if y > 0 {
      DaysBeforeYearStep(y - 1);
      DaysBeforeYearBound(y - 1);
    }
  }

  lemma DaysBeforeMonthStep(y: int, m: int)
    requires 1 <= m <= 12
    ensures DaysBeforeMonth(y, m + 1) == DaysBeforeMonth(y, m) + DaysInMonth(y, m)
    ensures DaysBeforeMonth(y, 13) == DaysInYear(y)
  {
  }

  lemma {:induction false} DaysBeforeMonthMonotone(y: int, a: int, b: int)
    requires 1 <= a && b <= 13
    ensures a <= b ==> DaysBeforeMonth(y, a) <= DaysBeforeMonth(y, b)
    decreases if a < b then b - a else 0
  {
    if a < b {
      DaysBeforeMonthStep(y, a);
      DaysBeforeMonthMonotone(y, a + 1, b);
    }
  }

  /** A range of whole years can be widened. */
  lemma InYearsWiden(ms: int, lo: nat, hi: nat, lo': nat, hi': nat)
    requires InYears(ms, lo, hi) && lo' <= lo && hi <= hi'
    ensures InYears(ms, lo', hi')
  {
    DaysBeforeYearMonotone(lo', lo);
    DaysBeforeYearMonotone(hi + 1, hi' + 1);
  }

  // ---------------------------------------------------------------------------
  // From a day count back to the calendar

  /** The year containing day `days`, searched upwards from `y`. */
  function YearSearch(days: int, y: nat): (r: nat)
    requires DaysBeforeYear(y) <= days
    ensures y <= r && DaysBeforeYear(r) <= days < DaysBeforeYear(r + 1)
    decreases days - DaysBeforeYear(y)
  {
    DaysBeforeYearStep(y);
    if days < DaysBeforeYear(y + 1) then y else YearSearch(days, y + 1)
  }

  /** The year containing day `days` (counted from 0000-01-01). */
  function YearOf(days: nat): (r: nat)
    ensures DaysBeforeYear(r) <= days < DaysBeforeYear(r + 1)
  {
    DaysBeforeYearBound(days / 366);
    YearSearch(days, days / 366)
  }

  lemma YearOfUnique(days: nat, y: nat)
    requires DaysBeforeYear(y) <= days < DaysBeforeYear(y + 1)
    ensures YearOf(days) == y
  {
    var r := YearOf(days);
    DaysBeforeYearMonotone(r + 1, y);
    DaysBeforeYearMonotone(y + 1, r);
  }

  /** The month containing day `dayOfYear` of year y, searched upwards from m. */
  function MonthSearch(y: int, dayOfYear: int, m: int): (r: int)
    requires 1 <= m <= 12 && DaysBeforeMonth(y, m) <= dayOfYear < DaysInYear(y)
    ensures m <= r <= 12 && DaysBeforeMonth(y, r) <= dayOfYear < DaysBeforeMonth(y, r + 1)
    decreases 12 - m
  {
    DaysBeforeMonthStep(y, m);
    if dayOfYear < DaysBeforeMonth(y, m + 1) then m else MonthSearch(y, dayOfYear, m + 1)
  }

  lemma MonthSearchUnique(y: int, dayOfYear: int, m: int)
    requires 1 <= m <= 12
    requires DaysBeforeMonth(y, m) <= dayOfYear < DaysBeforeMonth(y, m + 1)
    ensures 0 <= dayOfYear < DaysInYear(y)
    ensures MonthSearch(y, dayOfYear, 1) == m
  {
    DaysBeforeMonthStep(y, 1);
    DaysBeforeMonthMonotone(y, 1, m);
    DaysBeforeMonthMonotone(y, m + 1, 13);
    var r := MonthSearch(y, dayOfYear, 1);
    DaysBeforeMonthMonotone(y, r + 1, m);
    DaysBeforeMonthMonotone(y, m + 1, r);
  }

  /** The year, month and day of day number `days` (counted from 0000-01-01). */
  function DateOfDay(days: nat): (nat, nat, nat)
  {
    var y := YearOf(days);
    var dayOfYear := days - DaysBeforeYear(y);
    DaysBeforeYearStep(y);
    DaysBeforeMonthStep(y, 1);
    var m := MonthSearch(y, dayOfYear, 1);
    (y, m, dayOfYear - DaysBeforeMonth(y, m) + 1)
  }

  /** The calendar date and time of an instant of the years 0 to 9999. */
  function FromInstant(ms: int): DateTime
    requires InYears(ms, 0, 9999)
  {
    var seconds := ms / MsPerSecond;
    var secondOfDay := seconds % SecondsPerDay;
    var (y, m, d) := DateOfDay(seconds / SecondsPerDay + EpochDay);
    DateTime(y, m, d, secondOfDay / 3600, secondOfDay % 3600 / 60, secondOfDay % 60)
  }

  // ---------------------------------------------------------------------------
  // The two directions of the correspondence

  lemma DateOfDayNumber(t: DateTime)
    requires ValidDateTime(t)
    ensures DaysBeforeYear(t.year) <= DayNumber(t) < DaysBeforeYear(t.year + 1)
    ensures DateOfDay(DayNumber(t)) == (t.year, t.month, t.day)
  {
    var y := t.year;
    DaysBeforeYearStep(y);
    DaysBeforeMonthStep(y, t.month);
    DaysBeforeMonthMonotone(y, t.month + 1, 13);
    DaysBeforeYearBound(y);
    var dn := DayNumber(t);
    YearOfUnique(dn, y);
    MonthSearchUnique(y, dn - DaysBeforeYear(y), t.month);
  }

  lemma DateOfDayInYears(days: nat, lo: nat, hi: nat)
    requires hi <= 9999 && DaysBeforeYear(lo) <= days < DaysBeforeYear(hi + 1)
    ensures var (y, m, d) := DateOfDay(days);
      && lo <= y <= hi && 1 <= m <= 12 && 1 <= d <= DaysInMonth(y, m)
      && DaysBeforeYear(y) + DaysBeforeMonth(y, m) + d - 1 == days
  {
    var (y, m, d) := DateOfDay(days);
    DaysBeforeYearStep(y);
    DaysBeforeMonthStep(y, m);
    DaysBeforeYearMonotone(y + 1, lo);
    DaysBeforeYearMonotone(hi + 1, y);
  }

  lemma SplitSeconds(days: int, secondOfDay: int)
    requires 0 <= secondOfDay < SecondsPerDay
    ensures ((days * SecondsPerDay + secondOfDay) * MsPerSecond) / MsPerSecond == days * SecondsPerDay + secondOfDay
    ensures (days * SecondsPerDay + secondOfDay) / SecondsPerDay == days
    ensures (days * SecondsPerDay + secondOfDay) % SecondsPerDay == secondOfDay
  {
  }

  lemma SplitTimeOfDay(h: nat, m: nat, s: nat)
    requires h < 24 && m < 60 && s < 60
    ensures (h * 3600 + m * 60 + s) / 3600 == h
    ensures (h * 3600 + m * 60 + s) % 3600 / 60 == m
    ensures (h * 3600 + m * 60 + s) % 60 == s
  {
    assert (h * 3600 + m * 60 + s) % 3600 == m * 60 + s;
  }

  lemma JoinTimeOfDay(secondOfDay: int)
    requires 0 <= secondOfDay < SecondsPerDay
    ensures secondOfDay / 3600 < 24
    ensures (secondOfDay / 3600) * 3600 + (secondOfDay % 3600 / 60) * 60 + secondOfDay % 60 == secondOfDay
  {
    assert secondOfDay % 3600 == (secondOfDay % 3600 / 60) * 60 + secondOfDay % 60;
  }

  /** An instant of whole seconds splits into its day and its second of
      the day, and lies within that day. */
  lemma InstantOfDay(days: int, secondOfDay: int)
    requires 0 <= secondOfDay < SecondsPerDay
    ensures var ms := (days * SecondsPerDay + secondOfDay) * MsPerSecond;
      && ms % MsPerSecond == 0
      && ms / MsPerSecond / SecondsPerDay == days
      && ms / MsPerSecond % SecondsPerDay == secondOfDay
      && days * SecondsPerDay * MsPerSecond <= ms < (days + 1) * SecondsPerDay * MsPerSecond
  {
    SplitSeconds(days, secondOfDay);
  }

  /** The day of an instant of years lo to hi lies in those years. */
  lemma InstantDayBounds(ms: int, lo: nat, hi: nat)
    requires InYears(ms, lo, hi)
    ensures var seconds := ms / MsPerSecond;
      && ms == (seconds / SecondsPerDay * SecondsPerDay + seconds % SecondsPerDay) * MsPerSecond
      && DaysBeforeYear(lo) <= seconds / SecondsPerDay + EpochDay < DaysBeforeYear(hi + 1)
  {
    var seconds := ms / MsPerSecond;
    var day := seconds / SecondsPerDay;
    assert ms == seconds * MsPerSecond;
    assert seconds == day * SecondsPerDay + seconds % SecondsPerDay;
    assert (DaysBeforeYear(lo) - EpochDay) * SecondsPerDay <= seconds;
    assert seconds < (DaysBeforeYear(hi + 1) - EpochDay) * SecondsPerDay;
  }

  /** A valid date and time names an instant of its own year. */
  lemma ToInstantInYear(t: DateTime)
    requires ValidDateTime(t)
    ensures InYears(ToInstant(t), t.year, t.year)
    ensures InYears(ToInstant(t), 0, 9999)
  {
    DateOfDayNumber(t);
    var days := DayNumber(t) - EpochDay;
    var secondOfDay := t.hour * 3600 + t.minute * 60 + t.second;
    InstantOfDay(days, secondOfDay);
    assert ToInstant(t) == (days * SecondsPerDay + secondOfDay) * MsPerSecond;
    InYearsWiden(ToInstant(t), t.year, t.year, 0, 9999);
  }

  /** FromInstant in terms of the day and the second of the day. */
  lemma FromInstantOfParts(ms: int, days: int, secondOfDay: int)
    requires InYears(ms, 0, 9999)
    requires ms / MsPerSecond / SecondsPerDay == days && ms / MsPerSecond % SecondsPerDay == secondOfDay
    ensures var (y, m, d) := DateOfDay(days + EpochDay);
      FromInstant(ms) == DateTime(y, m, d, secondOfDay / 3600, secondOfDay % 3600 / 60, secondOfDay % 60)
  {
  }

  /** ToInstant in terms of the day number and the second of the day. */
  lemma ToInstantOfParts(t: DateTime, dayNumber: int, secondOfDay: int)
    requires ValidDateTime(t) && DayNumber(t) == dayNumber
    requires t.hour * 3600 + t.minute * 60 + t.second == secondOfDay
    ensures ToInstant(t) == ((dayNumber - EpochDay) * SecondsPerDay + secondOfDay) * MsPerSecond
  {
  }

  /** Every valid date and time names an instant of its own year, and
      converting that instant back gives the date and time again. */
  lemma FromInstantOfToInstant(t: DateTime)
    requires ValidDateTime(t)
    ensures InYears(ToInstant(t), t.year, t.year)
    ensures InYears(ToInstant(t), 0, 9999)
    ensures FromInstant(ToInstant(t)) == t
  {
    ToInstantInYear(t);
    DateOfDayNumber(t);
    var days := DayNumber(t) - EpochDay;
    var secondOfDay := t.hour * 3600 + t.minute * 60 + t.second;
    ToInstantOfParts(t, DayNumber(t), secondOfDay);
    InstantOfDay(days, secondOfDay);
    FromInstantOfParts(ToInstant(t), days, secondOfDay);
    SplitTimeOfDay(t.hour, t.minute, t.second);
  }

  /** Every instant of whole seconds in years lo to hi is a valid date and
      time of those years, and converting it back gives the instant again. */
  lemma ToInstantOfFromInstant(ms: int, lo: nat, hi: nat)
    requires hi <= 9999 && InYears(ms, lo, hi)
    ensures InYears(ms, 0, 9999)
    ensures ValidDateTime(FromInstant(ms))
    ensures lo <= FromInstant(ms).year <= hi
    ensures ToInstant(FromInstant(ms)) == ms
  {
    InYearsWiden(ms, lo, hi, 0, 9999);
    InstantDayBounds(ms, lo, hi);
    var seconds := ms / MsPerSecond;
    var q := seconds / SecondsPerDay;
    var secondOfDay := seconds % SecondsPerDay;
    var days := q + EpochDay;
    DateOfDayInYears(days, lo, hi);
    JoinTimeOfDay(secondOfDay);
    FromInstantOfParts(ms, q, secondOfDay);
    var t := FromInstant(ms);
    assert DayNumber(t) == days;
    ToInstantOfParts(t, days, secondOfDay);
  }
}
