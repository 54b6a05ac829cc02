/**
  The civil calendar behind formatted time: instants are nanoseconds since the start of year 0, UTC, in the
  proleptic Gregorian calendar with days of 86400 seconds, as Go's time package counts them.
 */
module Calendar {
  import opened Arithmetic

  datatype Civil = Civil(year: nat, month: nat, day: nat, hour: nat, minute: nat, second: nat, nano: nat)

  const NANOS := 1_000_000_000
  const DAY := 86400

  predicate IsLeap(year: nat) { year % 4 == 0 && (year % 100 != 0 || year % 400 == 0) }

  function MonthLength(year: nat, month: nat): (n: nat)
    ensures 28 <= n <= 31
  {
    if month == 2 then (if IsLeap(year) then 29 else 28)
    else if month == 4 || month == 6 || month == 9 || month == 11 then 30
    else 31
  }

  function DaysBeforeMonth(year: nat, month: nat): nat
    requires month >= 1
  {
    if month == 1 then 0 else DaysBeforeMonth(year, month - 1) + MonthLength(year, month - 1)
  }

  function YearLength(year: nat): nat { if IsLeap(year) then 366 else 365 }

  function DaysBeforeYear(year: nat): nat {
    if year == 0 then 0 else DaysBeforeYear(year - 1) + YearLength(year - 1)
  }

  lemma MonthsFillYear(year: nat)
    ensures DaysBeforeMonth(year, 13) == YearLength(year)
  {
    var february := MonthLength(year, 2);
    assert DaysBeforeMonth(year, 2) == 31;
    assert DaysBeforeMonth(year, 3) == 31 + february;
    assert DaysBeforeMonth(year, 5) == 92 + february;
    assert DaysBeforeMonth(year, 7) == 153 + february;
    assert DaysBeforeMonth(year, 9) == 215 + february;
    assert DaysBeforeMonth(year, 11) == 276 + february;
  }

  lemma {:induction false} MonthsIncrease(year: nat, month: nat, later: nat)
    requires 1 <= month < later
    ensures DaysBeforeMonth(year, month) + MonthLength(year, month) <= DaysBeforeMonth(year, later)
  {
    if month + 1 < later {
      MonthsIncrease(year, month, later - 1);
    }
  }

  lemma {:induction false} YearsIncrease(year: nat, later: nat)
    requires year < later
    ensures DaysBeforeYear(year) + YearLength(year) <= DaysBeforeYear(later)
  {
    if year + 1 < later {
      YearsIncrease(year, later - 1);
    }
  }

  predicate Valid(c: Civil) {
    && 1 <= c.month <= 12 && 1 <= c.day <= MonthLength(c.year, c.month)
    && c.hour < 24 && c.minute < 60 && c.second < 60 && c.nano < NANOS
  }

  function DayOfYear(c: Civil): nat
    requires Valid(c)
  {
    DaysBeforeMonth(c.year, c.month) + c.day - 1
  }

  function DayNumber(c: Civil): nat
    requires Valid(c)
  {
    DaysBeforeYear(c.year) + DayOfYear(c)
  }

  function SecondOfDay(c: Civil): (s: nat)
    requires Valid(c)
    ensures s < DAY
  {
    c.hour * 3600 + c.minute * 60 + c.second
  }

  function Seconds(c: Civil): nat
    requires Valid(c)
  {
    DayNumber(c) * DAY + SecondOfDay(c)
  }

  function Nanos(c: Civil): nat
    requires Valid(c)
  {
    Seconds(c) * NANOS + c.nano
  }

  function YearAt(days: nat, year: nat): (y: nat)
    requires DaysBeforeYear(year) <= days
    ensures DaysBeforeYear(y) <= days < DaysBeforeYear(y) + YearLength(y)
    decreases days - DaysBeforeYear(year)
  {
    if days < DaysBeforeYear(year + 1) then year else YearAt(days, year + 1)
  }

  function MonthAt(year: nat, dayOfYear: nat, month: nat): (m: nat)
    requires 1 <= month <= 12 && DaysBeforeMonth(year, month) <= dayOfYear < YearLength(year)
    ensures 1 <= m <= 12 && DaysBeforeMonth(year, m) <= dayOfYear < DaysBeforeMonth(year, m) + MonthLength(year, m)
    decreases 12 - month
  {
    MonthsFillYear(year);
    if month == 12 || dayOfYear < DaysBeforeMonth(year, month + 1) then month else MonthAt(year, dayOfYear, month + 1)
  }

  // Midnight of a day.
  function DateOf(days: nat): (c: Civil)
    ensures Valid(c) && DayNumber(c) == days && c.hour == c.minute == c.second == c.nano == 0
  {
    var year := YearAt(days, 0);
    var dayOfYear := days - DaysBeforeYear(year);
    var month := MonthAt(year, dayOfYear, 1);
    Civil(year, month, dayOfYear - DaysBeforeMonth(year, month) + 1, 0, 0, 0, 0)
  }

  function AtTime(date: Civil, s: nat): (c: Civil)
    requires Valid(date) && s < DAY
    ensures Valid(c) && DayNumber(c) == DayNumber(date) && SecondOfDay(c) == s && c.nano == date.nano
  {
    var minutes := s / 60;
    date.(hour := minutes / 60, minute := minutes % 60, second := s % 60)
  }

  function CivilOf(n: nat): (c: Civil)
    ensures Valid(c) && Nanos(c) == n
  {
    var seconds := n / NANOS;
    AtTime(DateOf(seconds / DAY), seconds % DAY).(nano := n % NANOS)
  }

  // Comparing field by field, the larger unit first.
  predicate Before(c: Civil, d: Civil) {
    || c.year < d.year
    || (c.year == d.year && (
        || c.month < d.month
        || (c.month == d.month && (
            || c.day < d.day
            || (c.day == d.day && TimeBefore(c, d))))))
  }

  predicate TimeBefore(c: Civil, d: Civil) {
    || c.hour < d.hour
    || (c.hour == d.hour && (c.minute < d.minute || (c.minute == d.minute && c.second < d.second)))
  }

  predicate SameSecond(c: Civil, d: Civil) {
    c.year == d.year && c.month == d.month && c.day == d.day && c.hour == d.hour && c.minute == d.minute
      && c.second == d.second
  }

  lemma DayOfYearInYear(c: Civil)
    requires Valid(c)
    ensures DayOfYear(c) < YearLength(c.year)
  {
    MonthsFillYear(c.year);
    MonthsIncrease(c.year, c.month, 13);
  }

  lemma DayOrder(c: Civil, d: Civil)
    requires Valid(c) && Valid(d)
    ensures DayNumber(c) < DayNumber(d)
       <==> (c.year < d.year || (c.year == d.year && (c.month < d.month || (c.month == d.month && c.day < d.day))))
    ensures DayNumber(c) == DayNumber(d) <==> c.year == d.year && c.month == d.month && c.day == d.day
  {
    DayOfYearInYear(c);
    DayOfYearInYear(d);
    if c.year < d.year {
      YearsIncrease(c.year, d.year);
    } else if d.year < c.year {
      YearsIncrease(d.year, c.year);
    } else if c.month < d.month {
      MonthsIncrease(c.year, c.month, d.month);
    } else if d.month < c.month {
      MonthsIncrease(c.year, d.month, c.month);
    }
  }

  // The fields compare exactly as the seconds they stand for.
  lemma CivilOrder(c: Civil, d: Civil)
    requires Valid(c) && Valid(d)
    ensures Seconds(c) < Seconds(d) <==> Before(c, d)
    ensures Seconds(c) == Seconds(d) <==> SameSecond(c, d)
  {
    DayOrder(c, d);
    MixedRadix(DayNumber(c), SecondOfDay(c), DayNumber(d), SecondOfDay(d), DAY);
    assert SecondOfDay(c) < SecondOfDay(d) <==> TimeBefore(c, d);
  }

  // ----- The calendar in closed form. -----

  // Every fourth year is a leap year, of the hundredth ones only every fourth; year 0 is one.
  lemma {:induction false} DaysBeforeYearExactly(year: nat)
    ensures DaysBeforeYear(year) == 365 * year + (year + 3) / 4 - (year + 99) / 100 + (year + 399) / 400
  {
    if year > 0 {
      DaysBeforeYearExactly(year - 1);
      LeapDayCounted(year - 1);
    }
  }

  lemma LeapDayCounted(year: nat)
    ensures (year + 4) / 4 - (year + 100) / 100 + (year + 400) / 400
      == (year + 3) / 4 - (year + 99) / 100 + (year + 399) / 400 + if IsLeap(year) then 1 else 0
  {
    MultipleCounted(year, 4);
    MultipleCounted(year, 100);
    MultipleCounted(year, 400);
    CenturiesDivide(year);
  }

  lemma CenturiesDivide(year: nat)
    ensures year % 400 == 0 ==> year % 100 == 0
    ensures year % 100 == 0 ==> year % 4 == 0
  {
    if year % 100 == 0 {
      DivisionIsUnique(year, 25 * (year / 100), 0, 4);
    }
    if year % 400 == 0 {
      DivisionIsUnique(year, 4 * (year / 400), 0, 100);
    }
  }

  lemma MultipleCounted(year: nat, m: nat)
    requires m >= 1
    ensures (year + m) / m == (year + m - 1) / m + if year % m == 0 then 1 else 0
  {
    var q, r := year / m, year % m;
    assert year == q * m + r && (q + 1) * m == q * m + m;
    DivisionIsUnique(year + m, q + 1, r, m);
    if r == 0 {
      DivisionIsUnique(year + m - 1, q, m - 1, m);
    } else {
      DivisionIsUnique(year + m - 1, q + 1, r - 1, m);
    }
  }

  // The first of January 1970, where Unix time starts.
  lemma EpochDay(year: nat)
    requires year == 1970
    ensures DaysBeforeYear(year) == 719_528
  {
    DaysBeforeYearExactly(year);
  }

  const FIRST_DAYS := [0, 31, 59, 90, 120, 151, 181, 212, 243, 273, 304, 334]

  // The days before the first of each month; from March on one more in a year of 366 days.
  lemma FirstDaysExactly(year: nat, month: nat)
    requires 1 <= month <= 12
    ensures DaysBeforeMonth(year, month)
      == FIRST_DAYS[month - 1] + if month > 2 && DaysBeforeYear(year + 1) - DaysBeforeYear(year) == 366 then 1 else 0
  {
    assert DaysBeforeMonth(year, 2) == 31;
    assert DaysBeforeMonth(year, 3) == 31 + MonthLength(year, 2);
    assert DaysBeforeMonth(year, 5) == 92 + MonthLength(year, 2);
    assert DaysBeforeMonth(year, 7) == 153 + MonthLength(year, 2);
    assert DaysBeforeMonth(year, 9) == 215 + MonthLength(year, 2);
    assert DaysBeforeMonth(year, 11) == 276 + MonthLength(year, 2);
  }

  // A date and time is read off its instant.
  lemma CivilOfNanos(c: Civil)
    requires Valid(c)
    ensures CivilOf(Nanos(c)) == c
  {
    var d := CivilOf(Nanos(c));
    MixedRadix(Seconds(c), c.nano, Seconds(d), d.nano, NANOS);
    CivilOrder(c, d);
  }
}
