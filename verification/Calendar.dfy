/** The calendar arithmetic of date-times, against the proleptic Gregorian calendar. */
module Calendar {
  import opened Arithmetic

  // ----- the calendar -----

  datatype Date = Date(year: int, month: int, day: int)

  predicate IsLeap(year: int) {
    year % 4 == 0 && (year % 100 != 0 || year % 400 == 0)
  }

  function DaysIn(leap: bool, month: int): int {
    if month == 2 then (if leap then 29 else 28)
    else if month == 4 || month == 6 || month == 9 || month == 11 then 30
    else 31
  }

  predicate IsDate(d: Date) {
    1 <= d.year && 1 <= d.month <= 12 && 1 <= d.day <= DaysIn(IsLeap(d.year), d.month)
  }

  function DaysOfYear(year: int): int {
    if IsLeap(year) then 366 else 365
  }

  function DaysBeforeYear(year: int): int
    requires 1 <= year
    decreases year
  {
    if year == 1 then 0 else DaysBeforeYear(year - 1) + DaysOfYear(year - 1)
  }

  function DaysBeforeMonth(leap: bool, month: int): int
    requires 1 <= month
    decreases month
  {
    if month == 1 then 0 else DaysBeforeMonth(leap, month - 1) + DaysIn(leap, month - 1)
  }

  /** The number of days from 1 January of year 1. */
  function DayNumber(d: Date): int
    requires 1 <= d.year && 1 <= d.month
  {
    DaysBeforeYear(d.year) + DaysBeforeMonth(IsLeap(d.year), d.month) + d.day - 1
  }

  predicate Earlier(a: Date, b: Date) {
    a.year < b.year || (a.year == b.year && (a.month < b.month || (a.month == b.month && a.day < b.day)))
  }

  lemma {:induction false} MonthsAddUp(leap: bool, m: int, n: int)
    requires 1 <= m <= n <= 13
    ensures DaysBeforeMonth(leap, m) <= DaysBeforeMonth(leap, n)
    ensures m < n ==> DaysBeforeMonth(leap, m) + DaysIn(leap, m) <= DaysBeforeMonth(leap, n)
    decreases n
  {
    if m == n {
    } else {
      MonthsAddUp(leap, m, n - 1);
    }
  }

  lemma WholeYear(leap: bool)
    ensures DaysBeforeMonth(leap, 1) == 0 && DaysBeforeMonth(leap, 13) == if leap then 366 else 365
  {
    TableIsCumulative(leap, 12);
  }

  lemma {:induction false} YearsAddUp(y: int, z: int)
    requires 1 <= y <= z
    ensures DaysBeforeYear(y) <= DaysBeforeYear(z)
    ensures y < z ==> DaysBeforeYear(y) + DaysOfYear(y) <= DaysBeforeYear(z)
    decreases z
  {
    if y == z {
    } else {
      YearsAddUp(y, z - 1);
    }
  }

  /** Day numbers follow the order of dates. */
  lemma DayNumberIsMonotone(a: Date, b: Date)
    requires IsDate(a) && IsDate(b) && Earlier(a, b)
    ensures DayNumber(a) < DayNumber(b)
  {
    if a.year < b.year {
      MonthsAddUp(IsLeap(a.year), a.month, 13);
      WholeYear(IsLeap(a.year));
      YearsAddUp(a.year, b.year);
      MonthsAddUp(IsLeap(b.year), 1, b.month);
    } else if a.month < b.month {
      MonthsAddUp(IsLeap(a.year), a.month, b.month);
    }
  }

  /** A day number is that of one date only. */
  lemma DayNumberIsUnique(a: Date, b: Date)
    requires IsDate(a) && IsDate(b) && DayNumber(a) == DayNumber(b)
    ensures a == b
  {
    if Earlier(a, b) {
      DayNumberIsMonotone(a, b);
    } else if Earlier(b, a) {
      DayNumberIsMonotone(b, a);
    }
  }

  /** The days before a year in closed form. */
  lemma {:induction false} DaysBeforeYearClosed(y: int)
    requires 1 <= y
    ensures DaysBeforeYear(y) == 365 * (y - 1) + (y - 1) / 4 - (y - 1) / 100 + (y - 1) / 400
    decreases y
  {
    if y == 1 {
    } else {
      DaysBeforeYearClosed(y - 1);
      QuotientStep(y - 1, 4);
      QuotientStep(y - 1, 100);
      QuotientStep(y - 1, 400);
      CenturiesAndLeaps(y - 1);
    }
  }

  lemma QuotientStep(n: int, k: int)
    requires 1 <= n && 0 < k
    ensures n / k == (n - 1) / k + if n % k == 0 then 1 else 0
  {
    var q, r := n / k, n % k;
    if r == 0 {
      assert k * (q - 1) == k * q - k;
      Quotient(n - 1, k, q - 1, k - 1);
    } else {
      Quotient(n - 1, k, q, r - 1);
    }
  }

  lemma CenturiesAndLeaps(n: int)
    ensures n % 400 == 0 ==> n % 100 == 0
    ensures n % 100 == 0 ==> n % 4 == 0
  {
  }

  // ----- the tables and constants of the code -----

  const DAYS_YEAR_365 := [0, 31, 59, 90, 120, 151, 181, 212, 243, 273, 304, 334, 365]
  const DAYS_YEAR_366 := [0, 31, 60, 91, 121, 152, 182, 213, 244, 274, 305, 335, 366]

  const DAYS_PER_YEAR := 365
  const DAYS_PER_4_YEARS := 1461
  const DAYS_PER_100_YEARS := 36524
  const DAYS_PER_400_YEARS := 146097

  const TICKS_PER_DAY := 864_000_000_000
  /** A day in ticks of 100 nanoseconds. */
  const DAY := 24 * 60 * 60 * 10_000_000

  const TICKS_LIMIT := 0x1_0000_0000_0000_0000
  const TICKS_INVALID := 0xffff_ffff_ffff_ffff

  function DaysYear(leap: bool): (table: seq<int>)
    ensures |table| == 13
  {
    if leap then DAYS_YEAR_366 else DAYS_YEAR_365
  }

  /** The tables hold the days before each month. */
  lemma {:induction false} TableIsCumulative(leap: bool, m: int)
    requires 0 <= m <= 12
    ensures DaysYear(leap)[m] == DaysBeforeMonth(leap, m + 1)
    decreases m
  {
    if m == 0 {
    } else {
      TableIsCumulative(leap, m - 1);
      TableStep(leap, m);
    }
  }

  lemma TableStep(leap: bool, m: int)
    requires 1 <= m <= 12
    ensures DaysYear(leap)[m] == DaysYear(leap)[m - 1] + DaysIn(leap, m)
  {
  }

  // ----- from days to dates -----

  /** The cycles that the code takes a day number apart into. */
  predicate IsSplit(days: int, q400: int, q100: int, q4: int, q1: int, rest: int) {
    && 0 <= q400 && 0 <= q100 <= 3 && 0 <= q4 <= 24 && 0 <= q1 <= 3
    && days == q400 * DAYS_PER_400_YEARS + q100 * DAYS_PER_100_YEARS + q4 * DAYS_PER_4_YEARS + q1 * DAYS_PER_YEAR + rest
    && 0 <= rest < if q1 == 3 && (q4 != 24 || q100 == 3) then 366 else 365
  }

  /** The cycles give the year, whether it is leap, and the days before it. */
  lemma SplitIsYear(days: int, q400: int, q100: int, q4: int, q1: int, rest: int)
    requires IsSplit(days, q400, q100, q4, q1, rest)
    ensures var year := q400 * 400 + q100 * 100 + q4 * 4 + q1 + 1;
      1 <= year && DaysBeforeYear(year) + rest == days && (IsLeap(year) <==> q1 == 3 && (q4 != 24 || q100 == 3))
  {
    var n := q400 * 400 + q100 * 100 + q4 * 4 + q1;
    DaysBeforeYearClosed(n + 1);
    Quotient(n, 4, q400 * 100 + q100 * 25 + q4, q1);
    Quotient(n, 100, q400 * 4 + q100, q4 * 4 + q1);
    Quotient(n, 400, q400, q100 * 100 + q4 * 4 + q1);
    Next(n, 4, q400 * 100 + q100 * 25 + q4, q1);
    Next(n, 100, q400 * 4 + q100, q4 * 4 + q1);
    Next(n, 400, q400, q100 * 100 + q4 * 4 + q1);
  }

  lemma Next(n: int, k: int, q: int, r: int)
    requires 0 < k && n == k * q + r && 0 <= r < k
    ensures (n + 1) % k == if r == k - 1 then 0 else r + 1
  {
    if r == k - 1 {
      assert k * (q + 1) == k * q + k;
      Quotient(n + 1, k, q + 1, 0);
    } else {
      Quotient(n + 1, k, q, r + 1);
    }
  }

  /** The divisions of the code, one after the other, with the two corrections for the last cycle. */
  lemma DivisionsSplit(days: int, q400: int, r400: int, q100: int, r100: int, q4: int, r4: int, q1: int, rest: int)
    requires 0 <= days
    requires q400 == days / DAYS_PER_400_YEARS && r400 == days - q400 * DAYS_PER_400_YEARS
    requires q100 == (if r400 / DAYS_PER_100_YEARS == 4 then 3 else r400 / DAYS_PER_100_YEARS) && r100 == r400 - q100 * DAYS_PER_100_YEARS
    requires q4 == r100 / DAYS_PER_4_YEARS && r4 == r100 - q4 * DAYS_PER_4_YEARS
    requires q1 == (if r4 / DAYS_PER_YEAR == 4 then 3 else r4 / DAYS_PER_YEAR) && rest == r4 - q1 * DAYS_PER_YEAR
    ensures IsSplit(days, q400, q100, q4, q1, rest)
  {
  }

  /** `cb_date_time_ymd`: the date of a tick count. */
  method Ymd(ticks: int) returns (ymd: Date)
    requires 0 <= ticks < TICKS_LIMIT
    ensures IsDate(ymd) && DayNumber(ymd) == ticks / TICKS_PER_DAY
    ensures DayNumber(ymd) * DAY <= ticks < (DayNumber(ymd) + 1) * DAY
  {
    hide IsSplit, DaysYear, IsLeap, DaysBeforeYear, DaysBeforeMonth;
    var days := ticks / TICKS_PER_DAY;
    ghost var day := days;
    var years400 := days / DAYS_PER_400_YEARS;
    days := days - years400 * DAYS_PER_400_YEARS;
    ghost var r400 := days;
    var years100 := days / DAYS_PER_100_YEARS;
    if years100 == 4 {
      years100 := 3;
    }
    days := days - years100 * DAYS_PER_100_YEARS;
    ghost var r100 := days;
    var years4 := days / DAYS_PER_4_YEARS;
    days := days - years4 * DAYS_PER_4_YEARS;
    ghost var r4 := days;
    var years := days / DAYS_PER_YEAR;
    if years == 4 {
      years := 3;
    }
    var year := years400 * 400 + years100 * 100 + years4 * 4 + years + 1;
    days := days - years * DAYS_PER_YEAR;
    DivisionsSplit(day, years400, r400, years100, r100, years4, r4, years, days);
    SplitIsYear(day, years400, years100, years4, years, days);
    SplitBounds(day, years400, years100, years4, years, days);
    var leap := years == 3 && (years4 != 24 || years100 == 3);
    var month := FindMonth(days, leap);
    TableIsDate(year, month, days, leap);
    ymd := Date(year, month, days - DaysYear(leap)[month - 1] + 1);
  }

  datatype DatePart = Day | DayOfYear | Month | Year

  function PartOf(d: Date, part: DatePart): int
    requires 1 <= d.year && 1 <= d.month
  {
    match part
    case Day => d.day
    case DayOfYear => DayNumber(d) - DaysBeforeYear(d.year) + 1
    case Month => d.month
    case Year => d.year
  }

  /** `cb_date_time_get_date_part`: it agrees with the date of the tick count on every part. */
  method GetDatePart(ticks: int, part: DatePart) returns (value: int)
    requires 0 <= ticks < TICKS_LIMIT
    ensures forall d :: IsDate(d) && DayNumber(d) == ticks / TICKS_PER_DAY ==> value == PartOf(d, part)
  {
    hide IsSplit, DaysYear, IsLeap, DaysBeforeYear, DaysBeforeMonth;
    var days := ticks / TICKS_PER_DAY;
    ghost var day := days;
    var years400 := days / DAYS_PER_400_YEARS;
    days := days - years400 * DAYS_PER_400_YEARS;
    ghost var r400 := days;
    var years100 := days / DAYS_PER_100_YEARS;
    if years100 == 4 {
      years100 := 3;
    }
    days := days - years100 * DAYS_PER_100_YEARS;
    ghost var r100 := days;
    var years4 := days / DAYS_PER_4_YEARS;
    days := days - years4 * DAYS_PER_4_YEARS;
    ghost var r4 := days;
    var years := days / DAYS_PER_YEAR;
    if years == 4 {
      years := 3;
    }
    ghost var year := years400 * 400 + years100 * 100 + years4 * 4 + years + 1;
    ghost var rest := days - years * DAYS_PER_YEAR;
    DivisionsSplit(day, years400, r400, years100, r100, years4, r4, years, rest);
    SplitIsYear(day, years400, years100, years4, years, rest);
    SplitBounds(day, years400, years100, years4, years, rest);
    var leap := years == 3 && (years4 != 24 || years100 == 3);
    ghost var found := YmdOf(year, rest, leap);
    TheDateOf(found);
    if part == Year {
      return years400 * 400 + years100 * 100 + years4 * 4 + years + 1;
    }
    days := days - years * DAYS_PER_YEAR;
    if part == DayOfYear {
      return days + 1;
    }
    var month := FindMonth(days, leap);
    TableIsDate(year, month, days, leap);
    DayNumberIsUnique(found, Date(year, month, days - DaysYear(leap)[month - 1] + 1));
    if part == Month {
      return month;
    }
    value := days - DaysYear(leap)[month - 1] + 1;
  }

  /** The date of a day within a year. */
  lemma YmdOf(year: int, days: int, leap: bool) returns (d: Date)
    requires 1 <= year && (leap <==> IsLeap(year)) && 0 <= days < if leap then 366 else 365
    ensures IsDate(d) && d.year == year && DayNumber(d) == DaysBeforeYear(year) + days
  {
    var month := 1;
    while days >= DaysYear(leap)[month]
      invariant 1 <= month <= 12 && DaysYear(leap)[month - 1] <= days
      decreases 12 - month
    {
      month := month + 1;
    }
    TableIsDate(year, month, days, leap);
    d := Date(year, month, days - DaysYear(leap)[month - 1] + 1);
  }

  lemma TheDateOf(d: Date)
    requires IsDate(d)
    ensures forall e :: IsDate(e) && DayNumber(e) == DayNumber(d) ==> e == d
  {
    forall e | IsDate(e) && DayNumber(e) == DayNumber(d) {
      DayNumberIsUnique(e, d);
    }
  }

  lemma SplitBounds(days: int, q400: int, q100: int, q4: int, q1: int, rest: int)
    requires IsSplit(days, q400, q100, q4, q1, rest)
    ensures 0 <= rest < if q1 == 3 && (q4 != 24 || q100 == 3) then 366 else 365
  {
  }

  /** The month that a day of the year falls into, by the table, and the day in it. */
  lemma TableIsDate(year: int, month: int, days: int, leap: bool)
    requires 1 <= year && 1 <= month <= 12 && (leap <==> IsLeap(year))
    requires DaysYear(leap)[month - 1] <= days < DaysYear(leap)[month]
    ensures var d := Date(year, month, days - DaysYear(leap)[month - 1] + 1);
      IsDate(d) && DayNumber(d) == DaysBeforeYear(year) + days
  {
    hide IsLeap, DaysBeforeYear;
    TableIsCumulative(leap, month - 1);
    TableStep(leap, month);
  }

  /** The estimate of the month, and the search from there. */
  method FindMonth(days: int, leap: bool) returns (month: int)
    requires 0 <= days < if leap then 366 else 365
    ensures 1 <= month <= 12 && DaysYear(leap)[month - 1] <= days < DaysYear(leap)[month]
  {
    var daysYear := DaysYear(leap);
    month := days / 32 + 1;
    EstimateIsLow(days, leap);
    while days >= daysYear[month]
      invariant 1 <= month <= 12 && daysYear[month - 1] <= days
      decreases 12 - month
    {
      month := month + 1;
    }
  }

  /** No month has more than 31 days, so the estimate is not late. */
  lemma EstimateIsLow(days: int, leap: bool)
    requires 0 <= days < if leap then 366 else 365
    ensures days / 32 + 1 <= 12 && DaysYear(leap)[days / 32] <= days
  {
    TableIsLow(leap, days / 32);
  }

  lemma TableIsLow(leap: bool, m: int)
    requires 0 <= m <= 11
    ensures DaysYear(leap)[m] <= 32 * m
  {
  }

  // ----- from dates to ticks -----

  /** `cb_is_leap_year`. */
  predicate IsLeapYear(year: int) {
    year % 400 == 0 || year % 4 == 0 || year % 100 == 0
  }

  /** `cb_year_days`. */
  function YearDays(year: int): int {
    var y := year - 1;
    var cent := y / 100;
    y * (365 * 4 + 1) / 4 - cent + cent / 4
  }

  /** `cb_date_to_ticks`. */
  function DateToTicks(year: int, month: int, day: int): int
    requires 1 <= year && 1 <= month <= 12
  {
    var daysYear := DaysYear(IsLeapYear(year));
    if day > daysYear[month] - daysYear[month - 1] then TICKS_INVALID
    else (YearDays(year) + daysYear[month - 1] + day - 1) * TICKS_PER_DAY
  }

  /** `cb_date_time_from_ymd`. */
  function FromYmd(d: Date): int {
    if d.year < 1 || d.year > 9999 || d.month < 1 || d.month > 12 || d.day < 1 then TICKS_INVALID
    else DateToTicks(d.year, d.month, d.day)
  }

  predicate Supported(d: Date) {
    IsDate(d) && d.year <= 9999
  }

  /** From March of a century year that is not leap, the code counts a day too many. */
  predicate MiscountsLeap(d: Date) {
    d.year % 100 == 0 && d.year % 400 != 0 && d.month >= 3
  }

  lemma YearDaysAreDaysBefore(year: int)
    requires 1 <= year
    ensures YearDays(year) == DaysBeforeYear(year)
  {
    hide DaysBeforeYear;
    var y := year - 1;
    DaysBeforeYearClosed(year);
    Quotient(y * 1461, 4, 365 * y + y / 4, y % 4);
    CenturiesByFour(y);
  }

  lemma CenturiesByFour(y: int)
    requires 0 <= y
    ensures (y / 100) / 4 == y / 400
  {
    var cent := y / 100;
    assert y == 100 * cent + y % 100 && cent == 4 * (cent / 4) + cent % 4;
    Quotient(y, 400, cent / 4, cent % 4 * 100 + y % 100);
  }

  lemma LeapYearIsFourth(year: int)
    ensures IsLeapYear(year) <==> year % 4 == 0
    ensures IsLeapYear(year) <==> IsLeap(year) || (year % 100 == 0 && year % 400 != 0)
  {
    CenturiesAndLeaps(year);
  }

  /** The ticks of a supported date are the start of its day, but for the days that are miscounted. */
  lemma FromYmdIsDayNumber(d: Date)
    requires Supported(d)
    ensures FromYmd(d) == (DayNumber(d) + if MiscountsLeap(d) then 1 else 0) * TICKS_PER_DAY
    ensures 0 <= DayNumber(d) + 1 < 4_000_000
  {
    hide IsLeap, IsLeapYear, DaysBeforeYear, YearDays, DaysBeforeMonth, DaysYear;
    YearDaysAreDaysBefore(d.year);
    LeapYearIsFourth(d.year);
    TableIsCumulative(IsLeap(d.year), d.month - 1);
    TableStep(IsLeapYear(d.year), d.month);
    LeapTable(d.month - 1);
    CenturyDays(d);
    DaysBefore9999(d.year);
    MonthsAddUp(IsLeap(d.year), 1, d.month);
    MonthsAddUp(IsLeap(d.year), d.month, 13);
    WholeYear(IsLeap(d.year));
  }

  lemma CenturyDays(d: Date)
    ensures IsLeap(d.year) ==> IsLeapYear(d.year)
    ensures IsLeapYear(d.year) && !IsLeap(d.year) <==> d.year % 100 == 0 && d.year % 400 != 0
    ensures DaysIn(false, d.month) <= DaysIn(true, d.month)
  {
    CenturiesAndLeaps(d.year);
  }

  lemma LeapTable(m: int)
    requires 0 <= m <= 12
    ensures DaysYear(true)[m] == DaysYear(false)[m] + if m >= 2 then 1 else 0
  {
  }

  lemma DaysBefore9999(year: int)
    requires 1 <= year <= 9999
    ensures 0 <= DaysBeforeYear(year) <= 3_999_000
  {
    DaysBeforeYearClosed(year);
  }

  /** What `cb_date_time_from_ymd` accepts: the dates of its own calendar, in which every fourth year is leap. */
  lemma AcceptedDates(d: Date)
    ensures FromYmd(d) != 0xffff_ffff_ffff_ffff <==>
      1 <= d.year <= 9999 && 1 <= d.month <= 12 && 1 <= d.day <= DaysIn(d.year % 4 == 0, d.month)
  {
    if 1 <= d.year <= 9999 && 1 <= d.month <= 12 && 1 <= d.day {
      hide IsLeapYear, DaysBeforeYear, YearDays, DaysYear;
      LeapYearIsFourth(d.year);
      TableStep(IsLeapYear(d.year), d.month);
      YearDaysAreDaysBefore(d.year);
      DaysBefore9999(d.year);
      TableBounds(IsLeapYear(d.year), d.month);
    }
  }

  lemma TableBounds(leap: bool, m: int)
    requires 1 <= m <= 12
    ensures 0 <= DaysYear(leap)[m - 1] < DaysYear(leap)[m] <= 366
  {
  }

  /** A valid date comes back from its ticks if and only if it is not miscounted. */
  lemma DateRoundTrip(d: Date, back: Date)
    requires Supported(d) && IsDate(back) && DayNumber(back) == FromYmd(d) / TICKS_PER_DAY
    ensures back == d <==> !MiscountsLeap(d)
  {
    hide IsLeap, DaysIn, MiscountsLeap, FromYmd, DayNumber;
    FromYmdIsDayNumber(d);
    var n := DayNumber(d) + if MiscountsLeap(d) then 1 else 0;
    Quotient(FromYmd(d), TICKS_PER_DAY, n, 0);
    if DayNumber(back) == DayNumber(d) {
      DayNumberIsUnique(back, d);
    }
  }

  /** The start of the day comes back from the date of a tick count if and only if that date is one that the code takes, and is
      not miscounted. */
  lemma TicksRoundTrip(ticks: int, d: Date)
    requires 0 <= ticks && IsDate(d) && DayNumber(d) == ticks / TICKS_PER_DAY
    ensures FromYmd(d) == ticks - ticks % TICKS_PER_DAY <==> d.year <= 9999 && !MiscountsLeap(d)
  {
    hide IsLeap, DaysIn, MiscountsLeap, DayNumber, DateToTicks;
    if d.year <= 9999 {
      FromYmdIsDayNumber(d);
    }
  }

  /** The last day of a year that is miscounted, and the first of the next. */
  predicate IsMiscountedYearEnd(a: Date, b: Date) {
    MiscountsLeap(a) && a.month == 12 && a.day == 31 && b == Date(a.year + 1, 1, 1)
  }

  /** The ticks of an earlier date are fewer, unless the two are the last day of a miscounted year and the day after it. */
  lemma OrderIsKeptIff(a: Date, b: Date)
    requires Supported(a) && Supported(b) && Earlier(a, b)
    ensures FromYmd(a) < FromYmd(b) <==> !IsMiscountedYearEnd(a, b)
    ensures FromYmd(a) <= FromYmd(b)
  {
    hide FromYmd, DayNumber, IsLeap;
    FromYmdIsDayNumber(a);
    FromYmdIsDayNumber(b);
    DayNumberIsMonotone(a, b);
    if a.year < b.year {
      YearEnd(a.year);
      var last, first := Date(a.year, 12, 31), Date(a.year + 1, 1, 1);
      if a != last {
        DayNumberIsMonotone(a, last);
      }
      if b != first {
        DayNumberIsMonotone(first, b);
      }
    }
  }

  lemma YearEnd(year: int)
    requires 1 <= year < 9999
    ensures Supported(Date(year, 12, 31)) && Supported(Date(year + 1, 1, 1))
    ensures DayNumber(Date(year + 1, 1, 1)) == DayNumber(Date(year, 12, 31)) + 1
  {
    hide IsLeap;
    WholeYear(IsLeap(year));
    MonthsAddUp(IsLeap(year), 12, 13);
  }

  /** The last day of a miscounted century and the first of the next year get the same ticks. */
  lemma MiscountedYearEndCollides(year: int)
    requires 1 <= year < 9999 && year % 100 == 0 && year % 400 != 0
    ensures FromYmd(Date(year, 12, 31)) == FromYmd(Date(year + 1, 1, 1))
  {
    hide FromYmd;
    OrderIsKeptIff(Date(year, 12, 31), Date(year + 1, 1, 1));
    YearEnd(year);
  }

  // ----- where the count starts, and how fast it runs -----

  /** The ticks of the Unix epoch. */
  lemma EpochTicks()
    ensures FromYmd(Date(1970, 1, 1)) == 621_355_968_000_000_000
  {
    hide IsLeap, DaysBeforeYear, FromYmd;
    FromYmdIsDayNumber(Date(1970, 1, 1));
    DaysBeforeYearClosed(1970);
  }

  /** The ticks of a day are those of its date. */
  lemma WithinTheDay(d: Date, ticks: int)
    requires IsDate(d)
    ensures DayNumber(d) == ticks / TICKS_PER_DAY <==> DayNumber(d) * DAY <= ticks < (DayNumber(d) + 1) * DAY
  {
    hide IsLeap, DaysBeforeYear, DaysBeforeMonth;
    var n := DayNumber(d);
    if n * DAY <= ticks < (n + 1) * DAY {
      Quotient(ticks, TICKS_PER_DAY, n, ticks - n * DAY);
    }
  }

  /** A tick count is on the day of the epoch if and only if its date is 1 January 1970. */
  lemma OnTheDayOfTheEpoch(ticks: int, d: Date)
    requires 0 <= ticks && IsDate(d) && DayNumber(d) == ticks / TICKS_PER_DAY
    ensures 621_355_968_000_000_000 <= ticks < 621_355_968_000_000_000 + 24 * 60 * 60 * 10_000_000 <==> d == Date(1970, 1, 1)
  {
    hide IsLeap, DayNumber;
    var epoch := Date(1970, 1, 1);
    EpochTicks();
    FromYmdIsDayNumber(epoch);
    WithinTheDay(epoch, ticks);
    if DayNumber(d) == DayNumber(epoch) {
      DayNumberIsUnique(d, epoch);
    }
  }

  /** The day after. */
  function NextDate(d: Date): Date {
    if d.day < DaysIn(IsLeap(d.year), d.month) then d.(day := d.day + 1)
    else if d.month < 12 then Date(d.year, d.month + 1, 1)
    else Date(d.year + 1, 1, 1)
  }

  /** The day after is a date, and its number the next one. */
  lemma NextDateIsNext(d: Date)
    requires IsDate(d)
    ensures IsDate(NextDate(d)) && DayNumber(NextDate(d)) == DayNumber(d) + 1
  {
    hide IsLeap;
    WholeYear(IsLeap(d.year));
    if d.month == 12 {
      MonthsAddUp(IsLeap(d.year), 12, 13);
    }
  }

  /** The first of March of a year that is miscounted. */
  predicate IsMiscountedMarch(d: Date) {
    MiscountsLeap(d) && d.month == 3 && d.day == 1
  }

  /** A day and the next are a day apart in ticks, but for miscounted years: the day before their March is two days before it, and
      their last day is none before the next year. */
  lemma DaysApart(a: Date, b: Date)
    requires Supported(a) && Supported(b) && DayNumber(b) == DayNumber(a) + 1
    ensures FromYmd(b) - FromYmd(a) ==
      (if IsMiscountedMarch(b) then 2 else if IsMiscountedYearEnd(a, b) then 0 else 1) * (24 * 60 * 60 * 10_000_000)
  {
    hide FromYmd, DayNumber, IsLeap;
    FromYmdIsDayNumber(a);
    FromYmdIsDayNumber(b);
    NextDateIsNext(a);
    DayNumberIsUnique(b, NextDate(a));
  }

  /** Days of the year count from 1 on 1 January, by one a day, to 365 or 366 on 31 December. */
  lemma DaysOfTheYear(d: Date)
    requires IsDate(d)
    ensures PartOf(NextDate(d), DayOfYear) == if NextDate(d).year == d.year then PartOf(d, DayOfYear) + 1 else 1
    ensures d.month == 1 && d.day == 1 ==> PartOf(d, DayOfYear) == 1
    ensures d.month == 12 && d.day == 31 ==>
      PartOf(d, DayOfYear) == if d.year % 4 == 0 && (d.year % 100 != 0 || d.year % 400 == 0) then 366 else 365
  {
    NextDateIsNext(d);
    hide DaysBeforeYear;
    WholeYear(IsLeap(d.year));
    if d.month == 12 {
      MonthsAddUp(IsLeap(d.year), 12, 13);
    }
  }
}
