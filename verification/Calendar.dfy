/** Civil dates from day numbers, against the proleptic Gregorian calendar of ISO 8601. */
module Calendar {

  datatype Date = Date(year: int, month: int, day: int)
  {
    predicate Valid() { 1 <= month <= 12 && 1 <= day <= DaysInMonth(year, month) }

    predicate Before(d: Date) {
      || year < d.year
      || (year == d.year && (month < d.month || (month == d.month && day < d.day)))
    }
  }

  // ----- the calendar as the standard has it

  predicate IsLeap(year: int) { year % 4 == 0 && (year % 100 != 0 || year % 400 == 0) }

  function LeapDay(year: int): int { if IsLeap(year) then 1 else 0 }

  function DaysInMonth(year: int, month: int): int {
    if month == 2 then 28 + LeapDay(year)
    else if month == 4 || month == 6 || month == 9 || month == 11 then 30
    else 31
  }

  /** Days from the first of January of year 0 to that of `year`, year by year. */
  function DaysBeforeYear(year: int): int
    decreases if year < 0 then -year else year
  {
    if year == 0 then 0
    else if year > 0 then DaysBeforeYear(year - 1) + 365 + LeapDay(year - 1)
    else DaysBeforeYear(year + 1) - 365 - LeapDay(year)
  }

  /** Days from the first of January to the first of `month`, month by month. */
  function DaysBeforeMonth(year: int, month: int): int
    requires 1 <= month <= 12
    decreases month
  {
    if month == 1 then 0 else DaysBeforeMonth(year, month - 1) + DaysInMonth(year, month - 1)
  }

  function EpochYear(): int { 1970 }

  /** Days from 1970-01-01. */
  function DayNumber(date: Date): int
    requires 1 <= date.month <= 12
  {
    DaysBeforeYear(date.year) - DaysBeforeYear(EpochYear()) + DaysBeforeMonth(date.year, date.month) + date.day - 1
  }

  /** The day after. */
  function Successor(date: Date): Date {
    if date.day < DaysInMonth(date.year, date.month) then date.(day := date.day + 1)
    else if date.month < 12 then Date(date.year, date.month + 1, 1)
    else Date(date.year + 1, 1, 1)
  }

  // ----- the arithmetic

  /** The year of an era that holds a day of it, leap days allowed for. */
  function YearIn(dayOfEra: int): int {
    (dayOfEra - dayOfEra / 1460 + dayOfEra / 36_524 - dayOfEra / 146_096) / 365
  }

  /** Day `dayOfYear` of the year that begins in March of `year`; January and February belong to the next. */
  function MarchDate(year: int, dayOfYear: int): Date {
    var monthOfYear := (5 * dayOfYear + 2) / 153;
    var day := dayOfYear - (153 * monthOfYear + 2) / 5 + 1;
    var month := if monthOfYear < 10 then monthOfYear + 3 else monthOfYear - 9;
    Date(year + (if month <= 2 then 1 else 0), month, day)
  }

  function CivilFromDays(number: int): Date {
    var days := number + 719_468;
    var era := days / 146_097;
    var dayOfEra := days % 146_097;
    var yearOfEra := YearIn(dayOfEra);
    var dayOfYear := dayOfEra - (365 * yearOfEra + yearOfEra / 4 - yearOfEra / 100);
    MarchDate(yearOfEra + era * 400, dayOfYear)
  }

  // ----- years that begin in March

  /** The first of March of `year`, from the first of January of year 0. */
  function March(year: int): int { 365 * year + year / 4 - year / 100 + year / 400 + 60 }

  lemma MarchNext(year: int)
    ensures March(year + 1) == March(year) + 365 + LeapDay(year + 1)
  {
    assert (year + 1) / 4 == year / 4 + if (year + 1) % 4 == 0 then 1 else 0;
    assert (year + 1) / 100 == year / 100 + if (year + 1) % 100 == 0 then 1 else 0;
    assert (year + 1) / 400 == year / 400 + if (year + 1) % 400 == 0 then 1 else 0;
    assert (year + 1) % 100 == 0 ==> (year + 1) % 4 == 0;
    assert (year + 1) % 400 == 0 ==> (year + 1) % 100 == 0;
  }

  lemma {:induction false} MarchIs(year: int)
    ensures DaysBeforeYear(year) + 59 + LeapDay(year) == March(year)
    decreases if year < 0 then -year else year
  {
    if year > 0 {
      MarchIs(year - 1);
      MarchNext(year - 1);
    } else if year < 0 {
      MarchIs(year + 1);
      MarchNext(year);
    }
  }

  lemma MarchInEra(era: int, yearOfEra: int)
    requires 0 <= yearOfEra < 400
    ensures March(400 * era + yearOfEra) == 146_097 * era + 365 * yearOfEra + yearOfEra / 4 - yearOfEra / 100 + 60
  {
    var year := 400 * era + yearOfEra;
    assert year / 4 == 100 * era + yearOfEra / 4;
    assert year / 100 == 4 * era + yearOfEra / 100;
    assert year / 400 == era;
  }

  /** A day of the era as century, four years, year and day in it; only the last year of four, and at the
    * end of a century only of four centuries, has a day 365. */
  predicate Parts(dayOfEra: int, c: int, q: int, s: int, t: int) {
    && 0 <= c <= 3 && 0 <= q <= 24 && 0 <= s <= 3 && 0 <= t <= 365
    && dayOfEra == 36_524 * c + 1461 * q + 365 * s + t
    && (t == 365 ==> s == 3 && (q < 24 || c == 3))
  }

  lemma PartsOf(dayOfEra: int) returns (c: int, q: int, s: int, t: int)
    requires 0 <= dayOfEra < 146_097
    ensures Parts(dayOfEra, c, q, s, t)
  {
    c := if dayOfEra / 36_524 > 3 then 3 else dayOfEra / 36_524;
    var inCentury := dayOfEra - 36_524 * c;
    q := inCentury / 1461;
    var inFour := inCentury - 1461 * q;
    s := if inFour / 365 > 3 then 3 else inFour / 365;
    t := inFour - 365 * s;
  }

  lemma YearOfEra(dayOfEra: int, c: int, q: int, s: int, t: int)
    requires Parts(dayOfEra, c, q, s, t)
    ensures YearIn(dayOfEra) == 100 * c + 4 * q + s
    ensures var y := 100 * c + 4 * q + s; 0 <= y < 400 && 365 * y + y / 4 - y / 100 == dayOfEra - t
  {
    var y := 100 * c + 4 * q + s;
    assert y / 4 == 25 * c + q && y / 100 == c;
    var last := if dayOfEra == 146_096 then 1 else 0;
    assert dayOfEra / 36_524 == c + last && dayOfEra / 146_096 == last;
    var rest := 24 * c + q + 365 * s + t;
    assert dayOfEra == 1460 * (25 * c + q) + rest;
    assert dayOfEra / 1460 == 25 * c + q + if rest >= 1460 then 1 else 0;
  }

  lemma LeapAtTheEnd(era: int, c: int, q: int, s: int)
    requires 0 <= c <= 3 && 0 <= q <= 24 && 0 <= s <= 3
    ensures IsLeap(400 * era + 100 * c + 4 * q + s + 1) <==> s == 3 && (q < 24 || c == 3)
  {
    var inEra := 100 * c + 4 * q + s + 1;
    var year := 400 * era + inEra;
    Remainders(100 * era + 25 * c + q, s + 1, 4 * era + c, 4 * q + s + 1, era, inEra);
    assert year % 4 == (s + 1) % 4 && year % 100 == (4 * q + s + 1) % 100 && year % 400 == inEra % 400;
    assert (s + 1) % 4 == 0 <==> s == 3;
    assert (4 * q + s + 1) % 100 == 0 <==> s == 3 && q == 24;
    assert inEra % 400 == 0 <==> s == 3 && q == 24 && c == 3;
  }

  lemma Remainders(a: int, x: int, b: int, y: int, d: int, z: int)
    ensures (4 * a + x) % 4 == x % 4 && (100 * b + y) % 100 == y % 100 && (400 * d + z) % 400 == z % 400
  {
  }

  /** The months of a year that begins in March. */
  lemma MonthOfYear(t: int)
    requires 0 <= t <= 365
    ensures var m := (5 * t + 2) / 153;
      && 0 <= m <= 11
      && (153 * m + 2) / 5 <= t
      && (m < 11 ==> t < (153 * (m + 1) + 2) / 5)
  {
  }

  lemma MonthStarts(year: int, m: int)
    requires 0 <= m <= 11
    ensures m < 10 ==> DaysBeforeMonth(year, m + 3) == 59 + LeapDay(year) + (153 * m + 2) / 5
    ensures m >= 10 ==> DaysBeforeMonth(year, m - 9) + 306 == (153 * m + 2) / 5
    ensures m < 10 ==> DaysInMonth(year, m + 3) == (153 * (m + 1) + 2) / 5 - (153 * m + 2) / 5
    ensures m == 10 ==> DaysInMonth(year, m - 9) == (153 * (m + 1) + 2) / 5 - (153 * m + 2) / 5
  {
    hide IsLeap;
  }

  // ----- the two are inverse

  /** The date the arithmetic gives, from the parts of the day. */
  lemma CivilParts(number: int) returns (era: int, c: int, q: int, s: int, t: int)
    ensures number + 719_468 == 146_097 * era + 36_524 * c + 1461 * q + 365 * s + t
    ensures Parts(36_524 * c + 1461 * q + 365 * s + t, c, q, s, t)
    ensures CivilFromDays(number) == MarchDate(400 * era + 100 * c + 4 * q + s, t)
  {
    hide Parts, YearIn, MarchDate;
    var days := number + 719_468;
    era := days / 146_097;
    c, q, s, t := PartsOf(days % 146_097);
    YearOfEra(days % 146_097, c, q, s, t);
    PartsBounds(days % 146_097, c, q, s, t);
  }

  lemma EpochIs()
    ensures DaysBeforeYear(EpochYear()) == 719_528
  {
    hide DaysBeforeYear;
    MarchIs(EpochYear());
  }

  lemma MarchDateIs(y: int, t: int)
    requires 0 <= t <= 365 && (t == 365 ==> IsLeap(y + 1))
    ensures var d := MarchDate(y, t);
      d.Valid() && DaysBeforeYear(d.year) + DaysBeforeMonth(d.year, d.month) + d.day - 1 == March(y) + t
  {
    hide DaysBeforeYear, DaysBeforeMonth, DaysInMonth, IsLeap, March;
    var m := (5 * t + 2) / 153;
    MonthOfYear(t);
    MarchIs(y);
    if m < 10 {
      MonthStarts(y, m);
    } else {
      MarchIs(y + 1);
      MarchNext(y);
      MonthStarts(y + 1, m);
      FebruaryIs(y + 1);
    }
  }

  /** Every day has a date of the calendar, and it is the right one. */
  lemma CivilIsRight(number: int)
    ensures CivilFromDays(number).Valid() && DayNumber(CivilFromDays(number)) == number
  {
    hide DaysBeforeYear, DaysBeforeMonth, DaysInMonth, IsLeap, CivilFromDays, EpochYear, MarchDate, Parts, March;
    var era, c, q, s, t := CivilParts(number);
    PartsBounds(36_524 * c + 1461 * q + 365 * s + t, c, q, s, t);
    YearOfEra(36_524 * c + 1461 * q + 365 * s + t, c, q, s, t);
    MarchInEra(era, 100 * c + 4 * q + s);
    LeapAtTheEnd(era, c, q, s);
    EpochIs();
    MarchDateIs(400 * era + 100 * c + 4 * q + s, t);
  }

  lemma PartsBounds(dayOfEra: int, c: int, q: int, s: int, t: int)
    requires Parts(dayOfEra, c, q, s, t)
    ensures 0 <= c <= 3 && 0 <= q <= 24 && 0 <= s <= 3 && 0 <= t <= 365
    ensures t == 365 ==> s == 3 && (q < 24 || c == 3)
    ensures dayOfEra == 36_524 * c + 1461 * q + 365 * s + t
  {
  }

  lemma FebruaryIs(year: int)
    ensures DaysInMonth(year, 2) == 28 + LeapDay(year)
  {
  }

  /** A later date has a later number. */
  lemma DatesGrow(d: Date, e: Date)
    requires d.Valid() && e.Valid() && d.Before(e)
    ensures DayNumber(d) < DayNumber(e)
  {
    hide DaysBeforeYear, DaysBeforeMonth, DaysInMonth, IsLeap, EpochYear;
    MonthsGrow(d.year, d.month, e.month);
    MonthsGrow(d.year, d.month, 12);
    MonthsGrow(e.year, 1, e.month);
    if d.year < e.year {
      YearsGrow(d.year, e.year);
      YearLength(d.year);
      YearLength(e.year);
    }
  }

  lemma {:induction false} MonthsGrow(year: int, m: int, n: int)
    requires 1 <= m <= 12 && 1 <= n <= 12
    ensures m < n ==> DaysBeforeMonth(year, m) + DaysInMonth(year, m) <= DaysBeforeMonth(year, n)
    ensures m <= n ==> DaysBeforeMonth(year, m) <= DaysBeforeMonth(year, n)
    decreases n
  {
    hide IsLeap;
    if m < n { MonthsGrow(year, m, n - 1); }
  }

  lemma YearLength(year: int)
    ensures DaysBeforeMonth(year, 1) == 0 && DaysInMonth(year, 12) == 31
    ensures DaysBeforeMonth(year, 12) + DaysInMonth(year, 12) == 365 + LeapDay(year)
  {
    hide IsLeap;
  }

  lemma {:induction false} YearsGrow(y: int, z: int)
    requires y < z
    ensures DaysBeforeYear(y) + 365 + LeapDay(y) <= DaysBeforeYear(z)
    decreases z - y
  {
    hide IsLeap, DaysBeforeYear;
    NextYear(z - 1);
    if y < z - 1 { YearsGrow(y, z - 1); }
  }

  lemma NextYear(year: int)
    ensures DaysBeforeYear(year + 1) == DaysBeforeYear(year) + 365 + LeapDay(year)
  {
  }

  lemma SameNumber(d: Date, e: Date)
    requires d.Valid() && e.Valid() && DayNumber(d) == DayNumber(e)
    ensures d == e
  {
    hide DayNumber, DaysInMonth;
    if d.Before(e) { DatesGrow(d, e); }
    if e.Before(d) { DatesGrow(e, d); }
  }

  /** Every date of the calendar comes back from its number. */
  lemma NumberIsRight(date: Date)
    requires date.Valid()
    ensures CivilFromDays(DayNumber(date)) == date
  {
    hide CivilFromDays, DayNumber, DaysInMonth;
    CivilIsRight(DayNumber(date));
    SameNumber(CivilFromDays(DayNumber(date)), date);
  }

  lemma SuccessorIs(date: Date)
    requires date.Valid()
    ensures Successor(date).Valid() && DayNumber(Successor(date)) == DayNumber(date) + 1
  {
    hide IsLeap, DaysBeforeYear, DaysBeforeMonth, EpochYear;
    MonthStep(date.year, date.month);
    YearLength(date.year);
    YearLength(date.year + 1);
    NextYear(date.year);
  }

  lemma MonthStep(year: int, month: int)
    requires 1 <= month <= 12
    ensures month < 12 ==> DaysBeforeMonth(year, month + 1) == DaysBeforeMonth(year, month) + DaysInMonth(year, month)
  {
    hide IsLeap;
  }

  /** The day after is the day after in the calendar, and day 0 is the first of January 1970. */
  lemma NextDay(number: int)
    ensures CivilFromDays(number + 1) == Successor(CivilFromDays(number))
    ensures CivilFromDays(0) == Date(1970, 1, 1)
  {
    hide CivilFromDays, DayNumber, DaysInMonth, Successor;
    CivilIsRight(number);
    SuccessorIs(CivilFromDays(number));
    NumberIsRight(Successor(CivilFromDays(number)));
    Epoch();
    NumberIsRight(Date(1970, 1, 1));
  }

  lemma Epoch()
    ensures DayNumber(Date(1970, 1, 1)) == 0 && Date(1970, 1, 1).Valid()
  {
    hide DaysBeforeYear;
  }

  /** Dates come in the order of their days. */
  lemma DatesInOrder(a: int, b: int)
    requires a < b
    ensures CivilFromDays(a).Before(CivilFromDays(b))
  {
    hide CivilFromDays, DayNumber, DaysInMonth;
    CivilIsRight(a);
    CivilIsRight(b);
    var d, e := CivilFromDays(a), CivilFromDays(b);
    if e.Before(d) { DatesGrow(e, d); }
    assert d.Before(e) || e.Before(d) || d == e;
  }

  lemma FirstOfYear(year: int)
    ensures Date(year, 1, 1).Valid() && DayNumber(Date(year, 1, 1)) == March(year) - 59 - LeapDay(year) - 719_528
  {
    hide DaysBeforeYear, IsLeap, March;
    EpochIs();
    MarchIs(year);
  }

  /** A year is at least `year` exactly from the first day of that on. */
  lemma YearFrom(number: int, year: int)
    ensures CivilFromDays(number).year >= year <==> number >= DayNumber(Date(year, 1, 1))
  {
    hide CivilFromDays, DayNumber, DaysInMonth;
    CivilIsRight(number);
    ValidFirst(year);
    var date, first := CivilFromDays(number), Date(year, 1, 1);
    MonthsStart(date);
    if date.Before(first) { DatesGrow(date, first); }
    if first.Before(date) { DatesGrow(first, date); }
  }

  lemma ValidFirst(year: int)
    ensures Date(year, 1, 1).Valid()
  {
  }

  lemma MonthsStart(date: Date)
    requires date.Valid()
    ensures 1 <= date.month && 1 <= date.day
  {
  }

  /** The years that take four digits. */
  lemma FourDigits(number: int)
    ensures 0 <= CivilFromDays(number).year <= 9999 <==> -719_528 <= number < 2_932_897
  {
    hide CivilFromDays, DayNumber;
    YearFrom(number, 0);
    YearFrom(number, 10_000);
    FirstOfYear(0);
    FirstOfYear(10_000);
  }
}
