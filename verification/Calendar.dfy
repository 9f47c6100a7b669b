/**
 The proleptic Gregorian calendar of crates/core/src/kronroe_time.rs: day numbers since
 1970-01-01 to civil dates and back, by arithmetic on 400-year eras that start in March.

 The reference it is compared with is the calendar itself: `NextDay`, which steps from a
 date to the following one by the month lengths alone.
 */
module Calendar {

  datatype Date = Date(year: int, month: int, day: int)

  const I32_MIN := -0x8000_0000
  const I32_MAX := 0x7FFF_FFFF

  /** Rust's `/` on signed integers, for a positive divisor. */
  function TruncDiv(a: int, b: int): int
    requires b > 0
  {
    if a >= 0 then a / b else -((-a) / b)
  }

  // ---- The calendar ------------------------------------------------------

  predicate IsLeapYear(year: int)
  {
    (year % 4 == 0 && year % 100 != 0) || year % 400 == 0
  }

  function DaysInMonth(year: int, month: int): int
  {
    if month in {1, 3, 5, 7, 8, 10, 12} then 31
    else if month in {4, 6, 9, 11} then 30
    else if month == 2 then (if IsLeapYear(year) then 29 else 28)
    else 0
  }

  predicate ValidDate(d: Date)
  {
    1 <= d.month <= 12 && 1 <= d.day <= DaysInMonth(d.year, d.month)
  }

  function NextDay(d: Date): Date
  {
    if d.day < DaysInMonth(d.year, d.month) then Date(d.year, d.month, d.day + 1)
    else if d.month < 12 then Date(d.year, d.month + 1, 1)
    else Date(d.year + 1, 1, 1)
  }

  predicate Earlier(a: Date, b: Date)
  {
    a.year < b.year || (a.year == b.year && (a.month < b.month || (a.month == b.month && a.day < b.day)))
  }

  // ---- The conversions ---------------------------------------------------

  /** Days before the March-based year `yoe` of an era. */
  function YearStart(yoe: int): int
  {
    365 * yoe + TruncDiv(yoe, 4) - TruncDiv(yoe, 100)
  }

  /** Days before month `mp` of a year that starts in March. */
  function MonthStart(mp: int): int
  {
    TruncDiv(153 * mp + 2, 5)
  }

  function DaysFromCivil(d: Date): int
  {
    var year := d.year - (if d.month <= 2 then 1 else 0);
    var era := TruncDiv(if year >= 0 then year else year - 399, 400);
    era * 146097 + DayOfEra(year - era * 400, d.month, d.day) - 719468
  }

  function DayOfEra(yoe: int, month: int, day: int): int
  {
    YearStart(yoe) + MonthStart(month + (if month > 2 then -3 else 9)) + day - 1
  }

  function CivilFromDays(days: int): Date
  {
    var z := days + 719468;
    var era := TruncDiv(if z >= 0 then z else z - 146096, 146097);
    CivilOfEra(era, z - era * 146097)
  }

  function CivilOfEra(era: int, doe: int): Date
  {
    var yoe := YearOfEra(doe);
    CivilOfYear(yoe + era * 400, doe - YearStart(yoe))
  }

  function YearOfEra(doe: int): int
  {
    TruncDiv(doe - TruncDiv(doe, 1460) + TruncDiv(doe, 36524) - TruncDiv(doe, 146096), 365)
  }

  /** The date of day `doy` of a year that starts in March. */
  function CivilOfYear(y: int, doy: int): Date
  {
    var mp := TruncDiv(5 * doy + 2, 153);
    var day := doy - MonthStart(mp) + 1;
    var month := mp + (if mp < 10 then 3 else -9);
    Date(y + (if month <= 2 then 1 else 0), month, day)
  }

  // ---- Eras, years and months --------------------------------------------

  lemma EraFloor(z: int)
    ensures TruncDiv(if z >= 0 then z else z - 146096, 146097) == z / 146097
    ensures TruncDiv(if z >= 0 then z else z - 399, 400) == z / 400
  {
  }

  /** A year of an era by century, leap cycle and year in the cycle. */
  datatype YearParts = YearParts(century: int, cycle: int, rest: int)

  predicate ValidParts(p: YearParts)
  {
    0 <= p.century < 4 && 0 <= p.cycle < 25 && 0 <= p.rest < 4
  }

  function Year(p: YearParts): int
  {
    100 * p.century + 4 * p.cycle + p.rest
  }

  /** The year before a leap day: its 366th day is 29 February. */
  predicate EndsInLeapDay(p: YearParts)
  {
    p.rest == 3 && (p.cycle < 24 || p.century == 3)
  }

  function PartsOf(yoe: int): YearParts
  {
    YearParts(yoe / 100, yoe % 100 / 4, yoe % 4)
  }

  lemma PartsOfYear(yoe: int)
    requires 0 <= yoe < 400
    ensures ValidParts(PartsOf(yoe)) && Year(PartsOf(yoe)) == yoe
  {
  }

  /** Days of the era before a year, by its parts. */
  function StartOf(p: YearParts): int
  {
    36524 * p.century + 1461 * p.cycle + 365 * p.rest
  }

  lemma YearStartParts(p: YearParts)
    requires ValidParts(p)
    ensures YearStart(Year(p)) == StartOf(p)
    ensures EndsInLeapDay(p) <==> IsLeapYear(Year(p) + 1)
  {
    assert Year(p) / 4 == 25 * p.century + p.cycle;
    assert Year(p) / 100 == p.century;
    LeapParts(p);
  }

  lemma LeapParts(p: YearParts)
    requires ValidParts(p)
    ensures EndsInLeapDay(p) <==> IsLeapYear(Year(p) + 1)
  {
    var y := Year(p) + 1;
    if p.rest < 3 {
      assert y == 4 * (25 * p.century + p.cycle) + (p.rest + 1);
      assert y % 4 != 0;
    } else if p.cycle < 24 {
      assert y % 100 == 4 * p.cycle + 4;
    } else {
      assert y == 100 * (p.century + 1);
    }
  }

  /** The closed formula for the year of the era, on every day of the era. */
  lemma YearOfEraInverts(p: YearParts, doy: int)
    requires ValidParts(p)
    requires 0 <= doy < 365 || (doy == 365 && EndsInLeapDay(p))
    ensures YearOfEra(StartOf(p) + doy) == Year(p)
  {
    var c, k, j := p.century, p.cycle, p.rest;
    var doe := StartOf(p) + doy;
    var t := 24 * c + k + 365 * j + doy;
    assert 0 <= t < 2920 && (t >= 1460 ==> doy > 0) && (doy == 365 ==> t >= 1460);
    LeapCycles(c, k, t);
    Centuries(c, 1461 * k + 365 * j + doy);
    assert doe == 1460 * (25 * c + k) + t;
    hide StartOf;
    YearQuotient(Year(p), doy - t / 1460);
  }

  lemma LeapCycles(c: int, k: int, t: int)
    requires 0 <= c && 0 <= k && 0 <= t < 2920
    ensures (1460 * (25 * c + k) + t) / 1460 == 25 * c + k + t / 1460
  {
  }

  lemma Centuries(c: int, r: int)
    requires 0 <= c < 4 && (0 <= r < 36524 || (r == 36524 && c == 3))
    ensures (36524 * c + r) / 36524 - (36524 * c + r) / 146096 == c
  {
  }

  lemma YearQuotient(y: int, r: int)
    requires 0 <= y && 0 <= r < 365
    ensures (365 * y + r) / 365 == y
  {
  }

  /** Every day of the era lies in one year of the era. */
  lemma DayInEra(doe: int) returns (p: YearParts, doy: int)
    requires 0 <= doe < 146097
    ensures ValidParts(p) && doe == StartOf(p) + doy
    ensures 0 <= doy < 365 || (doy == 365 && EndsInLeapDay(p))
    ensures YearOfEra(doe) == Year(p)
  {
    var c := if doe == 146096 then 3 else doe / 36524;
    var r := doe - 36524 * c;
    var k := r / 1461;
    k := if k > 24 then 24 else k;
    var s := r - 1461 * k;
    var j := if s == 1460 then 3 else s / 365;
    p, doy := YearParts(c, k, j), s - 365 * j;
    YearStartParts(p);
    YearOfEraInverts(p, doy);
  }

  /** Month arithmetic of a year that starts in March. */
  lemma MonthOfYear(doy: int)
    requires 0 <= doy <= 365
    ensures var mp := (5 * doy + 2) / 153;
      0 <= mp < 12 && MonthStart(mp) <= doy < MonthStart(mp + 1)
  {
  }

  lemma MonthStartInverts(mp: int, doy: int)
    requires 0 <= mp < 12 && MonthStart(mp) <= doy < MonthStart(mp + 1)
    ensures (5 * doy + 2) / 153 == mp
  {
  }

  lemma MonthLengths(year: int, mp: int)
    requires 0 <= mp < 12
    ensures var month := mp + (if mp < 10 then 3 else -9);
      mp < 11 ==> MonthStart(mp + 1) - MonthStart(mp) == DaysInMonth(year, month)
    ensures MonthStart(11) == 337 && MonthStart(0) == 0
  {
  }

  // ---- Main results ------------------------------------------------------

  /** A date as era, year of era, month from March and day of year. */
  datatype Parts = Parts(era: int, year: YearParts, mp: int, doy: int)

  predicate Proper(q: Parts)
  {
    ValidParts(q.year)
    && (0 <= q.doy < 365 || (q.doy == 365 && EndsInLeapDay(q.year)))
    && 0 <= q.mp < 12 && MonthStart(q.mp) <= q.doy < MonthStart(q.mp + 1)
  }

  function DateOf(q: Parts): Date
  {
    Date(Year(q.year) + q.era * 400 + (if q.mp < 10 then 0 else 1),
         q.mp + (if q.mp < 10 then 3 else -9),
         q.doy - MonthStart(q.mp) + 1)
  }

  function DayOf(q: Parts): int
  {
    q.era * 146097 + StartOf(q.year) + q.doy - 719468
  }

  lemma DayOfEraRange(q: Parts)
    requires Proper(q)
    ensures 0 <= StartOf(q.year) + q.doy < 146097
  {
  }

  lemma CivilOfEraParts(q: Parts)
    requires Proper(q)
    ensures CivilOfEra(q.era, StartOf(q.year) + q.doy) == DateOf(q)
  {
    hide YearOfEra, YearStart, CivilOfYear, DateOf, StartOf, Year;
    YearStartParts(q.year);
    YearOfEraInverts(q.year, q.doy);
    CivilOfYearParts(q);
  }

  lemma CivilOfYearParts(q: Parts)
    requires Proper(q)
    ensures CivilOfYear(Year(q.year) + q.era * 400, q.doy) == DateOf(q)
  {
    MonthStartInverts(q.mp, q.doy);
  }

  lemma CivilOfParts(q: Parts)
    requires Proper(q)
    ensures CivilFromDays(DayOf(q)) == DateOf(q)
  {
    var doe := StartOf(q.year) + q.doy;
    hide CivilFromDays, CivilOfEra;
    assert DayOf(q) == q.era * 146097 + doe - 719468;
    assert 0 <= doe < 146097 by { DayOfEraRange(q); }
    assert CivilOfEra(q.era, doe) == DateOf(q) by { CivilOfEraParts(q); }
    assert CivilFromDays(DayOf(q)) == CivilOfEra(q.era, doe) by { CivilByEra(q.era, doe); }
  }

  lemma CivilByEra(era: int, doe: int)
    requires 0 <= doe < 146097
    ensures CivilFromDays(era * 146097 + doe - 719468) == CivilOfEra(era, doe)
  {
    hide CivilOfEra;
    var z := era * 146097 + doe;
    EraFloor(z);
    EraOf(era, z);
  }

  lemma EraOf(era: int, z: int)
    requires 0 <= z - era * 146097 < 146097
    ensures z / 146097 == era
  {
  }

  lemma DayOfParts(q: Parts)
    requires Proper(q)
    ensures DaysFromCivil(DateOf(q)) == DayOf(q)
  {
    hide DayOfEra, StartOf, Year, TruncDiv, MonthStart;
    assert 0 <= Year(q.year) < 400 by { YearRange(q.year); }
    YearEra(q.era, Year(q.year));
    DayOfEraParts(q);
  }

  lemma YearRange(p: YearParts)
    requires ValidParts(p)
    ensures 0 <= Year(p) < 400
  {
  }

  lemma YearEra(era: int, yoe: int)
    requires 0 <= yoe < 400
    ensures var y := yoe + era * 400; TruncDiv(if y >= 0 then y else y - 399, 400) == era
  {
    EraFloor(yoe + era * 400);
  }

  lemma DayOfEraParts(q: Parts)
    requires Proper(q)
    ensures DayOfEra(Year(q.year), DateOf(q).month, DateOf(q).day) == StartOf(q.year) + q.doy
  {
    hide YearStart, MonthStart, StartOf;
    YearStartParts(q.year);
  }

  lemma PartsOfDay(days: int) returns (q: Parts)
    ensures Proper(q) && DayOf(q) == days
  {
    var z := days + 719468;
    var p, doy := DayInEra(z % 146097);
    MonthOfYear(doy);
    q := Parts(z / 146097, p, (5 * doy + 2) / 153, doy);
  }

  lemma LeapPeriod(year: int, era: int)
    ensures IsLeapYear(year + era * 400) <==> IsLeapYear(year)
  {
    var y := year + era * 400;
    Mod4(y, year / 4 + 100 * era, year % 4);
    Mod100(y, year / 100 + 4 * era, year % 100);
    Mod400(y, year / 400 + era, year % 400);
  }

  lemma Mod4(y: int, q: int, r: int)
    requires y == 4 * q + r && 0 <= r < 4
    ensures y % 4 == r
  {
  }

  lemma Mod100(y: int, q: int, r: int)
    requires y == 100 * q + r && 0 <= r < 100
    ensures y % 100 == r
  {
  }

  lemma Mod400(y: int, q: int, r: int)
    requires y == 400 * q + r && 0 <= r < 400
    ensures y % 400 == r
  {
  }

  lemma PartsOfDate(d: Date) returns (q: Parts)
    requires ValidDate(d)
    ensures Proper(q) && DateOf(q) == d
  {
    hide PartsOf, Year, IsLeapYear, EndsInLeapDay, MonthStart, DaysInMonth;
    var y := d.year - (if d.month <= 2 then 1 else 0);
    var mp := if d.month > 2 then d.month - 3 else d.month + 9;
    PartsOfYear(y % 400);
    q := Parts(y / 400, PartsOf(y % 400), mp, MonthStart(mp) + d.day - 1);
    assert Year(q.year) + q.era * 400 == y;
    LeapPeriod(Year(q.year) + 1, q.era);
    LeapParts(q.year);
    DayInMonth(d.year, mp, d.day, EndsInLeapDay(q.year));
  }

  lemma DayInMonth(year: int, mp: int, day: int, leap: bool)
    requires 0 <= mp < 12 && 1 <= day <= DaysInMonth(year, mp + (if mp < 10 then 3 else -9))
    requires mp == 11 ==> (leap <==> IsLeapYear(year))
    ensures var doy := MonthStart(mp) + day - 1;
      MonthStart(mp) <= doy < MonthStart(mp + 1) && (0 <= doy < 365 || (doy == 365 && leap))
  {
    MonthLengths(year, mp);
    MonthStarts(mp);
  }

  lemma MonthStarts(mp: int)
    requires 0 <= mp < 12
    ensures MonthStart(mp) >= 0 && MonthStart(12) == 367 && MonthStart(11) == 337 && (mp < 11 ==> MonthStart(mp + 1) <= 337 && MonthStart(mp + 1) < MonthStart(mp + 2))
  {
  }

  lemma PartsAreValid(q: Parts)
    requires Proper(q)
    ensures ValidDate(DateOf(q))
  {
    MonthLengths(DateOf(q).year, q.mp);
    LeapPeriod(Year(q.year) + 1, q.era);
    LeapParts(q.year);
  }

  /** Day numbers and valid dates correspond one to one, by the two conversions. */
  lemma CalendarBijection(days: int, d: Date)
    ensures ValidDate(CivilFromDays(days)) && DaysFromCivil(CivilFromDays(days)) == days
    ensures ValidDate(d) ==> CivilFromDays(DaysFromCivil(d)) == d
  {
    var q := PartsOfDay(days);
    CivilOfParts(q);
    DayOfParts(q);
    PartsAreValid(q);
    if ValidDate(d) {
      var r := PartsOfDate(d);
      DayOfParts(r);
      CivilOfParts(r);
    }
  }

  /** The last day, counted from zero, of a year that starts in March. */
  function LastDay(p: YearParts): int
  {
    if EndsInLeapDay(p) then 365 else 364
  }

  lemma NextInYear(q: Parts) returns (r: Parts)
    requires Proper(q) && q.doy != LastDay(q.year)
    ensures Proper(r) && DayOf(r) == DayOf(q) + 1
    ensures DateOf(r) == NextDay(DateOf(q))
  {
    hide IsLeapYear, EndsInLeapDay, MonthStart, DaysInMonth, StartOf, Year;
    MonthStarts(q.mp);
    MonthLengths(DateOf(q).year, q.mp);
    if q.mp == 11 { FebruaryLength(q); }
    r := q.(mp := if q.doy + 1 == MonthStart(q.mp + 1) then q.mp + 1 else q.mp, doy := q.doy + 1);
  }

  lemma FebruaryLength(q: Parts)
    requires Proper(q) && q.mp == 11
    ensures MonthStart(11) + DaysInMonth(DateOf(q).year, 2) - 1 == LastDay(q.year)
  {
    LeapPeriod(Year(q.year) + 1, q.era);
    LeapParts(q.year);
    assert DateOf(q).year == Year(q.year) + 1 + q.era * 400;
    hide IsLeapYear, DateOf, Year, ValidParts, EndsInLeapDay;
  }

  lemma EndOfFebruary(q: Parts)
    requires Proper(q) && q.doy == LastDay(q.year)
    ensures NextDay(DateOf(q)) == Date(Year(q.year) + 1 + q.era * 400, 3, 1)
  {
    MonthStarts(q.mp);
    assert q.mp == 11;
    hide LastDay, IsLeapYear, MonthStart, Year;
    FebruaryLength(q);
  }

  lemma NextYear(q: Parts) returns (r: Parts)
    requires Proper(q) && q.doy == LastDay(q.year)
    ensures Proper(r) && DayOf(r) == DayOf(q) + 1
    ensures DateOf(r) == NextDay(DateOf(q))
  {
    hide NextDay, DateOf, MonthStart, LastDay, StartOf, Year, After, LastOfEra;
    StartAfter(q.year);
    YearAfter(q.year);
    r := Parts(if LastOfEra(q.year) then q.era + 1 else q.era, After(q.year), 0, 0);
    MarchFirst(r);
    EndOfFebruary(q);
  }

  predicate LastOfEra(p: YearParts)
  {
    p == YearParts(3, 24, 3)
  }

  function After(p: YearParts): YearParts
  {
    if p.rest < 3 then p.(rest := p.rest + 1)
    else if p.cycle < 24 then YearParts(p.century, p.cycle + 1, 0)
    else if p.century < 3 then YearParts(p.century + 1, 0, 0)
    else YearParts(0, 0, 0)
  }

  lemma StartAfter(p: YearParts)
    requires ValidParts(p)
    ensures ValidParts(After(p))
    ensures (if LastOfEra(p) then 146097 else 0) + StartOf(After(p)) == StartOf(p) + LastDay(p) + 1
  {
  }

  lemma YearAfter(p: YearParts)
    requires ValidParts(p)
    ensures (if LastOfEra(p) then 400 else 0) + Year(After(p)) == Year(p) + 1
  {
  }

  lemma MarchFirst(q: Parts)
    requires q.mp == 0 && q.doy == 0
    ensures DateOf(q) == Date(Year(q.year) + q.era * 400, 3, 1)
    ensures MonthStart(0) == 0 && MonthStart(1) == 31
  {
  }

  lemma Epoch()
    ensures CivilFromDays(0) == Date(1970, 1, 1)
  {
  }

  /**
   The conversion walks the calendar: the epoch is 1 January 1970, and each day number's date is
   followed by the next date of the calendar.  This determines it everywhere.
   */
  lemma CivilWalksCalendar(days: int)
    ensures CivilFromDays(0) == Date(1970, 1, 1)
    ensures CivilFromDays(days + 1) == NextDay(CivilFromDays(days))
  {
    Epoch();
    hide CivilFromDays, NextDay, DateOf, DayOf;
    var q := PartsOfDay(days);
    CivilOfParts(q);
    var r;
    if q.doy == LastDay(q.year) { r := NextYear(q); } else { r := NextInYear(q); }
    CivilOfParts(r);
  }

  lemma NextIsLater(d: Date)
    requires ValidDate(d)
    ensures Earlier(d, NextDay(d))
  {
  }

  lemma {:induction false} LaterDays(days: int, k: nat)
    ensures k > 0 ==> Earlier(CivilFromDays(days), CivilFromDays(days + k))
  {
    hide CivilFromDays;
    if k > 0 {
      LaterDays(days, k - 1);
      CivilWalksCalendar(days + k - 1);
      CalendarBijection(days + k - 1, Date(1970, 1, 1));
      NextIsLater(CivilFromDays(days + k - 1));
    }
  }

  /** Day numbers order valid dates by year, month and day. */
  lemma DaysMonotone(a: Date, b: Date)
    requires ValidDate(a) && ValidDate(b)
    ensures Earlier(a, b) <==> DaysFromCivil(a) < DaysFromCivil(b)
  {
    hide CivilFromDays, DaysFromCivil;
    var m, n := DaysFromCivil(a), DaysFromCivil(b);
    CalendarBijection(0, a);
    CalendarBijection(0, b);
    if m < n { LaterDays(m, n - m); }
    if n < m { LaterDays(n, m - n); }
  }

  // ---- Machine width -----------------------------------------------------

  /** Two's complement reduction to 32 bits, the effect of wrapping i32 arithmetic. */
  function Wrap32(x: int): int
  {
    (x + 0x8000_0000) % 0x1_0000_0000 - 0x8000_0000
  }

  /** `days_from_civil` as the program computes it, in wrapping 32-bit arithmetic. */
  function DaysFromCivil32(d: Date): int
  {
    var year := Wrap32(d.year - (if d.month <= 2 then 1 else 0));
    var era := TruncDiv(if year >= 0 then year else Wrap32(year - 399), 400);
    Wrap32(Wrap32(era * 146097) + DayOfEra(Wrap32(year - Wrap32(era * 400)), d.month, d.day) - 719468)
  }

  lemma Wrap32Exact(x: int)
    ensures Wrap32(x) == x <==> I32_MIN <= x <= I32_MAX
  {
  }

  lemma WrapTwice(x: int, y: int)
    ensures Wrap32(Wrap32(x) + y) == Wrap32(x + y)
  {
    var k := (x + 0x8000_0000) / 0x1_0000_0000;
    assert Wrap32(x) == x - k * 0x1_0000_0000;
    ModWord(x + y + 0x8000_0000, k);
  }

  lemma ModWord(x: int, k: int)
    ensures (x - k * 0x1_0000_0000) % 0x1_0000_0000 == x % 0x1_0000_0000
  {
    assert x == 0x1_0000_0000 * (x / 0x1_0000_0000) + x % 0x1_0000_0000;
    ModWordUnique(x - k * 0x1_0000_0000, x / 0x1_0000_0000 - k, x % 0x1_0000_0000);
  }

  lemma ModWordUnique(y: int, q: int, r: int)
    requires y == 0x1_0000_0000 * q + r && 0 <= r < 0x1_0000_0000
    ensures y % 0x1_0000_0000 == r
  {
  }

  lemma Fits32(x: int)
    ensures I32_MIN <= Wrap32(x) <= I32_MAX
  {
  }

  /** Years near the least 32-bit one have day numbers far beyond 32 bits. */
  lemma EarlyDays(d: Date)
    requires ValidDate(d) && d.year < I32_MIN + 400
    ensures DaysFromCivil(d) < I32_MIN
  {
    hide CivilFromDays;
    var q := PartsOfDay(DaysFromCivil(d));
    CalendarBijection(0, d);
    CivilOfParts(q);
  }

  /**
   The 32-bit computation is the calendar's day number reduced to 32 bits, but for the first 400
   years that 32 bits can name; on every valid date it is exact just when the day number fits.
   */
  lemma DaysFromCivil32Exact(d: Date)
    requires I32_MIN <= d.year <= I32_MAX
    ensures d.year >= I32_MIN + 400 ==> DaysFromCivil32(d) == Wrap32(DaysFromCivil(d))
    ensures d.year >= I32_MIN + 400 || ValidDate(d) ==>
      (DaysFromCivil32(d) == DaysFromCivil(d) <==> I32_MIN <= DaysFromCivil(d) <= I32_MAX)
  {
    hide DayOfEra;
    Wrap32Exact(DaysFromCivil(d));
    if d.year >= I32_MIN + 400 {
      var year := d.year - (if d.month <= 2 then 1 else 0);
      Wrap32Exact(year);
      if year < 0 { Wrap32Exact(year - 399); }
      var era := TruncDiv(if year >= 0 then year else year - 399, 400);
      Wrap32Exact(era * 400);
      Wrap32Exact(year - era * 400);
      WrapTwice(era * 146097, DayOfEra(year - era * 400, d.month, d.day) - 719468);
    } else if ValidDate(d) {
      EarlyDays(d);
      hide DaysFromCivil, Wrap32;
      SomeWrap(d);
    }
  }

  lemma SomeWrap(d: Date)
    ensures I32_MIN <= DaysFromCivil32(d) <= I32_MAX
  {
    hide Wrap32, DayOfEra;
    var year := Wrap32(d.year - (if d.month <= 2 then 1 else 0));
    var era := TruncDiv(if year >= 0 then year else Wrap32(year - 399), 400);
    Fits32(Wrap32(era * 146097) + DayOfEra(Wrap32(year - Wrap32(era * 400)), d.month, d.day) - 719468);
  }

  /** Day numbers of every i64 microsecond instant. */
  const MIN_DAY := -106751992
  const MAX_DAY := 106751991

  lemma BoundYears()
    ensures CivilFromDays(MIN_DAY).year == -290308 && CivilFromDays(MAX_DAY).year == 294247
  {
  }

  lemma YearOrder(m: int, n: int)
    requires m <= n
    ensures CivilFromDays(m).year <= CivilFromDays(n).year
  {
    hide CivilFromDays;
    LaterDays(m, n - m);
  }

  /** On every day an instant can fall on, years and all 32-bit intermediates fit. */
  lemma InstantDaysFit(days: int)
    requires MIN_DAY <= days <= MAX_DAY
    ensures var d := CivilFromDays(days);
      -290308 <= d.year <= 294247 && DaysFromCivil32(d) == days
  {
    hide CivilFromDays, DaysFromCivil, DaysFromCivil32;
    BoundYears();
    YearOrder(MIN_DAY, days);
    YearOrder(days, MAX_DAY);
    CalendarBijection(days, Date(1970, 1, 1));
    DaysFromCivil32Exact(CivilFromDays(days));
  }
}
