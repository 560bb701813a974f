/** Civil dates and day numbers: the proleptic Gregorian calendar in both directions. */
module Calendar {
  import opened Arithmetic

  datatype Date = Date(year: int, month: int, day: int)

  //// The calendar itself

  predicate IsLeap(year: int) {
    year % 4 == 0 && (year % 100 != 0 || year % 400 == 0)
  }

  function DaysInMonth(year: int, month: int): int
    requires 1 <= month <= 12
  {
    if month == 2 then (if IsLeap(year) then 29 else 28)
    else if month == 4 || month == 6 || month == 9 || month == 11 then 30
    else 31
  }

  predicate IsDate(d: Date) {
    1 <= d.month <= 12 && 1 <= d.day <= DaysInMonth(d.year, d.month)
  }

  function NextDay(d: Date): Date
    requires IsDate(d)
  {
    if d.day < DaysInMonth(d.year, d.month) then d.(day := d.day + 1)
    else if d.month < 12 then Date(d.year, d.month + 1, 1)
    else Date(d.year + 1, 1, 1)
  }

  const EPOCH: Date := Date(1970, 1, 1)

  //// The source's arithmetic

  /** The day number of a date, as to_time_t computes it. */
  function DaysFromCivil(d: Date): int
  {
    var adjusted := d.year - (if d.month <= 2 then 1 else 0);
    var era := TruncDiv(if 0 <= adjusted then adjusted else adjusted - 399, 400);
    var yearOfEra := adjusted - era * 400;
    var shifted := if d.month > 2 then d.month - 3 else d.month + 9;
    var dayOfYear := (153 * shifted + 2) / 5 + d.day - 1;
    era * 146097 + DayOfEra(yearOfEra, dayOfYear) - 719468
  }

  /** The year of an era from the day of the era, and the first day of a year of an era. */
  function YearOfEra(doe: int): int {
    (doe - doe / 1460 + doe / 36524 - doe / 146096) / 365
  }

  function DayOfEra(yoe: int, doy: int): int {
    365 * yoe + yoe / 4 - yoe / 100 + doy
  }

  /** The date of a day of a year that begins in March. */
  function DateOfYearDay(year: int, doy: int): Date {
    var mp := (5 * doy + 2) / 153;
    var day := doy - (153 * mp + 2) / 5 + 1;
    var month := if mp < 10 then mp + 3 else mp - 9;
    Date(year + (if month <= 2 then 1 else 0), month, day)
  }

  /** The date of a day number, as civil_from_days computes it. */
  function CivilFromDays(days: int): Date {
    var z := days + 719468;
    var era := TruncDiv(if 0 <= z then z else z - 146096, 146097);
    var doe := z - era * 146097;
    var yoe := YearOfEra(doe);
    DateOfYearDay(yoe + era * 400, doe - DayOfEra(yoe, 0))
  }

  //// Years that begin in March

  /** A year of an era and a day of it, counted from the first of March. Day 365 is the
      leap day, which ends the year before a leap year. */
  predicate IsYearDay(yoe: int, doy: int) {
    0 <= yoe < 400 && 0 <= doy <= 365 && (doy == 365 ==> IsLeap(yoe + 1))
  }

  lemma EraOfYear(a: int)
    ensures TruncDiv(if 0 <= a then a else a - 399, 400) == a / 400
  {
  }

  lemma EraOfDay(a: int)
    ensures TruncDiv(if 0 <= a then a else a - 146096, 146097) == a / 146097
  {
  }

  /** Centuries, four-year cycles and years of a day of an era. */
  lemma SplitYear(yoe: int, c: int, q: int, r: int)
    requires 0 <= yoe < 400 && c == yoe / 100 && q == yoe % 100 / 4 && r == yoe % 4
    ensures yoe == 100 * c + 4 * q + r && 0 <= c <= 3 && 0 <= q <= 24 && 0 <= r <= 3
    ensures yoe / 4 == 25 * c + q
  {
  }

  lemma LeapYearOfEra(yoe: int, c: int, q: int, r: int)
    requires yoe == 100 * c + 4 * q + r && 0 <= c <= 3 && 0 <= q <= 24 && 0 <= r <= 3
    ensures IsLeap(yoe + 1) <==> r == 3 && (q != 24 || c == 3)
  {
    assert (yoe + 1) % 4 == (r + 1) % 4;
    assert (yoe + 1) % 100 == (4 * q + r + 1) % 100;
  }

  lemma YearRecovered(yoe: int, doy: int)
    requires IsYearDay(yoe, doy)
    ensures 0 <= DayOfEra(yoe, doy) <= 146096 && YearOfEra(DayOfEra(yoe, doy)) == yoe
  {
    hide IsLeap;
    var c, q, r := yoe / 100, yoe % 100 / 4, yoe % 4;
    SplitYear(yoe, c, q, r);
    LeapYearOfEra(yoe, c, q, r);
    var doe, extra := DayOfEra(yoe, doy), 24 * c + q + 365 * r + doy;
    assert doe == 36524 * c + 1461 * q + 365 * r + doy;
    Centuries(doe, c, 1461 * q + 365 * r + doy);
    FourYears(doe, 25 * c + q, extra);
    assert 0 <= doy - extra / 1460 < 365;
    assert doe - doe / 1460 + c == 365 * yoe + (doy - extra / 1460);
  }

  lemma Centuries(doe: int, c: int, n: int)
    requires doe == 36524 * c + n && 0 <= c <= 3 && 0 <= n <= 36524 && (n == 36524 ==> c == 3)
    ensures 0 <= doe <= 146096 && doe / 36524 - doe / 146096 == c
  {
  }

  lemma FourYears(doe: int, k: int, extra: int)
    requires doe == 1460 * k + extra && 0 <= extra
    ensures doe / 1460 == k + extra / 1460
  {
  }

  /** Every day of an era is a day of one of its years. */
  lemma DayOfEraSplits(doe: int) returns (yoe: int, doy: int)
    requires 0 <= doe <= 146096
    ensures IsYearDay(yoe, doy) && DayOfEra(yoe, doy) == doe
  {
    var c := if doe == 146096 then 3 else doe / 36524;
    var n := doe - 36524 * c;
    var q := if n == 36524 then 24 else n / 1461;
    var p := n - 1461 * q;
    var r := if p == 1460 then 3 else p / 365;
    doy := p - 365 * r;
    yoe := 100 * c + 4 * q + r;
    assert yoe / 4 == 25 * c + q && yoe / 100 == c;
    LeapYearOfEra(yoe, c, q, r);
  }

  //// Months

  function ShiftedMonth(month: int): int
    requires 1 <= month <= 12
  {
    if month > 2 then month - 3 else month + 9
  }

  lemma MonthRecovered(year: int, month: int, day: int)
    requires IsDate(Date(year, month, day))
    ensures var doy := (153 * ShiftedMonth(month) + 2) / 5 + day - 1;
            && 0 <= doy <= 365 && (doy == 365 <==> month == 2 && day == 29)
            && (5 * doy + 2) / 153 == ShiftedMonth(month)
  {
    var m := ShiftedMonth(month);
    assert m == 0 || m == 1 || m == 2 || m == 3 || m == 4 || m == 5 || m == 6 || m == 7 || m == 8 || m == 9 || m == 10 || m == 11;
  }

  /** Every day of a year is a day of one of its months. */
  lemma YearDayIsDate(year: int, doy: int)
    requires 0 <= doy <= 365 && (doy == 365 ==> IsLeap(year + 1))
    ensures var d := DateOfYearDay(year, doy);
            && IsDate(d) && ShiftedMonth(d.month) == (5 * doy + 2) / 153
  {
    var m := (5 * doy + 2) / 153;
    assert m == 0 || m == 1 || m == 2 || m == 3 || m == 4 || m == 5 || m == 6 || m == 7 || m == 8 || m == 9 || m == 10 || m == 11;
  }

  //// The two directions are inverse

  lemma SameMod4(x: int, k: int)
    ensures (x + 4 * k) % 4 == x % 4
  {
  }

  lemma SameMod100(x: int, k: int)
    ensures (x + 100 * k) % 100 == x % 100
  {
  }

  lemma SameMod400(x: int, k: int)
    ensures (x + 400 * k) % 400 == x % 400
  {
  }

  lemma LeapYearsRepeat(year: int, era: int)
    ensures IsLeap(year + era * 400) <==> IsLeap(year)
  {
    SameMod4(year, 100 * era);
    SameMod100(year, 4 * era);
    SameMod400(year, era);
  }

  /** A date is an era, a year of it and a day of that year. */
  lemma DateSplits(d: Date) returns (era: int, yoe: int, doy: int)
    requires IsDate(d)
    ensures IsYearDay(yoe, doy)
    ensures d.year - (if d.month <= 2 then 1 else 0) == era * 400 + yoe
    ensures doy == (153 * ShiftedMonth(d.month) + 2) / 5 + d.day - 1
    ensures DaysFromCivil(d) == era * 146097 + DayOfEra(yoe, doy) - 719468
  {
    var adjusted := d.year - (if d.month <= 2 then 1 else 0);
    era, yoe := adjusted / 400, adjusted % 400;
    EraOfYear(adjusted);
    MonthRecovered(d.year, d.month, d.day);
    doy := (153 * ShiftedMonth(d.month) + 2) / 5 + d.day - 1;
    LeapYearsRepeat(yoe + 1, era);
  }

  lemma EraSplits(era: int, doe: int)
    requires 0 <= doe <= 146096
    ensures (era * 146097 + doe) / 146097 == era
  {
  }

  /** civil_from_days on a day of a year of an era. */
  lemma DateFromParts(era: int, yoe: int, doy: int)
    requires IsYearDay(yoe, doy)
    ensures CivilFromDays(era * 146097 + DayOfEra(yoe, doy) - 719468) == DateOfYearDay(yoe + era * 400, doy)
  {
    hide YearOfEra, DateOfYearDay, TruncDiv, DayOfEra, IsYearDay, IsLeap;
    YearRecovered(yoe, doy);
    var doe := DayOfEra(yoe, doy);
    EraSplits(era, doe);
    EraOfDay(era * 146097 + doe);
    DaysIntoYear(yoe, doy);
  }

  lemma DaysIntoYear(yoe: int, doy: int)
    ensures DayOfEra(yoe, doy) == DayOfEra(yoe, 0) + doy
  {
  }

  /** A date is the day it is of its year. */
  lemma DateIsYearDay(d: Date)
    requires IsDate(d)
    ensures DateOfYearDay(d.year - (if d.month <= 2 then 1 else 0), (153 * ShiftedMonth(d.month) + 2) / 5 + d.day - 1) == d
  {
    MonthRecovered(d.year, d.month, d.day);
  }

  lemma DateAndBack(d: Date)
    requires IsDate(d)
    ensures CivilFromDays(DaysFromCivil(d)) == d
  {
    hide *;
    var era, yoe, doy := DateSplits(d);
    DateFromParts(era, yoe, doy);
    DateIsYearDay(d);
  }

  /** An era and a year of it are determined by the year they make. */
  lemma SameYear(era: int, yoe: int, era': int, yoe': int)
    requires 0 <= yoe < 400 && 0 <= yoe' < 400 && era * 400 + yoe == era' * 400 + yoe'
    ensures era == era' && yoe == yoe'
  {
  }

  lemma DaysAndBack(days: int)
    ensures IsDate(CivilFromDays(days)) && DaysFromCivil(CivilFromDays(days)) == days
  {
    hide YearOfEra, CivilFromDays, DaysFromCivil, DayOfEra;
    var z := days + 719468;
    var era, doe := z / 146097, z % 146097;
    var yoe, doy := DayOfEraSplits(doe);
    DateFromParts(era, yoe, doy);
    LeapYearsRepeat(yoe + 1, era);
    YearDayIsDate(yoe + era * 400, doy);
    var era', yoe', doy' := DateSplits(CivilFromDays(days));
    SameYear(era, yoe, era', yoe');
  }

  /** Day 0 is 1 January 1970, every day number is a date of the Gregorian calendar, and dates
      and day numbers determine each other. */
  lemma CalendarBijection(days: int, d: Date)
    ensures CivilFromDays(0) == Date(1970, 1, 1)
    ensures IsDate(CivilFromDays(days))
    ensures IsDate(d) ==> (CivilFromDays(days) == d <==> DaysFromCivil(d) == days)
  {
    hide *;
    DaysAndBack(days);
    if IsDate(d) { DateAndBack(d); }
    EpochIsDayZero();
    DateAndBack(EPOCH);
  }

  lemma EpochIsDayZero()
    ensures IsDate(EPOCH) && DaysFromCivil(EPOCH) == 0 && EPOCH == Date(1970, 1, 1)
  {
  }

  lemma NextDayNumber(d: Date)
    requires IsDate(d)
    ensures IsDate(NextDay(d)) && DaysFromCivil(NextDay(d)) == DaysFromCivil(d) + 1
  {
    if d.month == 2 && d.day == DaysInMonth(d.year, 2) { FirstOfMarchNumber(d); } else { SameYearNumber(d); }
  }

  lemma FirstOfMarchNumber(d: Date)
    requires IsDate(d) && d.month == 2 && d.day == DaysInMonth(d.year, 2)
    ensures IsDate(NextDay(d)) && DaysFromCivil(NextDay(d)) == DaysFromCivil(d) + 1
  {
    FirstOfMarch(d);
    hide DaysFromCivil, NextDay, IsLeap, ShiftedMonth, DayOfEra, DaysInMonth, IsDate;
    var era, yoe, doy := DateSplits(d);
    var era', yoe', doy' := DateSplits(NextDay(d));
    assert d.year == yoe + 1 + era * 400 && doy' == 0;
    LeapYearsRepeat(yoe + 1, era);
    assert doy == (if IsLeap(yoe + 1) then 365 else 364);
    YearEnds(era, yoe, doy, era', yoe');
  }

  lemma YearEnds(era: int, yoe: int, doy: int, era': int, yoe': int)
    requires 0 <= yoe < 400 && 0 <= yoe' < 400 && era' * 400 + yoe' == era * 400 + yoe + 1
    requires doy == (if IsLeap(yoe + 1) then 365 else 364)
    ensures era' * 146097 + DayOfEra(yoe', 0) == era * 146097 + DayOfEra(yoe, doy) + 1
  {
    hide DayOfEra, IsLeap;
    LastDayOfYear(yoe, doy);
    if yoe < 399 { SameYear(era, yoe + 1, era', yoe'); } else { SameYear(era + 1, 0, era', yoe'); DayZero(); }
  }

  lemma DayZero()
    ensures DayOfEra(0, 0) == 0
  {
  }

  lemma SameYearNumber(d: Date)
    requires IsDate(d) && !(d.month == 2 && d.day == DaysInMonth(d.year, 2))
    ensures IsDate(NextDay(d)) && DaysFromCivil(NextDay(d)) == DaysFromCivil(d) + 1
  {
    NextYearDay(d);
    hide DaysFromCivil, NextDay, IsLeap, ShiftedMonth, DayOfEra, DaysInMonth;
    var era, yoe, doy := DateSplits(d);
    var era', yoe', doy' := DateSplits(NextDay(d));
    SameYear(era, yoe, era', yoe');
    NextDayOfEra(yoe, doy);
  }

  lemma NextDayOfEra(yoe: int, doy: int)
    ensures DayOfEra(yoe, doy + 1) == DayOfEra(yoe, doy) + 1
  {
  }

  lemma FirstOfMarch(d: Date)
    requires IsDate(d) && d.month == 2 && d.day == DaysInMonth(d.year, 2)
    ensures NextDay(d) == Date(d.year, 3, 1) && IsDate(NextDay(d)) && ShiftedMonth(3) == 0
    ensures (153 * ShiftedMonth(2) + 2) / 5 + d.day - 1 == (if IsLeap(d.year) then 365 else 364)
  {
  }

  /** The day after the last day of February begins the next year of the era. */
  lemma LastDayOfYear(yoe: int, doy: int)
    requires 0 <= yoe < 400 && doy == (if IsLeap(yoe + 1) then 365 else 364)
    ensures if yoe == 399 then DayOfEra(yoe, doy) + 1 == 146097
            else DayOfEra(yoe + 1, 0) == DayOfEra(yoe, doy) + 1
  {
    var c, q, r := yoe / 100, yoe % 100 / 4, yoe % 4;
    SplitYear(yoe, c, q, r);
    LeapYearOfEra(yoe, c, q, r);
  }

  lemma NextYearDay(d: Date)
    requires IsDate(d) && !(d.month == 2 && d.day == DaysInMonth(d.year, 2))
    ensures var next := NextDay(d);
            && IsDate(next)
            && next.year - (if next.month <= 2 then 1 else 0) == d.year - (if d.month <= 2 then 1 else 0)
            && (153 * ShiftedMonth(next.month) + 2) / 5 + next.day - 1 == (153 * ShiftedMonth(d.month) + 2) / 5 + d.day - 1 + 1
  {
    var m := d.month;
    assert m == 1 || m == 2 || m == 3 || m == 4 || m == 5 || m == 6 || m == 7 || m == 8 || m == 9 || m == 10 || m == 11 || m == 12;
  }

  /** The date after day z is the calendar's next date. */
  lemma Successor(days: int)
    ensures IsDate(CivilFromDays(days)) && CivilFromDays(days + 1) == NextDay(CivilFromDays(days))
  {
    hide CivilFromDays, DaysFromCivil, NextDay, IsDate;
    var d := CivilFromDays(days);
    DaysAndBack(days);
    NextDayNumber(d);
    DateAndBack(NextDay(d));
  }
}
